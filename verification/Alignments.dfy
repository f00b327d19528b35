/** Rounding up to alignments that are small powers of two. */
module Alignments {

  type Alignment = a: nat | a == 1 || a == 2 || a == 4 || a == 8 witness 1

  /** ACE_align_binary: the next multiple of the alignment. */
  function AlignBinary(n: nat, a: Alignment): nat {
    if a == 1 then n else if a == 2 then (n + 1) / 2 * 2 else if a == 4 then (n + 3) / 4 * 4 else (n + 7) / 8 * 8
  }

  lemma Remainder2(n: nat, q: nat, r: nat)
    requires n == 2 * q + r && r < 2
    ensures n % 2 == r
  {
  }

  lemma Remainder4(n: nat, q: nat, r: nat)
    requires n == 4 * q + r && r < 4
    ensures n % 4 == r && n / 4 == q
  {
  }

  lemma Remainder8(n: nat, q: nat, r: nat)
    requires n == 8 * q + r && r < 8
    ensures n % 8 == r && n / 8 == q
  {
  }

  lemma NextOf4(n: nat)
    ensures var a, r := AlignBinary(n, 4), n % 4; a % 4 == 0 && a == if r == 0 then n else n + (4 - r)
  {
    var q, r := n / 4, n % 4;
    if r == 0 { Remainder4(n + 3, q, 3); } else { Remainder4(n + 3, q + 1, r - 1); }
  }

  lemma NextOf8(n: nat)
    ensures var a, r := AlignBinary(n, 8), n % 8; a % 8 == 0 && a == if r == 0 then n else n + (8 - r)
  {
    var q, r := n / 8, n % 8;
    if r == 0 { Remainder8(n + 7, q, 7); } else { Remainder8(n + 7, q + 1, r - 1); }
  }
}
