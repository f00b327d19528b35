/**
 * Keeping a char and a wchar_t copy of one argument list in step while callers reorder and shorten either.
 *
 * A pointer to a string is an identity with a text; texts of both kinds are compared after conversion, so they
 * are plain strings here.
 */
module ArgvTypeConverter {

  datatype Ptr = Null | Str(id: nat, text: string)

  function Text(p: Ptr): string {
    if p.Null? then "" else p.text
  }

  function Texts(s: seq<Ptr>): (t: seq<string>)
    ensures |t| == |s|
  {
    seq(|s|, i requires 0 <= i < |s| => Text(s[i]))
  }

  function Ids(s: seq<Ptr>): multiset<nat> {
    if s == [] then multiset{} else Ids(s[..|s| - 1]) + if s[|s| - 1].Null? then multiset{} else multiset{s[|s| - 1].id}
  }

  // ---------------------------------------------------------------------------------------
  // Permutations
  // ---------------------------------------------------------------------------------------

  function Swap<T>(s: seq<T>, i: nat, j: nat): (r: seq<T>)
    requires i < |s| && j < |s|
    ensures |r| == |s|
  {
    s[i := s[j]][j := s[i]]
  }

  lemma SwapPermutes<T>(s: seq<T>, i: nat, j: nat)
    requires i < |s| && j < |s|
    ensures multiset(Swap(s, i, j)) == multiset(s)
  {
    if i == j { assert Swap(s, i, j) == s; }
  }

  lemma SwapTexts(s: seq<Ptr>, i: nat, j: nat)
    requires i < |s| && j < |s|
    ensures Texts(Swap(s, i, j)) == Swap(Texts(s), i, j)
  {
  }

  lemma TextsConcat(a: seq<Ptr>, b: seq<Ptr>)
    ensures Texts(a + b) == Texts(a) + Texts(b)
  {
  }

  lemma {:induction false} IdsConcat(a: seq<Ptr>, b: seq<Ptr>)
    ensures Ids(a + b) == Ids(a) + Ids(b)
  {
    if b == [] {
      assert a + b == a;
    } else {
      assert (a + b)[..|a + b| - 1] == a + b[..|b| - 1];
      IdsConcat(a, b[..|b| - 1]);
    }
  }

  /** The multiset of a list without entry j. */
  lemma Without<T>(s: seq<T>, j: nat, w: seq<T>)
    requires j < |s| && w == s[..j] + s[j + 1..]
    ensures multiset(s) == multiset{s[j]} + multiset(w)
  {
    assert s == s[..j] + [s[j]] + s[j + 1..];
  }

  lemma Cancel<T>(x: T, a: multiset<T>, b: multiset<T>)
    requires multiset{x} + a <= multiset{x} + b
    ensures a <= b
  {
    forall y: T | y in a
      ensures a[y] <= b[y]
    {
      assert (multiset{x} + a)[y] <= (multiset{x} + b)[y];
    }
  }

  lemma CancelEqual<T>(x: T, a: multiset<T>, b: multiset<T>)
    requires multiset{x} + a == multiset{x} + b
    ensures a == b
  {
    Cancel(x, a, b);
    Cancel(x, b, a);
  }

  lemma TextsWithout(b: seq<Ptr>, j: nat, w: seq<Ptr>)
    requires j < |b| && w == b[..j] + b[j + 1..]
    ensures multiset(Texts(b)) == multiset{Text(b[j])} + multiset(Texts(w))
  {
    assert Texts(w) == Texts(b)[..j] + Texts(b)[j + 1..];
    Without(Texts(b), j, Texts(w));
  }

  lemma IdsWithout(b: seq<Ptr>, j: nat, w: seq<Ptr>)
    requires j < |b| && w == b[..j] + b[j + 1..]
    ensures Ids(b) == Ids([b[j]]) + Ids(w)
  {
    assert b == b[..j] + [b[j]] + b[j + 1..];
    IdsConcat(b[..j], b[j + 1..]);
    IdsConcat(b[..j] + [b[j]], b[j + 1..]);
    IdsConcat(b[..j], [b[j]]);
  }

  /** A permutation of pointers permutes the texts and owns the same strings. */
  lemma {:induction false} PermutedTexts(a: seq<Ptr>, b: seq<Ptr>)
    requires multiset(a) == multiset(b)
    ensures multiset(Texts(a)) == multiset(Texts(b)) && Ids(a) == Ids(b)
    decreases |a|
  {
    if a == [] {
      assert |multiset(b)| == 0;
    } else {
      var j, a', b' := Matching(a, b);
      PermutedTexts(a', b');
      TextsWithout(a, 0, a');
      TextsWithout(b, j, b');
      IdsWithout(a, 0, a');
      IdsWithout(b, j, b');
    }
  }

  /** The first entry of a, found in b, and both lists without it. */
  lemma Matching<T>(a: seq<T>, b: seq<T>) returns (j: nat, a': seq<T>, b': seq<T>)
    requires multiset(a) == multiset(b) && a != []
    ensures j < |b| && b[j] == a[0] && a' == a[..0] + a[1..] && b' == b[..j] + b[j + 1..]
            && multiset(a') == multiset(b')
  {
    assert a[0] in multiset(a);
    assert a[0] in b;
    j :| 0 <= j < |b| && b[j] == a[0];
    a', b' := a[..0] + a[1..], b[..j] + b[j + 1..];
    Without(a, 0, a');
    Without(b, j, b');
    CancelEqual(a[0], multiset(a'), multiset(b'));
  }

  lemma TailMultiset<T>(s: seq<T>, n: nat)
    requires n < |s|
    ensures multiset(s[n..]) == multiset{s[n]} + multiset(s[n + 1..])
  {
    assert s[n..] == [s[n]] + s[n + 1..];
  }

  lemma SwapTail<T>(t: seq<T>, n: nat, j: nat)
    requires n <= j < |t|
    ensures multiset(Swap(t, n, j)[n..]) == multiset(t[n..])
    ensures Swap(t, n, j)[..n] == t[..n] && Swap(t, n, j)[n] == t[j]
  {
    assert Swap(t, n, j)[n..] == Swap(t[n..], 0, j - n);
    SwapPermutes(t[n..], 0, j - n);
  }

  /** What one step of the alignment does when the entry it looks for is there. */
  lemma StepAligns<T>(t: seq<T>, r: seq<T>, n: nat, j: nat, u: seq<T>)
    requires n < |r| <= |t| && multiset(r[n..]) <= multiset(t[n..])
    requires n <= j < |t| && t[j] == r[n] && u == Swap(t, n, j)
    ensures u[..n] == t[..n] && u[n] == r[n] && multiset(r[n + 1..]) <= multiset(u[n + 1..])
  {
    SwapTail(t, n, j);
    TailMultiset(r, n);
    TailMultiset(u, n);
    Cancel(r[n], multiset(r[n + 1..]), multiset(u[n + 1..]));
  }

  lemma EntryIsThere(t: seq<string>, r: seq<string>, n: nat)
    requires n < |r| <= |t| && multiset(r[n..]) <= multiset(t[n..])
    ensures exists j :: n <= j < |t| && t[j] == r[n]
  {
    assert r[n] == r[n..][0];
    assert r[n] in multiset(r[n..]);
    assert r[n] in t[n..];
    var k :| 0 <= k < |t| - n && t[n..][k] == r[n];
    assert t[n + k] == r[n];
  }

  // ---------------------------------------------------------------------------------------
  // Alignment
  // ---------------------------------------------------------------------------------------

  /** The list and the texts it has are only reordered. */
  ghost predicate Reordered(s: seq<Ptr>, s0: seq<Ptr>) {
    multiset(s) == multiset(s0) && multiset(Texts(s)) == multiset(Texts(s0))
  }

  /** The first n texts agree, and the rest of r can still be found. */
  predicate InStep(t: seq<string>, r: seq<string>, n: nat)
    requires n <= |r| <= |t|
  {
    t[..n] == r[..n] && multiset(r[n..]) <= multiset(t[n..])
  }

  /** The first place from i on with this text, or the end. */
  method FindText(list: array<Ptr>, from: nat, end: nat, text: string) returns (i: nat)
    requires from <= end <= list.Length
    ensures from <= i <= end && (i < end ==> Text(list[i]) == text)
    ensures forall k :: from <= k < i ==> Text(list[k]) != text
  {
    i := from;
    while i < end && Text(list[i]) != text
      invariant from <= i <= end && forall k :: from <= k < i ==> Text(list[k]) != text
    {
      i := i + 1;
    }
  }

  /** One turn: entry n of the list becomes one with the given text if there is one from n on. */
  method AlignEntry(list: array<Ptr>, n: nat, before: nat, text: string, ghost r: seq<string>)
    requires n < |r| <= before <= list.Length && r[n] == text
    modifies list
    ensures Reordered(list[..before], old(list[..before])) && list[before..] == old(list[before..])
    ensures InStep(old(Texts(list[..before])), r, n) ==> InStep(Texts(list[..before]), r, n + 1)
  {
    ghost var s, t := list[..before], Texts(list[..before]);
    if InStep(t, r, n) {
      EntryIsThere(t, r, n);
    }
    if Text(list[n]) != text {
      var i := FindText(list, n + 1, before, text);
      if i < before {
        list[n], list[i] := list[i], list[n];
        assert list[..before] == Swap(s, n, i);
        SwapPermutes(s, n, i);
        SwapTexts(s, n, i);
        SwapPermutes(t, n, i);
        Advance(t, r, n, i);
      }
    } else {
      assert Swap(t, n, n) == t;
      Advance(t, r, n, n);
    }
  }

  lemma Advance(t: seq<string>, r: seq<string>, n: nat, j: nat)
    requires n < |r| <= |t| && n <= j < |t| && t[j] == r[n]
    ensures InStep(t, r, n) ==> InStep(Swap(t, n, j), r, n + 1)
  {
    if InStep(t, r, n) {
      var u := Swap(t, n, j);
      StepAligns(t, r, n, j, u);
      assert u[..n + 1] == u[..n] + [u[n]] && r[..n + 1] == r[..n] + [r[n]];
    }
  }

  /**
   * align_char_with_wchar and align_wchar_with_char, without the cleanup: the list is only reordered, and its
   * first saved entries end up with the texts of the reference exactly when it had them among its entries.
   */
  method Align(list: array<Ptr>, reference: array<Ptr>, saved: nat, before: nat)
    requires list != reference && saved <= before <= list.Length && saved <= reference.Length
    modifies list
    ensures Reordered(list[..before], old(list[..before])) && list[before..] == old(list[before..])
    ensures Texts(list[..saved]) == Texts(reference[..saved])
            <==> multiset(Texts(reference[..saved])) <= multiset(Texts(old(list[..before])))
  {
    ghost var t, r := Texts(list[..before]), Texts(reference[..saved]);
    assert t[..0] == r[..0] && t[0..] == t && r[0..] == r;
    var n := 0;
    while n < saved
      invariant n <= saved && Texts(reference[..saved]) == r
      invariant Reordered(list[..before], old(list[..before])) && list[before..] == old(list[before..])
      invariant multiset(r) <= multiset(t) ==> InStep(Texts(list[..before]), r, n)
    {
      AlignEntry(list, n, before, Text(reference[n]), r);
      n := n + 1;
    }
    AlignedThen(list[..before], r, saved);
    assert list[..before][..saved] == list[..saved];
  }

  lemma AlignedThen(s: seq<Ptr>, r: seq<string>, saved: nat)
    requires saved == |r| <= |s|
    ensures InStep(Texts(s), r, saved) <==> Texts(s[..saved]) == r
    ensures Texts(s[..saved]) == r ==> multiset(r) <= multiset(Texts(s))
  {
    assert s == s[..saved] + s[saved..];
    TextsConcat(s[..saved], s[saved..]);
    assert Texts(s)[..saved] == Texts(s[..saved]);
    assert r[..saved] == r && r[saved..] == [];
  }

  // ---------------------------------------------------------------------------------------
  // The converter and its callers
  // ---------------------------------------------------------------------------------------

  /** Copies with the identities from base on. */
  function Copies(s: seq<Ptr>, base: nat): (c: seq<Ptr>)
    ensures |c| == |s| && Texts(c) == Texts(s)
  {
    seq(|s|, i requires 0 <= i < |s| => Str(base + i, Text(s[i])))
  }

  /** Each of the copies is a string of its own. */
  lemma {:induction false} CopiesDistinct(s: seq<Ptr>, base: nat, id: nat)
    ensures Ids(Copies(s, base))[id] == if base <= id < base + |s| then 1 else 0
    decreases |s|
  {
    if s != [] {
      CopiesDistinct(s[..|s| - 1], base, id);
      assert Copies(s, base)[..|s| - 1] == Copies(s[..|s| - 1], base);
    }
  }

  /** Both lists have the same texts, and in the same order unless one of them is with a caller. */
  ghost predicate Consistent(chars: seq<Ptr>, wides: seq<Ptr>, passed: bool) {
    && multiset(Texts(chars)) == multiset(Texts(wides))
    && (!passed ==> Texts(chars) == Texts(wides))
  }

  lemma SameTexts(chars: seq<Ptr>, wides: seq<Ptr>)
    requires Texts(chars) == Texts(wides)
    ensures Consistent(chars, wides, false)
  {
  }

  /** Null pointers only, and one at least: what is behind the last entry of a list. */
  predicate Nulls(s: seq<Ptr>) {
    s != [] && forall k :: 0 <= k < |s| ==> s[k] == Null
  }

  class Converter {
    /** Shared with the caller. */
    var savedArgc: nat
    const charArgv: array<Ptr>
    const wcharArgv: array<Ptr>
    var beforePassArgc: nat
    const originalIsWide: bool
    var wcharPassed: bool
    var charPassed: bool
    /** The strings this object has copied, and those it has freed so far. */
    ghost const copied: multiset<nat>
    ghost var freed: multiset<nat>

    /** The list this object owns. */
    function Copy(): array<Ptr> {
      if originalIsWide then charArgv else wcharArgv
    }

    ghost predicate Valid()
      reads this, charArgv, wcharArgv
    {
      && charArgv != wcharArgv && savedArgc <= beforePassArgc < charArgv.Length && beforePassArgc < wcharArgv.Length
      && !(wcharPassed && charPassed)
      && Consistent(charArgv[..beforePassArgc], wcharArgv[..beforePassArgc], wcharPassed || charPassed)
      && freed + Ids(Copy()[..beforePassArgc]) == copied
      && Nulls(Copy()[beforePassArgc..])
    }

    constructor (argc: nat, argv: array<Ptr>, wide: bool, base: nat)
      requires argc < argv.Length
      ensures Valid() && savedArgc == argc && originalIsWide == wide && freed == multiset{}
      ensures !wcharPassed && !charPassed && beforePassArgc == argc
      ensures (if wide then wcharArgv else charArgv) == argv && fresh(if wide then charArgv else wcharArgv)
      ensures copied == Ids(Copies(argv[..argc], base))
      ensures (if wide then charArgv else wcharArgv)[..] == Copies(argv[..argc], base) + [Null]
    {
      var copy := new Ptr[argc + 1](i requires 0 <= i <= argc reads argv =>
                                      if i < argc then Str(base + i, Text(argv[i])) else Null);
      savedArgc, beforePassArgc, originalIsWide := argc, argc, wide;
      charArgv := if wide then copy else argv;
      wcharArgv := if wide then argv else copy;
      wcharPassed, charPassed := false, false;
      copied, freed := Ids(Copies(argv[..argc], base)), multiset{};
      new;
      assert copy[..argc] == Copies(argv[..argc], base);
      assert copy[..] == copy[..argc] + [Null];
    }

    /** Frees the strings of the entries that have been dropped from the list. */
    method FreeDropped()
      requires Valid()
      modifies this`freed, Copy()
      ensures freed + Ids(Copy()[..savedArgc]) == copied && Nulls(Copy()[savedArgc..])
      ensures charArgv[..savedArgc] == old(charArgv[..savedArgc])
              && wcharArgv[..savedArgc] == old(wcharArgv[..savedArgc])
    {
      ghost var kept, dropped := Copy()[..savedArgc], Copy()[savedArgc..beforePassArgc];
      ghost var before := Copy()[..];
      assert before[beforePassArgc..] == Copy()[beforePassArgc..];
      ClearedTail(before, savedArgc, beforePassArgc);
      assert Copy()[..beforePassArgc] == kept + dropped;
      IdsConcat(kept, dropped);
      Regroup(freed, Ids(kept), Ids(dropped), copied);
      ghost var ids := Free(Copy(), savedArgc, beforePassArgc, true);
      freed := freed + ids;
      assert Copy()[..savedArgc] == Copy()[..][..savedArgc] == kept;
      assert Copy()[savedArgc..] == Copy()[..][savedArgc..];
    }

    /** Forgets the entries dropped, and that a list was passed. */
    method Cleanup()
      requires Valid()
      requires Texts(charArgv[..savedArgc]) == Texts(wcharArgv[..savedArgc])
      modifies this`freed, this`beforePassArgc, this`wcharPassed, this`charPassed, Copy()
      ensures Valid() && !wcharPassed && !charPassed && beforePassArgc == savedArgc && Nulls(Copy()[savedArgc..])
      ensures charArgv[..savedArgc] == old(charArgv[..savedArgc])
              && wcharArgv[..savedArgc] == old(wcharArgv[..savedArgc])
    {
      ghost var chars, wides := charArgv[..savedArgc], wcharArgv[..savedArgc];
      FreeDropped();
      SameTexts(chars, wides);
      Forget();
    }

    method Forget()
      requires charArgv != wcharArgv && savedArgc < charArgv.Length && savedArgc < wcharArgv.Length
      requires Consistent(charArgv[..savedArgc], wcharArgv[..savedArgc], false)
      requires freed + Ids(Copy()[..savedArgc]) == copied && Nulls(Copy()[savedArgc..])
      modifies this`beforePassArgc, this`wcharPassed, this`charPassed
      ensures Valid() && !wcharPassed && !charPassed && beforePassArgc == savedArgc
    {
      beforePassArgc := savedArgc;
      wcharPassed := false;
      charPassed := false;
    }

    /** align_wchar_with_char (wide) and align_char_with_wchar, called when the reference was passed to a caller. */
    method AlignList(wide: bool)
      requires Valid() && if wide then charPassed else wcharPassed
      modifies this`freed, this`beforePassArgc, this`wcharPassed, this`charPassed, charArgv, wcharArgv
      ensures Valid() && !wcharPassed && !charPassed && beforePassArgc == savedArgc && Nulls(Copy()[savedArgc..])
      ensures wide ==> charArgv[..savedArgc] == old(charArgv[..savedArgc])
      ensures !wide ==> wcharArgv[..savedArgc] == old(wcharArgv[..savedArgc])
    {
      if wide {
        AlignWith(wcharArgv, charArgv, savedArgc, beforePassArgc);
      } else {
        AlignWith(charArgv, wcharArgv, savedArgc, beforePassArgc);
      }
      Cleanup();
    }

    /** get_TCHAR_argv: the wide list, in the order a caller left the other one in. */
    method GetWide() returns (argv: array<Ptr>)
      requires Valid()
      modifies this`freed, this`beforePassArgc, this`wcharPassed, this`charPassed, charArgv, wcharArgv
      ensures Valid() && argv == wcharArgv && wcharPassed
      ensures old(charPassed) ==> Texts(argv[..savedArgc]) == Texts(old(charArgv[..savedArgc]))
      ensures !old(charPassed) ==> wcharArgv[..] == old(wcharArgv[..])
    {
      if charPassed {
        AlignList(true);
      }
      wcharPassed := true;
      argv := wcharArgv;
    }

    /** get_ASCII_argv */
    method GetChar() returns (argv: array<Ptr>)
      requires Valid()
      modifies this`freed, this`beforePassArgc, this`wcharPassed, this`charPassed, charArgv, wcharArgv
      ensures Valid() && argv == charArgv && charPassed
      ensures old(wcharPassed) ==> Texts(argv[..savedArgc]) == Texts(old(wcharArgv[..savedArgc]))
      ensures !old(wcharPassed) ==> charArgv[..] == old(charArgv[..])
    {
      if wcharPassed {
        AlignList(false);
      }
      charPassed := true;
      argv := charArgv;
    }

    /** What a caller may do with a list it was passed: put its entries in any order and lower the count. */
    method Rearrange(wide: bool, order: seq<Ptr>, argc: nat)
      requires Valid() && (if wide then wcharPassed else charPassed) && argc <= savedArgc
      requires multiset(order) == multiset((if wide then wcharArgv else charArgv)[..beforePassArgc])
      modifies this`savedArgc, if wide then wcharArgv else charArgv
      ensures Valid() && savedArgc == argc
      ensures (if wide then wcharArgv else charArgv)[..beforePassArgc] == order
    {
      if wide {
        Reorder(wcharArgv, order, beforePassArgc);
      } else {
        Reorder(charArgv, order, beforePassArgc);
      }
      savedArgc := argc;
    }

    /**
     * The destructor: every string it copied has been freed once, whatever callers did before, and the original
     * list is left as a caller has rearranged the other one.
     */
    method Destroy()
      requires Valid()
      modifies this`freed, this`beforePassArgc, this`wcharPassed, this`charPassed, charArgv, wcharArgv
      ensures freed == copied
      ensures originalIsWide && old(charPassed) ==> Texts(wcharArgv[..savedArgc]) == Texts(old(charArgv[..savedArgc]))
      ensures !originalIsWide && old(wcharPassed) ==> Texts(charArgv[..savedArgc]) == Texts(old(wcharArgv[..savedArgc]))
      ensures originalIsWide && !old(charPassed) ==> wcharArgv[..] == old(wcharArgv[..])
      ensures !originalIsWide && !old(wcharPassed) ==> charArgv[..] == old(charArgv[..])
    {
      if originalIsWide {
        if charPassed {
          AlignList(true);
        }
      } else if wcharPassed {
        AlignList(false);
      }
      ghost var ids := Free(Copy(), 0, beforePassArgc, false);
      freed := freed + ids;
    }
  }

  lemma Regroup(freed: multiset<nat>, kept: multiset<nat>, dropped: multiset<nat>, all: multiset<nat>)
    requires freed + (kept + dropped) == all
    ensures freed + dropped + kept == all
  {
  }

  /** A list with some of its entries set to null. */
  function Cleared(s: seq<Ptr>, from: nat, end: nat): (c: seq<Ptr>)
    requires from <= end <= |s|
    ensures |c| == |s| && c[..from] == s[..from] && c[end..] == s[end..]
  {
    s[..from] + seq(end - from, i => Null) + s[end..]
  }

  lemma ClearOneMore(s: seq<Ptr>, from: nat, end: nat)
    requires from <= end < |s|
    ensures Cleared(s, from, end)[end := Null] == Cleared(s, from, end + 1) && Cleared(s, from, end)[end] == s[end]
  {
  }

  lemma ClearedTail(s: seq<Ptr>, from: nat, end: nat)
    requires from <= end <= |s| && Nulls(s[end..])
    ensures Nulls(Cleared(s, from, end)[from..])
  {
    var c := Cleared(s, from, end)[from..];
    assert c == seq(end - from, i => Null) + s[end..];
  }

  lemma OneMoreId(s: seq<Ptr>, from: nat, i: nat)
    requires from <= i < |s|
    ensures Ids(s[from..i + 1]) == Ids(s[from..i]) + Ids([s[i]])
  {
    assert s[from..i + 1] == s[from..i] + [s[i]];
    IdsConcat(s[from..i], [s[i]]);
  }

  /** Clears one more entry if told so. */
  method FreeEntry(copy: array<Ptr>, from: nat, i: nat, clear: bool, ghost s: seq<Ptr>)
    requires from <= i < copy.Length == |s|
    requires copy[..] == if clear then Cleared(s, from, i) else s
    modifies copy
    ensures copy[..] == if clear then Cleared(s, from, i + 1) else s
  {
    ClearOneMore(s, from, i);
    if clear {
      ghost var now := copy[..];
      copy[i] := Null;
      assert copy[..] == now[i := Null];
    }
  }

  /** Frees the strings of some entries, and clears the entries if told so. */
  method Free(copy: array<Ptr>, from: nat, end: nat, clear: bool) returns (ghost ids: multiset<nat>)
    requires from <= end <= copy.Length
    modifies copy
    ensures ids == Ids(old(copy[from..end]))
    ensures copy[..] == if clear then Cleared(old(copy[..]), from, end) else old(copy[..])
  {
    ghost var s := copy[..];
    var i := from;
    ids := multiset{};
    assert s[from..from] == [] && Cleared(s, from, from) == s;
    while i < end
      invariant from <= i <= end && ids == Ids(s[from..i])
      invariant copy[..] == if clear then Cleared(s, from, i) else s
    {
      OneMoreId(s, from, i);
      ids := ids + Ids([s[i]]);
      FreeEntry(copy, from, i, clear, s);
      i := i + 1;
    }
    assert s[from..end] == old(copy[from..end]);
  }

  method Reorder(list: array<Ptr>, order: seq<Ptr>, n: nat)
    requires n <= list.Length && multiset(order) == multiset(list[..n])
    modifies list
    ensures list[..n] == order && Reordered(order, old(list[..n])) && Ids(order) == Ids(old(list[..n]))
    ensures list[n..] == old(list[n..])
  {
    PermutedTexts(order, list[..n]);
    assert |multiset(order)| == |order| && |multiset(list[..n])| == n;
    ghost var rest := list[n..];
    forall i | 0 <= i < |order| {
      list[i] := order[i];
    }
    assert list[..n] == order && list[n..] == rest;
  }

  /** Aligning lists of the same texts. */
  method AlignWith(list: array<Ptr>, reference: array<Ptr>, saved: nat, before: nat)
    requires list != reference && saved <= before < list.Length && before < reference.Length
    requires multiset(Texts(list[..before])) == multiset(Texts(reference[..before]))
    modifies list
    ensures multiset(Texts(list[..before])) == multiset(Texts(reference[..before]))
    ensures Texts(list[..saved]) == Texts(reference[..saved]) && Ids(list[..before]) == Ids(old(list[..before]))
    ensures list[before..] == old(list[before..])
  {
    PrefixIsThere(reference[..before], saved);
    assert reference[..before][..saved] == reference[..saved];
    ghost var s := list[..before];
    Align(list, reference, saved, before);
    PermutedTexts(list[..before], s);
  }

  /** The texts of a beginning are among the texts of the whole. */
  lemma PrefixIsThere(s: seq<Ptr>, n: nat)
    requires n <= |s|
    ensures multiset(Texts(s[..n])) <= multiset(Texts(s))
  {
    assert s == s[..n] + s[n..];
    TextsConcat(s[..n], s[n..]);
  }
}
