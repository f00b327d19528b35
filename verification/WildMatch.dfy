/**
 * The wildcard matcher: '?' stands for one character, '*' for any run of characters.
 *
 * C strings are sequences without their terminating NUL, and pointers into them are indices; reading at
 * index |s| is reading the NUL.
 */
module WildMatch {

  // ---------------------------------------------------------------------------------------
  // What the patterns mean
  // ---------------------------------------------------------------------------------------

  function Lower(c: char): char {
    if 'A' <= c <= 'Z' then c - 'A' + 'a' else c
  }

  predicate EqualChar(a: char, b: char, caseSensitive: bool) {
    if caseSensitive then a == b else Lower(a) == Lower(b)
  }

  /** Text character c fits a pattern character other than a star. */
  predicate Fits(c: char, p: char, cs: bool) {
    p == '?' || EqualChar(c, p, cs)
  }

  predicate Glob(t: string, p: string, cs: bool)
    decreases |p| + |t|
  {
    if p == "" then t == ""
    else if p[0] == '*' then Glob(t, p[1..], cs) || (t != "" && Glob(t[1..], p, cs))
    else t != "" && Fits(t[0], p[0], cs) && Glob(t[1..], p[1..], cs)
  }

  /** Text t fits the star-free pattern u character by character. */
  predicate Run(t: string, u: string, cs: bool) {
    |t| == |u| && forall i :: 0 <= i < |u| ==> u[i] != '*' && Fits(t[i], u[i], cs)
  }

  predicate StarFree(u: string) {
    forall i :: 0 <= i < |u| ==> u[i] != '*'
  }

  /** The characters of a pattern that are not stars: each takes one character of text. */
  function Literals(p: string): nat {
    if p == "" then 0 else (if p[0] == '*' then 0 else 1) + Literals(p[1..])
  }

  // ---------------------------------------------------------------------------------------
  // Laws of the relation
  // ---------------------------------------------------------------------------------------

  lemma {:induction false} LiteralsConcat(p: string, q: string)
    ensures Literals(p + q) == Literals(p) + Literals(q)
  {
    if p == "" {
      assert p + q == q;
    } else {
      assert (p + q)[1..] == p[1..] + q;
      LiteralsConcat(p[1..], q);
    }
  }

  lemma {:induction false} LiteralsOfRun(u: string)
    requires StarFree(u)
    ensures Literals(u) == |u|
  {
    if u != "" { LiteralsOfRun(u[1..]); }
  }

  lemma {:induction false} NeedsItsLiterals(t: string, p: string, cs: bool)
    requires Glob(t, p, cs)
    ensures |t| >= Literals(p)
    decreases |p| + |t|
  {
    if p == "" {
    } else if p[0] == '*' {
      if Glob(t, p[1..], cs) { NeedsItsLiterals(t, p[1..], cs); } else { NeedsItsLiterals(t[1..], p, cs); }
    } else {
      NeedsItsLiterals(t[1..], p[1..], cs);
    }
  }

  lemma {:induction false} GlobConcat(t: string, p: string, t': string, p': string, cs: bool)
    requires Glob(t, p, cs) && Glob(t', p', cs)
    ensures Glob(t + t', p + p', cs)
    decreases |p| + |t|
  {
    if p == "" {
      assert t + t' == t' && p + p' == p';
    } else {
      assert (p + p')[1..] == p[1..] + p';
      if t != "" { assert (t + t')[1..] == t[1..] + t'; }
      if p[0] == '*' {
        if Glob(t, p[1..], cs) { GlobConcat(t, p[1..], t', p', cs); } else { GlobConcat(t[1..], p, t', p', cs); }
      } else {
        GlobConcat(t[1..], p[1..], t', p', cs);
      }
    }
  }

  /** A leading star takes any more text in front. */
  lemma {:induction false} StarTakesMore(t: string, from: nat, later: nat, p: string, cs: bool)
    requires from <= later <= |t| && p != "" && p[0] == '*' && Glob(t[later..], p, cs)
    ensures Glob(t[from..], p, cs)
    decreases later - from
  {
    if from < later {
      StarTakesMore(t, from + 1, later, p, cs);
      assert t[from..][1..] == t[from + 1..];
    }
  }

  lemma {:induction false} StarSplits(t: string, from: nat, p: string, cs: bool) returns (k: nat)
    requires from <= |t| && p != "" && p[0] == '*' && Glob(t[from..], p, cs)
    ensures from <= k <= |t| && Glob(t[k..], p[1..], cs)
    decreases |t| - from
  {
    if Glob(t[from..], p[1..], cs) {
      k := from;
    } else {
      assert t[from..][1..] == t[from + 1..];
      k := StarSplits(t, from + 1, p, cs);
    }
  }

  /** A star-free beginning takes exactly as much text. */
  lemma {:induction false} RunSplits(t: string, u: string, w: string, cs: bool)
    requires StarFree(u)
    ensures Glob(t, u + w, cs) <==> |t| >= |u| && Run(t[..|u|], u, cs) && Glob(t[|u|..], w, cs)
  {
    if u == "" {
      assert u + w == w && t[|u|..] == t;
    } else if t == "" {
    } else {
      assert (u + w)[1..] == u[1..] + w;
      RunSplits(t[1..], u[1..], w, cs);
      if |t| >= |u| {
        assert t[1..][|u| - 1..] == t[|u|..];
        RunFirst(t[..|u|], u, cs);
        assert t[..|u|][1..] == t[1..][..|u| - 1];
      }
    }
  }

  lemma RunFirst(t: string, u: string, cs: bool)
    requires |t| == |u| > 0
    ensures Run(t, u, cs) <==> u[0] != '*' && Fits(t[0], u[0], cs) && Run(t[1..], u[1..], cs)
  {
  }

  predicate AllStars(p: string) {
    forall i :: 0 <= i < |p| ==> p[i] == '*'
  }

  lemma {:induction false} StarsTakeAnything(t: string, p: string, cs: bool)
    requires AllStars(p)
    ensures p != "" || t == "" ==> Glob(t, p, cs)
    decreases |p| + |t|
  {
    if p != "" {
      if t == "" { StarsTakeAnything(t, p[1..], cs); } else { StarsTakeAnything(t[1..], p, cs); }
    }
  }

  lemma {:induction false} StarsCollapse(t: string, p: string, n: nat, cs: bool)
    requires 1 <= n <= |p| && AllStars(p[..n]) && Glob(t, p, cs)
    ensures Glob(t, ['*'] + p[n..], cs)
    decreases n
  {
    assert p[..n][0] == '*';
    if n == 1 {
      assert p == ['*'] + p[1..];
    } else {
      var k := StarSplits(t, 0, p, cs) by { assert t[0..] == t; }
      var u := p[1..][..n - 1];
      forall i | 0 <= i < |u|
        ensures u[i] == '*'
      {
        assert u[i] == p[..n][i + 1];
      }
      StarsCollapse(t[k..], p[1..], n - 1, cs);
      assert p[1..][n - 1..] == p[n..];
      StarTakesMore(t, 0, k, ['*'] + p[n..], cs);
      assert t[0..] == t;
    }
  }

  // ---------------------------------------------------------------------------------------
  // The matcher
  // ---------------------------------------------------------------------------------------

  function SkipStars(p: string, i: nat): (r: nat)
    requires i <= |p|
    ensures i <= r <= |p| && AllStars(p[i..r]) && (r < |p| ==> p[r] != '*')
    decreases |p| - i
  {
    if i < |p| && p[i] == '*' then SkipStars(p, i + 1) else i
  }

  predicate Cursors(str: string, pat: string, s: nat, p: nat, a: nat, q: nat) {
    a <= s <= |str| && q <= p <= |pat|
  }

  /**
   * What the loop returns from a given state: s and p are the cursors, a and q the values of str and pat.
   * moves is false for the code as it is; true is the repair that also moves str when it meets a star.
   */
  predicate Scan(str: string, pat: string, cs: bool, moves: bool, star: bool, s: nat, p: nat, a: nat, q: nat)
    requires Cursors(str, pat, s, p, a, q)
    decreases |pat| - q, |str| - a, |str| - s
  {
    if s == |str| then SkipStars(pat, p) == |pat|
    else if p < |pat| && pat[p] == '*' then
      var q' := SkipStars(pat, p + 1);
      q' == |pat| || Scan(str, pat, cs, moves, true, s, q', if moves then s else a, q')
    else if p < |pat| && Fits(str[s], pat[p], cs) then Scan(str, pat, cs, moves, star, s + 1, p + 1, a, q)
    else star && Scan(str, pat, cs, moves, star, a + 1, q, a + 1, q)
  }

  predicate Accepts(str: string, pat: string, cs: bool) {
    Scan(str, pat, cs, false, false, 0, 0, 0, 0)
  }

  datatype CString = Null | At(address: nat, text: string)

  method SkipStarsFrom(p: string, i: nat) returns (r: nat)
    requires i <= |p|
    ensures r == SkipStars(p, i)
  {
    r := i;
    while r < |p| && p[r] == '*'
      invariant i <= r <= |p| && SkipStars(p, r) == SkipStars(p, i)
    {
      r := r + 1;
    }
  }

  /** Equal pointers are a match without a look at the characters; a single null pointer never matches. */
  method WildMatch(first: CString, second: CString, cs: bool) returns (r: bool)
    requires first.At? && second.At? && first.address == second.address ==> first.text == second.text
    ensures first.Null? || second.Null? ==> r == (first == second)
    ensures first.At? && second.At? ==> r == (first == second || Accepts(first.text, second.text, cs))
  {
    if first == second {
      return true;
    }
    if second.Null? || first.Null? {
      return false;
    }
    var str, pat := first.text, second.text;
    var star := false;
    var s: nat, p: nat, a: nat, q: nat := 0, 0, 0, 0;
    while s < |str|
      invariant Cursors(str, pat, s, p, a, q)
      invariant Scan(str, pat, cs, false, star, s, p, a, q) == Accepts(str, pat, cs)
      decreases |pat| - q, |str| - a, |str| - s
    {
      if p < |pat| && pat[p] == '*' {
        star := true;
        q := SkipStarsFrom(pat, p + 1);
        if q == |pat| {
          return true;
        }
        p := q;
      } else if p < |pat| && pat[p] == '?' {
        s, p := s + 1, p + 1;
      } else if p == |pat| || !EqualChar(str[s], pat[p], cs) {
        if !star {
          return false;
        }
        a := a + 1;
        s, p := a, q;
      } else {
        s, p := s + 1, p + 1;
      }
    }
    if p < |pat| && pat[p] == '*' {
      p := SkipStarsFrom(pat, p + 1);
    }
    r := p == |pat|;
  }

  // ---------------------------------------------------------------------------------------
  // No match is missed
  // ---------------------------------------------------------------------------------------

  /** The attempt that began at text position x: what it has compared so far fits. */
  predicate Attempt(str: string, pat: string, cs: bool, s: nat, p: nat, a: nat, q: nat, x: nat) {
    && Cursors(str, pat, s, p, a, q) && a <= x <= s && s == x + (p - q)
    && Run(str[x..s], pat[q..p], cs)
  }

  /** The pattern the text from the attempt on still has to match. */
  function Goal(pat: string, star: bool, q: nat): string
    requires q <= |pat|
  {
    if star then ['*'] + pat[q..] else pat[q..]
  }

  lemma AttemptStarts(str: string, pat: string, cs: bool, a: nat, q: nat, x: nat)
    requires a <= x <= |str| && q <= |pat|
    ensures Attempt(str, pat, cs, x, q, a, q, x)
  {
  }

  lemma AttemptGrows(str: string, pat: string, cs: bool, s: nat, p: nat, a: nat, q: nat, x: nat)
    requires Attempt(str, pat, cs, s, p, a, q, x) && s < |str| && p < |pat| && pat[p] != '*' && Fits(str[s], pat[p], cs)
    ensures Attempt(str, pat, cs, s + 1, p + 1, a, q, x)
  {
    assert str[x..s + 1] == str[x..s] + [str[s]] && pat[q..p + 1] == pat[q..p] + [pat[p]];
  }

  lemma AttemptSplits(str: string, pat: string, cs: bool, s: nat, p: nat, a: nat, q: nat, x: nat, y: nat)
    requires Attempt(str, pat, cs, s, p, a, q, x) && x <= y <= |str| && Glob(str[y..], pat[q..], cs)
    ensures y + (p - q) <= |str| && Glob(str[y + (p - q)..], pat[p..], cs)
  {
    RunIsStarFree(str[x..s], pat[q..p], cs);
    assert pat[q..] == pat[q..p] + pat[p..];
    RunSplits(str[y..], pat[q..p], pat[p..], cs);
    assert str[y..][p - q..] == str[y + (p - q)..];
  }

  lemma RunIsStarFree(t: string, u: string, cs: bool)
    requires Run(t, u, cs)
    ensures StarFree(u)
  {
  }

  /** With a match to be found from x, the text after the attempt matches from the star at p. */
  lemma AtStar(str: string, pat: string, cs: bool, star: bool, s: nat, p: nat, a: nat, q: nat, x: nat)
    requires Attempt(str, pat, cs, s, p, a, q, x) && p < |pat| && pat[p] == '*'
             && Glob(str[x..], Goal(pat, star, q), cs)
    ensures Glob(str[s..], ['*'] + pat[SkipStars(pat, p + 1)..], cs)
  {
    var y := x;
    if star {
      y := StarSplits(str, x, Goal(pat, star, q), cs);
      assert Goal(pat, star, q)[1..] == pat[q..];
    }
    AttemptSplits(str, pat, cs, s, p, a, q, x, y);
    FromTheStar(str, pat, cs, s, y + (p - q), p, SkipStars(pat, p + 1));
  }

  lemma FromTheStar(str: string, pat: string, cs: bool, s: nat, later: nat, p: nat, q: nat)
    requires p < q <= |pat| && pat[p] == '*' && AllStars(pat[p + 1..q])
    requires s <= later <= |str| && Glob(str[later..], pat[p..], cs)
    ensures Glob(str[s..], ['*'] + pat[q..], cs)
  {
    StarTakesMore(str, s, later, pat[p..], cs);
    assert pat[p..][..q - p] == ['*'] + pat[p + 1..q];
    StarsCollapse(str[s..], pat[p..], q - p, cs);
    assert pat[p..][q - p..] == pat[q..];
  }

  /** At the end of the text only stars can be left. */
  lemma AtEnd(str: string, pat: string, cs: bool, star: bool, s: nat, p: nat, a: nat, q: nat, x: nat)
    requires Attempt(str, pat, cs, s, p, a, q, x) && s == |str| && Glob(str[x..], Goal(pat, star, q), cs)
    ensures SkipStars(pat, p) == |pat|
  {
    NeedsItsLiterals(str[x..], Goal(pat, star, q), cs);
    GoalLiterals(pat, star, q, p);
    RunIsStarFree(str[x..s], pat[q..p], cs);
    LiteralsOfRun(pat[q..p]);
    NoLiteralsLeft(pat, p);
  }

  lemma GoalLiterals(pat: string, star: bool, q: nat, p: nat)
    requires q <= p <= |pat|
    ensures Literals(Goal(pat, star, q)) == Literals(pat[q..p]) + Literals(pat[p..])
  {
    LiteralsConcat(['*'], pat[q..]);
    assert pat[q..] == pat[q..p] + pat[p..];
    LiteralsConcat(pat[q..p], pat[p..]);
  }

  lemma {:induction false} NoLiteralsLeft(pat: string, p: nat)
    requires p <= |pat| && Literals(pat[p..]) == 0
    ensures SkipStars(pat, p) == |pat|
    decreases |pat| - p
  {
    if p < |pat| {
      assert pat[p..][1..] == pat[p + 1..];
      NoLiteralsLeft(pat, p + 1);
    }
  }

  /** When the attempt at x fails, a match starts later, and only a star makes that possible. */
  lemma AtMismatch(str: string, pat: string, cs: bool, star: bool, s: nat, p: nat, a: nat, q: nat, x: nat)
    requires Attempt(str, pat, cs, s, p, a, q, x) && s < |str| && Glob(str[x..], Goal(pat, star, q), cs)
    requires p == |pat| || (pat[p] != '*' && !Fits(str[s], pat[p], cs))
    ensures star && Attempt(str, pat, cs, a + 1, q, a + 1, q, a + 1) && Glob(str[a + 1..], Goal(pat, star, q), cs)
  {
    AttemptStarts(str, pat, cs, a + 1, q, a + 1);
    if Glob(str[x..], pat[q..], cs) {
      AttemptSplits(str, pat, cs, s, p, a, q, x, x);
      assert false;
    }
    assert star;
    var goal := Goal(pat, star, q);
    assert goal[1..] == pat[q..];
    assert str[x..][1..] == str[x + 1..];
    StarTakesMore(str, a + 1, x + 1, goal, cs);
  }

  lemma {:induction false} ScanComplete(str: string, pat: string, cs: bool, moves: bool, star: bool, s: nat, p: nat,
                                        a: nat, q: nat, x: nat)
    requires Attempt(str, pat, cs, s, p, a, q, x) && Glob(str[x..], Goal(pat, star, q), cs)
    ensures Scan(str, pat, cs, moves, star, s, p, a, q)
    decreases |pat| - q, |str| - a, |str| - s, 1
  {
    if s == |str| {
      AtEnd(str, pat, cs, star, s, p, a, q, x);
    } else if p < |pat| && pat[p] == '*' {
      StarComplete(str, pat, cs, moves, star, s, p, a, q, x);
    } else if p < |pat| && Fits(str[s], pat[p], cs) {
      AttemptGrows(str, pat, cs, s, p, a, q, x);
      ScanComplete(str, pat, cs, moves, star, s + 1, p + 1, a, q, x);
      assert Scan(str, pat, cs, moves, star, s, p, a, q);
    } else {
      AtMismatch(str, pat, cs, star, s, p, a, q, x);
      ScanComplete(str, pat, cs, moves, star, a + 1, q, a + 1, q, a + 1);
    }
  }

  lemma {:induction false} StarComplete(str: string, pat: string, cs: bool, moves: bool, star: bool, s: nat, p: nat,
                                        a: nat, q: nat, x: nat)
    requires Attempt(str, pat, cs, s, p, a, q, x) && Glob(str[x..], Goal(pat, star, q), cs)
    requires s < |str| && p < |pat| && pat[p] == '*'
    ensures Scan(str, pat, cs, moves, star, s, p, a, q)
    decreases |pat| - q, |str| - a, |str| - s, 0
  {
    var q', a' := SkipStars(pat, p + 1), if moves then s else a;
    if q' < |pat| {
      BehindStar(str, pat, cs, star, s, p, a, q, x, q', a');
      ScanComplete(str, pat, cs, moves, true, s, q', a', q', s);
    }
  }

  lemma BehindStar(str: string, pat: string, cs: bool, star: bool, s: nat, p: nat, a: nat, q: nat, x: nat, q': nat,
                   a': nat)
    requires Attempt(str, pat, cs, s, p, a, q, x) && p < |pat| && pat[p] == '*'
             && Glob(str[x..], Goal(pat, star, q), cs)
    requires q' == SkipStars(pat, p + 1) && (a' == s || a' == a)
    ensures Attempt(str, pat, cs, s, q', a', q', s) && Glob(str[s..], Goal(pat, true, q'), cs)
  {
    AtStar(str, pat, cs, star, s, p, a, q, x);
    AttemptStarts(str, pat, cs, a', q', s);
  }

  /** Every text a pattern describes is accepted, whatever the pattern. */
  lemma Complete(str: string, pat: string, cs: bool)
    requires Glob(str, pat, cs)
    ensures Accepts(str, pat, cs)
  {
    assert str[0..] == str && pat[0..] == pat;
    ScanComplete(str, pat, cs, false, false, 0, 0, 0, 0, 0);
  }

  // ---------------------------------------------------------------------------------------
  // When a match is a match
  // ---------------------------------------------------------------------------------------

  /** In front of each star-free piece that follows a star stands at most one character other than stars. */
  predicate Plain(pat: string) {
    forall q :: 0 < q < |pat| && pat[q - 1] == '*' && pat[q] != '*' ==> Literals(pat[..q]) <= 1
  }

  /**
   * The text before e matches the pattern before q, which ends in a star; a retry from a + 1 does not go back
   * before e.
   */
  predicate Grounded(str: string, pat: string, cs: bool, moves: bool, star: bool, a: nat, q: nat, x: nat, e: nat)
  {
    && e <= x && (x == e || x == a) && x <= |str| && q <= |pat| && e <= |str|
    && (moves ==> e <= a)
    && (if star then
          0 < q < |pat| && pat[q - 1] == '*' && pat[q] != '*' && e <= a + Literals(pat[..q])
        else
          q == 0 && e == 0 && a == 0)
    && Glob(str[..e], pat[..q], cs)
  }

  /** What precedes the cursors matches. */
  lemma SoFar(str: string, pat: string, cs: bool, moves: bool, star: bool, s: nat, p: nat, a: nat, q: nat, x: nat,
              e: nat)
    requires Attempt(str, pat, cs, s, p, a, q, x) && Grounded(str, pat, cs, moves, star, a, q, x, e)
    ensures Glob(str[..s], pat[..p], cs)
  {
    MoreText(str, pat, cs, e, x, q);
    assert str[..s] == str[..x] + str[x..s] && pat[..p] == pat[..q] + pat[q..p];
    RunMatches(str[x..s], pat[q..p], cs);
    GlobConcat(str[..x], pat[..q], str[x..s], pat[q..p], cs);
  }

  lemma RunMatches(t: string, u: string, cs: bool)
    requires Run(t, u, cs)
    ensures Glob(t, u, cs)
  {
    assert u + "" == u && t[..|u|] == t && t[|u|..] == "";
    RunSplits(t, u, "", cs);
  }

  /** A star at the end of the pattern takes more text at the end. */
  lemma MoreText(str: string, pat: string, cs: bool, e: nat, x: nat, q: nat)
    requires e <= x <= |str| && q <= |pat| && Glob(str[..e], pat[..q], cs)
    requires x == e || (q > 0 && pat[q - 1] == '*')
    ensures Glob(str[..x], pat[..q], cs)
  {
    if x != e {
      var t, more := str[..e], str[e..x];
      StarsTakeAnything(more, ['*'], cs);
      GlobConcat(t, pat[..q], more, ['*'], cs);
      assert str[..x] == t + more;
      assert pat[..q] == pat[..q - 1] + ['*'];
      StarAgain(str[..x], pat[..q - 1], cs);
    }
  }

  lemma {:induction false} StarAgain(t: string, p: string, cs: bool)
    requires Glob(t, p + ['*'] + ['*'], cs)
    ensures Glob(t, p + ['*'], cs)
    decreases |p| + |t|
  {
    if p == "" {
      StarsTakeAnything(t, ['*'], cs);
      assert p + ['*'] == ['*'];
    } else {
      assert (p + ['*'] + ['*'])[1..] == p[1..] + ['*'] + ['*'] && (p + ['*'])[1..] == p[1..] + ['*'];
      if p[0] == '*' {
        if Glob(t, p[1..] + ['*'] + ['*'], cs) { StarAgain(t, p[1..], cs); } else { StarAgain(t[1..], p, cs); }
      } else {
        StarAgain(t[1..], p[1..], cs);
      }
    }
  }

  lemma WholeMatch(str: string, pat: string, cs: bool, s: nat, p: nat)
    requires s <= |str| && p <= |pat| && Glob(str[..s], pat[..p], cs) && AllStars(pat[p..]) && (p < |pat| || s == |str|)
    ensures Glob(str, pat, cs)
  {
    StarsTakeAnything(str[s..], pat[p..], cs);
    GlobConcat(str[..s], pat[..p], str[s..], pat[p..], cs);
    assert str[..s] + str[s..] == str && pat[..p] + pat[p..] == pat;
  }

  /** A new star grounds the scan where it stands. */
  lemma StarGrounds(str: string, pat: string, cs: bool, moves: bool, star: bool, s: nat, p: nat, a: nat, q: nat,
                    x: nat, e: nat)
    requires Attempt(str, pat, cs, s, p, a, q, x) && Grounded(str, pat, cs, moves, star, a, q, x, e)
    requires p < |pat| && pat[p] == '*' && SkipStars(pat, p + 1) < |pat|
    ensures var q' := SkipStars(pat, p + 1); Grounded(str, pat, cs, moves, true, if moves then s else a, q', s, s)
  {
    var q' := SkipStars(pat, p + 1);
    SoFar(str, pat, cs, moves, star, s, p, a, q, x, e);
    var stars := ['*'] + pat[p + 1..q'];
    StarsTakeAnything("", stars, cs);
    GlobConcat(str[..s], pat[..p], "", stars, cs);
    assert str[..s] + "" == str[..s] && pat[..q'] == pat[..p] + stars;
    RunIsStarFree(str[x..s], pat[q..p], cs);
    LiteralsUpTo(pat, q, p);
    BeforeStarsEnd(pat, p);
  }

  lemma BeforeStarsEnd(pat: string, p: nat)
    requires p < |pat| && pat[p] == '*'
    ensures pat[SkipStars(pat, p + 1) - 1] == '*'
  {
    var q := SkipStars(pat, p + 1);
    if q > p + 1 { assert pat[q - 1] == pat[p + 1..q][q - p - 2]; }
  }

  lemma LiteralsUpTo(pat: string, q: nat, p: nat)
    requires q <= p < |pat| && pat[p] == '*' && StarFree(pat[q..p])
    ensures Literals(pat[..SkipStars(pat, p + 1)]) == Literals(pat[..q]) + (p - q)
  {
    var q' := SkipStars(pat, p + 1);
    var stars := ['*'] + pat[p + 1..q'];
    assert pat[..q'] == pat[..p] + stars;
    LiteralsConcat(pat[..p], stars);
    assert pat[..p] == pat[..q] + pat[q..p];
    LiteralsConcat(pat[..q], pat[q..p]);
    LiteralsOfRun(pat[q..p]);
    LiteralsOfStars(stars);
  }

  lemma {:induction false} LiteralsOfStars(p: string)
    requires AllStars(p)
    ensures Literals(p) == 0
  {
    if p != "" { LiteralsOfStars(p[1..]); }
  }

  lemma {:induction false} ScanSound(str: string, pat: string, cs: bool, moves: bool, star: bool, s: nat, p: nat,
                                     a: nat, q: nat, x: nat, e: nat)
    requires moves || Plain(pat)
    requires Attempt(str, pat, cs, s, p, a, q, x) && Grounded(str, pat, cs, moves, star, a, q, x, e)
    requires Scan(str, pat, cs, moves, star, s, p, a, q)
    ensures Glob(str, pat, cs)
    decreases |pat| - q, |str| - a, |str| - s
  {
    if s == |str| {
      SoFar(str, pat, cs, moves, star, s, p, a, q, x, e);
      WholeMatch(str, pat, cs, s, p);
    } else if p < |pat| && pat[p] == '*' {
      var q' := SkipStars(pat, p + 1);
      if q' == |pat| {
        SoFar(str, pat, cs, moves, star, s, p, a, q, x, e);
        assert pat[p..] == ['*'] + pat[p + 1..q'];
        WholeMatch(str, pat, cs, s, p);
      } else {
        StarGrounds(str, pat, cs, moves, star, s, p, a, q, x, e);
        AttemptStarts(str, pat, cs, if moves then s else a, q', s);
        ScanSound(str, pat, cs, moves, true, s, q', if moves then s else a, q', s, s);
      }
    } else if p < |pat| && Fits(str[s], pat[p], cs) {
      AttemptGrows(str, pat, cs, s, p, a, q, x);
      ScanSound(str, pat, cs, moves, star, s + 1, p + 1, a, q, x, e);
    } else {
      AttemptStarts(str, pat, cs, a + 1, q, a + 1);
      assert Literals(pat[..q]) <= 1 || moves;
      ScanSound(str, pat, cs, moves, star, a + 1, q, a + 1, q, a + 1, e);
    }
  }

  lemma StartsGrounded(str: string, pat: string, cs: bool, moves: bool)
    ensures Attempt(str, pat, cs, 0, 0, 0, 0, 0) && Grounded(str, pat, cs, moves, false, 0, 0, 0, 0)
  {
  }

  /** For plain patterns the matcher decides the relation. */
  lemma PlainIff(str: string, pat: string, cs: bool)
    requires Plain(pat)
    ensures Accepts(str, pat, cs) <==> Glob(str, pat, cs)
  {
    if Accepts(str, pat, cs) {
      StartsGrounded(str, pat, cs, false);
      ScanSound(str, pat, cs, false, false, 0, 0, 0, 0, 0, 0);
    } else if Glob(str, pat, cs) {
      Complete(str, pat, cs);
    }
  }

  /** The two cases of one ASCII letter. */
  predicate SameLetter(a: char, b: char) {
    || ('A' <= a <= 'Z' && b as int == a as int + 32)
    || ('A' <= b <= 'Z' && a as int == b as int + 32)
  }

  /** Without stars a pattern is matched character by character: '?' by any, another by itself or its other case. */
  lemma StarFreeIff(t: string, u: string, cs: bool)
    requires forall i :: 0 <= i < |u| ==> u[i] != '*'
    ensures Accepts(t, u, cs) <==>
            |t| == |u| && forall i :: 0 <= i < |u| ==> u[i] == '?' || t[i] == u[i] || (!cs && SameLetter(t[i], u[i]))
  {
    PlainIff(t, u, cs);
    assert u + "" == u;
    RunSplits(t, u, "", cs);
    if |t| == |u| {
      assert t[..|u|] == t;
      forall i | 0 <= i < |u|
        ensures Fits(t[i], u[i], cs) <==> u[i] == '?' || t[i] == u[i] || (!cs && SameLetter(t[i], u[i]))
      {
      }
    }
  }

  /** Without '?' either, case-sensitive matching is equality. */
  lemma LiteralIff(t: string, u: string)
    requires forall i :: 0 <= i < |u| ==> u[i] != '*' && u[i] != '?'
    ensures Accepts(t, u, true) <==> t == u
  {
    StarFreeIff(t, u, true);
  }

  /** A star-free piece with stars on neither, either or both sides is plain. */
  lemma AffixesArePlain(before: string, u: string, after: string)
    requires AllStars(before) && StarFree(u) && AllStars(after)
    ensures Plain(before + u + after)
  {
    var pat := before + u + after;
    assert forall i :: 0 <= i < |before| ==> pat[i] == before[i];
    assert forall i :: |before| <= i < |before| + |u| ==> pat[i] == u[i - |before|];
    assert forall i :: |before| + |u| <= i < |pat| ==> pat[i] == after[i - |before| - |u|];
    forall q | 0 < q < |pat| && pat[q - 1] == '*' && pat[q] != '*'
      ensures Literals(pat[..q]) <= 1
    {
      assert q == |before|;
      assert pat[..q] == before;
      LiteralsOfStars(before);
    }
  }

  /** Moving str along with s at a star would make the matcher decide the relation for every pattern. */
  lemma RepairedIff(str: string, pat: string, cs: bool)
    ensures Scan(str, pat, cs, true, false, 0, 0, 0, 0) <==> Glob(str, pat, cs)
  {
    assert str[0..] == str && pat[0..] == pat;
    if Scan(str, pat, cs, true, false, 0, 0, 0, 0) {
      StartsGrounded(str, pat, cs, true);
      ScanSound(str, pat, cs, true, false, 0, 0, 0, 0, 0, 0);
    } else if Glob(str, pat, cs) {
      ScanComplete(str, pat, cs, true, false, 0, 0, 0, 0, 0);
    }
  }

  /** A pattern describes itself, so the shortcut for equal pointers agrees with the relation. */
  lemma {:induction false} MatchesItself(p: string, cs: bool)
    ensures Glob(p, p, cs)
    decreases |p|
  {
    if p != "" {
      MatchesItself(p[1..], cs);
      if p[0] == '*' { assert Glob(p[1..], p, cs); }
    }
  }

  // ---------------------------------------------------------------------------------------
  // Patterns with one gap
  // ---------------------------------------------------------------------------------------

  /** u and v with stars between them, and possibly in front and behind. */
  predicate OneGap(pat: string, lead: string, u: string, gap: string, v: string, trail: string) {
    && AllStars(lead) && StarFree(u) && AllStars(gap) && StarFree(v) && AllStars(trail)
    && gap != "" && v != "" && (lead != "" ==> u != "")
    && pat == lead + (u + (gap + (v + trail)))
  }

  /** The text at y fits u. */
  predicate Stands(str: string, u: string, cs: bool, y: nat) {
    y + |u| <= |str| && Run(str[y..y + |u|], u, cs)
  }

  /** r is the first place from a on where u stands. */
  predicate First(str: string, u: string, cs: bool, a: nat, r: nat) {
    a <= r && Stands(str, u, cs, r) && forall z: nat :: a <= z < r ==> !Stands(str, u, cs, z)
  }

  /** v stands at y, and at the end of the text if nothing may follow it. */
  predicate Found(str: string, v: string, cs: bool, trail: string, y: nat) {
    Stands(str, v, cs, y) && (trail == "" ==> y + |v| == |str|)
  }

  predicate FoundFrom(str: string, v: string, cs: bool, trail: string, from: nat) {
    exists y :: from <= y <= |str| && Found(str, v, cs, trail, y)
  }

  /** The text ends in the middle of a v that would stand at x. */
  predicate RunsOut(str: string, v: string, cs: bool, x: nat) {
    x <= |str| < x + |v| && Run(str[x..], v[..|str| - x], cs)
  }

  /**
   * u stands at r, where the matcher finds it, and v only at a place that overlaps it; and the attempt to find v
   * behind u fails before the text ends.
   */
  predicate OverlapAt(str: string, u: string, v: string, cs: bool, trail: string, r: nat) {
    && (exists y :: r < y < r + |u| && Found(str, v, cs, trail, y))
    && !FoundFrom(str, v, cs, trail, r + |u|)
    && !RunsOut(str, v, cs, r + |u|)
  }

  /** Where u can stand: anywhere behind a star, otherwise at the beginning. */
  predicate Begins(str: string, u: string, cs: bool, lead: string, r: nat) {
    First(str, u, cs, 0, r) && (lead != "" || r == 0)
  }

  predicate Overlap(str: string, u: string, v: string, cs: bool, lead: string, trail: string) {
    exists r :: 0 <= r <= |str| && Begins(str, u, cs, lead, r) && OverlapAt(str, u, v, cs, trail, r)
  }

  /**
   * With the cursors behind the gap, a retry base a and an attempt from x: v is found at x, or anywhere behind a
   * provided the attempt does not run out of text first.
   */
  predicate Wins(str: string, v: string, cs: bool, trail: string, a: nat, x: nat) {
    || Found(str, v, cs, trail, x)
    || (!RunsOut(str, v, cs, x) && FoundFrom(str, v, cs, trail, a + 1))
  }

  /** u is in the pattern at i. */
  predicate Placed(pat: string, i: nat, u: string) {
    i + |u| <= |pat| && forall m :: i <= m < i + |u| ==> pat[m] == u[m - i] != '*'
  }

  predicate StarsFrom(pat: string, i: nat) {
    forall m :: i <= m < |pat| ==> pat[m] == '*'
  }

  /** v and perhaps stars are all of the pattern from q on. */
  predicate Ends(pat: string, q: nat, v: string, trail: string) {
    v != "" && Placed(pat, q, v) && q + |v| + |trail| == |pat| && StarsFrom(pat, q + |v|)
  }

  lemma {:induction false} ScanBehindGap(str: string, pat: string, cs: bool, v: string, trail: string, s: nat, p: nat,
                                         a: nat, q: nat, x: nat)
    requires Attempt(str, pat, cs, s, p, a, q, x) && Ends(pat, q, v, trail) && p <= q + |v|
    ensures Scan(str, pat, cs, false, true, s, p, a, q) <==> Wins(str, v, cs, trail, a, x)
    decreases |str| - a, |str| - s
  {
    if p == q + |v| && (s == |str| || p < |pat|) {
      Completed(str, pat, cs, v, trail, s, a, q, x);
    } else if s == |str| {
      AtPiece(pat, q, v, p);
      EndsInside(str, v, cs, trail, a, x, p - q);
      assert SkipStars(pat, p) == p;
    } else if p < |pat| && Fits(str[s], pat[p], cs) {
      AttemptGrows(str, pat, cs, s, p, a, q, x);
      ScanBehindGap(str, pat, cs, v, trail, s + 1, p + 1, a, q, x);
    } else {
      Retried(str, pat, cs, v, trail, s, p, a, q, x);
      ScanBehindGap(str, pat, cs, v, trail, a + 1, q, a + 1, q, a + 1);
    }
  }

  /** An attempt that fails before the text ends: everything depends on the places from a + 1 on. */
  lemma Retried(str: string, pat: string, cs: bool, v: string, trail: string, s: nat, p: nat, a: nat, q: nat, x: nat)
    requires Attempt(str, pat, cs, s, p, a, q, x) && Ends(pat, q, v, trail) && p <= q + |v| && s < |str|
    requires p == |pat| || (p < q + |v| && !Fits(str[s], pat[p], cs))
    ensures Attempt(str, pat, cs, a + 1, q, a + 1, q, a + 1)
    ensures Wins(str, v, cs, trail, a, x) <==> Wins(str, v, cs, trail, a + 1, a + 1)
  {
    AtPiece(pat, q, v, p);
    if p < q + |v| { NotHere(str, v, cs, p - q, x); }
    Mismatched(str, v, cs, trail, a, x);
    AttemptStarts(str, pat, cs, a + 1, q, a + 1);
  }

  /** At the end of v, and either of the text or with stars left. */
  lemma Completed(str: string, pat: string, cs: bool, v: string, trail: string, s: nat, a: nat, q: nat, x: nat)
    requires Ends(pat, q, v, trail) && Attempt(str, pat, cs, s, q + |v|, a, q, x) && (s == |str| || q + |v| < |pat|)
    ensures Wins(str, v, cs, trail, a, x) && Scan(str, pat, cs, false, true, s, q + |v|, a, q)
  {
    AtPiece(pat, q, v, q + |v|);
    OnlyStarsLeft(pat, q + |v|);
    assert Found(str, v, cs, trail, x);
  }

  lemma AtPiece(pat: string, q: nat, v: string, p: nat)
    requires Placed(pat, q, v) && q <= p <= q + |v|
    ensures pat[q..p] == v[..p - q] && (p == q + |v| ==> v[..p - q] == v)
  {
  }

  lemma EndsInside(str: string, v: string, cs: bool, trail: string, a: nat, x: nat, k: nat)
    requires k < |v| && x + k == |str| && Run(str[x..|str|], v[..k], cs)
    ensures !Wins(str, v, cs, trail, a, x)
  {
    assert str[x..|str|] == str[x..];
  }

  lemma {:induction false} OnlyStarsLeft(pat: string, p: nat)
    requires p <= |pat| && StarsFrom(pat, p)
    ensures SkipStars(pat, p) == |pat| && (p < |pat| ==> SkipStars(pat, p + 1) == |pat|)
    decreases |pat| - p
  {
    if p < |pat| { OnlyStarsLeft(pat, p + 1); }
  }

  lemma NotHere(str: string, v: string, cs: bool, k: nat, x: nat)
    requires k < |v| && x + k < |str| && !Fits(str[x + k], v[k], cs)
    ensures !Stands(str, v, cs, x) && !RunsOut(str, v, cs, x)
  {
    if x + |v| <= |str| {
      assert str[x..x + |v|][k] == str[x + k];
    } else {
      assert str[x..][k] == str[x + k] && v[..|str| - x][k] == v[k];
    }
  }

  lemma Mismatched(str: string, v: string, cs: bool, trail: string, a: nat, x: nat)
    requires !Found(str, v, cs, trail, x) && !RunsOut(str, v, cs, x) && a < |str|
    ensures Wins(str, v, cs, trail, a, x) <==> Wins(str, v, cs, trail, a + 1, a + 1)
  {
    if FoundFrom(str, v, cs, trail, a + 1 + 1) { assert !RunsOut(str, v, cs, a + 1); }
  }

  /** u stands in the pattern at i, the stars behind it end at k, and there v begins. */
  predicate Parts(pat: string, i: nat, u: string, k: nat, v: string, trail: string) {
    && i + |u| < k < |pat| && Placed(pat, i, u) && pat[i + |u|] == '*' && SkipStars(pat, i + |u| + 1) == k
    && Ends(pat, k, v, trail)
  }

  lemma GapParts(pat: string, lead: string, u: string, gap: string, v: string, trail: string)
    requires OneGap(pat, lead, u, gap, v, trail)
    ensures Parts(pat, |lead|, u, |lead| + |u| + |gap|, v, trail)
    ensures lead != "" ==> pat[0] == '*' && SkipStars(pat, 1) == |lead|
  {
    var behindGap := v + trail;
    var behindU := gap + behindGap;
    LeadParts(pat, lead, u, behindU);
    BehindLead(pat, |lead|, u, behindU, gap, behindGap, v, trail);
  }

  /** The pattern goes on with t from i on, up to its end. */
  predicate Rest(pat: string, i: nat, t: string) {
    i + |t| == |pat| && forall m :: i <= m < |pat| ==> pat[m] == t[m - i]
  }

  lemma LeadParts(pat: string, lead: string, u: string, behind: string)
    requires AllStars(lead) && StarFree(u) && pat == lead + (u + behind)
    ensures Rest(pat, |lead|, u + behind)
    ensures lead != "" && u != "" ==> pat[0] == '*' && SkipStars(pat, 1) == |lead|
  {
    var i := |lead|;
    if lead != "" && u != "" {
      assert pat[i] == u[0] && forall m :: 0 <= m < i ==> pat[m] == lead[m];
      SkipsTo(pat, 1, i);
    }
  }

  lemma Piece(pat: string, i: nat, j: nat, part: string, after: string)
    requires Rest(pat, i, part + after) && j == i + |part|
    ensures Rest(pat, j, after) && forall m :: i <= m < j ==> pat[m] == part[m - i]
  {
    assert forall m :: i <= m < |pat| ==> pat[m] == if m < j then part[m - i] else after[m - j];
  }

  lemma BehindLead(pat: string, i: nat, u: string, behindU: string, gap: string, behindGap: string, v: string,
                   trail: string)
    requires Rest(pat, i, u + behindU) && behindU == gap + behindGap && behindGap == v + trail
    requires StarFree(u) && AllStars(gap) && StarFree(v) && AllStars(trail) && gap != "" && v != ""
    ensures Parts(pat, i, u, i + |u| + |gap|, v, trail)
  {
    var j, k := i + |u|, i + |u| + |gap|;
    Piece(pat, i, j, u, behindU);
    Piece(pat, j, k, gap, behindGap);
    Piece(pat, k, k + |v|, v, trail);
    SkipsTo(pat, j + 1, k);
  }

  lemma {:induction false} SkipsTo(pat: string, i: nat, k: nat)
    requires i <= k < |pat| && (forall m :: i <= m < k ==> pat[m] == '*') && pat[k] != '*'
    ensures SkipStars(pat, i) == k
    decreases k - i
  {
    if i < k { SkipsTo(pat, i + 1, k); }
  }

  lemma {:induction false} StopsAtLiteral(pat: string, i: nat, k: nat)
    requires i <= k < |pat| && pat[k] != '*'
    ensures SkipStars(pat, i) <= k
    decreases k - i
  {
    if i < k { StopsAtLiteral(pat, i + 1, k); }
  }

  /** At the end of u, with u standing at x. */
  lemma ScanAtGap(str: string, pat: string, cs: bool, i: nat, u: string, k: nat, v: string, trail: string,
                  star: bool, a: nat, q: nat, x: nat)
    requires Parts(pat, i, u, k, v, trail) && a <= x && q <= i && Stands(str, u, cs, x)
    ensures Scan(str, pat, cs, false, star, x + |u|, i + |u|, a, q) <==> Wins(str, v, cs, trail, a, x + |u|)
  {
    var s := x + |u|;
    if s == |str| {
      StopsAtLiteral(pat, i + |u|, k);
      assert RunsOut(str, v, cs, s) && !Found(str, v, cs, trail, s);
    } else {
      AttemptStarts(str, pat, cs, a, k, s);
      ScanBehindGap(str, pat, cs, v, trail, s, k, a, k, s);
    }
  }

  /** Without a star in front, u stands at the beginning or the scan fails. */
  lemma {:induction false} ScanFixed(str: string, pat: string, cs: bool, u: string, k: nat, v: string, trail: string,
                                     s: nat)
    requires Parts(pat, 0, u, k, v, trail) && s <= |u| && s <= |str| && Run(str[..s], u[..s], cs)
    ensures Scan(str, pat, cs, false, false, s, s, 0, 0)
            <==> Stands(str, u, cs, 0) && Wins(str, v, cs, trail, 0, |u|)
    decreases |u| - s
  {
    if s == |u| {
      assert u[..s] == u && str[0..|u|] == str[..s];
      ScanAtGap(str, pat, cs, 0, u, k, v, trail, false, 0, 0, 0);
    } else if s == |str| {
      StopsAtLiteral(pat, s, k);
    } else {
      if Fits(str[s], pat[s], cs) {
        assert str[..s + 1] == str[..s] + [str[s]] && u[..s + 1] == u[..s] + [u[s]];
        ScanFixed(str, pat, cs, u, k, v, trail, s + 1);
      } else {
        NotHere(str, u, cs, s, 0);
      }
    }
  }

  /** From a on, v is found behind the first place of u. */
  predicate WinsFrom(str: string, u: string, v: string, cs: bool, trail: string, a: nat) {
    exists r :: 0 <= r <= |str| && First(str, u, cs, a, r) && Wins(str, v, cs, trail, r, r + |u|)
  }

  /** Behind a star, the scan tries u at one place after the other and stays with the first where it stands. */
  lemma {:induction false} ScanMoving(str: string, pat: string, cs: bool, i: nat, u: string, k: nat, v: string,
                                      trail: string, s: nat, p: nat, a: nat)
    requires Parts(pat, i, u, k, v, trail) && p <= i + |u| && Attempt(str, pat, cs, s, p, a, i, a)
    ensures Scan(str, pat, cs, false, true, s, p, a, i) <==> WinsFrom(str, u, v, cs, trail, a)
    decreases |str| - a, |str| - s
  {
    if p == i + |u| {
      AtPiece(pat, i, u, p);
      assert Stands(str, u, cs, a);
      ScanAtGap(str, pat, cs, i, u, k, v, trail, true, a, i, a);
      FirstHere(str, u, v, cs, trail, a);
    } else if s == |str| {
      StopsAtLiteral(pat, p, k);
      NoRoom(str, u, v, cs, trail, a);
    } else {
      if Fits(str[s], pat[p], cs) {
        AttemptGrows(str, pat, cs, s, p, a, i, a);
        ScanMoving(str, pat, cs, i, u, k, v, trail, s + 1, p + 1, a);
      } else {
        NotHere(str, u, cs, p - i, a);
        FirstLater(str, u, v, cs, trail, a, a + 1);
        AttemptStarts(str, pat, cs, a + 1, i, a + 1);
        ScanMoving(str, pat, cs, i, u, k, v, trail, a + 1, i, a + 1);
      }
    }
  }

  lemma NoRoom(str: string, u: string, v: string, cs: bool, trail: string, a: nat)
    requires a + |u| > |str|
    ensures !WinsFrom(str, u, v, cs, trail, a)
  {
  }

  lemma FirstHere(str: string, u: string, v: string, cs: bool, trail: string, a: nat)
    requires Stands(str, u, cs, a)
    ensures WinsFrom(str, u, v, cs, trail, a) <==> Wins(str, v, cs, trail, a, a + |u|)
  {
    assert First(str, u, cs, a, a);
  }

  lemma FirstLater(str: string, u: string, v: string, cs: bool, trail: string, a: nat, next: nat)
    requires !Stands(str, u, cs, a) && next == a + 1
    ensures WinsFrom(str, u, v, cs, trail, a) <==> WinsFrom(str, u, v, cs, trail, next)
  {
    if r :| 0 <= r <= |str| && First(str, u, cs, a, r) && Wins(str, v, cs, trail, r, r + |u|) {
      assert First(str, u, cs, next, r);
    }
    if r :| 0 <= r <= |str| && First(str, u, cs, next, r) && Wins(str, v, cs, trail, r, r + |u|) {
      assert First(str, u, cs, a, r);
    }
  }

  /** The matcher accepts when it finds v after the first place of u. */
  lemma AcceptsGap(str: string, pat: string, cs: bool, lead: string, u: string, gap: string, v: string, trail: string)
    requires OneGap(pat, lead, u, gap, v, trail)
    ensures Accepts(str, pat, cs) <==>
            exists r :: 0 <= r <= |str| && Begins(str, u, cs, lead, r) && Wins(str, v, cs, trail, r, r + |u|)
  {
    GapParts(pat, lead, u, gap, v, trail);
    var i, k := |lead|, |lead| + |u| + |gap|;
    if lead == "" {
      assert str[..0] == u[..0] == "";
      ScanFixed(str, pat, cs, u, k, v, trail, 0);
      assert Stands(str, u, cs, 0) <==> Begins(str, u, cs, "", 0);
    } else if str == "" {
      StopsAtLiteral(pat, 0, k);
    } else {
      AttemptStarts(str, pat, cs, 0, i, 0);
      ScanMoving(str, pat, cs, i, u, k, v, trail, 0, i, 0);
      assert forall r: nat :: Begins(str, u, cs, lead, r) <==> First(str, u, cs, 0, r);
    }
  }

  // What such a pattern describes

  lemma StarsReach(t: string, from: nat, stars: string, w: string, cs: bool)
    requires from <= |t| && AllStars(stars) && stars != ""
    ensures Glob(t[from..], stars + w, cs) <==> exists k :: from <= k <= |t| && Glob(t[k..], w, cs)
  {
    if Glob(t[from..], stars + w, cs) {
      assert (stars + w)[..|stars|] == stars && (stars + w)[|stars|..] == w;
      StarsCollapse(t[from..], stars + w, |stars|, cs);
      assert (['*'] + w)[1..] == w;
      var k := StarSplits(t, from, ['*'] + w, cs);
    }
    if k :| from <= k <= |t| && Glob(t[k..], w, cs) {
      StarsTakeAnything(t[from..k], stars, cs);
      GlobConcat(t[from..k], stars, t[k..], w, cs);
      assert t[from..k] + t[k..] == t[from..];
    }
  }

  lemma FoundIsGlob(str: string, v: string, trail: string, cs: bool, y: nat)
    requires StarFree(v) && AllStars(trail) && y <= |str|
    ensures Glob(str[y..], v + trail, cs) <==> Found(str, v, cs, trail, y)
  {
    RunSplits(str[y..], v, trail, cs);
    if y + |v| <= |str| {
      assert str[y..][..|v|] == str[y..y + |v|] && str[y..][|v|..] == str[y + |v|..];
      StarsTakeAnything(str[y + |v|..], trail, cs);
    }
  }

  lemma GapReaches(str: string, gap: string, v: string, trail: string, cs: bool, from: nat)
    requires AllStars(gap) && gap != "" && StarFree(v) && AllStars(trail) && from <= |str|
    ensures Glob(str[from..], gap + (v + trail), cs) <==> FoundFrom(str, v, cs, trail, from)
  {
    StarsReach(str, from, gap, v + trail, cs);
    forall y | from <= y <= |str|
      ensures Glob(str[y..], v + trail, cs) <==> Found(str, v, cs, trail, y)
    {
      FoundIsGlob(str, v, trail, cs, y);
    }
  }

  /** From r on, the text fits u, the gap and the rest. */
  lemma RestOfGap(str: string, u: string, gap: string, v: string, trail: string, cs: bool, r: nat)
    requires StarFree(u) && AllStars(gap) && gap != "" && StarFree(v) && AllStars(trail) && r <= |str|
    ensures Glob(str[r..], u + (gap + (v + trail)), cs) <==>
            Stands(str, u, cs, r) && FoundFrom(str, v, cs, trail, r + |u|)
  {
    RunSplits(str[r..], u, gap + (v + trail), cs);
    if r + |u| <= |str| {
      assert str[r..][..|u|] == str[r..r + |u|] && str[r..][|u|..] == str[r + |u|..];
      GapReaches(str, gap, v, trail, cs, r + |u|);
    }
  }

  lemma FirstExists(str: string, u: string, cs: bool, r: nat) returns (f: nat)
    requires Stands(str, u, cs, r)
    ensures f <= r && First(str, u, cs, 0, f)
  {
    if z: nat :| z < r && Stands(str, u, cs, z) {
      f := FirstExists(str, u, cs, z);
    } else {
      f := r;
    }
  }

  /** The pattern describes the texts in which v is found behind the first place of u. */
  lemma GapGlob(str: string, pat: string, cs: bool, lead: string, u: string, gap: string, v: string, trail: string)
    requires OneGap(pat, lead, u, gap, v, trail)
    ensures Glob(str, pat, cs) <==>
            exists r :: 0 <= r <= |str| && Begins(str, u, cs, lead, r) && FoundFrom(str, v, cs, trail, r + |u|)
  {
    var w := u + (gap + (v + trail));
    assert str[0..] == str;
    if lead == "" {
      assert pat == w;
      RestOfGap(str, u, gap, v, trail, cs, 0);
      assert Stands(str, u, cs, 0) <==> Begins(str, u, cs, lead, 0);
    } else {
      StarsReach(str, 0, lead, w, cs);
      if k :| 0 <= k <= |str| && Glob(str[k..], w, cs) {
        RestOfGap(str, u, gap, v, trail, cs, k);
        var f := FirstExists(str, u, cs, k);
        assert Begins(str, u, cs, lead, f) && FoundFrom(str, v, cs, trail, f + |u|);
      }
      if r :| 0 <= r <= |str| && Begins(str, u, cs, lead, r) && FoundFrom(str, v, cs, trail, r + |u|) {
        RestOfGap(str, u, gap, v, trail, cs, r);
      }
    }
  }

  /**
   * A pattern u*v, with or without stars at its ends, decides the relation for exactly the texts in which v is not
   * only found overlapping u.
   */
  lemma OneGapIff(str: string, pat: string, cs: bool, lead: string, u: string, gap: string, v: string, trail: string)
    requires OneGap(pat, lead, u, gap, v, trail)
    ensures Accepts(str, pat, cs) == Glob(str, pat, cs) <==> !Overlap(str, u, v, cs, lead, trail)
  {
    AcceptsGap(str, pat, cs, lead, u, gap, v, trail);
    GapGlob(str, pat, cs, lead, u, gap, v, trail);
    forall r | 0 <= r <= |str| && Begins(str, u, cs, lead, r)
      ensures OverlapAt(str, u, v, cs, trail, r) <==>
              Wins(str, v, cs, trail, r, r + |u|) && !FoundFrom(str, v, cs, trail, r + |u|)
    {
    }
  }

  // ---------------------------------------------------------------------------------------
  // Which of these patterns are always decided rightly
  // ---------------------------------------------------------------------------------------

  /** Some character fits both. */
  predicate Agree(p: char, q: char, cs: bool) {
    p == '?' || q == '?' || EqualChar(p, q, cs)
  }

  /** The last s characters of u and the first of v can stand for the same text. */
  predicate Overlapping(u: string, v: string, s: nat, cs: bool) {
    s <= |u| && forall i :: 0 <= i < s && i < |v| ==> Agree(u[|u| - s + i], v[i], cs)
  }

  /** Text behind u that fits a v begun s characters earlier, and what may follow, need not begin like v. */
  predicate Escapes(v: string, trail: string, s: nat, cs: bool) {
    exists j :: 0 <= j < |v| && v[j] != '?' && EscapesAt(v, trail, s, j, cs)
  }

  predicate EscapesAt(v: string, trail: string, s: nat, j: nat, cs: bool)
    requires j < |v|
  {
    if s + j < |v| then v[s + j] == '?' || !EqualChar(v[s + j], v[j], cs) else trail != ""
  }

  predicate Ambiguous(u: string, v: string, trail: string, cs: bool) {
    exists s :: 1 <= s < |u| && Overlapping(u, v, s, cs) && Escapes(v, trail, s, cs)
  }

  function Other(p: char): char {
    if Lower(p) == 'x' then 'y' else 'x'
  }

  /** What the text at i must fit: u at 0 and v at d. */
  function Needed(u: string, i: nat): char {
    if i < |u| then u[i] else '?'
  }

  function NeededFrom(v: string, d: nat, i: nat): char {
    if d <= i < d + |v| then v[i - d] else '?'
  }

  /** A text with u at its beginning and v at d, in which v does not stand behind u because of its character j. */
  function Witness(u: string, v: string, d: nat, j: nat): (t: string)
    requires j < |v|
    ensures |t| == if d + |v| > |u| + j then d + |v| else |u| + j + 1
  {
    seq(if d + |v| > |u| + j then d + |v| else |u| + j + 1, i requires 0 <= i =>
      if Needed(u, i) != '?' then Needed(u, i)
      else if NeededFrom(v, d, i) != '?' then NeededFrom(v, d, i)
      else Other(v[j]))
  }

  lemma WitnessStands(u: string, v: string, cs: bool, s: nat, j: nat, t: string)
    requires StarFree(u) && StarFree(v) && 1 <= s < |u| && j < |v| && Overlapping(u, v, s, cs)
    requires t == Witness(u, v, |u| - s, j)
    ensures Stands(t, u, cs, 0) && Stands(t, v, cs, |u| - s)
  {
    var d := |u| - s;
    assert forall i :: 0 <= i < |u| ==> Fits(t[i], u[i], cs);
    forall i | 0 <= i < |v|
      ensures Fits(t[d + i], v[i], cs)
    {
      assert NeededFrom(v, d, d + i) == v[i];
      if i < s { assert Agree(u[d + i], v[i], cs); }
    }
  }

  lemma WitnessEscapes(u: string, v: string, cs: bool, trail: string, s: nat, j: nat, t: string)
    requires 1 <= s < |u| && j < |v| && v[j] != '?' && EscapesAt(v, trail, s, j, cs)
    requires t == Witness(u, v, |u| - s, j)
    ensures !RunsOut(t, v, cs, |u|) && !FoundFrom(t, v, cs, trail, |u|)
  {
    var d := |u| - s;
    assert NeededFrom(v, d, |u| + j) == if s + j < |v| then v[s + j] else '?';
    assert !Fits(t[|u| + j], v[j], cs);
    NotHere(t, v, cs, j, |u|);
  }

  lemma AmbiguousOverlaps(u: string, v: string, cs: bool, lead: string, trail: string) returns (t: string)
    requires StarFree(u) && StarFree(v) && Ambiguous(u, v, trail, cs)
    ensures Overlap(t, u, v, cs, lead, trail)
  {
    var s: nat :| 1 <= s < |u| && Overlapping(u, v, s, cs) && Escapes(v, trail, s, cs);
    var j: nat :| 0 <= j < |v| && v[j] != '?' && EscapesAt(v, trail, s, j, cs);
    t := Witness(u, v, |u| - s, j);
    WitnessStands(u, v, cs, s, j, t);
    WitnessEscapes(u, v, cs, trail, s, j, t);
    assert Found(t, v, cs, trail, |u| - s);
    assert Begins(t, u, cs, lead, 0) && OverlapAt(t, u, v, cs, trail, 0);
  }

  lemma OverlapIsAmbiguous(t: string, u: string, v: string, cs: bool, trail: string, r: nat)
    requires Stands(t, u, cs, r) && OverlapAt(t, u, v, cs, trail, r)
    ensures Ambiguous(u, v, trail, cs)
  {
    var x := r + |u|;
    var y: nat :| r < y < x && Found(t, v, cs, trail, y);
    var s := x - y;
    BothStand(t, u, v, cs, r, y, s);
    if x + |v| <= |t| && Stands(t, v, cs, x) { assert Found(t, v, cs, trail, x); }
    var j := FirstMisfit(t, v, cs, x);
    Misfit(t, v, cs, trail, y, s, j);
    assert Escapes(v, trail, s, cs);
  }

  lemma BothStand(t: string, u: string, v: string, cs: bool, r: nat, y: nat, s: nat)
    requires Stands(t, u, cs, r) && Stands(t, v, cs, y) && r < y && s == r + |u| - y && s <= |u|
    ensures Overlapping(u, v, s, cs)
  {
    forall i | 0 <= i < s && i < |v|
      ensures Agree(u[|u| - s + i], v[i], cs)
    {
      assert t[r..r + |u|][|u| - s + i] == t[y + i] == t[y..y + |v|][i];
    }
  }

  /** Where the attempt behind u fails. */
  lemma FirstMisfit(t: string, v: string, cs: bool, x: nat) returns (j: nat)
    requires x <= |t| && StarFree(v) && !RunsOut(t, v, cs, x)
    requires x + |v| > |t| || !Stands(t, v, cs, x)
    ensures j < |v| && x + j < |t| && !Fits(t[x + j], v[j], cs)
  {
    if x + |v| <= |t| {
      j :| 0 <= j < |v| && !Fits(t[x..x + |v|][j], v[j], cs);
    } else {
      j :| 0 <= j < |t| - x && !Fits(t[x..][j], v[..|t| - x][j], cs);
    }
  }

  lemma Misfit(t: string, v: string, cs: bool, trail: string, y: nat, s: nat, j: nat)
    requires Found(t, v, cs, trail, y) && j < |v| && y + s + j < |t| && !Fits(t[y + s + j], v[j], cs)
    ensures v[j] != '?' && EscapesAt(v, trail, s, j, cs)
  {
    if s + j < |v| { assert t[y..y + |v|][s + j] == t[y + s + j]; }
  }

  /**
   * Whether a pattern u*v is decided rightly for every text depends on u and v alone, and on whether stars follow:
   * it is unless the end of u and the beginning of v can stand for the same text and v need not follow u then.
   */
  lemma AlwaysRightIff(pat: string, cs: bool, lead: string, u: string, gap: string, v: string, trail: string)
    requires OneGap(pat, lead, u, gap, v, trail)
    ensures (forall t :: Accepts(t, pat, cs) == Glob(t, pat, cs)) <==> !Ambiguous(u, v, trail, cs)
  {
    forall t
      ensures Accepts(t, pat, cs) == Glob(t, pat, cs) <==> !Overlap(t, u, v, cs, lead, trail)
    {
      OneGapIff(t, pat, cs, lead, u, gap, v, trail);
    }
    if Ambiguous(u, v, trail, cs) {
      var t := AmbiguousOverlaps(u, v, cs, lead, trail);
      assert Accepts(t, pat, cs) != Glob(t, pat, cs);
    } else {
      forall t
        ensures !Overlap(t, u, v, cs, lead, trail)
      {
        if r: nat :| Begins(t, u, cs, lead, r) && OverlapAt(t, u, v, cs, trail, r) {
          OverlapIsAmbiguous(t, u, v, cs, trail, r);
        }
      }
    }
  }

  /** For example ab*bc accepts abc, and *ab*bc* accepts xabcx. */
  lemma OverlapExamples()
    ensures Accepts("abc", "ab*bc", true) && !Glob("abc", "ab*bc", true)
    ensures Accepts("xabcx", "*ab*bc*", true) && !Glob("xabcx", "*ab*bc*", true)
  {
    EnclosedExample();
  }

  lemma EnclosedExample()
    ensures Accepts("xabcx", "*ab*bc*", true) && !Glob("xabcx", "*ab*bc*", true)
  {
  }
}
