/**
 * What splitting finds in every text made of words, gaps and quoted pieces, with the characters that separate,
 * quote and protect written out.
 */
module ArgvLayout {
  import opened Argv

  const SEPARATORS: string := " \t\n\U{000B}\U{000C}\r"
  const MARKS: string := "'\""

  /** A piece of a word: characters that stand for themselves, or a string between two quotes of either kind. */
  datatype Part = Bare(text: string) | InQuotes(mark: char, text: string)

  predicate Readable(p: Part) {
    match p
    case Bare(text) => text != "" && forall i :: 0 <= i < |text| ==> text[i] !in SEPARATORS && text[i] !in MARKS
    case InQuotes(mark, text) => mark in MARKS && (text == "" || text[|text| - 1] != '\\')
  }

  predicate AllReadable(w: seq<Part>) {
    forall j :: 0 <= j < |w| ==> Readable(w[j])
  }

  function Written(p: Part): string {
    match p
    case Bare(text) => text
    case InQuotes(mark, text) => [mark] + Escaped(mark, text) + [mark]
  }

  function WrittenWord(w: seq<Part>): string {
    if w == [] then "" else Written(w[0]) + WrittenWord(w[1..])
  }

  function Meaning(w: seq<Part>): string {
    if w == [] then "" else w[0].text + Meaning(w[1..])
  }

  function Meanings(words: seq<seq<Part>>): seq<string> {
    if words == [] then [] else [Meaning(words[0])] + Meanings(words[1..])
  }

  /** Words with gaps around them, and behind them, possibly, what a quote that is never closed has cut off. */
  function Layout(gaps: seq<string>, words: seq<seq<Part>>, open: string): string
    requires |gaps| == |words| + 1
  {
    if words == [] then gaps[0] + open else gaps[0] + (WrittenWord(words[0]) + Layout(gaps[1..], words[1..], open))
  }

  predicate Blank(gap: string) {
    forall i :: 0 <= i < |gap| ==> gap[i] in SEPARATORS
  }

  /** A word with a last quote that nothing closes. */
  predicate CutOff(open: string, w: seq<Part>, mark: char, s: string) {
    AllReadable(w) && mark in MARKS && open == WrittenWord(w) + ([mark] + Escaped(mark, s))
  }

  ghost predicate Unclosed(open: string) {
    open == "" || exists w, mark, s :: CutOff(open, w, mark, s)
  }

  ghost predicate WellLaid(gaps: seq<string>, words: seq<seq<Part>>, open: string) {
    && |gaps| == |words| + 1 && Unclosed(open)
    && (forall i :: 0 <= i < |gaps| ==> Blank(gaps[i]))
    && (forall i :: 0 < i < |words| ==> gaps[i] != "")
    && (open != "" && words != [] ==> gaps[|words|] != "")
    && forall i :: 0 <= i < |words| ==> words[i] != [] && AllReadable(words[i])
  }

  /** A backslash goes in front of each quote of the kind, and nothing else changes. */
  lemma {:induction false} EscapedUpTo(mark: char, a: string, b: string)
    requires mark !in a
    ensures Escaped(mark, a) == a && Escaped(mark, a + ([mark] + b)) == a + (['\\', mark] + Escaped(mark, b))
    decreases |a|
  {
    var x, y := [mark] + b, ['\\', mark] + Escaped(mark, b);
    if a == "" {
      assert a + x == x && x[1..] == b && a + y == y;
    } else {
      EscapedUpTo(mark, a[1..], b);
      assert (a + x)[0] == a[0] && (a + x)[1..] == a[1..] + x;
      Associative([a[0]], a[1..], y);
      assert [a[0]] + a[1..] == a;
    }
  }

  lemma PartRead(p: Part, r: string, acc: string)
    requires Readable(p)
    ensures SkipWord(Written(p) + r) == SkipWord(r) && CopyWord(Written(p) + r, acc) == CopyWord(r, acc + p.text)
  {
    if p.Bare? { PlainPart(p.text, r, acc); } else { QuotedPart(p.mark, p.text, r, acc); }
  }

  lemma {:induction false} WordRead(w: seq<Part>, r: string, acc: string)
    requires AllReadable(w)
    ensures SkipWord(WrittenWord(w) + r) == SkipWord(r)
    ensures CopyWord(WrittenWord(w) + r, acc) == CopyWord(r, acc + Meaning(w))
    decreases |w|
  {
    if w == [] {
      assert "" + r == r && acc + "" == acc;
    } else {
      var rest := WrittenWord(w[1..]) + r;
      PartRead(w[0], rest, acc);
      WordRead(w[1..], r, acc + w[0].text);
      Associative(Written(w[0]), WrittenWord(w[1..]), r);
      Associative(acc, w[0].text, Meaning(w[1..]));
    }
  }

  lemma {:induction false} GapSkipped(gap: string, r: string)
    requires Blank(gap) && (r == "" || r[0] !in SEPARATORS)
    ensures SkipSpaces(gap + r) == r
    decreases |gap|
  {
    if gap == "" {
      assert gap + r == r;
    } else {
      assert gap[0] in SEPARATORS && (gap + r)[1..] == gap[1..] + r;
      GapSkipped(gap[1..], r);
    }
  }

  lemma {:induction false} NeverClosed(before: char, mark: char, s: string)
    requires mark != '\\'
    ensures SkipQuoted(before, mark, Escaped(mark, s)) == ""
    decreases |s|
  {
    if s != "" {
      var rest := Escaped(mark, s[1..]);
      NeverClosed(s[0], mark, s[1..]);
      if s[0] == mark {
        assert (['\\', mark] + rest)[1..] == [mark] + rest && ([mark] + rest)[1..] == rest;
      } else {
        assert ([s[0]] + rest)[1..] == rest;
      }
    }
  }

  lemma OpenLost(open: string)
    requires Unclosed(open) && open != ""
    ensures !IsSpace(open[0]) && SkipWord(open) == ("", true)
  {
    var w, mark, s :| CutOff(open, w, mark, s);
    var r := [mark] + Escaped(mark, s);
    WordRead(w, r, "");
    assert r[1..] == Escaped(mark, s);
    NeverClosed(mark, mark, s);
    if w == [] { assert "" + r == r; } else { WordStart(w, r); }
  }

  lemma GapOnly(gap: string, open: string)
    requires Blank(gap) && Unclosed(open)
    ensures Count(gap + open) == 0
  {
    if open != "" {
      OpenLost(open);
      assert Count("") == 0;
    }
    GapSkipped(gap, open);
  }

  lemma WordStart(w: seq<Part>, r: string)
    requires w != [] && Readable(w[0])
    ensures WrittenWord(w) + r != "" && (WrittenWord(w) + r)[0] !in SEPARATORS && !Ends(WrittenWord(w) + r)
  {
    assert (WrittenWord(w) + r)[0] == Written(w[0])[0];
  }

  lemma LayoutEnds(gaps: seq<string>, words: seq<seq<Part>>, open: string)
    requires WellLaid(gaps, words, open) && words != []
    ensures WellLaid(gaps[1..], words[1..], open) && Ends(Layout(gaps[1..], words[1..], open))
  {
    assert forall i :: 0 < i < |words| - 1 ==> gaps[1..][i] == gaps[i + 1];
    assert gaps[1..][0] == gaps[1] && Blank(gaps[1]);
    StartsWithGap(gaps[1..], words[1..], open);
  }

  lemma StartsWithGap(gaps: seq<string>, words: seq<seq<Part>>, open: string)
    requires |gaps| == |words| + 1 && Blank(gaps[0]) && (gaps[0] != "" || (words == [] && open == ""))
    ensures Ends(Layout(gaps, words, open))
  {
    if gaps[0] != "" {
      assert gaps[0][0] in SEPARATORS && Layout(gaps, words, open)[0] == gaps[0][0];
    }
  }

  /** The text from one word on is split into that word and what the rest is split into. */
  lemma FirstWord(t: string, gap: string, w: seq<Part>, rest: string, n: nat)
    requires t == gap + (WrittenWord(w) + rest) && !IsComment(t)
    requires Blank(gap) && w != [] && AllReadable(w) && Ends(rest)
    ensures Count(t) == 1 + Count(rest) && Words(t, n + 1) == [Meaning(w)] + Words(rest, n)
  {
    var u := WrittenWord(w) + rest;
    WordStart(w, rest);
    GapSkipped(gap, u);
    WordRead(w, rest, "");
    assert "" + Meaning(w) == Meaning(w);
    assert SkipSpaces(t) == u != "" && SkipWord(u) == (rest, false) && CopyWord(u, "") == (Meaning(w), rest);
  }

  /** A text is split into these words, if it does not start with a comment sign. */
  ghost predicate SplitsInto(t: string, words: seq<string>) {
    forall n: nat :: n == |words| ==> Count(t) == n && Words(t, n) == words
  }

  lemma NoWords(gap: string, open: string)
    requires Blank(gap) && Unclosed(open)
    ensures SplitsInto(gap + open, [])
  {
    GapOnly(gap, open);
  }

  lemma MoreWords(t: string, gap: string, w: seq<Part>, rest: string, meanings: seq<string>)
    requires t == gap + (WrittenWord(w) + rest) && !IsComment(t)
    requires Blank(gap) && w != [] && AllReadable(w) && Ends(rest) && SplitsInto(rest, meanings)
    ensures SplitsInto(t, [Meaning(w)] + meanings)
  {
    FirstWord(t, gap, w, rest, |meanings|);
  }

  lemma {:induction false} LayoutWords(t: string, gaps: seq<string>, words: seq<seq<Part>>, open: string)
    requires WellLaid(gaps, words, open) && t == Layout(gaps, words, open) && !IsComment(t)
    ensures SplitsInto(t, Meanings(words))
    decreases |words|
  {
    if words == [] {
      NoWords(gaps[0], open);
    } else {
      var rest := Layout(gaps[1..], words[1..], open);
      LayoutEnds(gaps, words, open);
      LayoutWords(rest, gaps[1..], words[1..], open);
      MoreWords(t, gaps[0], words[0], rest, Meanings(words[1..]));
    }
  }

  lemma LayoutSplit(gaps: seq<string>, words: seq<seq<Part>>, open: string)
    requires WellLaid(gaps, words, open) && !IsComment(Layout(gaps, words, open))
    ensures Split(Layout(gaps, words, open)) == Meanings(words)
  {
    LayoutWords(Layout(gaps, words, open), gaps, words, open);
    IntoWords(Layout(gaps, words, open), Meanings(words));
  }

  lemma IntoWords(t: string, words: seq<string>)
    requires SplitsInto(t, words)
    ensures Split(t) == words
  {
    assert Words(t, |words|) == words;
  }

  /**
   * A text of words, gaps and possibly a last word cut off by a quote that is never closed is split into the words,
   * exactly when it does not start with a comment sign.
   */
  lemma SplitIff(gaps: seq<string>, words: seq<seq<Part>>, open: string)
    requires WellLaid(gaps, words, open) && words != []
    ensures Layout(gaps, words, open) != ""
    ensures Split(Layout(gaps, words, open)) == Meanings(words) <==> Layout(gaps, words, open)[0] != '#'
  {
    WordStart(words[0], Layout(gaps[1..], words[1..], open));
    if Layout(gaps, words, open)[0] != '#' {
      LayoutSplit(gaps, words, open);
    }
  }

  // ---------------------------------------------------------------------------------------
  // Every text is such a layout
  // ---------------------------------------------------------------------------------------

  /** A text behind an opening quote: up to a quote of the kind that closes, or all of it. */
  lemma {:induction false} ReadQuoted(mark: char, t: string) returns (s: string, closed: bool, rest: string)
    requires mark != '\\'
    ensures t == if closed then Escaped(mark, s) + [mark] + rest else Escaped(mark, s)
    ensures closed ==> (s == "" || s[|s| - 1] != '\\') && |rest| < |t|
    decreases |t|
  {
    if t == "" {
      s, closed, rest := "", false, "";
    } else if t[0] == mark {
      s, closed, rest := "", true, t[1..];
      assert t == Escaped(mark, s) + [mark] + rest;
    } else if t[0] == '\\' && |t| > 1 && t[1] == mark {
      s, closed, rest := ReadQuoted(mark, t[2..]);
      OneMore(mark, mark, s, t[2..], closed, rest);
      assert t == ['\\', mark] + t[2..];
      s := [mark] + s;
    } else {
      s, closed, rest := ReadQuoted(mark, t[1..]);
      OneMore(mark, t[0], s, t[1..], closed, rest);
      assert t == [t[0]] + t[1..];
      assert closed && s == "" ==> t[1] == mark;
      s := [t[0]] + s;
    }
  }

  lemma OneMore(mark: char, c: char, s: string, u: string, closed: bool, rest: string)
    requires u == if closed then Escaped(mark, s) + [mark] + rest else Escaped(mark, s)
    ensures EscapedChar(mark, c) + u
            == if closed then Escaped(mark, [c] + s) + [mark] + rest else Escaped(mark, [c] + s)
  {
    assert ([c] + s)[1..] == s;
  }

  /** The pieces of the word at the start of a text, and what comes behind it unless a quote is never closed. */
  lemma {:induction false} ReadWord(t: string) returns (w: seq<Part>, rest: string, cut: bool)
    ensures AllReadable(w) && (w == [] && !cut ==> Ends(t))
    ensures !cut ==> t == WrittenWord(w) + rest && Ends(rest) && (w == [] || |rest| < |t|)
    ensures cut ==> t != "" && Unclosed(t)
    decreases |t|, 1
  {
    if Ends(t) {
      w, rest, cut := [], t, false;
      assert t == "" + t;
    } else if IsQuote(t[0]) {
      var s, closed, u := ReadQuoted(t[0], t[1..]);
      assert t == [t[0]] + t[1..];
      if closed {
        w, rest, cut := ReadBehind(InQuotes(t[0], s), t, u);
      } else {
        w, rest, cut := [], "", true;
        assert t == WrittenWord([]) + t;
        assert CutOff(t, [], t[0], s);
      }
    } else {
      assert t == [t[0]] + t[1..];
      w, rest, cut := ReadBehind(Bare([t[0]]), t, t[1..]);
    }
  }

  /** One piece, and the rest of the word. */
  lemma ReadBehind(p: Part, t: string, u: string) returns (w: seq<Part>, rest: string, cut: bool)
    requires Readable(p) && t == Written(p) + u && |u| < |t|
    ensures AllReadable(w) && (!cut ==> w != [] && t == WrittenWord(w) + rest && Ends(rest) && |rest| < |t|)
    ensures cut ==> t != "" && Unclosed(t)
    decreases |t|, 0
  {
    var w';
    w', rest, cut := ReadWord(u);
    w := [p] + w';
    assert w[0] == p && w[1..] == w';
    if cut {
      var v, mark, s :| CutOff(u, v, mark, s);
      PieceBefore(p, v, [mark] + Escaped(mark, s));
      assert CutOff(t, [p] + v, mark, s);
    } else {
      PieceBefore(p, w', rest);
    }
  }

  lemma PieceBefore(p: Part, v: seq<Part>, r: string)
    ensures Written(p) + (WrittenWord(v) + r) == WrittenWord([p] + v) + r
  {
    assert ([p] + v)[1..] == v;
  }

  lemma {:induction false} LeadingGap(t: string) returns (gap: string)
    ensures Blank(gap) && t == gap + SkipSpaces(t)
  {
    if t != "" && IsSpace(t[0]) {
      gap := LeadingGap(t[1..]);
      gap := [t[0]] + gap;
    } else {
      gap := "";
    }
  }

  lemma {:induction false} EveryText(t: string) returns (gaps: seq<string>, words: seq<seq<Part>>, open: string)
    ensures WellLaid(gaps, words, open) && t == Layout(gaps, words, open)
    decreases |t|
  {
    var gap := LeadingGap(t);
    var u := SkipSpaces(t);
    var w, rest, cut := ReadWord(u);
    if u == "" || cut {
      gaps, words, open := [gap], [], u;
    } else {
      gaps, words, open := EveryText(rest);
      gaps, words := Prepend(gap, w, rest, gaps, words, open);
    }
  }

  lemma Prepend(gap: string, w: seq<Part>, rest: string, gaps: seq<string>, words: seq<seq<Part>>, open: string)
    returns (gaps': seq<string>, words': seq<seq<Part>>)
    requires WellLaid(gaps, words, open) && rest == Layout(gaps, words, open) && Ends(rest)
    requires Blank(gap) && w != [] && AllReadable(w)
    ensures WellLaid(gaps', words', open) && Layout(gaps', words', open) == gap + (WrittenWord(w) + rest)
  {
    gaps', words' := [gap] + gaps, [w] + words;
    assert gaps'[1..] == gaps && words'[1..] == words;
    GapBefore(gaps, words, open);
    OneMoreLaid(gaps', words', open);
  }

  lemma OneMoreLaid(gaps: seq<string>, words: seq<seq<Part>>, open: string)
    requires |gaps| == |words| + 1 && words != [] && WellLaid(gaps[1..], words[1..], open)
    requires Blank(gaps[0]) && words[0] != [] && AllReadable(words[0])
    requires gaps[1] != "" || (|words| == 1 && open == "")
    ensures WellLaid(gaps, words, open)
  {
    assert forall i :: 0 < i < |gaps| ==> gaps[i] == gaps[1..][i - 1];
    assert forall i :: 0 < i < |words| ==> words[i] == words[1..][i - 1];
  }

  /** A layout that is empty or starts with a separator has a first gap unless it is empty. */
  lemma GapBefore(gaps: seq<string>, words: seq<seq<Part>>, open: string)
    requires WellLaid(gaps, words, open) && Ends(Layout(gaps, words, open))
    ensures gaps[0] != "" || (words == [] && open == "")
  {
    if gaps[0] == "" && words != [] {
      WordFirst(words[0], Layout(gaps[1..], words[1..], open), Layout(gaps, words, open));
    } else if gaps[0] == "" && open != "" {
      NoGap(open);
      OpenLost(open);
    }
  }

  lemma WordFirst(w: seq<Part>, rest: string, t: string)
    requires w != [] && AllReadable(w) && t == "" + (WrittenWord(w) + rest)
    ensures !Ends(t)
  {
    NoGap(WrittenWord(w) + rest);
    WordStart(w, rest);
  }

  lemma NoGap(t: string)
    ensures "" + t == t
  {
  }

  /** What every text is split into. */
  lemma SplitIsMeaning(t: string) returns (gaps: seq<string>, words: seq<seq<Part>>, open: string)
    ensures WellLaid(gaps, words, open) && t == Layout(gaps, words, open)
    ensures Split(t) == if t != "" && t[0] == '#' then [] else Meanings(words)
  {
    gaps, words, open := EveryText(t);
    if !IsComment(t) {
      LayoutSplit(gaps, words, open);
    }
  }
}
