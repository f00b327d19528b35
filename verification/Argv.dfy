/**
 * An argument list built up one argument at a time, its text, and the splitting of a text into arguments.
 *
 * C strings are sequences without their terminating NUL.
 */
module Argv {

  // ---------------------------------------------------------------------------------------
  // The text of a list of arguments
  // ---------------------------------------------------------------------------------------

  /** An argument, and whether it is put in double quotes. */
  datatype Entry = Entry(arg: string, quoted: bool)

  /** Inner quotes of one kind get a backslash. */
  function Escaped(mark: char, s: string): string {
    if s == "" then "" else EscapedChar(mark, s[0]) + Escaped(mark, s[1..])
  }

  function EscapedChar(mark: char, c: char): string {
    if c == mark then ['\\', mark] else [c]
  }

  function Rendered(e: Entry): string {
    if e.quoted then "\"" + Escaped('"', e.arg) + "\"" else e.arg
  }

  /** Every argument with a blank behind it. */
  function Body(q: seq<Entry>): string {
    if q == [] then "" else Body(q[..|q| - 1]) + Rendered(q[|q| - 1]) + " "
  }

  /** The arguments joined by single blanks. */
  function Text(q: seq<Entry>): string
    requires q != []
  {
    Rendered(q[0]) + Tail(q[1..])
  }

  function Tail(q: seq<Entry>): string {
    if q == [] then "" else " " + Rendered(q[0]) + Tail(q[1..])
  }

  lemma {:induction false} BodyIsText(q: seq<Entry>)
    requires q != []
    ensures Body(q) == Text(q) + " "
    decreases |q|
  {
    var last := |q| - 1;
    if last == 0 {
      BodyOfOne(q);
    } else {
      BodyIsText(q[..last]);
      TextGrows(q[..last], q[last], q);
      Regroup(Text(q[..last]), Rendered(q[last]));
    }
  }

  lemma TextGrows(front: seq<Entry>, e: Entry, q: seq<Entry>)
    requires front != [] && q == front + [e]
    ensures Text(q) == Text(front) + " " + Rendered(e)
  {
    TailConcat(front[1..], e);
    assert q[1..] == front[1..] + [e];
    Associative(Rendered(front[0]), Tail(front[1..]), " " + Rendered(e));
    Associative(Tail(front[1..]), " ", Rendered(e));
    Associative(Text(front), " ", Rendered(e));
  }

  lemma BodyOfOne(q: seq<Entry>)
    requires |q| == 1
    ensures Body(q) == Text(q) + " "
  {
    assert q[..0] == [] && q[1..] == [];
    assert "" + Rendered(q[0]) == Rendered(q[0]) + "" == Rendered(q[0]);
  }

  lemma Regroup(t: string, r: string)
    ensures (t + " ") + r + " " == (t + " " + r) + " "
  {
  }

  lemma Associative(a: string, b: string, c: string)
    ensures a + (b + c) == (a + b) + c
  {
  }

  lemma {:induction false} TailConcat(q: seq<Entry>, e: Entry)
    ensures Tail(q + [e]) == Tail(q) + " " + Rendered(e)
    decreases |q|
  {
    if q == [] {
      assert (q + [e])[1..] == [];
      assert Tail(q + [e]) == " " + Rendered(e) + "";
    } else {
      assert (q + [e])[1..] == q[1..] + [e];
      TailConcat(q[1..], e);
    }
  }

  /** The characters of the rendered arguments, without blanks between them. */
  function Total(q: seq<Entry>): nat {
    if q == [] then 0 else Total(q[..|q| - 1]) + |Rendered(q[|q| - 1])|
  }

  lemma {:induction false} BodyLength(q: seq<Entry>)
    ensures |Body(q)| == Total(q) + |q|
    decreases |q|
  {
    if q != [] { BodyLength(q[..|q| - 1]); }
  }

  lemma {:induction false} BodyGrows(q: seq<Entry>, i: nat)
    requires i <= |q|
    ensures |Body(q[..i])| <= |Body(q)|
    ensures i < |q| ==> Body(q[..i + 1]) == Body(q[..i]) + Rendered(q[i]) + " " && |Body(q[..i + 1])| <= |Body(q)|
    decreases |q| - i
  {
    if i < |q| {
      assert q[..i + 1][..i] == q[..i];
      BodyGrows(q, i + 1);
    } else {
      assert q[..i] == q;
    }
  }

  function Quotes(s: string): nat {
    if s == "" then 0 else Quotes(s[..|s| - 1]) + if s[|s| - 1] == '"' then 1 else 0
  }

  lemma {:induction false} EscapedLast(s: string)
    requires s != ""
    ensures Escaped('"', s) == Escaped('"', s[..|s| - 1]) + EscapedChar('"', s[|s| - 1])
  {
    var front := s[..|s| - 1];
    if |s| > 1 {
      EscapedLast(s[1..]);
      assert s[1..][..|s| - 2] == front[1..];
      Associative(EscapedChar('"', s[0]), Escaped('"', front[1..]), EscapedChar('"', s[|s| - 1]));
    } else {
      assert s[1..] == "" && front == "";
      assert EscapedChar('"', s[0]) + "" == "" + EscapedChar('"', s[0]);
    }
  }

  lemma {:induction false} EscapedLength(s: string)
    ensures |Escaped('"', s)| == |s| + Quotes(s)
  {
    if s != "" {
      EscapedLast(s);
      EscapedLength(s[..|s| - 1]);
    }
  }

  lemma {:induction false} NothingToEscape(s: string)
    requires '"' !in s
    ensures Escaped('"', s) == s && Quotes(s) == 0
  {
    if s != "" {
      EscapedLast(s);
      NothingToEscape(s[..|s| - 1]);
    }
  }

  // ---------------------------------------------------------------------------------------
  // Splitting
  // ---------------------------------------------------------------------------------------

  predicate IsSpace(c: char) {
    c == ' ' || '\t' <= c <= '\r'
  }

  predicate IsQuote(c: char) {
    c == '\'' || c == '"'
  }

  function SkipSpaces(t: string): (u: string)
    ensures |u| <= |t| && (u != "" ==> !IsSpace(u[0]))
  {
    if t != "" && IsSpace(t[0]) then SkipSpaces(t[1..]) else t
  }

  /** Up to the closing quote; one with a backslash before it does not close. */
  function SkipQuoted(before: char, quote: char, t: string): (u: string)
    ensures |u| <= |t|
    decreases |t|
  {
    if t != "" && (t[0] != quote || before == '\\') then SkipQuoted(t[0], quote, t[1..]) else t
  }

  /** Behind a word, and whether it has an unmatched quote. */
  function SkipWord(t: string): (r: (string, bool))
    ensures |r.0| <= |t| && (t != "" && !IsSpace(t[0]) ==> |r.0| < |t|)
    ensures (r.0 == "" || IsSpace(r.0[0])) && (r.1 ==> r.0 == "")
    decreases |t|
  {
    if t == "" || IsSpace(t[0]) then (t, false)
    else if IsQuote(t[0]) then
      var u := SkipQuoted(t[0], t[0], t[1..]);
      if u == "" then ("", true) else SkipWord(u[1..])
    else SkipWord(t[1..])
  }

  /** The first pass: how many arguments there are. A comment sign counts only at the very start. */
  function Count(t: string): nat
    decreases |t|
  {
    if t == "" || t[0] == '#' then 0
    else
      var u := SkipSpaces(t);
      if u == "" then 0
      else
        var (rest, unmatched) := SkipWord(u);
        (if unmatched then 0 else 1) + Count(rest)
  }

  /** The text up to the closing quote; a backslash before a quote is dropped again. */
  function CopyQuoted(before: char, quote: char, t: string, acc: string): (r: (string, string))
    requires before == '\\' ==> acc != ""
    ensures |r.1| <= |t|
    decreases |t|
  {
    if t != "" && (t[0] != quote || before == '\\') then
      CopyQuoted(t[0], quote, t[1..], (if t[0] == quote then acc[..|acc| - 1] else acc) + [t[0]])
    else (acc, t)
  }

  /** A word with its quotes removed, and what comes behind it. */
  function CopyWord(t: string, acc: string): (r: (string, string))
    ensures |r.1| <= |t|
    decreases |t|
  {
    if t == "" || IsSpace(t[0]) then (acc, t)
    else if IsQuote(t[0]) then
      var (more, u) := CopyQuoted(t[0], t[0], t[1..], acc);
      CopyWord(if u == "" then u else u[1..], more)
    else CopyWord(t[1..], acc + [t[0]])
  }

  /** The second pass: n words. */
  function Words(t: string, n: nat): seq<string>
    decreases n
  {
    if n == 0 then []
    else
      var (word, rest) := CopyWord(SkipSpaces(t), "");
      [word] + Words(rest, n - 1)
  }

  function Split(t: string): seq<string> {
    Words(t, Count(t))
  }

  // ---------------------------------------------------------------------------------------
  // Splitting undoes joining
  // ---------------------------------------------------------------------------------------

  /** Characters that stand for themselves outside quotes. */
  predicate Plain(s: string) {
    forall i :: 0 <= i < |s| ==> !IsSpace(s[i]) && !IsQuote(s[i])
  }

  /** Without quotes an argument must be a plain word; with quotes it must not end in a backslash. */
  predicate WellFormed(e: Entry) {
    if e.quoted then e.arg != "" && e.arg[|e.arg| - 1] != '\\' else e.arg != "" && Plain(e.arg)
  }

  /** What may follow a word. */
  predicate Ends(r: string) {
    r == "" || IsSpace(r[0])
  }

  lemma {:induction false} PlainPart(w: string, r: string, acc: string)
    requires Plain(w)
    ensures SkipWord(w + r) == SkipWord(r) && CopyWord(w + r, acc) == CopyWord(r, acc + w)
    decreases |w|
  {
    if w == "" {
      assert w + r == r && acc + w == acc;
    } else {
      assert (w + r)[0] == w[0] && (w + r)[1..] == w[1..] + r;
      PlainPart(w[1..], r, acc + [w[0]]);
      assert acc + [w[0]] + w[1..] == acc + w;
    }
  }

  /** The last character before the closing quote is not a backslash. */
  predicate Closes(before: char, s: string) {
    if s == "" then before != '\\' else s[|s| - 1] != '\\'
  }

  lemma PlainStep(before: char, mark: char, c: char, u: string, acc: string)
    requires c != mark && (before == '\\' ==> acc != "")
    ensures SkipQuoted(before, mark, [c] + u) == SkipQuoted(c, mark, u)
    ensures CopyQuoted(before, mark, [c] + u, acc) == CopyQuoted(c, mark, u, acc + [c])
  {
    assert ([c] + u)[1..] == u;
  }

  lemma MarkStep(before: char, mark: char, u: string, acc: string)
    requires mark != '\\' && (before == '\\' ==> acc != "")
    ensures SkipQuoted(before, mark, ['\\', mark] + u) == SkipQuoted(mark, mark, u)
    ensures CopyQuoted(before, mark, ['\\', mark] + u, acc) == CopyQuoted(mark, mark, u, acc + [mark])
  {
    PlainStep(before, mark, '\\', [mark] + u, acc);
    assert ['\\'] + ([mark] + u) == ['\\', mark] + u && ([mark] + u)[1..] == u;
    assert (acc + ['\\'])[..|acc|] == acc;
  }

  /** One character of the argument is one or two of the text, and one of the copy. */
  lemma EscapedStep(before: char, mark: char, s: string, r: string, acc: string, u: string)
    requires s != "" && u == Escaped(mark, s[1..]) + [mark] + r && mark != '\\' && (before == '\\' ==> acc != "")
    ensures var t := Escaped(mark, s) + [mark] + r;
            && SkipQuoted(before, mark, t) == SkipQuoted(s[0], mark, u)
            && CopyQuoted(before, mark, t, acc) == CopyQuoted(s[0], mark, u, acc + [s[0]])
  {
    assert Escaped(mark, s) + [mark] + r == EscapedChar(mark, s[0]) + u;
    if s[0] == mark { MarkStep(before, mark, u, acc); } else { PlainStep(before, mark, s[0], u, acc); }
  }

  lemma {:induction false} EscapedQuoted(before: char, mark: char, s: string, r: string, acc: string)
    requires mark != '\\' && (before == '\\' ==> acc != "")
    requires Closes(before, s)
    ensures SkipQuoted(before, mark, Escaped(mark, s) + [mark] + r) == [mark] + r
    ensures CopyQuoted(before, mark, Escaped(mark, s) + [mark] + r, acc) == (acc + s, [mark] + r)
    decreases |s|
  {
    if s == "" {
      assert Escaped(mark, s) + [mark] + r == [mark] + r && acc + s == acc;
    } else {
      EscapedQuoted(s[0], mark, s[1..], r, acc + [s[0]]);
      EscapedStep(before, mark, s, r, acc, Escaped(mark, s[1..]) + [mark] + r);
      assert acc + [s[0]] + s[1..] == acc + s;
    }
  }

  /** A quoted part is read as the string in it, and the rest of the word comes behind its closing quote. */
  lemma QuotedPart(mark: char, s: string, r: string, acc: string)
    requires IsQuote(mark) && Closes(mark, s)
    ensures var t := [mark] + Escaped(mark, s) + [mark] + r;
            SkipWord(t) == SkipWord(r) && CopyWord(t, acc) == CopyWord(r, acc + s)
  {
    EscapedQuoted(mark, mark, s, r, acc);
    OneCharacter(mark, Escaped(mark, s), r);
    assert ([mark] + r)[1..] == r;
  }

  lemma OneCharacter(c: char, middle: string, r: string)
    ensures ([c] + middle + [c] + r)[0] == c && ([c] + middle + [c] + r)[1..] == middle + [c] + r
  {
  }

  /** A rendered argument is read as one word, with the text it was made from. */
  lemma RenderedWord(e: Entry, r: string)
    requires WellFormed(e) && Ends(r)
    ensures SkipWord(Rendered(e) + r) == (r, false) && CopyWord(Rendered(e) + r, "") == (e.arg, r)
  {
    if e.quoted {
      QuotedPart('"', e.arg, r, "");
      assert "" + e.arg == e.arg;
    } else {
      PlainPart(e.arg, r, "");
      assert "" + e.arg == e.arg;
    }
  }

  function Args(q: seq<Entry>): seq<string> {
    if q == [] then [] else [q[0].arg] + Args(q[1..])
  }

  predicate AllWellFormed(q: seq<Entry>) {
    forall i :: 0 <= i < |q| ==> WellFormed(q[i])
  }

  lemma RenderedStart(e: Entry, r: string)
    requires WellFormed(e)
    ensures Rendered(e) != "" && SkipSpaces(Rendered(e) + r) == Rendered(e) + r == SkipSpaces(" " + Rendered(e) + r)
  {
    assert (Rendered(e) + r)[0] == Rendered(e)[0];
    assert (" " + Rendered(e) + r)[1..] == Rendered(e) + r;
  }

  /** The text from one argument on is split into that argument and what the rest is split into. */
  lemma OneArgument(e: Entry, t: string, r: string, n: nat)
    requires WellFormed(e) && Ends(r) && SkipSpaces(t) == Rendered(e) + r && t != "" && t[0] != '#'
    ensures Count(t) == 1 + Count(r) && Words(t, n + 1) == [e.arg] + Words(r, n)
  {
    RenderedStart(e, r);
    RenderedWord(e, r);
  }

  lemma {:induction false} SplitTail(q: seq<Entry>)
    requires AllWellFormed(q)
    ensures Ends(Tail(q)) && Count(Tail(q)) == |q| && Words(Tail(q), |q|) == Args(q)
    decreases |q|
  {
    if q != [] {
      SplitTail(q[1..]);
      var r := Tail(q[1..]);
      RenderedStart(q[0], r);
      OneArgument(q[0], " " + Rendered(q[0]) + r, r, |q| - 1);
    }
  }

  /** The text starts with a comment sign, which makes a split find nothing. */
  predicate IsComment(t: string) {
    t != "" && t[0] == '#'
  }

  lemma SplitText(q: seq<Entry>)
    requires q != [] && AllWellFormed(q) && !IsComment(Text(q))
    ensures Split(Text(q)) == Args(q)
  {
    SplitTail(q[1..]);
    RenderedStart(q[0], Tail(q[1..]));
    OneArgument(q[0], Text(q), Tail(q[1..]), |q| - 1);
  }

  // ---------------------------------------------------------------------------------------
  // Quotes are accounted for
  // ---------------------------------------------------------------------------------------

  /** How many quotes of either kind there are. */
  function Marks(s: string): nat {
    if s == "" then 0 else (if IsQuote(s[0]) then 1 else 0) + Marks(s[1..])
  }

  lemma {:induction false} MarksConcat(a: string, b: string)
    ensures Marks(a + b) == Marks(a) + Marks(b)
  {
    if a == "" {
      assert a + b == b;
    } else {
      assert (a + b)[1..] == a[1..] + b;
      MarksConcat(a[1..], b);
    }
  }

  lemma MarksLast(s: string, c: char)
    ensures Marks(s + [c]) == Marks(s) + if IsQuote(c) then 1 else 0
  {
    MarksConcat(s, [c]);
  }

  lemma {:induction false} MarksEscaped(s: string)
    ensures Marks(Escaped('"', s)) == Marks(s)
  {
    if s != "" {
      MarksConcat(EscapedChar('"', s[0]), Escaped('"', s[1..]));
      MarksEscaped(s[1..]);
    }
  }

  lemma MarksRendered(e: Entry)
    ensures Marks(Rendered(e)) == Marks(e.arg) + if e.quoted then 2 else 0
  {
    if e.quoted {
      MarksEscaped(e.arg);
      MarksConcat("\"", Escaped('"', e.arg));
      MarksLast("\"" + Escaped('"', e.arg), '"');
    }
  }

  function AllMarks(w: seq<string>): nat {
    if w == [] then 0 else Marks(w[0]) + AllMarks(w[1..])
  }

  /** The words that cannot be read without a pair of quotes. */
  function Needy(w: seq<string>): nat {
    if w == [] then 0 else (if w[0] == "" || !Plain(w[0]) then 1 else 0) + Needy(w[1..])
  }

  function QuotedOnes(q: seq<Entry>): nat {
    if q == [] then 0 else (if q[0].quoted then 1 else 0) + QuotedOnes(q[1..])
  }

  /** Only an argument with a blank is ever quoted. */
  predicate AllBlanksQuoted(q: seq<Entry>) {
    forall i :: 0 <= i < |q| ==> (q[i].quoted ==> ' ' in q[i].arg)
  }

  /** The text holds the arguments' own quotes, and two more for each quoted argument. */
  lemma {:induction false} MarksTail(q: seq<Entry>)
    ensures Marks(Tail(q)) == AllMarks(Args(q)) + 2 * QuotedOnes(q)
    decreases |q|
  {
    if q != [] {
      MarksTail(q[1..]);
      MarksRendered(q[0]);
      MarksConcat(" ", Rendered(q[0]));
      MarksConcat(" " + Rendered(q[0]), Tail(q[1..]));
    }
  }

  /** Inside quotes none is lost, and the copying pass stops where the counting pass does. */
  lemma {:induction false} QuotedAccount(before: char, quote: char, t: string, acc: string)
    requires IsQuote(quote) && (before == '\\' ==> acc != "" && acc[|acc| - 1] == '\\')
    ensures var r := CopyQuoted(before, quote, t, acc);
            && Marks(r.0) + Marks(r.1) == Marks(acc) + Marks(t)
            && r.1 == SkipQuoted(before, quote, t) && (r.1 != "" ==> r.1[0] == quote)
    decreases |t|
  {
    if t != "" && (t[0] != quote || before == '\\') {
      var kept := if t[0] == quote then acc[..|acc| - 1] else acc;
      if t[0] == quote {
        assert acc == kept + ['\\'];
        MarksLast(kept, '\\');
      }
      MarksLast(kept, t[0]);
      QuotedAccount(t[0], quote, t[1..], kept + [t[0]]);
    }
  }

  /** A word loses two quotes for each quoted part; one with no quoted part is copied as it is. */
  lemma {:induction false} WordAccount(t: string, acc: string) returns (pairs: nat, plain: string)
    requires !SkipWord(t).1
    ensures var r := CopyWord(t, acc);
            && r.1 == SkipWord(t).0 && Marks(r.0) + Marks(r.1) + 2 * pairs == Marks(acc) + Marks(t)
            && (pairs == 0 ==> r.0 == acc + plain && Plain(plain) && (plain == "" ==> Ends(t)))
    decreases |t|
  {
    pairs, plain := 0, "";
    if Ends(t) {
      assert acc + "" == acc;
    } else if IsQuote(t[0]) {
      QuotedAccount(t[0], t[0], t[1..], acc);
      var (more, u) := CopyQuoted(t[0], t[0], t[1..], acc);
      pairs, plain := WordAccount(u[1..], more);
      pairs := pairs + 1;
    } else {
      MarksLast(acc, t[0]);
      pairs, plain := WordAccount(t[1..], acc + [t[0]]);
      plain := [t[0]] + plain;
      if pairs == 0 { assert acc + [t[0]] + plain[1..] == acc + plain; }
    }
  }

  lemma {:induction false} SpacesHaveNoMarks(t: string)
    ensures Marks(SkipSpaces(t)) == Marks(t)
  {
    if t != "" && IsSpace(t[0]) { SpacesHaveNoMarks(t[1..]); }
  }

  /** What a split keeps of the quotes, and what it must have used, was all in the text. */
  lemma {:induction false} SplitAccount(t: string)
    requires !IsComment(t)
    ensures AllMarks(Words(t, Count(t))) + 2 * Needy(Words(t, Count(t))) <= Marks(t)
    decreases |t|
  {
    var u := SkipSpaces(t);
    SpacesHaveNoMarks(t);
    if u != "" && !SkipWord(u).1 {
      var pairs, plain := WordAccount(u, "");
      var word, rest := CopyWord(u, "").0, SkipWord(u).0;
      assert "" + plain == plain;
      SplitAccount(rest);
      assert Words(t, Count(t)) == [word] + Words(rest, Count(rest));
      assert ([word] + Words(rest, Count(rest)))[1..] == Words(rest, Count(rest));
    }
  }

  /** A list with more needy arguments than quoted ones does not come back. */
  lemma {:induction false} NeedyArgs(q: seq<Entry>)
    requires AllBlanksQuoted(q)
    ensures Needy(Args(q)) >= QuotedOnes(q)
    ensures Needy(Args(q)) == QuotedOnes(q) ==> forall i :: 0 <= i < |q| ==> q[i].quoted || WellFormed(q[i])
    decreases |q|
  {
    if q != [] {
      NeedyArgs(q[1..]);
      assert Args(q)[1..] == Args(q[1..]);
      assert forall i :: 0 < i < |q| ==> q[i] == q[1..][i - 1];
      if q[0].quoted {
        var i :| 0 <= i < |q[0].arg| && q[0].arg[i] == ' ';
        assert IsSpace(q[0].arg[i]);
      }
    }
  }

  // ---------------------------------------------------------------------------------------
  // A backslash before the closing quote
  // ---------------------------------------------------------------------------------------

  /** Only a backslash just copied is ever taken back. */
  lemma {:induction false} QuotedExtends(before: char, quote: char, t: string, acc: string)
    requires quote != '\\' && (before == '\\' ==> acc != "")
    ensures (if before == '\\' then acc[..|acc| - 1] else acc) <= CopyQuoted(before, quote, t, acc).0
    decreases |t|
  {
    if t != "" && (t[0] != quote || before == '\\') {
      var kept := if t[0] == quote then acc[..|acc| - 1] else acc;
      QuotedExtends(t[0], quote, t[1..], kept + [t[0]]);
      assert (kept + [t[0]])[..|kept|] == kept;
    }
  }

  lemma {:induction false} WordExtends(t: string, acc: string)
    ensures acc <= CopyWord(t, acc).0
    decreases |t|
  {
    if !Ends(t) && IsQuote(t[0]) {
      QuotedExtends(t[0], t[0], t[1..], acc);
      var (more, u) := CopyQuoted(t[0], t[0], t[1..], acc);
      WordExtends(if u == "" then u else u[1..], more);
    } else if !Ends(t) {
      WordExtends(t[1..], acc + [t[0]]);
    }
  }

  /** The closing quote is taken for an inner one, and replaces the backslash. */
  lemma {:induction false} NeverCloses(before: char, s: string, r: string, acc: string)
    requires !Closes(before, s) && (before == '\\' ==> acc != "")
    ensures (acc + s)[..|acc + s| - 1] + ['"'] <= CopyQuoted(before, '"', Escaped('"', s) + ['"'] + r, acc).0
    decreases |s|
  {
    var t := Escaped('"', s) + ['"'] + r;
    if s == "" {
      assert t == ['"'] + r && t[1..] == r && acc + s == acc;
      QuotedExtends('"', '"', r, acc[..|acc| - 1] + ['"']);
    } else {
      var u := Escaped('"', s[1..]) + ['"'] + r;
      NeverCloses(s[0], s[1..], r, acc + [s[0]]);
      assert acc + [s[0]] + s[1..] == acc + s;
      EscapedStep(before, '"', s, r, acc, u);
    }
  }

  lemma BackslashNeverReturns(e: Entry, r: string)
    requires e.quoted && e.arg != "" && e.arg[|e.arg| - 1] == '\\'
    ensures CopyWord(Rendered(e) + r, "").0 != e.arg
  {
    NeverCloses('"', e.arg, r, "");
    OneCharacter('"', Escaped('"', e.arg), r);
    assert "" + e.arg == e.arg;
    var (more, u) := CopyQuoted('"', '"', Escaped('"', e.arg) + ['"'] + r, "");
    WordExtends(if u == "" then u else u[1..], more);
    var n := |e.arg| - 1;
    assert CopyWord(Rendered(e) + r, "").0[n] == (e.arg[..n] + ['"'])[n] == '"';
  }

  /** With every unquoted argument well-formed, reading the words one by one shows that the quoted ones are too. */
  lemma {:induction false} WordByWord(q: seq<Entry>, t: string)
    requires q != [] && AllBlanksQuoted(q) && forall i :: 0 <= i < |q| ==> q[i].quoted || WellFormed(q[i])
    requires SkipSpaces(t) == Rendered(q[0]) + Tail(q[1..]) && Words(t, |q|) == Args(q)
    ensures AllWellFormed(q)
    decreases |q|
  {
    var r := Tail(q[1..]);
    assert Words(t, |q|)[0] == CopyWord(SkipSpaces(t), "").0;
    if !WellFormed(q[0]) {
      BackslashNeverReturns(q[0], r);
    } else {
      RenderedWord(q[0], r);
      assert Words(t, |q|)[1..] == Words(r, |q| - 1) && Args(q)[1..] == Args(q[1..]);
      if |q| > 1 {
        AfterBlank(q[1], Tail(q[2..]));
        assert q[1..][1..] == q[2..];
        WordByWord(q[1..], r);
      }
    }
  }

  lemma AfterBlank(e: Entry, r: string)
    requires e.quoted || WellFormed(e)
    ensures SkipSpaces(" " + Rendered(e) + r) == Rendered(e) + r
  {
    assert (" " + Rendered(e) + r)[1..] == Rendered(e) + r;
    assert (Rendered(e) + r)[0] == Rendered(e)[0];
  }

  /**
   * Splitting the text of a list gives the list back exactly when every argument is well-formed and the text does
   * not start with a comment sign.
   */
  lemma RoundTripIff(q: seq<Entry>)
    requires q != [] && AllBlanksQuoted(q)
    ensures Split(Text(q)) == Args(q) <==> AllWellFormed(q) && !IsComment(Text(q))
  {
    var t := Text(q);
    if AllWellFormed(q) && !IsComment(t) {
      SplitText(q);
    } else if Split(t) == Args(q) {
      assert !IsComment(t);
      SplitAccount(t);
      MarksTail(q[1..]);
      MarksRendered(q[0]);
      MarksConcat(Rendered(q[0]), Tail(q[1..]));
      NeedyArgs(q);
      assert Rendered(q[0]) != "" && !IsSpace(Rendered(q[0])[0]);
      assert t[0] == Rendered(q[0])[0];
      ArgsLength(q);
      WordsLength(t, Count(t));
      WordByWord(q, t);
    }
  }

  /** For a single argument. */
  lemma OneArgumentIff(e: Entry)
    requires e.quoted ==> ' ' in e.arg
    ensures Split(Rendered(e)) == [e.arg] <==> WellFormed(e) && !IsComment(Rendered(e))
  {
    assert Text([e]) == Rendered(e) + "" == Rendered(e) && Args([e]) == [e.arg] + [] == [e.arg];
    RoundTripIff([e]);
  }

  lemma {:induction false} WordsLength(t: string, n: nat)
    ensures |Words(t, n)| == n
    decreases n
  {
    if n > 0 { WordsLength(CopyWord(SkipSpaces(t), "").1, n - 1); }
  }

  // ---------------------------------------------------------------------------------------
  // The class
  // ---------------------------------------------------------------------------------------

  /** Missing: there are no arguments. Overrun: writing them goes past the end of the buffer. */
  datatype Outcome = Made | Missing | Overrun

  class Argv {
    const iterative: bool
    var argc: int
    var queue: seq<Entry>
    var length: nat
    var buf: array?<char>
    /** The argument vector, or null. */
    var vector: seq<string>
    var hasVector: bool

    /** length_ is the size of the rendered arguments; the buffer, if there is one, holds the whole list. */
    ghost predicate Valid()
      reads this, buf
    {
      && length == Total(queue) && AllBlanksQuoted(queue)
      && (if iterative then argc >= 0 && (queue == [] ==> argc == 0 && !hasVector)
          else queue == [] && (buf != null ==> hasVector))
      && (iterative && buf != null ==> queue != [] && |Text(queue)| < buf.Length && buf[..|Text(queue)|] == Text(queue))
    }

    /** argc_ counts the arguments added. It can stop doing so when the list has been split. */
    predicate InStep()
      reads this
    {
      argc == |queue|
    }

    constructor ()
      ensures Valid() && InStep() && iterative && queue == [] && buf == null && !hasVector
    {
      iterative, argc, queue, length, buf, vector, hasVector := true, 0, [], 0, null, [], false;
    }

    /** Splits a text; arguments cannot be added to such a list. */
    constructor FromText(text: string)
      ensures Valid() && !iterative && queue == []
      ensures text == "" ==> argc == 0 && buf == null && !hasVector
      ensures text != "" ==> hasVector && vector == Split(text) && argc == |vector|
      ensures text != "" ==> buf != null && fresh(buf) && buf[..] == text + ['\0']
    {
      iterative, argc, queue, length, buf, vector, hasVector := false, 0, [], 0, null, [], false;
      new;
      if text == "" {
        return;
      }
      var b := new char[|text| + 1];
      var end := Copy(b, 0, text);
      b[end] := '\0';
      assert b[..] == text + ['\0'];
      buf := b;
      argc, vector := StringToArgv(text);
      hasVector := true;
      WordsLength(text, argc);
    }

    /** Adds an argument; only one with a blank is really quoted. */
    method Add(arg: string, quote: bool) returns (r: int)
      requires Valid()
      modifies this
      ensures Valid()
      ensures !iterative ==> r == -1 && queue == old(queue) && argc == old(argc)
      ensures iterative ==> r == 0 && queue == old(queue) + [Entry(arg, quote && ' ' in arg)] && argc == old(argc) + 1
      ensures iterative ==> buf == null && !hasVector
    {
      if !iterative {
        return -1;
      }
      var n, quoted := LengthToAdd(arg, quote);
      length := length + n;
      assert (queue + [Entry(arg, quoted)])[..|queue|] == queue;
      queue := queue + [Entry(arg, quoted)];
      argc := argc + 1;
      hasVector, vector := false, [];
      buf := null;
      r := 0;
    }

    /**
     * Writes the text of the list into a new buffer of length_ + argc_ characters. The text and its NUL fill it
     * exactly when argc_ is the number of arguments, as it is after any sequence of additions; with a smaller
     * argc_ they do not fit and the source writes past the end, where the model stops.
     */
    method CreateBufFromQueue() returns (o: Outcome)
      requires Valid() && iterative
      modifies this`buf
      ensures Valid() && (o.Missing? <==> argc <= 0)
      ensures o.Overrun? <==> 0 < argc && |Body(queue)| > length + argc
      ensures !o.Made? ==> buf == old(buf)
      ensures o.Made? ==>
                && queue != [] && buf != null && fresh(buf) && buf.Length == length + argc
                && |Text(queue)| < buf.Length && buf[..|Text(queue)| + 1] == Text(queue) + ['\0']
                && (buf.Length == |Text(queue)| + 1 <==> InStep())
    {
      if argc <= 0 {
        return Missing;
      }
      BodyFitsIff(queue, argc);
      if argc < |queue| {
        return Overrun;
      }
      BodyIsText(queue);
      BodyLength(queue);
      var b := new char[length + argc];
      var ptr := WriteBody(b, queue);
      b[ptr - 1] := '\0';
      assert b[..ptr - 1] == Text(queue);
      buf := b;
      o := Made;
    }

    /** The buffer, made when it is needed. */
    method Buf() returns (o: Outcome, b: array?<char>)
      requires Valid()
      modifies this`buf
      ensures Valid() && b == buf && (o.Made? ==> b != null)
      ensures old(buf) != null || !iterative ==> buf == old(buf) && (o.Made? <==> buf != null) && !o.Overrun?
      ensures old(buf) == null && iterative ==>
                (o.Missing? <==> argc <= 0) && (o.Overrun? <==> 0 < argc && |Body(queue)| > length + argc)
      ensures iterative && o.Made? ==> queue != [] && b.Length > |Text(queue)| && b[..|Text(queue)|] == Text(queue)
    {
      o := if buf == null then Missing else Made;
      if buf == null && iterative {
        o := CreateBufFromQueue();
      }
      b := buf;
    }

    /**
     * The arguments as a vector, made by splitting the text when it is needed; argc_ becomes what the split finds.
     * They are the arguments added exactly when these are well-formed.
     */
    method GetVector() returns (o: Outcome)
      requires Valid()
      modifies this`buf, this`argc, this`vector, this`hasVector
      ensures Valid() && (o.Made? <==> hasVector)
      ensures old(hasVector) ==> argc == old(argc) && vector == old(vector)
      ensures o.Overrun? <==>
                !old(hasVector) && old(buf) == null && iterative && 0 < old(argc) && |Body(queue)| > length + old(argc)
      ensures o.Missing? ==> argc == 0
      ensures o.Overrun? ==> argc == old(argc)
      ensures o.Made? && !old(hasVector) ==>
                && queue != [] && argc == |vector| && vector == Split(Text(queue))
                && (vector == Args(queue) <==> AllWellFormed(queue) && !IsComment(Text(queue)))
    {
      if hasVector {
        return Made;
      }
      if iterative && buf == null {
        o := CreateBufFromQueue();
        if o.Overrun? {
          return;
        }
      }
      if buf == null {
        argc := 0;
        return Missing;
      }
      argc, vector := StringToArgv(buf[..|Text(queue)|]);
      hasVector, o := true, Made;
      VectorOf(queue);
    }
  }

  lemma VectorOf(q: seq<Entry>)
    requires q != [] && AllBlanksQuoted(q)
    ensures Count(Text(q)) == |Split(Text(q))|
    ensures Split(Text(q)) == Args(q) <==> AllWellFormed(q) && !IsComment(Text(q))
  {
    WordsLength(Text(q), Count(Text(q)));
    RoundTripIff(q);
  }

  /** The room is enough exactly when argc_ has not fallen behind. */
  lemma BodyFitsIff(q: seq<Entry>, argc: int)
    ensures |Body(q)| <= Total(q) + argc <==> argc >= |q|
  {
    BodyLength(q);
  }

  /** Two empty arguments split into nothing, so after one more argument argc_ is 1 for three of them. */
  method FallBehind() returns (a: Argv)
    ensures fresh(a) && a.Valid() && a.iterative && a.buf == null && !a.hasVector
    ensures a.argc == 1 && |a.queue| == 3 && |Body(a.queue)| > a.length + a.argc
  {
    a := new Argv();
    var r := a.Add("", false);
    r := a.Add("", false);
    assert a.queue == [Entry("", false), Entry("", false)];
    BlankText();
    var o := a.GetVector();
    r := a.Add("x", false);
    BodyFitsIff(a.queue, a.argc);
  }

  lemma BlankText()
    ensures var q := [Entry("", false), Entry("", false)]; Split(Text(q)) == [] && |Body(q)| == 2
  {
    var q := [Entry("", false), Entry("", false)];
    assert q[1..] == [Entry("", false)] && [Entry("", false)][1..] == [];
    assert Text(q) == " ";
    assert " "[1..] == "";
    BodyIsText(q);
  }

  lemma {:induction false} ArgsLength(q: seq<Entry>)
    ensures |Args(q)| == |q|
    decreases |q|
  {
    if q != [] { ArgsLength(q[1..]); }
  }

  /** The room a new argument takes, and whether it is to be quoted. */
  method LengthToAdd(arg: string, quote: bool) returns (n: nat, quoted: bool)
    ensures quoted == (quote && ' ' in arg) && n == |Rendered(Entry(arg, quoted))|
  {
    n, quoted := |arg|, quote;
    if quote && ' ' in arg {
      n := n + 2;
      EscapedLength(arg);
      if '"' in arg {
        var quotes := CountQuotes(arg);
        n := n + quotes;
      } else {
        NothingToEscape(arg);
      }
    } else {
      quoted := false;
    }
  }

  method CountQuotes(s: string) returns (n: nat)
    ensures n == Quotes(s)
  {
    n := 0;
    var p := 0;
    while p < |s|
      invariant p <= |s| && n == Quotes(s[..p])
    {
      assert s[..p + 1][..p] == s[..p];
      if s[p] == '"' {
        n := n + 1;
      }
      p := p + 1;
    }
    assert s[..p] == s;
  }

  /** Writes every argument and a blank behind it. */
  method WriteBody(b: array<char>, q: seq<Entry>) returns (ptr: nat)
    requires |Body(q)| <= b.Length
    modifies b
    ensures ptr == |Body(q)| && b[..ptr] == Body(q)
  {
    ptr := 0;
    var i := 0;
    while i < |q|
      invariant i <= |q| && ptr == |Body(q[..i])| <= |Body(q)| && b[..ptr] == Body(q[..i])
    {
      BodyGrows(q, i);
      ghost var before := b[..ptr];
      ptr := Render(b, ptr, q[i]);
      ptr := Put(b, ptr, ' ');
      assert b[..ptr] == before + Rendered(q[i]) + " ";
      i := i + 1;
    }
    assert q[..i] == q;
  }

  /** Writes one argument, quoted and escaped if need be. */
  method Render(b: array<char>, ptr: nat, e: Entry) returns (ptr': nat)
    requires ptr + |Rendered(e)| <= b.Length
    modifies b
    ensures ptr' == ptr + |Rendered(e)| && b[..ptr'] == old(b[..ptr]) + Rendered(e) && b[ptr'..] == old(b[ptr'..])
  {
    if e.quoted {
      ptr' := RenderQuoted(b, ptr, e.arg);
    } else {
      ptr' := Copy(b, ptr, e.arg);
    }
  }

  method RenderQuoted(b: array<char>, ptr: nat, s: string) returns (ptr': nat)
    requires ptr + |Escaped('"', s)| + 2 <= b.Length
    modifies b
    ensures ptr' == ptr + |Escaped('"', s)| + 2 && b[ptr'..] == old(b[ptr'..])
    ensures b[..ptr'] == old(b[..ptr]) + ("\"" + Escaped('"', s) + "\"")
  {
    ptr' := Put(b, ptr, '"');
    ptr' := CopyInner(b, ptr', s);
    ptr' := Put(b, ptr', '"');
  }

  /** Goes through the characters one by one only when there is a quote to escape. */
  method CopyInner(b: array<char>, ptr: nat, s: string) returns (ptr': nat)
    requires ptr + |Escaped('"', s)| <= b.Length
    modifies b
    ensures ptr' == ptr + |Escaped('"', s)| && b[..ptr'] == old(b[..ptr]) + Escaped('"', s)
            && b[ptr'..] == old(b[ptr'..])
  {
    if '"' in s {
      ptr' := CopyEscaped(b, ptr, s);
    } else {
      NothingToEscape(s);
      ptr' := Copy(b, ptr, s);
    }
  }

  method Put(b: array<char>, ptr: nat, c: char) returns (ptr': nat)
    requires ptr < b.Length
    modifies b
    ensures ptr' == ptr + 1 && b[..ptr'] == old(b[..ptr]) + [c] && b[ptr'..] == old(b[ptr'..])
  {
    b[ptr] := c;
    ptr' := ptr + 1;
  }

  /** memcpy */
  method Copy(b: array<char>, ptr: nat, s: string) returns (ptr': nat)
    requires ptr + |s| <= b.Length
    modifies b
    ensures ptr' == ptr + |s| && b[..ptr'] == old(b[..ptr]) + s && b[ptr'..] == old(b[ptr'..])
  {
    forall i | 0 <= i < |s| {
      b[ptr + i] := s[i];
    }
    ptr' := ptr + |s|;
  }

  method CopyEscaped(b: array<char>, ptr: nat, s: string) returns (ptr': nat)
    requires ptr + |Escaped('"', s)| <= b.Length
    modifies b
    ensures ptr' == ptr + |Escaped('"', s)| && b[..ptr'] == old(b[..ptr]) + Escaped('"', s)
            && b[ptr'..] == old(b[ptr'..])
  {
    ghost var before, end := b[..ptr], ptr + |Escaped('"', s)|;
    ghost var after := b[end..];
    ptr' := ptr;
    var p := 0;
    while p < |s|
      invariant p <= |s| && ptr' == ptr + |Escaped('"', s[..p])| <= end
      invariant b[..ptr'] == before + Escaped('"', s[..p]) && b[end..] == after
    {
      EscapedPrefix(s, p);
      ptr' := PutEscaped(b, ptr', s[p], end);
      p := p + 1;
    }
    assert s[..p] == s;
  }

  method PutEscaped(b: array<char>, ptr: nat, c: char, ghost end: nat) returns (ptr': nat)
    requires ptr + |EscapedChar('"', c)| <= end <= b.Length
    modifies b
    ensures ptr' == ptr + |EscapedChar('"', c)| && b[..ptr'] == old(b[..ptr]) + EscapedChar('"', c)
            && b[end..] == old(b[end..])
  {
    ghost var before := b[..ptr];
    ptr' := ptr;
    if c == '"' {
      ptr' := Put(b, ptr', '\\');
    }
    ptr' := Put(b, ptr', c);
    assert b[..ptr'] == before + EscapedChar('"', c);
  }

  lemma {:induction false} EscapedPrefix(s: string, p: nat)
    requires p < |s|
    ensures Escaped('"', s[..p + 1]) == Escaped('"', s[..p]) + EscapedChar('"', s[p])
    ensures |Escaped('"', s[..p + 1])| <= |Escaped('"', s)|
    decreases |s| - p
  {
    assert s[..p + 1][..p] == s[..p];
    EscapedLast(s[..p + 1]);
    if p + 1 < |s| { EscapedPrefix(s, p + 1); } else { assert s[..p + 1] == s; }
  }

  // ---------------------------------------------------------------------------------------
  // The two passes over a text
  // ---------------------------------------------------------------------------------------

  lemma Suffix(t: string, i: nat)
    requires i < |t|
    ensures t[i..][0] == t[i] && t[i..][1..] == t[i + 1..]
  {
  }

  method PastSpaces(t: string, from: nat) returns (i: nat)
    requires from <= |t|
    ensures from <= i <= |t| && t[i..] == SkipSpaces(t[from..])
  {
    i := from;
    while i < |t| && IsSpace(t[i])
      invariant from <= i <= |t| && SkipSpaces(t[i..]) == SkipSpaces(t[from..])
    {
      Suffix(t, i);
      i := i + 1;
    }
    if i < |t| { Suffix(t, i); }
  }

  method PastQuoted(t: string, from: nat, quote: char) returns (i: nat)
    requires 0 < from <= |t|
    ensures from <= i <= |t| && t[i..] == SkipQuoted(t[from - 1], quote, t[from..])
  {
    i := from;
    while i < |t| && (t[i] != quote || t[i - 1] == '\\')
      invariant from <= i <= |t| && SkipQuoted(t[i - 1], quote, t[i..]) == SkipQuoted(t[from - 1], quote, t[from..])
    {
      Suffix(t, i);
      i := i + 1;
    }
    if i < |t| { Suffix(t, i); }
  }

  method PastWord(t: string, from: nat) returns (i: nat, unmatched: bool)
    requires from <= |t|
    ensures from <= i <= |t| && (t[i..], unmatched) == SkipWord(t[from..])
  {
    i, unmatched := from, false;
    while i < |t| && !IsSpace(t[i])
      invariant from <= i <= |t| && SkipWord(t[i..]) == SkipWord(t[from..])
    {
      Suffix(t, i);
      if IsQuote(t[i]) {
        var j := PastQuoted(t, i + 1, t[i]);
        if j == |t| {
          assert t[j..] == "";
          return j, true;
        }
        Suffix(t, j);
        i := j + 1;
      } else {
        i := i + 1;
      }
    }
    if i < |t| { Suffix(t, i); }
  }

  method CountPass(t: string) returns (argc: nat)
    ensures argc == Count(t)
  {
    argc := 0;
    var cp := 0;
    assert t[0..] == t;
    while cp < |t| && t[cp] != '#'
      invariant cp <= |t| && argc + Count(t[cp..]) == Count(t)
    {
      Suffix(t, cp);
      var word := PastSpaces(t, cp);
      if word < |t| {
        var unmatched;
        ghost var u := t[word..];
        assert u[0] == t[word];
        cp, unmatched := PastWord(t, word);
        assert |t[cp..]| < |u|;
        if !unmatched {
          argc := argc + 1;
        }
      } else {
        cp := word;
      }
    }
    if cp < |t| { Suffix(t, cp); }
  }

  /** Copies one word to the buffer. */
  method CopyPass(t: string, from: nat) returns (word: string, i: nat)
    requires from <= |t|
    ensures from <= i <= |t| && (word, t[i..]) == CopyWord(t[from..], "")
  {
    word, i := "", from;
    while i < |t| && !IsSpace(t[i])
      invariant from <= i <= |t| && CopyWord(t[i..], word) == CopyWord(t[from..], "")
    {
      Suffix(t, i);
      if IsQuote(t[i]) {
        var quote := t[i];
        word, i := CopyToQuote(t, i + 1, quote, word);
        if i < |t| {
          Suffix(t, i);
          i := i + 1;
        }
      } else {
        word := word + [t[i]];
        i := i + 1;
      }
    }
    if i < |t| { Suffix(t, i); }
  }

  method CopyToQuote(t: string, from: nat, quote: char, acc: string) returns (word: string, i: nat)
    requires 0 < from <= |t| && t[from - 1] == quote != '\\'
    ensures from <= i <= |t| && (word, t[i..]) == CopyQuoted(quote, quote, t[from..], acc)
  {
    word, i := acc, from;
    while i < |t| && (t[i] != quote || t[i - 1] == '\\')
      invariant from <= i <= |t| && (t[i - 1] == '\\' ==> word != "")
      invariant CopyQuoted(t[i - 1], quote, t[i..], word) == CopyQuoted(quote, quote, t[from..], acc)
    {
      Suffix(t, i);
      if t[i] == quote && t[i - 1] == '\\' {
        word := word[..|word| - 1];
      }
      word := word + [t[i]];
      i := i + 1;
    }
    if i < |t| { Suffix(t, i); }
  }

  lemma OneMoreWord(argv: seq<string>, word: string, rest: seq<string>)
    ensures argv + ([word] + rest) == (argv + [word]) + rest
  {
  }

  method StringToArgv(t: string) returns (argc: nat, argv: seq<string>)
    ensures argc == Count(t) && argv == Split(t)
  {
    argc := CountPass(t);
    argv := [];
    var ptr, i := 0, 0;
    assert t[0..] == t;
    while i < argc
      invariant i <= argc && ptr <= |t| && argv + Words(t[ptr..], argc - i) == Split(t)
    {
      ptr := PastSpaces(t, ptr);
      var word;
      word, ptr := CopyPass(t, ptr);
      OneMoreWord(argv, word, Words(t[ptr..], argc - i - 1));
      argv := argv + [word];
      i := i + 1;
    }
  }
}
