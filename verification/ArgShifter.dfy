/**
 * The argument shifter: scans an argument list, leaving the arguments it does not know at the front of the
 * vector and putting those it consumes at the back.
 *
 * The comments on the fields back_ and front_ in the source are exchanged; the code is followed here.
 */
module ArgShifter {
  import WildMatch

  // ---------------------------------------------------------------------------------------
  // Scanning as a partition
  // ---------------------------------------------------------------------------------------

  /** What has been ignored so far, what has been consumed (latest call first), and what is still to be seen. */
  datatype Scan = Scan(kept: seq<string>, consumed: seq<string>, rest: seq<string>)

  datatype Call = Consume(number: nat) | Ignore(number: nat)

  function Apply(s: Scan, c: Call): Scan {
    var n := c.number;
    if n > |s.rest| then s
    else if c.Consume? then Scan(s.kept, s.rest[..n] + s.consumed, s.rest[n..])
    else Scan(s.kept + s.rest[..n], s.consumed, s.rest[n..])
  }

  function Run(s: Scan, calls: seq<Call>): Scan
    decreases |calls|
  {
    if calls == [] then s else Run(Apply(s, calls[0]), calls[1..])
  }

  function Same(n: nat, b: bool): (m: seq<bool>)
    ensures |m| == n
  {
    seq(n, i => b)
  }

  /** For each argument a call scans, whether it is consumed; a call that asks for too many does nothing. */
  function CallMarks(s: Scan, c: Call): (m: seq<bool>)
    ensures |m| <= |s.rest| && Apply(s, c).rest == s.rest[|m|..]
  {
    if c.number > |s.rest| then [] else Same(c.number, c.Consume?)
  }

  function Marks(s: Scan, calls: seq<Call>): (m: seq<bool>)
    ensures |m| <= |s.rest|
    decreases |calls|
  {
    if calls == [] then [] else CallMarks(s, calls[0]) + Marks(Apply(s, calls[0]), calls[1..])
  }

  /** The arguments with a given mark, in their order. */
  function Marked(args: seq<string>, marks: seq<bool>, b: bool): seq<string>
    requires |marks| <= |args|
    decreases |marks|
  {
    if marks == [] then [] else (if marks[0] == b then [args[0]] else []) + Marked(args[1..], marks[1..], b)
  }

  lemma {:induction false} MarkedConcat(args: seq<string>, m: seq<bool>, more: seq<bool>, b: bool)
    requires |m| + |more| <= |args|
    ensures Marked(args, m + more, b) == Marked(args, m, b) + Marked(args[|m|..], more, b)
    decreases |m|
  {
    if m == [] {
      assert m + more == more && args[0..] == args;
    } else {
      assert (m + more)[1..] == m[1..] + more;
      MarkedConcat(args[1..], m[1..], more, b);
      assert args[1..][|m| - 1..] == args[|m|..];
      Joined(if m[0] == b then [args[0]] else [], Marked(args, m + more, b),
             Marked(args[1..], m[1..], b), Marked(args[|m|..], more, b));
    }
  }

  lemma Joined(before: seq<string>, after: seq<string>, a: seq<string>, b: seq<string>)
    ensures after == (before + a) + b <==> after == before + (a + b)
  {
  }

  lemma {:induction false} MarkedAlike(args: seq<string>, n: nat, mark: bool, b: bool)
    requires n <= |args|
    ensures Marked(args, Same(n, mark), b) == if mark == b then args[..n] else []
    decreases n
  {
    if n > 0 {
      assert Same(n, mark)[1..] == Same(n - 1, mark);
      MarkedAlike(args[1..], n - 1, mark, b);
      assert mark == b ==> args[..n] == [args[0]] + args[1..][..n - 1];
    }
  }

  lemma CallPartition(s: Scan, c: Call)
    ensures var e, m := Apply(s, c), CallMarks(s, c);
            && e.kept == s.kept + Marked(s.rest, m, false)
            && e.consumed == Marked(s.rest, m, true) + s.consumed
  {
    if c.number <= |s.rest| {
      MarkedAlike(s.rest, c.number, c.Consume?, false);
      MarkedAlike(s.rest, c.number, c.Consume?, true);
    } else {
      assert s.kept + [] == s.kept && [] + s.consumed == s.consumed;
    }
  }

  /**
   * The scan is a stable partition: over every run the ignored arguments keep their order, the consumed ones are
   * the others, and what is left is the part not scanned.
   */
  lemma {:induction false} StablePartition(s: Scan, calls: seq<Call>)
    ensures var e, m := Run(s, calls), Marks(s, calls);
            && e.kept == s.kept + Marked(s.rest, m, false)
            && multiset(e.consumed) == multiset(s.consumed) + multiset(Marked(s.rest, m, true))
            && e.rest == s.rest[|m|..]
    decreases |calls|
  {
    if calls != [] {
      var s' := Apply(s, calls[0]);
      StablePartition(s', calls[1..]);
      CallPartition(s, calls[0]);
      MarksOfRun(s, calls, false);
      MarksOfRun(s, calls, true);
      var first, more := CallMarks(s, calls[0]), Marks(s', calls[1..]);
      Joined(s.kept, Run(s, calls).kept, Marked(s.rest, first, false), Marked(s'.rest, more, false));
      Regrouped(s.consumed, Run(s, calls).consumed, Marked(s.rest, first, true), Marked(s'.rest, more, true));
      Dropped(s.rest, |first|, |more|);
    }
  }

  /** Every argument scanned has one of the two marks. */
  lemma {:induction false} BothMarks(args: seq<string>, m: seq<bool>, scanned: seq<string>)
    requires |m| <= |args| && scanned == args[..|m|]
    ensures multiset(Marked(args, m, true)) + multiset(Marked(args, m, false)) == multiset(scanned)
    decreases |m|
  {
    if m != [] {
      var rest := scanned[1..];
      FirstAndRest(args, scanned, rest, |m|);
      BothMarks(args[1..], m[1..], rest);
      OneMark(args[0], rest, m[0], Marked(args[1..], m[1..], true), Marked(args[1..], m[1..], false),
              Marked(args, m, true), Marked(args, m, false), scanned);
    }
  }

  lemma FirstAndRest(args: seq<string>, scanned: seq<string>, rest: seq<string>, n: nat)
    requires 0 < n <= |args| && scanned == args[..n] && rest == scanned[1..]
    ensures rest == args[1..][..n - 1] && scanned == [args[0]] + rest
  {
  }

  lemma OneMark(arg: string, args: seq<string>, mark: bool, yes: seq<string>, no: seq<string>,
                allYes: seq<string>, allNo: seq<string>, scanned: seq<string>)
    requires multiset(yes) + multiset(no) == multiset(args) && scanned == [arg] + args
    requires allYes == (if mark then [arg] else []) + yes && allNo == (if mark then [] else [arg]) + no
    ensures multiset(allYes) + multiset(allNo) == multiset(scanned)
  {
    if mark {
      assert allNo == no;
    } else {
      assert allYes == yes;
    }
  }

  lemma MarksOfRun(s: Scan, calls: seq<Call>, b: bool)
    requires calls != []
    ensures var s' := Apply(s, calls[0]);
            Marked(s.rest, Marks(s, calls), b)
            == Marked(s.rest, CallMarks(s, calls[0]), b) + Marked(s'.rest, Marks(s', calls[1..]), b)
  {
    MarkedConcat(s.rest, CallMarks(s, calls[0]), Marks(Apply(s, calls[0]), calls[1..]), b);
  }

  lemma Regrouped(before: seq<string>, after: seq<string>, a: seq<string>, b: seq<string>)
    requires multiset(after) == multiset(a + before) + multiset(b)
    ensures multiset(after) == multiset(before) + multiset(a + b)
  {
  }

  lemma Dropped(s: seq<string>, i: nat, j: nat)
    requires i + j <= |s|
    ensures s[i..][j..] == s[i + j..]
  {
  }

  /** Calls of one argument each put the consumed ones at the back in reverse. */
  lemma {:induction false} OneByOneReverses(s: Scan, calls: seq<Call>)
    requires forall i :: 0 <= i < |calls| ==> calls[i].number == 1
    ensures Run(s, calls).consumed == Reverse(Marked(s.rest, Marks(s, calls), true)) + s.consumed
    decreases |calls|
  {
    if calls != [] {
      var s' := Apply(s, calls[0]);
      OneByOneReverses(s', calls[1..]);
      CallPartition(s, calls[0]);
      MarksOfRun(s, calls, true);
      AtMostOne(s, calls[0]);
      ReversedOnce(s.consumed, s'.consumed, Run(s, calls).consumed,
                   Marked(s.rest, CallMarks(s, calls[0]), true), Marked(s'.rest, Marks(s', calls[1..]), true));
    }
  }

  lemma ReversedOnce(c0: seq<string>, c1: seq<string>, c2: seq<string>, a: seq<string>, b: seq<string>)
    requires |a| <= 1 && c1 == a + c0 && c2 == Reverse(b) + c1
    ensures c2 == Reverse(a + b) + c0
  {
    ReverseConcat(a, b);
  }

  lemma AtMostOne(s: Scan, c: Call)
    requires c.number == 1
    ensures |Marked(s.rest, CallMarks(s, c), true)| <= 1
  {
    if s.rest != [] { MarkedAlike(s.rest, 1, c.Consume?, true); }
  }

  lemma ReverseConcat(a: seq<string>, b: seq<string>)
    requires |a| <= 1
    ensures Reverse(a + b) == Reverse(b) + a
  {
    if |a| == 1 {
      assert (a + b)[1..] == b && [(a + b)[0]] == a;
    } else {
      assert a + b == b;
    }
  }

  function Reverse(s: seq<string>): seq<string> {
    if s == [] then [] else Reverse(s[1..]) + [s[0]]
  }

  // ---------------------------------------------------------------------------------------
  // Flags
  // ---------------------------------------------------------------------------------------

  predicate SameText(a: string, b: string) {
    |a| == |b| && forall i :: 0 <= i < |a| ==> WildMatch.Lower(a[i]) == WildMatch.Lower(b[i])
  }

  /** strncasecmp of the length of the flag. */
  predicate HasFlag(arg: string, flag: string) {
    |flag| <= |arg| && SameText(arg[..|flag|], flag)
  }

  /** strspn of blanks */
  function Blanks(s: string): (n: nat)
    ensures n <= |s| && (forall i :: 0 <= i < n ==> s[i] == ' ') && (n < |s| ==> s[n] != ' ')
  {
    if s == "" || s[0] != ' ' then 0
    else
      var n := Blanks(s[1..]);
      assert forall i :: 1 <= i < n + 1 ==> s[i] == s[1..][i - 1];
      n + 1
  }

  /** Where the value starts in an argument: 0 means the argument is the flag, -1 that it does not match. */
  function Offset(arg: string, flag: string): int {
    if !HasFlag(arg, flag) then -1
    else if |arg| == |flag| then 0
    else |flag| + Blanks(arg[|flag|..])
  }

  /** An argument that goes on after the flag can be mistaken for the flag itself only when the flag is empty. */
  lemma OffsetZeroIff(arg: string, flag: string)
    requires HasFlag(arg, flag)
    ensures Offset(arg, flag) == 0 <==> |arg| == |flag| || (flag == "" && arg[0] != ' ')
  {
    if |arg| > |flag| { assert arg[|flag|..][0] == arg[|flag|]; }
  }

  // ---------------------------------------------------------------------------------------
  // The class
  // ---------------------------------------------------------------------------------------

  /** An entry of the argument vector. */
  datatype Slot = Empty | Arg(text: string)

  datatype Option<T> = None | Some(value: T)

  function Slots(s: seq<string>): (r: seq<Slot>)
    ensures |r| == |s|
  {
    seq(|s|, i requires 0 <= i < |s| => Arg(s[i]))
  }

  function Empties(n: nat): (r: seq<Slot>)
    ensures |r| == n
  {
    seq(n, i => Empty)
  }

  /** The argument vector in the middle of a scan. */
  function Layout(s: Scan): seq<Slot> {
    Slots(s.kept) + Empties(|s.rest|) + Slots(s.consumed)
  }

  class ArgShifter {
    /** Shared with the caller. */
    var argc: int
    const totalSize: nat
    /** Null when no temporary vector could be allocated. */
    const temp: array?<string>
    const argv: array<Slot>
    var currentIndex: nat
    var back: int
    var front: nat
    /** The arguments ignored, consumed, and still in the temporary vector. */
    ghost var kept: seq<string>
    ghost var consumed: seq<string>
    ghost var rest: seq<string>

    ghost predicate Valid()
      reads this, temp, argv
    {
      Counted() && argv[..totalSize] == Layout(View())
    }

    /** The cursors and the temporary vector agree with what is kept, consumed and left. */
    ghost predicate Counted()
      reads this, temp
    {
      && currentIndex <= totalSize <= argv.Length && |rest| == totalSize - currentIndex
      && (currentIndex == totalSize || (temp != null && totalSize <= temp.Length))
      && (forall k :: currentIndex <= k < totalSize ==> temp[k] == rest[k - currentIndex])
      && front == argc == |kept| && back == totalSize - 1 - |consumed| && currentIndex == |kept| + |consumed|
    }

    ghost function View(): Scan
      reads this
    {
      Scan(kept, consumed, rest)
    }

    /**
     * given is the caller's temporary vector, or null to have one allocated; have is false when that fails. The
     * source then returns at once, with all arguments still to be scanned and no vector to read them from.
     */
    constructor (count: nat, vector: array<Slot>, given: array?<string>, have: bool, ghost args: seq<string>)
      requires |args| == count <= vector.Length && vector[..count] == Slots(args)
      requires given != null ==> count <= given.Length
      modifies vector, given
      ensures argv == vector && totalSize == count
      ensures if given != null then temp == given else if have then temp != null && fresh(temp) else temp == null
      ensures vector[count..] == old(vector[count..])
      ensures given != null ==> given[count..] == old(given[count..])
      ensures temp != null || count == 0 ==> Valid() && View() == Scan([], [], args)
      ensures temp == null ==> argc == count && IsAnythingLeft() == count && vector[..] == old(vector[..])
    {
      argv, totalSize := vector, count;
      temp := given;
      argc := count;
      currentIndex, front, back := 0, 0, count - 1;
      kept, consumed, rest := [], [], args;
      if given == null && have {
        temp := new string[count](i => "");
      }
      if given != null || have {
        argc := 0;
      }
      new;
      if temp != null {
        Fill(vector, temp, count, args);
        assert temp[..count] == args;
      }
    }

    /** Moves the arguments to the temporary vector. */
    static method Fill(vector: array<Slot>, temp: array<string>, count: nat, ghost args: seq<string>)
      requires |args| == count <= vector.Length && vector[..count] == Slots(args) && count <= temp.Length
      modifies vector, temp
      ensures temp[..count] == args && vector[..count] == Empties(count)
      ensures vector[count..] == old(vector[count..]) && temp[count..] == old(temp[count..])
    {
      var i := 0;
      while i < count
        invariant i <= count
        invariant forall k :: 0 <= k < i ==> temp[k] == args[k] && vector[k] == Empty
        invariant forall k :: i <= k < count ==> vector[k] == Arg(args[k])
        invariant vector[count..] == old(vector[count..]) && temp[count..] == old(temp[count..])
      {
        temp[i] := vector[i].text;
        vector[i] := Empty;
        i := i + 1;
      }
    }

    function IsAnythingLeft(): int
      reads this
    {
      totalSize - currentIndex
    }

    method GetCurrent() returns (r: Option<string>)
      requires Valid()
      ensures r == if View().rest == [] then None else Some(View().rest[0])
    {
      if IsAnythingLeft() != 0 {
        r := Some(temp[currentIndex]);
      } else {
        r := None;
      }
    }

    /** A negative count only moves the cursor at the back, away from the arguments it belongs to. */
    method ConsumeArg(number: int) returns (done: bool)
      requires Valid()
      modifies this`currentIndex, this`back, this`consumed, this`rest, argv
      ensures number >= 0 ==> Valid() && View() == Apply(old(View()), Consume(number))
      ensures number < 0 ==> View() == old(View()) && back == old(back) - number && argv[..] == old(argv[..])
      ensures done == (number <= |old(View()).rest|)
    {
      done := false;
      if IsAnythingLeft() >= number {
        if number >= 0 {
          ghost var s' := Apply(View(), Consume(number));
          PlaceLast(number);
          currentIndex := currentIndex + number;
          consumed, rest := s'.consumed, s'.rest;
        }
        back := back - number;
        done := true;
      }
    }

    /** A negative count only lowers the caller's count. */
    method IgnoreArg(number: int) returns (done: bool)
      requires Valid()
      modifies this`currentIndex, this`front, this`argc, this`kept, this`rest, argv
      ensures number >= 0 ==> Valid() && View() == Apply(old(View()), Ignore(number))
      ensures number < 0 ==> View() == old(View()) && argc == old(argc) + number && front == old(front)
      ensures number < 0 ==> argv[..] == old(argv[..])
      ensures done == (number <= |old(View()).rest|)
    {
      done := false;
      if IsAnythingLeft() >= number {
        if number >= 0 {
          ghost var s' := Apply(View(), Ignore(number));
          PlaceFirst(number);
          currentIndex := currentIndex + number;
          front := front + number;
          kept, rest := s'.kept, s'.rest;
        }
        done := true;
        argc := argc + number;
      }
    }

    /** Copies arguments in front of the consumed ones. */
    method PlaceLast(number: nat)
      requires Valid() && number <= |View().rest|
      modifies argv
      ensures argv[..totalSize] == Layout(Apply(old(View()), Consume(number)))
    {
      ghost var s := View();
      AfterConsume(s, number);
      if number > 0 {
        Place(back - (number - 1), number, s.rest[..number]);
      }
    }

    /** Copies arguments behind the ignored ones. */
    method PlaceFirst(number: nat)
      requires Valid() && number <= |View().rest|
      modifies argv
      ensures argv[..totalSize] == Layout(Apply(old(View()), Ignore(number)))
    {
      ghost var s := View();
      AfterIgnore(s, number);
      if number > 0 {
        Place(front, number, s.rest[..number]);
      }
    }

    /** Copies the next arguments into the vector. */
    method Place(target: nat, number: nat, ghost block: seq<string>)
      requires 0 < number && target + number <= totalSize <= argv.Length && temp != null
      requires currentIndex + number <= totalSize <= temp.Length
      requires |block| == number && forall i :: 0 <= i < number ==> temp[currentIndex + i] == block[i]
      modifies argv
      ensures argv[..totalSize] == Overlaid(old(argv[..totalSize]), target, block)
    {
      var i := 0;
      while i < number
        invariant i <= number
        invariant forall k :: 0 <= k < argv.Length ==>
                    argv[k] == if target <= k < target + i then Arg(block[k - target]) else old(argv[k])
      {
        argv[target + i] := Arg(temp[currentIndex + i]);
        i := i + 1;
      }
    }

    method IsOptionNext() returns (r: bool)
      requires Valid()
      ensures r == (View().rest != [] && IsOption(View().rest[0]))
    {
      r := IsAnythingLeft() != 0 && IsOption(temp[currentIndex]);
    }

    method IsParameterNext() returns (r: bool)
      requires Valid()
      ensures r == (View().rest != [] && !IsOption(View().rest[0]))
    {
      r := IsAnythingLeft() != 0 && !IsOption(temp[currentIndex]);
    }

    method NumIgnoredArgs() returns (n: nat)
      requires Valid()
      ensures n == |View().kept|
    {
      n := front;
    }

    /** Where the flag's value starts in the next argument. */
    method CurArgStrncasecmp(flag: string) returns (offset: int)
      requires Valid()
      ensures offset == if View().rest == [] then -1 else Offset(View().rest[0], flag)
    {
      offset := -1;
      if IsAnythingLeft() != 0 {
        var arg := temp[currentIndex];
        if HasFlag(arg, flag) {
          offset := if |arg| == |flag| then 0 else Blanks(arg[|flag|..]) + |flag|;
        }
      }
    }

    /** The value of a flag: in the rest of its argument, or the next argument, which then is the current one. */
    method GetTheParameter(flag: string) returns (r: Option<string>)
      requires Valid()
      modifies this`currentIndex, this`back, this`consumed, this`rest, argv
      ensures Valid() && (View(), r) == Parameter(old(View()), flag)
    {
      if IsAnythingLeft() == 0 {
        return None;
      }
      var offset := CurArgStrncasecmp(flag);
      if offset == -1 {
        return None;
      }
      if offset == 0 {
        var done := ConsumeArg(1);
        var next := IsParameterNext();
        if !next {
          return None;
        }
        assert temp[currentIndex][0..] == temp[currentIndex];
      }
      r := Some(temp[currentIndex][offset..]);
    }
  }

  predicate IsOption(s: string) {
    s != "" && s[0] == '-'
  }

  /** A search for a parameter is at most one call that consumes. */
  function Parameter(s: Scan, flag: string): (r: (Scan, Option<string>))
    ensures r.0 == s || r.0 == Apply(s, Consume(1))
  {
    if s.rest == [] || !HasFlag(s.rest[0], flag) then (s, None)
    else if Offset(s.rest[0], flag) != 0 then (s, Some(s.rest[0][Offset(s.rest[0], flag)..]))
    else
      var s' := Apply(s, Consume(1));
      (s', if s'.rest == [] || IsOption(s'.rest[0]) then None else Some(s'.rest[0]))
  }

  /** The argument begins with the flag, in either case of its letters. */
  predicate BeginsWith(arg: string, flag: string) {
    |flag| <= |arg|
    && forall i :: 0 <= i < |flag| ==> arg[i] == flag[i] || WildMatch.SameLetter(arg[i], flag[i])
  }

  /** The argument is taken for the flag itself. */
  predicate StandsAlone(arg: string, flag: string) {
    |arg| == |flag| || (flag == "" && arg[0] != ' ')
  }

  /** -1 without the flag, 0 for the flag alone, and otherwise the first character after it that is not a blank. */
  lemma OffsetIs(arg: string, flag: string)
    ensures var start := Offset(arg, flag);
            if !BeginsWith(arg, flag) then start == -1
            else if StandsAlone(arg, flag) then start == 0
            else
              && |flag| <= start <= |arg| && (start < |arg| ==> arg[start] != ' ')
              && forall i :: |flag| <= i < start ==> arg[i] == ' '
  {
    HasFlagIff(arg, flag);
    if HasFlag(arg, flag) {
      OffsetZeroIff(arg, flag);
      var behind := arg[|flag|..];
      assert forall i :: |flag| <= i < |arg| ==> arg[i] == behind[i - |flag|];
    }
  }

  /**
   * The search, on the arguments: nothing without the flag; the next argument, unless it begins with a dash, behind
   * a flag that stands alone, which is consumed; otherwise what follows the flag and the blanks after it.
   */
  lemma ParameterIs(s: Scan, flag: string) returns (start: nat)
    ensures var (after, value) := Parameter(s, flag);
            if s.rest == [] || !BeginsWith(s.rest[0], flag) then (after, value) == (s, None)
            else if StandsAlone(s.rest[0], flag) then
              && after == Scan(s.kept, [s.rest[0]] + s.consumed, s.rest[1..])
              && value == if |s.rest| > 1 && (s.rest[1] == "" || s.rest[1][0] != '-') then Some(s.rest[1]) else None
            else
              var arg := s.rest[0];
              && after == s && |flag| <= start <= |arg| && value == Some(arg[start..])
              && (forall i :: |flag| <= i < start ==> arg[i] == ' ') && (start < |arg| ==> arg[start] != ' ')
  {
    start := 0;
    if s.rest != [] {
      var arg := s.rest[0];
      HasFlagIff(arg, flag);
      OffsetIs(arg, flag);
      if HasFlag(arg, flag) {
        OffsetZeroIff(arg, flag);
        start := Offset(arg, flag);
        assert s.rest[..1] == [arg];
      }
    }
  }

  lemma HasFlagIff(arg: string, flag: string)
    ensures HasFlag(arg, flag) <==> BeginsWith(arg, flag)
  {
    if |flag| <= |arg| { assert forall i :: 0 <= i < |flag| ==> arg[..|flag|][i] == arg[i]; }
  }

  /** Every place in the vector, with the entries from target on replaced. */
  function Overlaid(v: seq<Slot>, target: nat, block: seq<string>): (r: seq<Slot>)
    ensures |r| == |v|
  {
    seq(|v|, k requires 0 <= k < |v| => if target <= k < target + |block| then Arg(block[k - target]) else v[k])
  }

  lemma AfterConsume(s: Scan, n: nat)
    requires n <= |s.rest|
    ensures var v, t := Layout(s), |s.kept| + |s.rest| - n;
            Layout(Apply(s, Consume(n))) == if n > 0 then Overlaid(v, t, s.rest[..n]) else v
  {
    var s', v, t := Apply(s, Consume(n)), Layout(s), |s.kept| + |s.rest| - n;
    assert |Layout(s')| == |v|;
    forall k | 0 <= k < |v|
      ensures Layout(s')[k] == if n > 0 then Overlaid(v, t, s.rest[..n])[k] else v[k]
    {
      LayoutAt(s, k);
      LayoutAt(s', k);
    }
  }

  lemma AfterIgnore(s: Scan, n: nat)
    requires n <= |s.rest|
    ensures var v := Layout(s);
            Layout(Apply(s, Ignore(n))) == if n > 0 then Overlaid(v, |s.kept|, s.rest[..n]) else v
  {
    var s', v := Apply(s, Ignore(n)), Layout(s);
    assert |Layout(s')| == |v|;
    forall k | 0 <= k < |v|
      ensures Layout(s')[k] == if n > 0 then Overlaid(v, |s.kept|, s.rest[..n])[k] else v[k]
    {
      LayoutAt(s, k);
      LayoutAt(s', k);
    }
  }

  lemma LayoutAt(s: Scan, k: nat)
    requires k < |Layout(s)|
    ensures Layout(s)[k] == if k < |s.kept| then Arg(s.kept[k])
                            else if k < |s.kept| + |s.rest| then Empty else Arg(s.consumed[k - |s.kept| - |s.rest|])
  {
  }

  /**
   * After any calls that scan everything, the vector is a permutation of the arguments given: the ignored ones in
   * their order, counted by argc, and behind them the consumed ones.
   */
  lemma Exhausted(a: ArgShifter, args: seq<string>, calls: seq<Call>)
    requires a.Valid() && a.View() == Run(Scan([], [], args), calls) && a.View().rest == []
    ensures var p, m := a.kept + a.consumed, Marks(Scan([], [], args), calls);
            && |m| == |args| && a.argv[..a.totalSize] == Slots(p) && multiset(p) == multiset(args)
            && 0 <= a.argc <= a.totalSize && a.argv[..a.argc] == Slots(Marked(args, m, false))
  {
    ScannedAll(args, calls);
    FrontOfSlots(a.argv[..a.totalSize], a.kept, a.consumed);
    assert a.argv[..a.argc] == a.argv[..a.totalSize][..a.argc];
  }

  lemma ScannedAll(args: seq<string>, calls: seq<Call>)
    requires Run(Scan([], [], args), calls).rest == []
    ensures var e, m := Run(Scan([], [], args), calls), Marks(Scan([], [], args), calls);
            && |m| == |args| && e.kept == Marked(args, m, false) && multiset(e.kept + e.consumed) == multiset(args)
  {
    var m := Marks(Scan([], [], args), calls);
    StablePartition(Scan([], [], args), calls);
    assert args == args[..|m|];
    BothMarks(args, m, args);
  }

  lemma FrontOfSlots(v: seq<Slot>, kept: seq<string>, consumed: seq<string>)
    requires v == Layout(Scan(kept, consumed, []))
    ensures v == Slots(kept + consumed) && v[..|kept|] == Slots(kept)
  {
  }
}
