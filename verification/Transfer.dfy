/**
 * Gather and scatter transfers that go on until everything has been moved.
 *
 * The kernel is a script of answers. Bytes are named by their addresses, so the same account of a transfer
 * serves sending (the bytes read, in order) and receiving (the bytes written, in order).
 */
module Transfer {

  // ---------------------------------------------------------------------------------------
  // Buffers
  // ---------------------------------------------------------------------------------------

  datatype IoVec = IoVec(base: nat, len: nat)

  function Range(base: nat, len: nat): (r: seq<nat>)
    ensures |r| == len
  {
    seq(len, i requires 0 <= i => base + i)
  }

  /** The addresses of the bytes a list of buffers names, in order. */
  function Cells(v: seq<IoVec>): seq<nat> {
    if v == [] then [] else Range(v[0].base, v[0].len) + Cells(v[1..])
  }

  lemma {:induction false} CellsConcat(v: seq<IoVec>, w: seq<IoVec>)
    ensures Cells(v + w) == Cells(v) + Cells(w)
  {
    if v == [] {
      assert v + w == w;
    } else {
      assert (v + w)[1..] == v[1..] + w;
      CellsConcat(v[1..], w);
    }
  }

  lemma RangeSplit(base: nat, len: nat, n: nat)
    requires n <= len
    ensures Range(base, len) == Range(base, n) + Range(base + n, len - n)
  {
  }

  // ---------------------------------------------------------------------------------------
  // Memory
  // ---------------------------------------------------------------------------------------

  type byte = bv8

  type Memory = nat -> byte

  function Gather(m: Memory, cells: seq<nat>): seq<byte> {
    seq(|cells|, i requires 0 <= i < |cells| => m(cells[i]))
  }

  function Stored(m: Memory, cell: nat, b: byte): Memory {
    (a: nat) => if a == cell then b else m(a)
  }

  /** Memory after data has been stored at these cells in order. */
  function Scatter(m: Memory, cells: seq<nat>, data: seq<byte>): Memory
    requires |cells| == |data|
    decreases |cells|
  {
    if cells == [] then m
    else
      var last := |cells| - 1;
      Stored(Scatter(m, cells[..last], data[..last]), cells[last], data[last])
  }

  /** Storing in pieces is storing the whole. */
  lemma {:induction false} ScatterConcat(m: Memory, c: seq<nat>, d: seq<byte>, c': seq<nat>, d': seq<byte>)
    requires |c| == |d| && |c'| == |d'|
    ensures Scatter(Scatter(m, c, d), c', d') == Scatter(m, c + c', d + d')
    decreases |c'|
  {
    if c' == [] {
      assert c + c' == c && d + d' == d;
    } else {
      var last := |c'| - 1;
      ScatterConcat(m, c, d, c'[..last], d'[..last]);
      assert (c + c')[..|c + c'| - 1] == c + c'[..last] && (d + d')[..|d + d'| - 1] == d + d'[..last];
    }
  }

  predicate Distinct(cells: seq<nat>) {
    forall i, j :: 0 <= i < j < |cells| ==> cells[i] != cells[j]
  }

  /** Cells that do not overlap end up holding the data in order, and nothing else is touched. */
  lemma {:induction false} ScatterGather(m: Memory, cells: seq<nat>, data: seq<byte>)
    requires |cells| == |data| && Distinct(cells)
    ensures Gather(Scatter(m, cells, data), cells) == data
    ensures forall a: nat :: a !in cells ==> Scatter(m, cells, data)(a) == m(a)
    decreases |cells|
  {
    if cells != [] {
      var last := |cells| - 1;
      ScatterGather(m, cells[..last], data[..last]);
      var before, after := Scatter(m, cells[..last], data[..last]), Scatter(m, cells, data);
      forall i | 0 <= i < last
        ensures after(cells[i]) == data[i]
      {
        assert cells[..last][i] == cells[i] && Gather(before, cells[..last])[i] == data[..last][i];
      }
      forall a: nat | a !in cells
        ensures after(a) == m(a)
      {
        assert a !in cells[..last];
      }
    }
  }

  /** n bytes of an endless stream. */
  function Stream(incoming: Memory, from: nat, n: nat): (d: seq<byte>)
    ensures |d| == n
  {
    seq(n, i requires 0 <= i => incoming(from + i))
  }

  /** The memory of a process that has received into these cells, in order, from the start of the stream. */
  function Received(start: Memory, incoming: Memory, cells: seq<nat>): Memory {
    Scatter(start, cells, Stream(incoming, 0, |cells|))
  }

  lemma StreamMore(incoming: Memory, n: nat, k: nat)
    ensures Stream(incoming, 0, n + k) == Stream(incoming, 0, n) + Stream(incoming, n, k)
  {
  }

  lemma ReceivedMore(start: Memory, incoming: Memory, before: seq<nat>, cells: seq<nat>)
    ensures Received(start, incoming, before + cells)
            == Scatter(Received(start, incoming, before), cells, Stream(incoming, |before|, |cells|))
  {
    var n, k := |before|, |cells|;
    var first, second := Stream(incoming, 0, n), Stream(incoming, n, k);
    StreamMore(incoming, n, k);
    ScatterConcat(start, before, first, cells, second);
    assert Stream(incoming, 0, |before + cells|) == first + second;
  }

  lemma GatherMore(m: Memory, before: seq<nat>, cells: seq<nat>)
    ensures Gather(m, before + cells) == Gather(m, before) + Gather(m, cells)
  {
  }

  // ---------------------------------------------------------------------------------------
  // The kernel
  // ---------------------------------------------------------------------------------------

  datatype Errno = WouldBlock | NoBuffers | OtherError

  /** A count of bytes moved (0 is end of file, and errno keeps an old value), or a failure. */
  datatype Reply = Count(n: nat) | Failure

  /** One answer to a transfer call; ready is what a wait for the handle after it reports. */
  datatype Answer = Answer(reply: Reply, errno: Errno, ready: bool)

  /** The answer a script gives next; a finished script is a dead connection. */
  function Next(script: seq<Answer>): Answer {
    if script == [] then Answer(Failure, OtherError, false) else script[0]
  }

  function Rest(script: seq<Answer>): seq<Answer> {
    if script == [] then [] else script[1..]
  }

  /** The kernel on one connection, used in one direction. */
  class Kernel {
    const receiving: bool
    var script: seq<Answer>
    /** Every byte moved so far. */
    var moved: seq<nat>
    /** The process's memory, at the start and now, what arrives on the connection, and what has been sent. */
    ghost const start: Memory
    ghost const incoming: Memory
    ghost var memory: Memory
    ghost var wire: seq<byte>

    /** A receive stores the stream where it moves bytes to; a send puts bytes on the wire and leaves memory alone. */
    ghost predicate Valid()
      reads this
    {
      if receiving then memory == Received(start, incoming, moved) && wire == []
      else memory == start && wire == Gather(start, moved)
    }

    constructor (answers: seq<Answer>, receive: bool, ghost m: Memory, ghost stream: Memory)
      ensures Valid() && script == answers && moved == [] && receiving == receive && memory == m && incoming == stream
    {
      script, moved, receiving := answers, [], receive;
      start, incoming, memory, wire := m, stream, m, [];
    }

    /** readv, writev, recvv or sendv: moves at most what it is offered, from the front. */
    method Move(iov: array<IoVec>, s: nat, count: nat) returns (n: int, errno: Errno, ready: bool)
      requires Valid() && s <= count <= iov.Length
      modifies this
      ensures Valid()
      ensures var a := Next(old(script));
              && errno == a.errno && ready == a.ready && script == Rest(old(script))
              && n == (match a.reply case Failure => -1 case Count(c) => Least(c, |Cells(iov[s..count])|))
              && moved == old(moved) + (if n > 0 then Cells(iov[s..count])[..n] else [])
    {
      var a := Next(script);
      errno, ready := a.errno, a.ready;
      script := Rest(script);
      match a.reply {
        case Failure => n := -1;
        case Count(c) =>
          n := Least(c, |Cells(iov[s..count])|);
          ghost var cells := Cells(iov[s..count])[..n];
          if receiving {
            ReceivedMore(start, incoming, moved, cells);
            memory := Scatter(memory, cells, Stream(incoming, |moved|, n));
          } else {
            GatherMore(start, moved, cells);
            wire := wire + Gather(memory, cells);
          }
          moved := moved + Cells(iov[s..count])[..n];
      }
    }
  }

  /** What moving these cells, after taken others, does to memory and to the wire. */
  ghost predicate Effect(receiving: bool, incoming: Memory, taken: nat, cells: seq<nat>, m: Memory, m': Memory,
                         wire: seq<byte>, wire': seq<byte>) {
    if receiving then
      && m' == Scatter(m, cells, Stream(incoming, taken, |cells|)) && wire' == wire
      && (Distinct(cells) ==>
            && (forall i :: 0 <= i < |cells| ==> m'(cells[i]) == incoming(taken + i))
            && (forall a: nat :: a !in cells ==> m'(a) == m(a)))
    else
      m' == m && wire' == wire + Gather(m, cells)
  }

  lemma EffectOf(receiving: bool, start: Memory, incoming: Memory, before: seq<nat>, cells: seq<nat>, m: Memory,
                 m': Memory,
                 wire: seq<byte>, wire': seq<byte>)
    requires if receiving then m == Received(start, incoming, before) && wire == []
             else m == start && wire == Gather(start, before)
    requires if receiving then m' == Received(start, incoming, before + cells) && wire' == []
             else m' == start && wire' == Gather(start, before + cells)
    ensures Effect(receiving, incoming, |before|, cells, m, m', wire, wire')
  {
    if receiving {
      ReceivedMore(start, incoming, before, cells);
      if Distinct(cells) {
        ScatterGather(m, cells, Stream(incoming, |before|, |cells|));
        forall i | 0 <= i < |cells|
          ensures m'(cells[i]) == incoming(|before| + i)
        {
          assert Gather(m', cells)[i] == Stream(incoming, |before|, |cells|)[i];
        }
      }
    } else {
      GatherMore(start, before, cells);
    }
  }

  function Least(a: nat, b: nat): nat {
    if a < b then a else b
  }

  // ---------------------------------------------------------------------------------------
  // What a transfer amounts to
  // ---------------------------------------------------------------------------------------

  /** Plain: readv_n and writev_n. The others wait when the call would block. */
  datatype Variant = Plain | Receive | TimedReceive | Send | TimedSend

  /** A failure after which the variant waits for the handle. */
  predicate Waits(v: Variant, failed: bool, errno: Errno) {
    match v
    case Plain => false
    case Receive | TimedReceive => failed && errno == WouldBlock
    case Send => failed && (errno == WouldBlock || errno == NoBuffers)
    case TimedSend => (failed && errno == WouldBlock) || errno == NoBuffers
  }

  /** The returned code and the number of bytes moved, with sofar moved before and left to go. */
  function Flow(v: Variant, script: seq<Answer>, sofar: nat, left: nat, open: bool): (int, nat)
    decreases |script|
  {
    if !open then (sofar, sofar)
    else if script == [] then (-1, sofar)
    else
      var a := script[0];
      var n := if a.reply.Count? then Least(a.reply.n, left) else 0;
      if n > 0 then Flow(v, script[1..], sofar + n, left - n, left > n)
      else if Waits(v, a.reply.Failure?, a.errno) && a.ready then Flow(v, script[1..], sofar, left, open)
      else (if a.reply.Failure? then -1 else 0, sofar)
  }

  /** The answers a transfer leaves for later calls. */
  function FlowRest(v: Variant, script: seq<Answer>, left: nat, open: bool): seq<Answer>
    decreases |script|
  {
    if !open || script == [] then script
    else
      var a := script[0];
      var n := if a.reply.Count? then Least(a.reply.n, left) else 0;
      if n > 0 then FlowRest(v, script[1..], left - n, left > n)
      else if Waits(v, a.reply.Failure?, a.errno) && a.ready then FlowRest(v, script[1..], left, open)
      else script[1..]
  }

  /** A positive code is the whole, and the whole is reported as such; short of it the code is 0 or -1. */
  lemma {:induction false} FlowIsHonest(v: Variant, script: seq<Answer>, sofar: nat, left: nat)
    requires left > 0
    ensures var (code, moved) := Flow(v, script, sofar, left, true);
            && sofar <= moved <= sofar + left
            && (moved == sofar + left ==> code == sofar + left)
            && (moved < sofar + left ==> code == 0 || code == -1)
    decreases |script|
  {
    if script != [] {
      var a := script[0];
      var n := if a.reply.Count? then Least(a.reply.n, left) else 0;
      if n > 0 {
        if left > n { FlowIsHonest(v, script[1..], sofar + n, left - n); }
      } else {
        FlowIsHonest(v, script[1..], sofar, left);
      }
    }
  }

  /** With nothing to move no call can report success. */
  lemma {:induction false} NothingToMove(v: Variant, script: seq<Answer>)
    ensures var (code, moved) := Flow(v, script, 0, 0, true); (code == 0 || code == -1) && moved == 0
    decreases |script|
  {
    if script != [] { NothingToMove(v, script[1..]); }
  }

  /** End of file comes before any byte, possibly after waits. */
  predicate EndsAtOnce(v: Variant, script: seq<Answer>, left: nat)
    decreases |script|
  {
    script != [] &&
    var a := script[0];
    var n := if a.reply.Count? then Least(a.reply.n, left) else 0;
    && n == 0
    && if Waits(v, a.reply.Failure?, a.errno) && a.ready then EndsAtOnce(v, script[1..], left) else a.reply.Count?
  }

  lemma {:induction false} EndsAtOnceIff(v: Variant, script: seq<Answer>, sofar: nat, left: nat)
    ensures Flow(v, script, sofar, left, true) == (0, sofar) <==> EndsAtOnce(v, script, left)
    decreases |script|
  {
    if script != [] {
      var a := script[0];
      var n := if a.reply.Count? then Least(a.reply.n, left) else 0;
      if n > 0 {
        if left > n { FlowIsHonest(v, script[1..], sofar + n, left - n); }
      } else {
        EndsAtOnceIff(v, script[1..], sofar, left);
      }
    }
  }

  /**
   * Whatever errno holds, an end of file ends the call, except for the timed send with ENOBUFS left in errno and a
   * ready handle, which goes on as if nothing had happened.
   */
  lemma EndOfFileIff(v: Variant, errno: Errno, ready: bool, rest: seq<Answer>, sofar: nat, left: nat)
    ensures Flow(v, [Answer(Count(0), errno, ready)] + rest, sofar, left, true)
            == if v.TimedSend? && errno.NoBuffers? && ready then Flow(v, rest, sofar, left, true) else (0, sofar)
    ensures Flow(v, [Answer(Count(0), errno, ready)] + rest, sofar, left, true) == (0, sofar)
            <==> !(v.TimedSend? && errno.NoBuffers? && ready) || EndsAtOnce(v, rest, left)
  {
    assert ([Answer(Count(0), errno, ready)] + rest)[1..] == rest;
    EndsAtOnceIff(v, rest, sofar, left);
  }

  /**
   * After a failure the call waits and goes on when the handle becomes ready and it would have blocked, or had no
   * buffers to send from; readv_n and writev_n never wait. Otherwise it is over.
   */
  lemma FailureIff(v: Variant, errno: Errno, ready: bool, rest: seq<Answer>, sofar: nat, left: nat)
    ensures Flow(v, [Answer(Failure, errno, ready)] + rest, sofar, left, true)
            == if ready && ((errno == WouldBlock && v != Plain)
                            || (errno == NoBuffers && (v == Send || v == TimedSend)))
               then Flow(v, rest, sofar, left, true) else (-1, sofar)
  {
    assert ([Answer(Failure, errno, ready)] + rest)[1..] == rest;
  }

  /** Bytes that go are counted, and the call is over when none are left, whatever errno and the handle say. */
  lemma BytesGo(v: Variant, n: nat, errno: Errno, ready: bool, rest: seq<Answer>, sofar: nat, left: nat)
    requires n > 0 && left > 0
    ensures Flow(v, [Answer(Count(n), errno, ready)] + rest, sofar, left, true)
            == if n >= left then (sofar + left, sofar + left) else Flow(v, rest, sofar + n, left - n, true)
  {
    assert ([Answer(Count(n), errno, ready)] + rest)[1..] == rest;
  }

  /**
   * On the way through a script the timed send meets an end of file with ENOBUFS left in errno and a ready handle,
   * and what follows is not another end of file before any byte.
   */
  predicate Misled(script: seq<Answer>, left: nat)
    decreases |script|
  {
    script != [] &&
    var a := script[0];
    var n := if a.reply.Count? then Least(a.reply.n, left) else 0;
    if n > 0 then left > n && Misled(script[1..], left - n)
    else if Waits(Send, a.reply.Failure?, a.errno) && a.ready then Misled(script[1..], left)
    else a.reply.Count? && a.errno.NoBuffers? && a.ready && !EndsAtOnce(TimedSend, script[1..], left)
  }

  /**
   * With the test read as it was meant, (n == -1 && (EWOULDBLOCK || ENOBUFS)), the timed send would do what the
   * plain one does. It does so for exactly the scripts that do not mislead it.
   */
  lemma {:induction false} TimedSendIff(script: seq<Answer>, sofar: nat, left: nat)
    ensures Flow(TimedSend, script, sofar, left, true) == Flow(Send, script, sofar, left, true)
            <==> !Misled(script, left)
    decreases |script|
  {
    if script != [] {
      var a := script[0];
      var n := if a.reply.Count? then Least(a.reply.n, left) else 0;
      if n > 0 {
        if left > n { TimedSendIff(script[1..], sofar + n, left - n); }
      } else {
        TimedSendIff(script[1..], sofar, left);
        EndsAtOnceIff(TimedSend, script[1..], sofar, left);
      }
    }
  }

  /** An end of file with ENOBUFS left in errno: the plain send reports it, the timed one waits and then fails. */
  lemma MisledExample()
    ensures var script := [Answer(Count(0), NoBuffers, true)];
            && Misled(script, 1) && Flow(TimedSend, script, 0, 1, true) == (-1, 0)
            && Flow(Send, script, 0, 1, true) == (0, 0)
  {
    assert [Answer(Count(0), NoBuffers, true)][1..] == [];
  }

  lemma FlowOverall(v: Variant, script: seq<Answer>, total: nat)
    ensures var (code, moved) := Flow(v, script, 0, total, true);
            && moved <= total && (code > 0 <==> moved == total > 0) && (code > 0 ==> code == total) && code >= -1
  {
    if total > 0 { FlowIsHonest(v, script, 0, total); } else { NothingToMove(v, script); }
  }

  // ---------------------------------------------------------------------------------------
  // The loop
  // ---------------------------------------------------------------------------------------

  lemma FlowNext(v: Variant, script: seq<Answer>, sofar: nat, left: nat)
    ensures var a := Next(script);
            var n := if a.reply.Count? then Least(a.reply.n, left) else 0;
            Flow(v, script, sofar, left, true)
            == if n > 0 then Flow(v, Rest(script), sofar + n, left - n, left > n)
               else if Waits(v, a.reply.Failure?, a.errno) && a.ready then Flow(v, Rest(script), sofar, left, true)
               else (if a.reply.Failure? then -1 else 0, sofar)
    ensures var a := Next(script);
            var n := if a.reply.Count? then Least(a.reply.n, left) else 0;
            FlowRest(v, script, left, true)
            == if n > 0 then FlowRest(v, Rest(script), left - n, left > n)
               else if Waits(v, a.reply.Failure?, a.errno) && a.ready then FlowRest(v, Rest(script), left, true)
               else Rest(script)
  {
  }

  /** Moving n of the bytes that are left keeps the account. */
  lemma Conserved(moved: seq<nat>, left: seq<nat>, rest: seq<nat>, n: nat)
    requires n <= |left|
    ensures (moved + left[..n]) + (left[n..] + rest) == moved + (left + rest)
  {
    assert left == left[..n] + left[n..];
  }

  /** What has been moved since m0 is a prefix of all. */
  lemma Settled(moved: seq<nat>, left: seq<nat>, m0: seq<nat>, all: seq<nat>, t: nat)
    requires moved + left == m0 + all && |moved| == |m0| + t
    ensures t <= |all| && moved == m0 + all[..t] && left == all[t..]
  {
    assert |moved + left| == |m0 + all|;
    assert moved == (moved + left)[..|moved|] && left == (moved + left)[|moved|..];
  }

  lemma CellsFirst(v: seq<IoVec>)
    requires v != []
    ensures Cells(v) == Range(v[0].base, v[0].len) + Cells(v[1..])
  {
  }

  /** Passes over the buffers that n bytes complete, and shortens the one they end in. */
  method Advance(iov: array<IoVec>, s: nat, count: nat, moved: nat) returns (s': nat)
    requires s <= count <= iov.Length && moved <= |Cells(iov[s..count])|
    modifies iov
    ensures s <= s' <= count && Cells(iov[s'..count]) == old(Cells(iov[s..count]))[moved..]
    ensures s' < count <==> |Cells(iov[s'..count])| > 0
  {
    s' := s;
    var n: nat := moved;
    ghost var all := Cells(iov[s..count]);
    while s' < count && n >= iov[s'].len
      invariant s <= s' <= count && n <= |Cells(iov[s'..count])|
      invariant Cells(iov[s'..count])[n..] == all[moved..]
      invariant iov[..] == old(iov[..])
    {
      CellsFirst(iov[s'..count]);
      assert iov[s'..count][1..] == iov[s' + 1..count];
      n := n - iov[s'].len;
      s' := s' + 1;
    }
    if s' == count {
      assert iov[s'..count] == [];
    } else {
      CellsFirst(iov[s'..count]);
    }
    if n != 0 {
      Shorten(iov, s', count, n);
    }
  }

  method Shorten(iov: array<IoVec>, s: nat, count: nat, n: nat)
    requires s < count <= iov.Length && n < iov[s].len
    modifies iov
    ensures n <= |old(Cells(iov[s..count]))| && Cells(iov[s..count]) == old(Cells(iov[s..count]))[n..]
    ensures |Cells(iov[s..count])| > 0
  {
    ghost var cut, after := iov[s], iov[s + 1..count];
    CellsFirst(iov[s..count]);
    assert iov[s..count][1..] == after;
    RangeSplit(cut.base, cut.len, n);
    iov[s] := IoVec(iov[s].base + n, iov[s].len - n);
    CellsFirst(iov[s..count]);
    assert iov[s..count][1..] == after;
  }

  /** One call of the kernel with left bytes to go; again tells that it blocked and the handle became ready. */
  method Ask(v: Variant, k: Kernel, iov: array<IoVec>, s: nat, count: nat, ghost sofar: nat, ghost left: seq<nat>)
    returns (n: int, again: bool)
    requires k.Valid() && s < count <= iov.Length && Cells(iov[s..count]) == left
    modifies k
    ensures k.Valid() && -1 <= n <= |left| && (again ==> n <= 0)
    ensures k.moved == old(k.moved) + if n > 0 then left[..n] else []
    ensures n > 0 || again ==> |k.script| < |old(k.script)|
    ensures Flow(v, old(k.script), sofar, |left|, true)
            == if n > 0 then Flow(v, k.script, sofar + n, |left| - n, |left| > n)
               else if again then Flow(v, k.script, sofar, |left|, true) else (n, sofar)
    ensures FlowRest(v, old(k.script), |left|, true)
            == if n > 0 then FlowRest(v, k.script, |left| - n, |left| > n)
               else if again then FlowRest(v, k.script, |left|, true) else k.script
  {
    FlowNext(v, k.script, sofar, |left|);
    var errno, ready;
    n, errno, ready := k.Move(iov, s, count);
    again := (n == 0 || n == -1) && Waits(v, n == -1, errno) && ready;
  }

  /**
   * One turn of the loop: n more bytes have gone and s' is the new cursor, with the cells left' behind it, or the
   * call is over with code n.
   */
  method Turn(v: Variant, k: Kernel, iov: array<IoVec>, s: nat, count: nat, ghost sofar: nat, ghost left: seq<nat>)
    returns (over: bool, n: int, s': nat, ghost left': seq<nat>)
    requires k.Valid() && s < count <= iov.Length && left == Cells(iov[s..count])
    modifies k, iov
    ensures k.Valid() && s' <= count && n >= -1 && (!over ==> n >= 0 && |k.script| < |old(k.script)|)
    ensures left' == Cells(iov[s'..count]) && k.moved + left' == old(k.moved) + left
    ensures |k.moved| == |old(k.moved)| + if over then 0 else n
    ensures Flow(v, old(k.script), sofar, |left|, true)
            == if over then (n, sofar) else Flow(v, k.script, sofar + n, |left'|, s' < count)
    ensures FlowRest(v, old(k.script), |left|, true)
            == if over then k.script else FlowRest(v, k.script, |left'|, s' < count)
  {
    ghost var before := k.moved;
    var again;
    n, again := Ask(v, k, iov, s, count, sofar, left);
    over, s', left' := false, s, left;
    if n > 0 {
      s' := Advance(iov, s, count, n);
      left' := left[n..];
      Conserved(before, left, [], n);
    } else if again {
      n := 0;
    } else {
      over := true;
    }
  }

  /** The loop over the buffers. */
  method MoveLoop(v: Variant, k: Kernel, iov: array<IoVec>, count: nat) returns (result: int, transferred: nat)
    requires k.Valid() && count <= iov.Length
    modifies k, iov
    ensures k.Valid()
    ensures var all := old(Cells(iov[..count]));
            && transferred <= |all| && k.moved == old(k.moved) + all[..transferred]
            && (result, transferred) == Flow(v, old(k.script), 0, |all|, count > 0)
            && k.script == FlowRest(v, old(k.script), |all|, count > 0)
  {
    ghost var all, m0 := Cells(iov[..count]), k.moved;
    ghost var left := all;
    var s: nat := 0;
    transferred := 0;
    assert iov[..count] == iov[0..count];
    while s < count
      invariant s <= count && k.Valid() && left == Cells(iov[s..count])
      invariant k.moved + left == m0 + all && |k.moved| == |m0| + transferred
      invariant Flow(v, old(k.script), 0, |all|, count > 0) == Flow(v, k.script, transferred, |left|, s < count)
      invariant FlowRest(v, old(k.script), |all|, count > 0) == FlowRest(v, k.script, |left|, s < count)
      decreases |k.script|
    {
      var over, n, next;
      over, n, next, left := Turn(v, k, iov, s, count, transferred, left);
      if over {
        Settled(k.moved, left, m0, all, transferred);
        return n, transferred;
      }
      transferred := transferred + n;
      s := next;
    }
    assert iov[s..count] == [];
    Settled(k.moved, [], m0, all, transferred);
    result := transferred;
  }

  /** readv_n, writev_n, recvv_n_i and sendv_n_i, the last two with and without a timeout. */
  method MoveAll(v: Variant, k: Kernel, iov: array<IoVec>, count: nat) returns (result: int, transferred: nat)
    requires k.Valid() && count <= iov.Length
    modifies k, iov
    ensures k.Valid()
    ensures var all := old(Cells(iov[..count]));
            && transferred <= |all| && k.moved == old(k.moved) + all[..transferred]
            && Effect(k.receiving, k.incoming, |old(k.moved)|, all[..transferred], old(k.memory), k.memory,
                      old(k.wire), k.wire)
            && (result, transferred) == Flow(v, old(k.script), 0, |all|, count > 0)
            && k.script == FlowRest(v, old(k.script), |all|, count > 0)
            && (result > 0 <==> transferred == |all| > 0)
            && (result == -1 || result == 0 || result == |all|)
  {
    ghost var all := Cells(iov[..count]);
    FlowOverall(v, k.script, |all|);
    result, transferred := MoveLoop(v, k, iov, count);
    EffectOf(k.receiving, k.start, k.incoming, old(k.moved), all[..transferred], old(k.memory), k.memory, old(k.wire),
             k.wire);
  }

  // ---------------------------------------------------------------------------------------
  // Message chains
  // ---------------------------------------------------------------------------------------

  /** A message block: its unread data, the next block of the same message, and (for a first block) the next message. */
  datatype Chain = End | Block(base: nat, len: nat, cont: Chain, next: Chain)

  function MessageCells(m: Chain): seq<nat> {
    if m.End? then [] else Range(m.base, m.len) + MessageCells(m.cont)
  }

  function ChainCells(m: Chain): seq<nat> {
    if m.End? then [] else MessageCells(m) + ChainCells(m.next)
  }

  /** How the buffers of a chain are cut: the bytes of every block in chunks of at most most. */
  function Chunks(len: nat, most: nat): seq<nat>
    requires most > 0
  {
    if len == 0 then [] else if len > most then [most] + Chunks(len - most, most) else [len]
  }

  function MessageChunks(m: Chain, most: nat): seq<nat>
    requires most > 0
  {
    if m.End? then [] else Chunks(m.len, most) + MessageChunks(m.cont, most)
  }

  function ChainChunks(m: Chain, most: nat): seq<nat>
    requires most > 0
  {
    if m.End? then [] else MessageChunks(m, most) + ChainChunks(m.next, most)
  }

  function Sum(chunks: seq<nat>): nat {
    if chunks == [] then 0 else chunks[0] + Sum(chunks[1..])
  }

  /** Batches of at most most chunks, one transfer each, until one falls short: the code, the bytes, the script left. */
  function ChunkFlow(v: Variant, script: seq<Answer>, chunks: seq<nat>, most: nat, sofar: nat): (int, nat, seq<Answer>)
    requires most > 0
    decreases |chunks|
  {
    if chunks == [] then (sofar, sofar, script)
    else
      var k := Least(most, |chunks|);
      var total := Sum(chunks[..k]);
      var (code, n) := Flow(v, script, 0, total, true);
      var rest := FlowRest(v, script, total, true);
      if code <= 0 then (code, sofar + n, rest) else ChunkFlow(v, rest, chunks[k..], most, sofar + n)
  }

  // What the outcome of a chain says about the answers

  /** After this answer the call goes on: it moved bytes, or it would block or has no buffers and can go on later. */
  predicate GoesOn(v: Variant, a: Answer) {
    match a.reply
    case Count(n) => n > 0 || (v == TimedSend && a.errno == NoBuffers && a.ready)
    case Failure =>
      a.ready && ((a.errno == WouldBlock && v != Plain) || (a.errno == NoBuffers && (v == Send || v == TimedSend)))
  }

  predicate AllGoOn(v: Variant, used: seq<Answer>) {
    forall i :: 0 <= i < |used| ==> GoesOn(v, used[i])
  }

  /**
   * How a call ends that used these answers: complete, or at the last of them, an end of file (code 0) or a failure
   * it does not wait out (code -1), or because the script is exhausted (code -1).
   */
  predicate Ending(v: Variant, used: seq<Answer>, rest: seq<Answer>, complete: bool, code: int) {
    if complete then AllGoOn(v, used)
    else
      || (used != [] && AllGoOn(v, used[..|used| - 1]) && !GoesOn(v, used[|used| - 1])
          && code == if used[|used| - 1].reply.Failure? then -1 else 0)
      || (rest == [] && AllGoOn(v, used) && code == -1)
  }

  lemma OneMoreUsed(v: Variant, script: seq<Answer>, used: seq<Answer>, rest: seq<Answer>, complete: bool, code: int)
    requires script != [] && GoesOn(v, script[0]) && script[1..] == used + rest && Ending(v, used, rest, complete, code)
    ensures script == ([script[0]] + used) + rest && Ending(v, [script[0]] + used, rest, complete, code)
  {
    var a := script[0];
    assert script == [a] + script[1..];
    if used != [] { assert ([a] + used)[..|used|] == [a] + used[..|used| - 1]; }
  }

  lemma LastUsed(v: Variant, script: seq<Answer>, sofar: nat, left: nat)
    requires left > 0 && script != []
    requires !GoesOn(v, script[0]) || (script[0].reply.Count? && script[0].reply.n >= left)
    ensures var (code, moved) := Flow(v, script, sofar, left, true);
            && script == [script[0]] + FlowRest(v, script, left, true)
            && Ending(v, [script[0]], FlowRest(v, script, left, true), moved == sofar + left, code)
  {
    assert script == [script[0]] + script[1..];
  }

  lemma {:induction false} FlowEnding(v: Variant, script: seq<Answer>, sofar: nat, left: nat)
    returns (used: seq<Answer>)
    requires left > 0
    ensures var (code, moved) := Flow(v, script, sofar, left, true);
            && script == used + FlowRest(v, script, left, true)
            && Ending(v, used, FlowRest(v, script, left, true), moved == sofar + left, code)
    decreases |script|
  {
    used := [];
    if script != [] {
      var a := script[0];
      var n := if a.reply.Count? then Least(a.reply.n, left) else 0;
      var (code, moved) := Flow(v, script, sofar, left, true);
      if left > n && GoesOn(v, a) {
        used := FlowEnding(v, script[1..], sofar + n, left - n);
        OneMoreUsed(v, script, used, FlowRest(v, script, left, true), moved == sofar + left, code);
      } else {
        LastUsed(v, script, sofar, left);
      }
      used := [a] + used;
    }
  }

  /** The script splits into the answers a chain's transfer used and those it left, and they say how it ended. */
  lemma {:induction false} ChunkEnding(v: Variant, script: seq<Answer>, chunks: seq<nat>, most: nat, sofar: nat)
    returns (used: seq<Answer>)
    requires most > 0 && forall i :: 0 <= i < |chunks| ==> chunks[i] > 0
    ensures var (code, moved, rest) := ChunkFlow(v, script, chunks, most, sofar);
            && script == used + rest && sofar <= moved <= sofar + Sum(chunks)
            && Ending(v, used, rest, moved == sofar + Sum(chunks), code)
            && (moved == sofar + Sum(chunks) ==> code == moved)
    decreases |chunks|, 0
  {
    used := [];
    if chunks != [] {
      var k := Least(most, |chunks|);
      var batch, more := chunks[..k], chunks[k..];
      var total := Sum(batch);
      SumSplits(chunks, batch, more);
      var (code, n) := Flow(v, script, 0, total, true);
      var rest := FlowRest(v, script, total, true);
      FlowIsHonest(v, script, 0, total);
      used := FlowEnding(v, script, 0, total);
      OneBatch(v, script, chunks, most, sofar, more, total);
      if code > 0 {
        used := EndingBehind(v, script, used, rest, more, most, sofar + total);
      }
    }
  }

  /** The answers of one complete batch, and those of what follows. */
  lemma {:induction false} EndingBehind(v: Variant, script: seq<Answer>, first: seq<Answer>, rest: seq<Answer>,
                                        more: seq<nat>, most: nat, sofar: nat)
    returns (used: seq<Answer>)
    requires most > 0 && (forall i :: 0 <= i < |more| ==> more[i] > 0)
    requires script == first + rest && AllGoOn(v, first)
    ensures var (code, moved, after) := ChunkFlow(v, rest, more, most, sofar);
            && script == used + after && sofar <= moved <= sofar + Sum(more)
            && Ending(v, used, after, moved == sofar + Sum(more), code)
            && (moved == sofar + Sum(more) ==> code == moved)
    decreases |more|, 1
  {
    var later := ChunkEnding(v, rest, more, most, sofar);
    var (code, moved, after) := ChunkFlow(v, rest, more, most, sofar);
    used := UsedBoth(v, script, first, rest, later, after, moved == sofar + Sum(more), code);
  }

  lemma {:induction false} SumSplits(chunks: seq<nat>, a: seq<nat>, b: seq<nat>)
    requires chunks == a + b
    ensures Sum(chunks) == Sum(a) + Sum(b)
    ensures a != [] && (forall i :: 0 <= i < |chunks| ==> chunks[i] > 0) ==> Sum(a) > 0
    decreases |a|
  {
    if a == [] {
      assert chunks == b;
    } else {
      assert chunks[0] == a[0] && chunks[1..] == a[1..] + b;
      SumSplits(chunks[1..], a[1..], b);
    }
  }

  lemma UsedBoth(v: Variant, script: seq<Answer>, a: seq<Answer>, middle: seq<Answer>, b: seq<Answer>,
                 rest: seq<Answer>, complete: bool, code: int)
    returns (used: seq<Answer>)
    requires script == a + middle && middle == b + rest && AllGoOn(v, a) && Ending(v, b, rest, complete, code)
    ensures script == used + rest && Ending(v, used, rest, complete, code)
  {
    used := a + b;
    if b != [] { assert used[..|used| - 1] == a + b[..|b| - 1]; } else { assert used == a; }
  }

  /** How many answers move bytes before one ends the call. */
  function Movers(v: Variant, script: seq<Answer>): nat {
    if script == [] || !GoesOn(v, script[0]) then 0
    else (if script[0].reply.Count? && script[0].reply.n > 0 then 1 else 0) + Movers(v, script[1..])
  }

  lemma {:induction false} FlowGetsThrough(v: Variant, script: seq<Answer>, sofar: nat, left: nat)
    requires 0 < left <= Movers(v, script)
    ensures Flow(v, script, sofar, left, true) == (sofar + left, sofar + left)
    ensures Movers(v, FlowRest(v, script, left, true)) >= Movers(v, script) - left
    decreases |script|
  {
    var a := script[0];
    var n := if a.reply.Count? then Least(a.reply.n, left) else 0;
    if left > n { FlowGetsThrough(v, script[1..], sofar + n, left - n); }
  }

  /** With as many answers that move bytes as there are bytes, before one that ends the call, the whole chain goes. */
  lemma {:induction false} GetsThrough(v: Variant, script: seq<Answer>, chunks: seq<nat>, most: nat, sofar: nat)
    requires most > 0 && (forall i :: 0 <= i < |chunks| ==> chunks[i] > 0) && Sum(chunks) <= Movers(v, script)
    ensures var (code, moved, _) := ChunkFlow(v, script, chunks, most, sofar); code == moved == sofar + Sum(chunks)
    decreases |chunks|
  {
    if chunks != [] {
      var k := Least(most, |chunks|);
      var batch, more := chunks[..k], chunks[k..];
      SumSplits(chunks, batch, more);
      var total := Sum(batch);
      FlowGetsThrough(v, script, 0, total);
      OneBatch(v, script, chunks, most, sofar, more, total);
      GetsThrough(v, FlowRest(v, script, total, true), more, most, sofar + total);
    }
  }

  lemma OneBatch(v: Variant, script: seq<Answer>, chunks: seq<nat>, most: nat, sofar: nat, more: seq<nat>, total: nat)
    requires most > 0 && chunks != [] && more == chunks[Least(most, |chunks|)..]
    requires total == Sum(chunks[..Least(most, |chunks|)])
    ensures var ((code, n), rest) := (Flow(v, script, 0, total, true), FlowRest(v, script, total, true));
            ChunkFlow(v, script, chunks, most, sofar)
            == if code <= 0 then (code, sofar + n, rest) else ChunkFlow(v, rest, more, most, sofar + n)
  {
  }

  lemma {:induction false} ChunksOfBlock(len: nat, most: nat)
    requires most > 0
    ensures Sum(Chunks(len, most)) == len
    ensures forall i :: 0 <= i < |Chunks(len, most)| ==> 0 < Chunks(len, most)[i] <= most
  {
    if len > most {
      ChunksOfBlock(len - most, most);
      assert Chunks(len, most)[1..] == Chunks(len - most, most);
    } else if len > 0 {
      assert [len][1..] == [];
    }
  }

  lemma {:induction false} ChunksOfMessage(m: Chain, most: nat)
    requires most > 0
    ensures var chunks := MessageChunks(m, most);
            Sum(chunks) == |MessageCells(m)| && forall i :: 0 <= i < |chunks| ==> 0 < chunks[i] <= most
  {
    if m != End {
      ChunksOfBlock(m.len, most);
      ChunksOfMessage(m.cont, most);
      SumSplits(MessageChunks(m, most), Chunks(m.len, most), MessageChunks(m.cont, most));
    }
  }

  lemma {:induction false} ChunksOfChain(m: Chain, most: nat)
    requires most > 0
    ensures var chunks := ChainChunks(m, most);
            Sum(chunks) == |ChainCells(m)| && forall i :: 0 <= i < |chunks| ==> 0 < chunks[i] <= most
  {
    if m != End {
      ChunksOfMessage(m, most);
      ChunksOfChain(m.next, most);
      SumSplits(ChainChunks(m, most), MessageChunks(m, most), ChainChunks(m.next, most));
    }
  }

  /**
   * What a chain's transfer returns, from the script alone: the whole chain went exactly when every answer used let
   * the call go on and the script was not exhausted before the end. Enough answers that move bytes get it through.
   */
  lemma ChainOutcome(v: Variant, script: seq<Answer>, chain: Chain, iovMax: nat, chunkMax: nat)
    returns (used: seq<Answer>)
    requires iovMax > 0 && chunkMax > 0
    ensures var (code, moved, rest) := ChunkFlow(v, script, ChainChunks(chain, chunkMax), iovMax, 0);
            var total := |ChainCells(chain)|;
            && script == used + rest && moved <= total && Ending(v, used, rest, moved == total, code)
            && (moved == total ==> code == total) && (Movers(v, script) >= total ==> moved == total)
  {
    var chunks := ChainChunks(chain, chunkMax);
    ChunksOfChain(chain, chunkMax);
    used := ChunkEnding(v, script, chunks, iovMax, 0);
    if Movers(v, script) >= Sum(chunks) { GetsThrough(v, script, chunks, iovMax, 0); }
  }

  function Lens(v: seq<IoVec>): (lens: seq<nat>)
    ensures |lens| == |v|
  {
    seq(|v|, i requires 0 <= i < |v| => v[i].len)
  }

  lemma {:induction false} SumOfLens(v: seq<IoVec>)
    ensures Sum(Lens(v)) == |Cells(v)|
  {
    if v != [] {
      assert Lens(v)[1..] == Lens(v[1..]);
      SumOfLens(v[1..]);
    }
  }

  /** With the collected buffers and the chunks still to come, the call will have this outcome. */
  ghost predicate OnCourse(v: Variant, k: Kernel, iov: array<IoVec>, count: nat, t: nat, more: seq<nat>,
                           outcome: (int, nat, seq<Answer>))
    reads k, iov
  {
    0 < iov.Length && count <= iov.Length
    && ChunkFlow(v, k.script, Lens(iov[..count]) + more, iov.Length, t) == outcome
  }

  lemma BatchStep(v: Variant, script: seq<Answer>, batch: seq<IoVec>, more: seq<nat>, most: nat, t: nat)
    requires batch != [] && (|batch| == most || (|batch| < most && more == []))
    ensures var total := |Cells(batch)|;
            var (code, n) := Flow(v, script, 0, total, true);
            var rest := FlowRest(v, script, total, true);
            ChunkFlow(v, script, Lens(batch) + more, most, t)
            == if code <= 0 then (code, t + n, rest) else ChunkFlow(v, rest, more, most, t + n)
  {
    var chunks := Lens(batch) + more;
    assert chunks[..|batch|] == Lens(batch) && chunks[|batch|..] == more;
    SumOfLens(batch);
  }

  /**
   * t bytes have been moved since moved was m0, the first count buffers hold what follows, and rest comes after
   * them; together they are all.
   */
  ghost predicate Batched(k: Kernel, m0: seq<nat>, iov: array<IoVec>, count: nat, t: nat, all: seq<nat>, rest: seq<nat>)
    reads k, iov
  {
    && k.Valid() && count <= iov.Length && count <= |Cells(iov[..count])|
    && k.moved + (Cells(iov[..count]) + rest) == m0 + all && |k.moved| == |m0| + t
  }

  /** An early return: t bytes went and something did not. */
  ghost predicate Stopped(k: Kernel, m0: seq<nat>, t: nat, all: seq<nat>, code: int)
    reads k
  {
    k.Valid() && (code == 0 || code == -1) && t < |all| && k.moved == m0 + all[..t]
  }

  /** Hands the collected buffers over. */
  method Flush(v: Variant, k: Kernel, iov: array<IoVec>, count: nat, t: nat, ghost m0: seq<nat>, ghost all: seq<nat>,
               ghost rest: seq<nat>, ghost more: seq<nat>, ghost o: (int, nat, seq<Answer>))
    returns (code: int, t': nat)
    requires count > 0 && Batched(k, m0, iov, count, t, all, rest)
    requires OnCourse(v, k, iov, count, t, more, o) && (count == iov.Length || more == [])
    modifies k, iov
    ensures code > 0 ==> Batched(k, m0, iov, 0, t', all, rest) && OnCourse(v, k, iov, 0, t', more, o)
    ensures code <= 0 ==> Stopped(k, m0, t', all, code) && o == (code, t', k.script)
  {
    ghost var before, batch, script := k.moved, Cells(iov[..count]), k.script;
    BatchStep(v, script, iov[..count], more, iov.Length, t);
    var n;
    code, n := MoveAll(v, k, iov, count);
    t' := t + n;
    assert o == if code <= 0 then (code, t', k.script) else ChunkFlow(v, k.script, more, iov.Length, t');
    Conserved(before, batch, rest, n);
    if code > 0 {
      assert batch[n..] == [];
      assert iov[..0] == [];
      NothingMore(Lens(iov[..0]), more);
    } else {
      Settled(k.moved, batch[n..] + rest, m0, all, t');
    }
  }

  lemma OneMoreBuffer(v: seq<IoVec>, w: IoVec)
    ensures Cells(v + [w]) == Cells(v) + Range(w.base, w.len)
  {
    CellsConcat(v, [w]);
    assert [w][1..] == [];
  }

  lemma OneMoreChunk(v: seq<IoVec>, w: IoVec, more: seq<nat>)
    ensures Lens(v + [w]) + more == Lens(v) + ([w.len] + more)
  {
  }

  method Put(k: Kernel, iov: array<IoVec>, count: nat, ptr: nat, chunk: nat, ghost left: nat,
             ghost t: nat, ghost m0: seq<nat>, ghost all: seq<nat>, ghost rest: seq<nat>,
             ghost v: Variant, ghost more: seq<nat>, ghost o: (int, nat, seq<Answer>))
    requires 0 < chunk <= left && count < iov.Length
    requires Batched(k, m0, iov, count, t, all, Range(ptr, left) + rest)
    requires OnCourse(v, k, iov, count, t, [chunk] + more, o)
    modifies iov
    ensures Batched(k, m0, iov, count + 1, t, all, Range(ptr + chunk, left - chunk) + rest)
    ensures OnCourse(v, k, iov, count + 1, t, more, o)
  {
    ghost var before := iov[..count];
    iov[count] := IoVec(ptr, chunk);
    assert iov[..count + 1] == before + [iov[count]];
    OneMoreChunk(before, iov[count], more);
    OneMoreBuffer(before, iov[count]);
    RangeSplit(ptr, left, chunk);
    assert Cells(before) + (Range(ptr, left) + rest)
           == Cells(iov[..count + 1]) + (Range(ptr + chunk, left - chunk) + rest);
  }

  /** Collects the next chunk of left bytes, and flushes when all buffers are taken. */
  method Add(v: Variant, k: Kernel, iov: array<IoVec>, count: nat, t: nat, ptr: nat, left: nat, chunkMax: nat,
             ghost m0: seq<nat>, ghost all: seq<nat>, ghost rest: seq<nat>, ghost more: seq<nat>,
             ghost o: (int, nat, seq<Answer>))
    returns (code: int, count': nat, t': nat, chunk: nat, ghost ahead: seq<nat>, ghost cut: seq<nat>)
    requires 0 < left && 0 < chunkMax && count < iov.Length
    requires Batched(k, m0, iov, count, t, all, Range(ptr, left) + rest)
    requires OnCourse(v, k, iov, count, t, Chunks(left, chunkMax) + more, o)
    modifies k, iov
    ensures 0 < chunk <= left && chunk == Least(left, chunkMax)
    ensures ahead == Range(ptr + chunk, left - chunk) + rest && cut == Chunks(left - chunk, chunkMax) + more
    ensures code > 0 ==>
              && count' < iov.Length && Batched(k, m0, iov, count', t', all, ahead)
              && OnCourse(v, k, iov, count', t', cut, o)
    ensures code <= 0 ==> Stopped(k, m0, t', all, code) && o == (code, t', k.script)
  {
    chunk := if left > chunkMax then chunkMax else left;
    ahead, cut := Range(ptr + chunk, left - chunk) + rest, Chunks(left - chunk, chunkMax) + more;
    FirstChunk(left, chunkMax, chunk, more);
    Put(k, iov, count, ptr, chunk, left, t, m0, all, rest, v, cut, o);
    code, count', t' := 1, count + 1, t;
    if count' == iov.Length {
      code, t' := Flush(v, k, iov, count', t, m0, all, ahead, cut, o);
      count' := 0;
    }
  }

  /** The innermost loop: the data of one block in chunks of at most chunkMax. */
  method Collect(v: Variant, k: Kernel, iov: array<IoVec>, count: nat, t: nat, base: nat, len: nat, chunkMax: nat,
                 ghost m0: seq<nat>, ghost all: seq<nat>, ghost rest: seq<nat>, ghost more: seq<nat>,
                 ghost o: (int, nat, seq<Answer>))
    returns (code: int, count': nat, t': nat)
    requires chunkMax > 0 && count < iov.Length
    requires Batched(k, m0, iov, count, t, all, Range(base, len) + rest)
    requires OnCourse(v, k, iov, count, t, Chunks(len, chunkMax) + more, o)
    modifies k, iov
    ensures code > 0 ==>
              count' < iov.Length && Batched(k, m0, iov, count', t', all, rest)
              && OnCourse(v, k, iov, count', t', more, o)
    ensures code <= 0 ==> Stopped(k, m0, t', all, code) && o == (code, t', k.script)
  {
    code, count', t' := 1, count, t;
    var ptr: nat, left: nat := base, len;
    ghost var ahead, cut := Range(ptr, left) + rest, Chunks(left, chunkMax) + more;
    while left > 0
      invariant code > 0 && count' < iov.Length && left <= len
      invariant ahead == Range(ptr, left) + rest && Batched(k, m0, iov, count', t', all, ahead)
      invariant cut == Chunks(left, chunkMax) + more && OnCourse(v, k, iov, count', t', cut, o)
    {
      var chunk;
      code, count', t', chunk, ahead, cut := Add(v, k, iov, count', t', ptr, left, chunkMax, m0, all, rest, more, o);
      if code <= 0 {
        return;
      }
      left := left - chunk;
      ptr := ptr + chunk;
    }
    NothingMore(Range(ptr, 0), rest);
    NothingMore(Chunks(0, chunkMax), more);
  }

  lemma FirstChunk(left: nat, most: nat, chunk: nat, more: seq<nat>)
    requires 0 < left && 0 < most && chunk == if left > most then most else left
    ensures Chunks(left, most) + more == [chunk] + (Chunks(left - chunk, most) + more)
  {
  }

  /** The blocks of one message. */
  method CollectMessage(v: Variant, k: Kernel, iov: array<IoVec>, count: nat, t: nat, message: Chain, chunkMax: nat,
                        ghost m0: seq<nat>, ghost all: seq<nat>, ghost later: seq<nat>, ghost more: seq<nat>,
                        ghost o: (int, nat, seq<Answer>))
    returns (code: int, count': nat, t': nat)
    requires chunkMax > 0 && count < iov.Length
    requires Batched(k, m0, iov, count, t, all, MessageCells(message) + later)
    requires OnCourse(v, k, iov, count, t, MessageChunks(message, chunkMax) + more, o)
    modifies k, iov
    ensures code > 0 ==>
              count' < iov.Length && Batched(k, m0, iov, count', t', all, later)
              && OnCourse(v, k, iov, count', t', more, o)
    ensures code <= 0 ==> Stopped(k, m0, t', all, code) && o == (code, t', k.script)
  {
    code, count', t' := 1, count, t;
    var current := message;
    while current != End
      invariant code > 0 && count' < iov.Length
      invariant Batched(k, m0, iov, count', t', all, MessageCells(current) + later)
      invariant OnCourse(v, k, iov, count', t', MessageChunks(current, chunkMax) + more, o)
      decreases current
    {
      ghost var rest, chunks := MessageCells(current.cont) + later, MessageChunks(current.cont, chunkMax) + more;
      NextBlock(current, later);
      NextChunks(current, chunkMax, more);
      code, count', t' := Collect(v, k, iov, count', t', current.base, current.len, chunkMax, m0, all, rest, chunks, o);
      if code <= 0 {
        return;
      }
      current := current.cont;
    }
    NothingMore(MessageCells(End), later);
    NothingMore(MessageChunks(End, chunkMax), more);
  }

  lemma NextChunks(m: Chain, most: nat, more: seq<nat>)
    requires m != End && most > 0
    ensures MessageChunks(m, most) + more == Chunks(m.len, most) + (MessageChunks(m.cont, most) + more)
  {
  }

  lemma NextBlock(m: Chain, later: seq<nat>)
    requires m != End
    ensures MessageCells(m) + later == Range(m.base, m.len) + (MessageCells(m.cont) + later)
  {
  }

  lemma NextMessage(m: Chain, chunkMax: nat)
    requires m != End && chunkMax > 0
    ensures ChainCells(m) == MessageCells(m) + ChainCells(m.next)
    ensures ChainChunks(m, chunkMax) == MessageChunks(m, chunkMax) + ChainChunks(m.next, chunkMax)
  {
  }

  lemma NothingMore(none: seq<nat>, rest: seq<nat>)
    requires none == []
    ensures none + rest == rest
  {
  }

  /** Hands over what is left when all messages have been collected. */
  method FlushLast(v: Variant, k: Kernel, iov: array<IoVec>, count: nat, t: nat, ghost m0: seq<nat>,
                   ghost all: seq<nat>, ghost o: (int, nat, seq<Answer>))
    returns (result: int, transferred: nat)
    requires count < iov.Length && Batched(k, m0, iov, count, t, all, []) && OnCourse(v, k, iov, count, t, [], o)
    modifies k, iov
    ensures k.Valid() && transferred <= |all| && k.moved == m0 + all[..transferred]
    ensures transferred == |all| ==> result == |all|
    ensures transferred < |all| ==> result == 0 || result == -1
    ensures o == (result, transferred, k.script)
  {
    transferred := t;
    if count != 0 {
      var code;
      code, transferred := Flush(v, k, iov, count, t, m0, all, [], [], o);
      if code <= 0 {
        return code, transferred;
      }
    }
    assert iov[..0] == [];
    assert Lens(iov[..0]) + [] == [];
    Settled(k.moved, [], m0, all, transferred);
    result := transferred;
  }

  lemma Begun(v: Variant, k: Kernel, iov: array<IoVec>, all: seq<nat>, chunks: seq<nat>,
              o: (int, nat, seq<Answer>))
    requires k.Valid() && iov.Length > 0 && o == ChunkFlow(v, k.script, chunks, iov.Length, 0)
    ensures Batched(k, k.moved, iov, 0, 0, all, all) && OnCourse(v, k, iov, 0, 0, chunks, o)
  {
    assert iov[..0] == [];
    NothingMore(Cells(iov[..0]), all);
    NothingMore(Lens(iov[..0]), chunks);
  }

  /** The loop over the messages of a chain. */
  method SendLoop(v: Variant, k: Kernel, chain: Chain, iovMax: nat, chunkMax: nat)
    returns (result: int, transferred: nat)
    requires k.Valid() && iovMax > 0 && chunkMax > 0
    modifies k
    ensures k.Valid()
    ensures var all := ChainCells(chain);
            && transferred <= |all| && k.moved == old(k.moved) + all[..transferred]
            && (transferred == |all| ==> result == |all|)
            && (transferred < |all| ==> result == 0 || result == -1)
    ensures (result, transferred, k.script) == ChunkFlow(v, old(k.script), ChainChunks(chain, chunkMax), iovMax, 0)
  {
    ghost var all, m0 := ChainCells(chain), k.moved;
    ghost var o := ChunkFlow(v, k.script, ChainChunks(chain, chunkMax), iovMax, 0);
    var iov := new IoVec[iovMax](i => IoVec(0, 0));
    var count: nat := 0;
    transferred := 0;
    var message := chain;
    Begun(v, k, iov, all, ChainChunks(chain, chunkMax), o);
    while message != End
      invariant count < iov.Length == iovMax
      invariant Batched(k, m0, iov, count, transferred, all, ChainCells(message))
      invariant OnCourse(v, k, iov, count, transferred, ChainChunks(message, chunkMax), o)
      decreases message
    {
      var code;
      ghost var later, more := ChainCells(message.next), ChainChunks(message.next, chunkMax);
      NextMessage(message, chunkMax);
      code, count, transferred := CollectMessage(v, k, iov, count, transferred, message, chunkMax, m0, all, later, more,
                                                 o);
      if code <= 0 {
        return code, transferred;
      }
      message := message.next;
    }
    result, transferred := FlushLast(v, k, iov, count, transferred, m0, all, o);
  }

  /**
   * write_n (variant Plain) and send_n (Send without a timeout, TimedSend with one) of a chain of messages, and
   * recv_n into one, in batches of iovMax buffers. What went is a prefix of the chain's bytes, of the reported length
   * even when the call fails, and only the whole chain counts as success.
   */
  method SendChain(v: Variant, k: Kernel, chain: Chain, iovMax: nat, chunkMax: nat)
    returns (result: int, transferred: nat)
    requires k.Valid() && iovMax > 0 && chunkMax > 0
    modifies k
    ensures k.Valid()
    ensures var all := ChainCells(chain);
            && transferred <= |all| && k.moved == old(k.moved) + all[..transferred]
            && Effect(k.receiving, k.incoming, |old(k.moved)|, all[..transferred], old(k.memory), k.memory,
                      old(k.wire), k.wire)
            && (transferred == |all| ==> result == |all|)
            && (transferred < |all| ==> result == 0 || result == -1)
    ensures (result, transferred, k.script) == ChunkFlow(v, old(k.script), ChainChunks(chain, chunkMax), iovMax, 0)
  {
    ghost var all := ChainCells(chain);
    result, transferred := SendLoop(v, k, chain, iovMax, chunkMax);
    EffectOf(k.receiving, k.start, k.incoming, old(k.moved), all[..transferred], old(k.memory), k.memory, old(k.wire),
             k.wire);
  }
}
