/**
 * The two-generation thread barrier.
 *
 * A call of wait is cut where the lock is released: Begin is the part up to the first block or return,
 * Resume one turn of the waiting loop after the condition variable let the thread go. Between these
 * lock-held pieces any other thread may run.
 */
module Barrier {

  // ---------------------------------------------------------------------------------------
  // One barrier
  // ---------------------------------------------------------------------------------------

  /**
   * A sub-barrier: threads still to come, and those blocked on its condition or released from it but not yet
   * running.
   */
  datatype Sub = Sub(running: int, asleep: set<nat>, awake: set<nat>)

  /** down: both sub-barrier pointers have been cleared. */
  datatype State = State(count: int, first: Sub, second: Sub, generation: int, down: bool)

  datatype Outcome = Returned(code: int) | Blocked

  function At(b: State, g: int): Sub {
    if g == 0 then b.first else b.second
  }

  function With(b: State, g: int, s: Sub): State {
    if g == 0 then b.(first := s) else b.(second := s)
  }

  function Broadcast(s: Sub): Sub {
    s.(asleep := {}, awake := s.awake + s.asleep)
  }

  function Fresh(count: int): State {
    State(count, Sub(count, {}, {}), Sub(count, {}, {}), 0, false)
  }

  function Begin(b: State, t: nat): (State, Outcome) {
    var g, s := b.generation, At(b, b.generation);
    if b.down then (b, Returned(-1))
    else if s.running == 1 then
      (With(b.(generation := 1 - g), g, Broadcast(s.(running := b.count))), Returned(0))
    else
      Check(With(b, g, s.(running := s.running - 1)), g, t)
  }

  /** The test of the waiting loop, and what follows when it fails. */
  function Check(b: State, g: int, t: nat): (State, Outcome) {
    var s := At(b, g);
    if s.running != b.count then (With(b, g, s.(asleep := s.asleep + {t})), Blocked)
    else (b, Returned(if b.down then -1 else 0))
  }

  function Resume(b: State, g: int, t: nat): (State, Outcome) {
    Check(With(b, g, At(b, g).(awake := At(b, g).awake - {t})), g, t)
  }

  function Shutdown(b: State): (State, int) {
    var g := b.generation;
    if b.down then (b, -1)
    else (With(b.(down := true), g, Broadcast(At(b, g).(running := b.count))), 0)
  }

  class SubBarrier {
    var running: int
    var asleep: set<nat>
    var awake: set<nat>

    constructor (count: int)
      ensures View() == Sub(count, {}, {})
    {
      running, asleep, awake := count, {}, {};
    }

    function View(): Sub
      reads this
    {
      Sub(running, asleep, awake)
    }

    method NotifyAll()
      modifies this
      ensures View() == Broadcast(old(View()))
    {
      awake := awake + asleep;
      asleep := {};
    }
  }

  class Barrier {
    const count: int
    var generation: int
    const first: SubBarrier
    const second: SubBarrier
    const subs: array<SubBarrier?>

    ghost predicate Valid()
      reads this, subs
    {
      && first != second && subs.Length == 2 && (generation == 0 || generation == 1)
      && (subs[..] == [first, second] || subs[..] == [null, null])
    }

    function View(): State
      requires Valid()
      reads this, subs, first, second
    {
      State(count, first.View(), second.View(), generation, subs[0] == null)
    }

    constructor (c: int)
      ensures Valid() && View() == Fresh(c) && fresh(first) && fresh(second) && fresh(subs)
    {
      count, generation := c, 0;
      first := new SubBarrier(c);
      second := new SubBarrier(c);
      subs := new SubBarrier?[2];
      new;
      subs[0], subs[1] := first, second;
    }

    /** wait, up to the point where the thread returns or blocks. */
    method Wait(t: nat) returns (o: Outcome)
      requires Valid()
      modifies this, first, second
      ensures Valid() && (View(), o) == Begin(old(View()), t)
    {
      var sbp := subs[generation];
      if sbp == null {
        return Returned(-1);
      }
      if sbp.running == 1 {
        sbp.running := count;
        generation := 1 - generation;
        sbp.NotifyAll();
        o := Returned(0);
      } else {
        sbp.running := sbp.running - 1;
        o := Test(sbp, t);
      }
    }

    /** The loop test under the lock; a thread that has to wait joins the sleepers. */
    method Test(sbp: SubBarrier, t: nat) returns (o: Outcome)
      requires Valid() && (sbp == first || sbp == second)
      modifies sbp
      ensures Valid() && (View(), o) == Check(old(View()), if sbp == first then 0 else 1, t)
    {
      if sbp.running != count {
        sbp.asleep := sbp.asleep + {t};
        o := Blocked;
      } else {
        o := Returned(if subs[generation] == null then -1 else 0);
      }
    }

    /** wait, after the condition variable released thread t. */
    method Continue(sbp: SubBarrier, t: nat) returns (o: Outcome)
      requires Valid() && (sbp == first || sbp == second)
      modifies sbp
      ensures Valid() && (View(), o) == Resume(old(View()), if sbp == first then 0 else 1, t)
    {
      sbp.awake := sbp.awake - {t};
      o := Test(sbp, t);
    }

    method ShutDown() returns (r: int)
      requires Valid()
      modifies this, first, second, subs
      ensures Valid() && (View(), r) == Shutdown(old(View()))
      ensures r == if old(subs[0]) == null then -1 else 0
    {
      var sbp := subs[generation];
      if sbp == null {
        return -1;
      }
      subs[0], subs[1] := null, null;
      sbp.running := count;
      sbp.NotifyAll();
      r := 0;
    }
  }

  // ---------------------------------------------------------------------------------------
  // Threads sharing the barrier
  // ---------------------------------------------------------------------------------------

  /** entered[t] counts the calls of wait by thread t, results[t] lists what the finished ones returned. */
  datatype System = System(barrier: State, entered: seq<nat>, results: seq<seq<int>>)

  /** Wake is a spurious wakeup. Stop is a call of shutdown, by any thread, inside or outside the group. */
  datatype Event = Enter(t: nat) | Go(g: int, t: nat) | Wake(g: int, t: nat) | Stop

  function Start(threads: nat, count: int): System {
    System(Fresh(count), seq(threads, i => 0), seq(threads, i => []))
  }

  predicate Enabled(s: System, e: Event) {
    |s.entered| == |s.results| &&
    match e
    case Enter(t) => t < |s.entered| && s.entered[t] == |s.results[t]|
    case Go(g, t) => t < |s.entered| && (g == 0 || g == 1) && t in At(s.barrier, g).awake
    case Wake(g, t) => t < |s.entered| && (g == 0 || g == 1) && t in At(s.barrier, g).asleep
    case Stop => true
  }

  function Finish(results: seq<seq<int>>, t: nat, o: Outcome): seq<seq<int>>
    requires t < |results|
  {
    if o.Returned? then results[t := results[t] + [o.code]] else results
  }

  function Apply(s: System, e: Event): System
    requires Enabled(s, e)
  {
    match e
    case Enter(t) =>
      var (b, o) := Begin(s.barrier, t);
      System(b, s.entered[t := s.entered[t] + 1], Finish(s.results, t, o))
    case Go(g, t) =>
      var (b, o) := Resume(s.barrier, g, t);
      s.(barrier := b, results := Finish(s.results, t, o))
    case Wake(g, t) =>
      var sub := At(s.barrier, g);
      s.(barrier := With(s.barrier, g, sub.(asleep := sub.asleep - {t}, awake := sub.awake + {t})))
    case Stop =>
      s.(barrier := Shutdown(s.barrier).0)
  }

  predicate Legal(s: System, run: seq<Event>)
    decreases |run|
  {
    run == [] || (Enabled(s, run[0]) && Legal(Apply(s, run[0]), run[1..]))
  }

  function Exec(s: System, run: seq<Event>): System
    requires Legal(s, run)
    decreases |run|
  {
    if run == [] then s else Exec(Apply(s, run[0]), run[1..])
  }

  // ---------------------------------------------------------------------------------------
  // The invariant
  // ---------------------------------------------------------------------------------------

  /** The threads that have arrived in the round after the first rounds ones. */
  function Arrived(entered: seq<nat>, rounds: nat): set<nat> {
    set t: nat | t < |entered| && entered[t] == rounds + 1
  }

  predicate Bounded(sub: Sub, n: nat) {
    && (forall t :: t in sub.asleep ==> t < n)
    && (forall t :: t in sub.awake ==> t < n)
  }

  /**
   * Thread t after a number of full rounds: either it has arrived in the next one, or it is out, or it is on its
   * way out.
   */
  predicate ThreadLive(s: System, rounds: nat, t: nat)
    requires t < |s.entered| == |s.results|
  {
    var now, before := At(s.barrier, rounds % 2), At(s.barrier, 1 - rounds % 2);
    && (forall k :: 0 <= k < |s.results[t]| ==> s.results[t][k] == 0)
    && t !in before.asleep
    && if s.entered[t] == rounds + 1 then
         |s.results[t]| == rounds && t !in before.awake && (t in now.asleep <==> t !in now.awake)
       else
         s.entered[t] == rounds && t !in now.asleep && t !in now.awake
         && |s.results[t]| == if t in before.awake then rounds - 1 else rounds
  }

  /** Before shutdown, with at most as many threads as the barrier counts. */
  predicate Live(s: System, rounds: nat) {
    var b, n := s.barrier, |s.entered|;
    var now, before := At(b, rounds % 2), At(b, 1 - rounds % 2);
    && !b.down && |s.results| == n <= b.count && b.generation == rounds % 2
    && Bounded(now, n) && Bounded(before, n)
    && before.running == b.count && now.running == b.count - |Arrived(s.entered, rounds)| && now.running >= 1
    && forall t :: 0 <= t < n ==> ThreadLive(s, rounds, t)
  }

  /** Results of a thread: 0 for every full round but possibly the last, then -1. */
  predicate Shape(results: seq<int>, rounds: nat) {
    && rounds <= |results| + 1
    && forall k :: 0 <= k < |results| ==>
         && (results[k] == 0 || results[k] == -1)
         && (k < rounds - 1 ==> results[k] == 0) && (k >= rounds ==> results[k] == -1)
  }

  predicate ThreadDown(s: System, rounds: nat, t: nat)
    requires t < |s.entered| == |s.results|
  {
    && rounds <= s.entered[t] && Shape(s.results[t], rounds)
    && !(t in s.barrier.first.awake && t in s.barrier.second.awake)
    && s.entered[t] == |s.results[t]| + (if t in s.barrier.first.awake || t in s.barrier.second.awake then 1 else 0)
  }

  /** After shutdown. */
  predicate Down(s: System, rounds: nat) {
    var b, n := s.barrier, |s.entered|;
    && b.down && |s.results| == n <= b.count
    && b.first.running == b.count && b.second.running == b.count && b.first.asleep == {} && b.second.asleep == {}
    && Bounded(b.first, n) && Bounded(b.second, n)
    && forall t :: 0 <= t < n ==> ThreadDown(s, rounds, t)
  }

  predicate Inv(s: System, rounds: nat) {
    if s.barrier.down then Down(s, rounds) else Live(s, rounds)
  }

  function Below(n: nat): (below: set<nat>)
    ensures |below| == n && forall x: nat :: x in below <==> x < n
  {
    if n == 0 then {} else Below(n - 1) + {n - 1}
  }

  /** A set of n - 1 of the numbers below n misses only one. */
  lemma OnlyMissing(all: set<nat>, n: nat, t: nat, u: nat)
    requires (forall x :: x in all ==> x < n) && |all| >= n - 1
    requires t < n && u < n && t != u && t !in all
    ensures u in all
  {
    WithinBelow(all + {t, u}, n);
    if u !in all {
      TwoMore(all, t, u);
    }
  }

  lemma WithinBelow(all: set<nat>, n: nat)
    requires forall x :: x in all ==> x < n
    ensures |all| <= n
  {
    assert Below(n) - all + all == Below(n);
    assert |Below(n)| == |Below(n) - all| + |all|;
  }

  lemma TwoMore(all: set<nat>, t: nat, u: nat)
    requires t !in all && u !in all && t != u
    ensures |all + {t, u}| == |all| + 2
  {
    assert all + {t, u} == all + {t} + {u};
  }

  lemma Nobody(s: set<nat>, n: nat)
    requires (forall t :: t in s ==> t < n) && forall t :: 0 <= t < n ==> t !in s
    ensures s == {}
  {
  }

  lemma ArrivedNone(entered: seq<nat>, rounds: nat)
    requires forall t :: 0 <= t < |entered| ==> entered[t] <= rounds
    ensures Arrived(entered, rounds) == {}
  {
  }

  lemma ArrivedOneMore(entered: seq<nat>, rounds: nat, t: nat)
    requires t < |entered| && entered[t] == rounds
    ensures t !in Arrived(entered, rounds)
    ensures Arrived(entered[t := rounds + 1], rounds) == Arrived(entered, rounds) + {t}
    ensures |Arrived(entered[t := rounds + 1], rounds)| == |Arrived(entered, rounds)| + 1
  {
  }

  lemma StartInv(threads: nat, count: nat)
    requires threads <= count && count >= 1
    ensures Inv(Start(threads, count), 0)
  {
    ArrivedNone(Start(threads, count).entered, 0);
  }

  lemma EnterNotLast(s: System, rounds: nat, t: nat)
    requires Live(s, rounds) && Enabled(s, Enter(t)) && At(s.barrier, rounds % 2).running != 1
    ensures Live(Apply(s, Enter(t)), rounds)
  {
    assert ThreadLive(s, rounds, t);
    ArrivedOneMore(s.entered, rounds, t);
    var s' := Apply(s, Enter(t));
    forall u | 0 <= u < |s'.entered|
      ensures ThreadLive(s', rounds, u)
    {
      assert ThreadLive(s, rounds, u);
    }
  }

  /**
   * With the last arrival everyone else is inside this round's sub-barrier and the other one is empty; it takes as
   * many threads as the barrier counts.
   */
  lemma EnterLast(s: System, rounds: nat, t: nat)
    requires Live(s, rounds) && Enabled(s, Enter(t)) && At(s.barrier, rounds % 2).running == 1
    ensures Live(Apply(s, Enter(t)), rounds + 1) && |s.entered| == s.barrier.count
    ensures Arrived(s.entered, rounds) == Below(|s.entered|) - {t}
            && At(Apply(s, Enter(t)).barrier, rounds % 2).asleep == {}
  {
    var s', n, next := Apply(s, Enter(t)), |s.entered|, rounds + 1;
    assert ThreadLive(s, rounds, t);
    ArrivedOneMore(s.entered, rounds, t);
    WithinBelow(Arrived(s'.entered, rounds), n);
    forall u | 0 <= u < n
      ensures s'.entered[u] == next
    {
      if u != t {
        OnlyMissing(Arrived(s.entered, rounds), n, t, u);
      }
    }
    forall u | 0 <= u < n
      ensures ThreadLive(s', next, u)
    {
      assert s'.entered[u] == next && ThreadLive(s, rounds, u);
    }
    ArrivedNone(s'.entered, next);
    assert next % 2 == 1 - rounds % 2;
  }

  lemma GoLive(s: System, rounds: nat, g: int, t: nat)
    requires Live(s, rounds) && Enabled(s, Go(g, t))
    ensures Live(Apply(s, Go(g, t)), rounds)
  {
    var s' := Apply(s, Go(g, t));
    assert ThreadLive(s, rounds, t);
    assert g == rounds % 2 ==> t in Arrived(s.entered, rounds);
    forall u | 0 <= u < |s'.entered|
      ensures ThreadLive(s', rounds, u)
    {
      assert ThreadLive(s, rounds, u);
    }
  }

  lemma WakeLive(s: System, rounds: nat, g: int, t: nat)
    requires Live(s, rounds) && Enabled(s, Wake(g, t))
    ensures Live(Apply(s, Wake(g, t)), rounds)
  {
    var s' := Apply(s, Wake(g, t));
    assert ThreadLive(s, rounds, t);
    forall u | 0 <= u < |s'.entered|
      ensures ThreadLive(s', rounds, u)
    {
      assert ThreadLive(s, rounds, u);
    }
  }

  lemma StopLive(s: System, rounds: nat)
    requires Live(s, rounds)
    ensures Down(Apply(s, Stop), rounds)
  {
    var s', before := Apply(s, Stop), At(s.barrier, 1 - rounds % 2);
    forall u | 0 <= u < |s'.entered|
      ensures u !in before.asleep
    {
      assert ThreadLive(s, rounds, u);
    }
    forall u | 0 <= u < |s'.entered|
      ensures ThreadDown(s', rounds, u)
    {
      assert ThreadLive(s, rounds, u);
    }
    Nobody(before.asleep, |s.entered|);
  }

  lemma StepDown(s: System, rounds: nat, e: Event)
    requires Down(s, rounds) && Enabled(s, e)
    ensures Down(Apply(s, e), rounds)
  {
    var s' := Apply(s, e);
    forall u | 0 <= u < |s'.entered|
      ensures ThreadDown(s', rounds, u)
    {
      assert ThreadDown(s, rounds, u);
    }
  }

  lemma Step(s: System, rounds: nat, e: Event) returns (rounds': nat)
    requires Inv(s, rounds) && Enabled(s, e)
    ensures Inv(Apply(s, e), rounds')
  {
    rounds' := rounds;
    if s.barrier.down {
      StepDown(s, rounds, e);
    } else {
      match e
      case Enter(t) =>
        if At(s.barrier, rounds % 2).running == 1 {
          EnterLast(s, rounds, t);
          rounds' := rounds + 1;
        } else {
          EnterNotLast(s, rounds, t);
        }
      case Go(g, t) => GoLive(s, rounds, g, t);
      case Wake(g, t) => WakeLive(s, rounds, g, t);
      case Stop => StopLive(s, rounds);
    }
  }

  /** Every state of every run satisfies the invariant. */
  lemma {:induction false} Reachable(s: System, rounds: nat, run: seq<Event>) returns (rounds': nat)
    requires Inv(s, rounds) && Legal(s, run)
    ensures Inv(Exec(s, run), rounds') && |Exec(s, run).entered| == |s.entered|
    ensures Exec(s, run).barrier.count == s.barrier.count
    decreases |run|
  {
    if run == [] {
      rounds' := rounds;
    } else {
      var r := Step(s, rounds, run[0]);
      rounds' := Reachable(Apply(s, run[0]), r, run[1..]);
    }
  }

  // ---------------------------------------------------------------------------------------
  // What holds in every state of every run of at most count threads
  // ---------------------------------------------------------------------------------------

  /** The waits of a thread that returned 0. */
  function Passed(results: seq<int>): nat {
    if results == [] then 0 else Passed(results[..|results| - 1]) + if results[|results| - 1] == 0 then 1 else 0
  }

  lemma {:induction false} PassedShape(results: seq<int>, rounds: nat)
    requires Shape(results, rounds)
    ensures rounds - 1 <= Passed(results) <= rounds
  {
    PassedPrefix(results, rounds, |results|);
    assert results[..|results|] == results;
  }

  lemma {:induction false} PassedPrefix(results: seq<int>, rounds: nat, k: nat)
    requires Shape(results, rounds) && k <= |results|
    ensures k < rounds ==> Passed(results[..k]) == k
    ensures k >= rounds ==> rounds - 1 <= Passed(results[..k]) <= rounds
  {
    if k > 0 {
      PassedPrefix(results, rounds, k - 1);
      assert results[..k][..k - 1] == results[..k - 1];
    }
  }

  /** In the middle of a call of wait. */
  predicate Inside(s: System, t: nat) {
    t < |s.entered| && t < |s.results| && s.entered[t] == |s.results[t]| + 1
  }

  predicate InSub(s: System, g: int, t: nat) {
    t in At(s.barrier, g).asleep || t in At(s.barrier, g).awake
  }

  /** The thread can run, and its wait then returns. */
  predicate Ready(s: System, g: int, t: nat) {
    t in At(s.barrier, g).awake && At(s.barrier, g).running == s.barrier.count
  }

  /** s is reached by a run of at most as many threads as the barrier counts. */
  predicate Reached(threads: nat, count: nat, run: seq<Event>, s: System) {
    threads <= count && count >= 1 && Legal(Start(threads, count), run) && s == Exec(Start(threads, count), run)
  }

  lemma Invariant(threads: nat, count: nat, run: seq<Event>, s: System) returns (rounds: nat)
    requires Reached(threads, count, run, s)
    ensures Inv(s, rounds) && |s.entered| == threads && s.barrier.count == count
  {
    StartInv(threads, count);
    rounds := Reachable(Start(threads, count), 0, run);
  }

  /** A wait that returned 0 as a thread's k-th has seen every thread enter its own k-th wait. */
  lemma Safety(threads: nat, count: nat, run: seq<Event>, s: System, t: nat, k: nat, u: nat)
    requires Reached(threads, count, run, s)
    requires t < |s.results| && k < |s.results[t]| && s.results[t][k] == 0 && u < |s.entered|
    ensures s.entered[u] >= k + 1
  {
    var rounds := Invariant(threads, count, run, s);
    if s.barrier.down {
      assert ThreadDown(s, rounds, t) && ThreadDown(s, rounds, u);
    } else {
      assert ThreadLive(s, rounds, t) && ThreadLive(s, rounds, u);
    }
  }

  /** No thread is more than one round ahead of another. */
  lemma RoundsDifferByOne(threads: nat, count: nat, run: seq<Event>, s: System, t: nat, u: nat)
    requires Reached(threads, count, run, s)
    requires t < |s.results| && u < |s.results|
    ensures Passed(s.results[t]) <= Passed(s.results[u]) + 1
  {
    var rounds := Invariant(threads, count, run, s);
    if s.barrier.down {
      assert ThreadDown(s, rounds, t) && ThreadDown(s, rounds, u);
    } else {
      assert ThreadLive(s, rounds, t) && ThreadLive(s, rounds, u);
    }
    PassedShape(s.results[t], rounds);
    PassedShape(s.results[u], rounds);
  }

  /** Before shutdown no wait fails, and the threads inside one sub-barrier are all in the same call of wait. */
  lemma NeverReentered(threads: nat, count: nat, run: seq<Event>, s: System, t: nat, u: nat, g: int)
    requires Reached(threads, count, run, s) && (g == 0 || g == 1)
    requires !s.barrier.down && t < |s.entered| && u < |s.entered| && InSub(s, g, t) && InSub(s, g, u)
    ensures s.entered[t] == s.entered[u] && Inside(s, t) && forall k :: 0 <= k < |s.results[t]| ==> s.results[t][k] == 0
  {
    var rounds := Invariant(threads, count, run, s);
    assert ThreadLive(s, rounds, t) && ThreadLive(s, rounds, u);
  }

  /**
   * No wakeup is lost: a thread sleeps only in the current sub-barrier, and only while its round is short of
   * arrivals.
   */
  lemma NoLostWakeup(threads: nat, count: nat, run: seq<Event>, s: System, t: nat, g: int)
    requires Reached(threads, count, run, s) && (g == 0 || g == 1)
    requires t in At(s.barrier, g).asleep
    ensures !s.barrier.down && At(s.barrier, g).running != count && g == s.barrier.generation
  {
    var rounds := Invariant(threads, count, run, s);
    if !s.barrier.down {
      assert ThreadLive(s, rounds, t);
      assert t in Arrived(s.entered, rounds);
    }
  }

  /** With every thread inside wait, at least one can run and returns 0 when it does. */
  lemma Progress(count: nat, run: seq<Event>, s: System) returns (g: int, t: nat)
    requires Reached(count, count, run, s)
    requires !s.barrier.down && forall u :: 0 <= u < |s.entered| ==> Inside(s, u)
    ensures && (g == 0 || g == 1) && t < count && Ready(s, g, t) && Enabled(s, Go(g, t))
            && Apply(s, Go(g, t)).results[t] == s.results[t] + [0]
  {
    var rounds := Invariant(count, count, run, s);
    g := 1 - rounds % 2;
    t := NotArrived(s.entered, rounds);
    assert ThreadLive(s, rounds, t) && Inside(s, t);
  }

  lemma AllArrived(entered: seq<nat>, rounds: nat)
    requires forall t :: 0 <= t < |entered| ==> entered[t] == rounds + 1
    ensures |Arrived(entered, rounds)| == |entered|
  {
    assert Arrived(entered, rounds) == Below(|entered|);
  }

  lemma NotArrived(entered: seq<nat>, rounds: nat) returns (t: nat)
    requires |Arrived(entered, rounds)| < |entered|
    ensures t < |entered| && entered[t] != rounds + 1
  {
    if forall t :: 0 <= t < |entered| ==> entered[t] == rounds + 1 {
      AllArrived(entered, rounds);
    }
    t :| 0 <= t < |entered| && entered[t] != rounds + 1;
  }

  lemma FirstEvent(s: System, e: Event, rest: seq<Event>)
    requires Enabled(s, e) && Legal(Apply(s, e), rest)
    ensures Legal(s, [e] + rest) && Exec(s, [e] + rest) == Exec(Apply(s, e), rest)
  {
    assert ([e] + rest)[1..] == rest;
  }

  lemma {:induction false} RunOn(s: System, first: seq<Event>, second: seq<Event>)
    requires Legal(s, first) && Legal(Exec(s, first), second)
    ensures Legal(s, first + second) && Exec(s, first + second) == Exec(Exec(s, first), second)
    decreases |first|
  {
    if first == [] {
      assert first + second == second;
    } else {
      RunOn(Apply(s, first[0]), first[1..], second);
      assert (first + second)[1..] == first[1..] + second;
    }
  }

  /** The threads on their way out can all leave. */
  lemma {:induction false} Drain(s: System, rounds: nat) returns (run: seq<Event>)
    requires Live(s, rounds)
    ensures Legal(s, run) && Live(Exec(s, run), rounds) && At(Exec(s, run).barrier, 1 - rounds % 2).awake == {}
    ensures |Exec(s, run).entered| == |s.entered| && Exec(s, run).barrier.count == s.barrier.count
    decreases |At(s.barrier, 1 - rounds % 2).awake|
  {
    var before := At(s.barrier, 1 - rounds % 2).awake;
    if before == {} {
      run := [];
    } else {
      var t :| t in before;
      var e := Go(1 - rounds % 2, t);
      GoLive(s, rounds, 1 - rounds % 2, t);
      var s' := Apply(s, e);
      assert At(s'.barrier, 1 - rounds % 2).awake == before - {t};
      var rest := Drain(s', rounds);
      run := [e] + rest;
      assert run[1..] == rest;
    }
  }

  /** With nobody on the way out, the threads outside can all arrive, and the last of them ends the round. */
  lemma {:induction false} Fill(s: System, rounds: nat) returns (run: seq<Event>)
    requires Live(s, rounds) && |s.entered| == s.barrier.count && At(s.barrier, 1 - rounds % 2).awake == {}
    ensures Legal(s, run) && Live(Exec(s, run), rounds + 1)
    decreases At(s.barrier, rounds % 2).running
  {
    var t := NotArrived(s.entered, rounds);
    assert ThreadLive(s, rounds, t);
    var e := Enter(t);
    var s' := Apply(s, e);
    if At(s.barrier, rounds % 2).running == 1 {
      EnterLast(s, rounds, t);
      run := [e];
      assert run[1..] == [] && Legal(s', []) && Exec(s', []) == s';
    } else {
      EnterNotLast(s, rounds, t);
      var rest := Fill(s', rounds);
      run := [e] + rest;
      assert run[1..] == rest;
    }
  }

  /** Everyone leaves, arrives, and leaves again. */
  lemma NextRound(s: System, rounds: nat) returns (run: seq<Event>)
    requires Live(s, rounds) && |s.entered| == s.barrier.count
    ensures Legal(s, run) && Live(Exec(s, run), rounds + 1) && At(Exec(s, run).barrier, rounds % 2).awake == {}
  {
    var out := Drain(s, rounds);
    var fill := Fill(Exec(s, out), rounds);
    RunOn(s, out, fill);
    var leave := Drain(Exec(s, out + fill), rounds + 1);
    RunOn(s, out + fill, leave);
    run := out + fill + leave;
    assert 1 - (rounds + 1) % 2 == rounds % 2;
  }

  lemma ResultsOf(s: System, rounds: nat, t: nat)
    requires Live(s, rounds) && t < |s.results|
    ensures rounds - 1 <= |s.results[t]| <= rounds && AllZero(s.results[t])
    ensures At(s.barrier, 1 - rounds % 2).awake == {} ==> |s.results[t]| == rounds
  {
    assert ThreadLive(s, rounds, t);
  }

  predicate AllZero(results: seq<int>) {
    forall k :: 0 <= k < |results| ==> results[k] == 0
  }

  /**
   * From every reachable state before shutdown, every thread can still complete, without a failure, one more round
   * than any has completed.
   */
  lemma NeverStuck(count: nat, run: seq<Event>, s: System) returns (more: seq<Event>, rounds: nat)
    requires Reached(count, count, run, s) && !s.barrier.down
    ensures forall t :: 0 <= t < |s.results| ==> rounds - 1 <= |s.results[t]| <= rounds
    ensures Legal(s, more) && !Exec(s, more).barrier.down && |Exec(s, more).results| == count
    ensures forall t :: 0 <= t < count ==>
              |Exec(s, more).results[t]| == rounds + 1 && AllZero(Exec(s, more).results[t])
  {
    rounds := Invariant(count, count, run, s);
    forall t | 0 <= t < |s.results|
      ensures rounds - 1 <= |s.results[t]| <= rounds
    {
      ResultsOf(s, rounds, t);
    }
    more := NextRound(s, rounds);
    SameThreads(s, more);
    forall t | 0 <= t < count
      ensures |Exec(s, more).results[t]| == rounds + 1 && AllZero(Exec(s, more).results[t])
    {
      ResultsOf(Exec(s, more), rounds + 1, t);
    }
  }

  lemma {:induction false} SameThreads(s: System, run: seq<Event>)
    requires Legal(s, run) && |s.entered| == |s.results|
    ensures |Exec(s, run).entered| == |s.entered| == |Exec(s, run).results|
    decreases |run|
  {
    if run != [] {
      SameThreads(Apply(s, run[0]), run[1..]);
    }
  }

  // Whatever the scheduler does

  /** The arrivals still missing, and the threads that have been let go but have not run. */
  function Steps(s: System): int {
    At(s.barrier, s.barrier.generation).running + |s.barrier.first.awake| + |s.barrier.second.awake|
  }

  /** A round takes count arrivals, and all but the last of them leave. */
  function PerRound(count: nat): int {
    2 * count - 1
  }

  /** An event that ends no round: an arrival and a thread that runs use up a step, a spurious wakeup adds one. */
  lemma InTheRound(s: System, rounds: nat, e: Event)
    requires Live(s, rounds) && Enabled(s, e) && !e.Stop?
    requires e.Enter? ==> At(s.barrier, rounds % 2).running != 1
    ensures Live(Apply(s, e), rounds) && Steps(Apply(s, e)) == Steps(s) + if e.Wake? then 1 else -1
  {
    match e
    case Enter(t) => EnterNotLast(s, rounds, t);
    case Go(g, t) =>
      GoLive(s, rounds, g, t);
      OneLess(At(s.barrier, g).awake, t);
    case Wake(g, t) =>
      assert ThreadLive(s, rounds, t);
      WakeLive(s, rounds, g, t);
      OneLess(At(s.barrier, g).awake + {t}, t);
  }

  lemma OneLess(all: set<nat>, t: nat)
    requires t in all
    ensures |all - {t}| == |all| - 1
  {
  }

  /** The arrival that ends a round leaves a whole round to be done. */
  lemma StepsOfLast(s: System, rounds: nat, t: nat)
    requires Live(s, rounds) && Enabled(s, Enter(t)) && At(s.barrier, rounds % 2).running == 1
    ensures Steps(s) >= 1 && Steps(Apply(s, Enter(t))) <= PerRound(s.barrier.count)
  {
    var s', n, next := Apply(s, Enter(t)), |s.entered|, 1 - rounds % 2;
    EnterLast(s, rounds, t);
    var released, others := At(s'.barrier, rounds % 2).awake, At(s'.barrier, next).awake;
    forall u | 0 <= u < n
      ensures u !in others
    {
      assert ThreadLive(s', rounds + 1, u);
      assert ThreadLive(s, rounds, u);
    }
    Nobody(others, n);
    assert ThreadLive(s, rounds, t);
    WithinBelow(released + {t}, n);
  }

  function Times(n: nat, c: nat): nat {
    if n == 0 then 0 else Times(n - 1, c) + c
  }

  predicate Up(s: System, rounds: nat) {
    Inv(s, rounds) && !s.barrier.down
  }

  /** What an event does for a round: nothing is undone but by a spurious wakeup. */
  function Worth(e: Event): int {
    if e.Wake? then -1 else 1
  }

  /** The events of a run, a spurious wakeup counting against it. */
  function Work(run: seq<Event>): int {
    if run == [] then 0 else Worth(run[0]) + Work(run[1..])
  }

  /** One event keeps the round or ends it, and then pays for the steps of the next. */
  lemma StepForward(s: System, rounds: nat, e: Event, c: nat, steps: int) returns (next: nat, steps': int)
    requires Up(s, rounds) && Enabled(s, e) && !e.Stop? && c == PerRound(s.barrier.count) && steps == Steps(s)
    ensures Up(Apply(s, e), next) && Apply(s, e).barrier.count == s.barrier.count && steps' == Steps(Apply(s, e))
    ensures (next == rounds && Worth(e) + steps' <= steps) || (next == rounds + 1 && Worth(e) + steps' <= steps + c)
  {
    steps' := Steps(Apply(s, e));
    if e.Enter? && At(s.barrier, rounds % 2).running == 1 {
      EnterLast(s, rounds, e.t);
      StepsOfLast(s, rounds, e.t);
      next := rounds + 1;
    } else {
      InTheRound(s, rounds, e);
      next := rounds;
    }
  }

  predicate Calm(run: seq<Event>) {
    run == [] || (!run[0].Stop? && Calm(run[1..]))
  }

  /** The rounds a run completes pay for its steps. */
  lemma {:induction false} RoundsOf(s: System, rounds: nat, run: seq<Event>, c: nat, steps: int)
    returns (last: nat, more: nat)
    requires Up(s, rounds) && Legal(s, run) && Calm(run) && c == PerRound(s.barrier.count) && steps == Steps(s)
    ensures Up(Exec(s, run), last) && last == rounds + more
    ensures Work(run) < steps + Times(more, c)
    decreases |run|
  {
    if run == [] {
      last, more := rounds, 0;
    } else {
      var next, steps' := StepForward(s, rounds, run[0], c, steps);
      last, more := RoundsOf(Apply(s, run[0]), next, run[1..], c, steps');
      more := Paid(Worth(run[0]), Work(run[1..]), steps, steps', next - rounds, more, c);
    }
  }

  lemma Paid(w: int, work: int, steps: int, steps': int, ended: nat, more: nat, c: nat) returns (all: nat)
    requires work < steps' + Times(more, c)
    requires (ended == 0 && w + steps' <= steps) || (ended == 1 && w + steps' <= steps + c)
    ensures all == ended + more && w + work < steps + Times(all, c)
  {
    all := ended + more;
  }

  lemma {:induction false} TimesBound(n: nat, m: nat, c: nat)
    requires n <= m
    ensures Times(n, c) <= m * c
    decreases n
  {
    if n > 0 {
      TimesBound(n - 1, m - 1, c);
      assert m * c == (m - 1) * c + c;
    } else {
      assert m * c >= 0;
    }
  }

  lemma {:induction false} CalmIff(run: seq<Event>)
    ensures Calm(run) <==> Stop !in run
  {
    if run != [] { CalmIff(run[1..]); }
  }

  lemma RunCost(count: nat, run: seq<Event>, s: System) returns (last: nat)
    requires Reached(count, count, run, s) && Stop !in run
    ensures Up(s, last) && |s.entered| == count && Work(run) < count + Times(last, PerRound(count))
  {
    var start := Start(count, count);
    CalmIff(run);
    StartUp(start, count);
    SameThreads(start, run);
    var more;
    last, more := RoundsOf(start, 0, run, PerRound(count), count);
    assert more == last;
  }

  lemma StartUp(s: System, count: nat)
    requires s == Start(count, count) && count >= 1
    ensures Up(s, 0) && Steps(s) == count && s.barrier.count == count && |s.entered| == |s.results| == count
  {
    StartInv(count, count);
  }

  /**
   * Every run goes forward, whatever the scheduler does: no wait fails before shutdown, and the number of waits a
   * thread has completed grows with the length of the run, spurious wakeups and what they cause not counted.
   */
  lemma EverySchedule(count: nat, run: seq<Event>, s: System, t: nat)
    requires Reached(count, count, run, s) && Stop !in run && t < count
    ensures t < |s.results| && AllZero(s.results[t])
    ensures Work(run) < count + (|s.results[t]| + 1) * PerRound(count)
  {
    var last := RunCost(count, run, s);
    ResultsOf(s, last, t);
    TimesBound(last, |s.results[t]| + 1, PerRound(count));
  }

  /** And it can always go forward: a thread can arrive or leave, and then completes its wait. */
  lemma CanGoOn(count: nat, run: seq<Event>, s: System) returns (e: Event)
    requires Reached(count, count, run, s) && !s.barrier.down
    ensures (e.Enter? || (e.Go? && Ready(s, e.g, e.t))) && Enabled(s, e)
  {
    var rounds := Invariant(count, count, run, s);
    var t := NotArrived(s.entered, rounds);
    assert ThreadLive(s, rounds, t);
    e := if t in At(s.barrier, 1 - rounds % 2).awake then Go(1 - rounds % 2, t) else Enter(t);
  }

  /** After shutdown nobody sleeps; whoever is still inside, in either sub-barrier, can run and returns -1. */
  lemma ShutdownReleases(threads: nat, count: nat, run: seq<Event>, s: System, t: nat)
    requires Reached(threads, count, run, s)
    requires s.barrier.down && t < |s.entered| && Inside(s, t)
    ensures exists g :: 0 <= g <= 1 && Ready(s, g, t) && Enabled(s, Go(g, t))
              && Apply(s, Go(g, t)).results[t] == s.results[t] + [-1]
  {
    var rounds := Invariant(threads, count, run, s);
    assert ThreadDown(s, rounds, t);
    var g := if t in s.barrier.first.awake then 0 else 1;
    assert Ready(s, g, t);
  }

  /** Once down, always down: every later wait and shutdown returns -1 and changes nothing. */
  lemma {:induction false} StaysDown(s: System, run: seq<Event>, t: nat)
    requires s.barrier.down && Legal(s, run)
    ensures var b := Exec(s, run).barrier;
            b.down && Begin(b, t) == (b, Returned(-1)) && Shutdown(b) == (b, -1)
    decreases |run|
  {
    if run != [] {
      StaysDown(Apply(s, run[0]), run[1..], t);
    }
  }

  /** Of all calls of shutdown in a run, by any number of threads, the first returns 0 and the others -1. */
  lemma {:induction false} FirstShutdown(s: System, run: seq<Event>, code: int)
    requires !s.barrier.down && Legal(s, run) && code == Shutdown(Exec(s, run).barrier).1
    ensures code == (if Stop in run then -1 else 0) && Shutdown(Exec(s, run).barrier).0.down
    decreases |run|
  {
    if run != [] {
      assert run == [run[0]] + run[1..];
      if run[0] == Stop {
        StaysDown(Apply(s, Stop), run[1..], 0);
      } else {
        FirstShutdown(Apply(s, run[0]), run[1..], code);
      }
    }
  }

  // ---------------------------------------------------------------------------------------
  // When a sub-barrier can be entered again too early
  // ---------------------------------------------------------------------------------------

  /** Before shutdown, two threads inside the same sub-barrier are in different calls of wait. */
  predicate Mixed(s: System, g: int, t: nat, u: nat) {
    && !s.barrier.down && (g == 0 || g == 1) && t < |s.entered| && u < |s.entered|
    && InSub(s, g, t) && InSub(s, g, u) && s.entered[t] != s.entered[u]
  }

  /** Two sub-barriers suffice exactly when no more threads take part than the barrier counts, or it counts one. */
  lemma MixedIff(threads: nat, count: nat)
    requires count >= 1
    ensures (exists run, g, t, u ::
               Legal(Start(threads, count), run) && Mixed(Exec(Start(threads, count), run), g, t, u))
            <==> count >= 2 && threads > count
  {
    var s := Start(threads, count);
    if count >= 2 && threads > count {
      var run := OneThreadTooMany(threads, count);
    } else {
      forall run, g, t, u | Legal(s, run)
        ensures !Mixed(Exec(s, run), g, t, u)
      {
        NotMixed(threads, count, run, g, t, u);
      }
    }
  }

  lemma NotMixed(threads: nat, count: nat, run: seq<Event>, g: int, t: nat, u: nat)
    requires count == 1 || threads <= count
    requires count >= 1 && Legal(Start(threads, count), run)
    ensures !Mixed(Exec(Start(threads, count), run), g, t, u)
  {
    var s := Exec(Start(threads, count), run);
    if count == 1 {
      NobodyWaits(Start(threads, count), run);
    } else if Mixed(s, g, t, u) {
      NeverReentered(threads, count, run, s, t, u, g);
    }
  }

  /** On a barrier for one thread every wait returns at once. */
  predicate Idle(b: State) {
    b.count == 1 && b.first == Sub(1, {}, {}) && b.second == Sub(1, {}, {})
  }

  lemma {:induction false} NobodyWaits(s: System, run: seq<Event>)
    requires Idle(s.barrier) && Legal(s, run)
    ensures Idle(Exec(s, run).barrier)
    decreases |run|
  {
    if run != [] {
      NobodyWaits(Apply(s, run[0]), run[1..]);
    }
  }

  /** The first k threads sleep in their first wait, the others have not called it. */
  predicate Arriving(s: System, count: nat, k: nat) {
    var b := s.barrier;
    && b.count == count >= 2 && !b.down && b.generation == 0 && b.first.running == count - k
    && b.second.running == count
    && k < count < |s.entered| == |s.results|
    && (forall t :: 0 <= t < k ==> t in b.first.asleep && s.entered[t] == 1 && s.results[t] == [])
    && (forall t :: k <= t <= count ==> s.entered[t] == 0 && s.results[t] == [])
  }

  /** The first round is over; thread 0 has been released but does not run, nor do the threads from j on. */
  predicate Leaving(s: System, count: nat, j: nat) {
    var b := s.barrier;
    && b.count == count >= 2 && !b.down && b.generation == 1 && b.first.running == count && b.second.running == count
    && 1 <= j < count < |s.entered| == |s.results|
    && 0 in b.first.awake && s.entered[0] == 1 && s.results[0] == []
    && (forall t :: j <= t < count - 1 ==> t in b.first.awake && s.entered[t] == 1 && s.results[t] == [])
    && (forall t :: 1 <= t < j ==> s.entered[t] == |s.results[t]|)
    && s.entered[count - 1] == |s.results[count - 1]| && s.entered[count] == 0 && s.results[count] == []
  }

  /** The threads from 1 to k - 1 are in the second round, thread 0 still does not run. */
  predicate Returning(s: System, count: nat, k: nat) {
    var b := s.barrier;
    && b.count == count >= 2 && !b.down && b.generation == 1
    && b.first.running == count && b.second.running == count - k + 1
    && 1 <= k <= count < |s.entered| == |s.results|
    && 0 in b.first.awake && s.entered[0] == 1 && s.results[0] == []
    && (forall t :: k <= t < count ==> s.entered[t] == |s.results[t]|)
    && s.entered[count] == 0 && s.results[count] == []
  }

  lemma {:induction false} AllButOneArrive(s: System, count: nat, k: nat) returns (run: seq<Event>)
    requires Arriving(s, count, k)
    ensures Legal(s, run) && Arriving(Exec(s, run), count, count - 1)
    decreases count - k
  {
    if k == count - 1 {
      run := [];
    } else {
      var s' := Apply(s, Enter(k));
      assert Arriving(s', count, k + 1);
      var rest := AllButOneArrive(s', count, k + 1);
      run := [Enter(k)] + rest;
      assert run[1..] == rest;
    }
  }

  lemma LastArrives(s: System, count: nat) returns (run: seq<Event>)
    requires count >= 2 && Arriving(s, count, count - 1)
    ensures Legal(s, run) && Leaving(Exec(s, run), count, 1)
  {
    run := [Enter(count - 1)];
    assert run[1..] == [];
    var s' := Apply(s, run[0]);
    assert Leaving(s', count, 1);
  }

  lemma {:induction false} AllButOneLeave(s: System, count: nat, j: nat) returns (run: seq<Event>)
    requires Leaving(s, count, j)
    ensures Legal(s, run) && Leaving(Exec(s, run), count, count - 1)
    decreases count - j
  {
    if j == count - 1 {
      run := [];
    } else {
      var s' := Apply(s, Go(0, j));
      assert Leaving(s', count, j + 1);
      var rest := AllButOneLeave(s', count, j + 1);
      run := [Go(0, j)] + rest;
      assert run[1..] == rest;
    }
  }

  lemma {:induction false} AllButOneReturn(s: System, count: nat, k: nat) returns (run: seq<Event>)
    requires Returning(s, count, k)
    ensures Legal(s, run) && Returning(Exec(s, run), count, count)
    decreases count - k
  {
    if k == count {
      run := [];
    } else {
      var s' := Apply(s, Enter(k));
      assert Returning(s', count, k + 1);
      var rest := AllButOneReturn(s', count, k + 1);
      run := [Enter(k)] + rest;
      assert run[1..] == rest;
    }
  }

  /** The additional thread ends the second round and is back in the first sub-barrier before thread 0 has left it. */
  lemma Overtaken(s: System, count: nat) returns (run: seq<Event>)
    requires Returning(s, count, count)
    ensures Legal(s, run) && Mixed(Exec(s, run), 0, 0, count)
    ensures var e := Exec(s, run);
            |e.results| > count && 0 in e.barrier.first.asleep && e.results[0] == [] && e.results[count] == [0]
  {
    var s1 := Apply(s, Enter(count));
    var s2 := Apply(s1, Enter(count));
    var s3 := Apply(s2, Go(0, 0));
    FirstEvent(s2, Go(0, 0), []);
    FirstEvent(s1, Enter(count), [Go(0, 0)]);
    FirstEvent(s, Enter(count), [Enter(count), Go(0, 0)]);
    run := [Enter(count)] + [Enter(count), Go(0, 0)];
  }

  /**
   * With more threads than the barrier counts, a sub-barrier can be entered again before an old waiter left it:
   * thread 0, whose first round is over, goes back to sleep together with a thread of a later round.
   */
  lemma OneThreadTooMany(threads: nat, count: nat) returns (run: seq<Event>)
    requires 2 <= count < threads
    ensures Legal(Start(threads, count), run) && Mixed(Exec(Start(threads, count), run), 0, 0, count)
    ensures var s := Exec(Start(threads, count), run);
            |s.results| > count && 0 in s.barrier.first.asleep && s.results[0] == [] && s.results[count] == [0]
  {
    var s := Start(threads, count);
    var arrive := AllButOneArrive(s, count, 0);
    var released := LastArrives(Exec(s, arrive), count);
    RunOn(s, arrive, released);
    var leave := AllButOneLeave(Exec(s, arrive + released), count, 1);
    RunOn(s, arrive + released, leave);
    var again := AllButOneReturn(Exec(s, arrive + released + leave), count, 1);
    RunOn(s, arrive + released + leave, again);
    var overtake := Overtaken(Exec(s, arrive + released + leave + again), count);
    RunOn(s, arrive + released + leave + again, overtake);
    run := arrive + released + leave + again + overtake;
  }
}
