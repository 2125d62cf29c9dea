/**
 One round of the barrier of ulpt-noodlez102/threads.c:392-447 (the path with init == 1, as pthread_barrier_init leaves
 it), with one program counter per participant. Inside pthread_barrier_wait a thread lets go only at its calls of
 schedule(0); outside, every thread does any steps of the library, preemption included.
 */
module Barrier {
  import opened RoundRobin
  import opened ThreadModel

  /** Not yet in the barrier, in the call of the spin loop, in the call after it, or back with a return value. */
  datatype Pc = Before | Spin | Leaving | Returned(serial: bool)

  /** The participants are the threads with a program counter, and the barrier's count is their number. */
  datatype Round = Round(threads: Threads, pcs: map<nat, Pc>, blocked: nat, serialed: bool)

  /** The current thread goes on in pthread_barrier_wait, or calls it, or does a step of the library. */
  datatype Action = Wait | Other(op: Op)

  predicate InBarrier(r: Round, t: nat) {
    t in r.pcs && (r.pcs[t].Spin? || r.pcs[t].Leaving?)
  }

  ghost predicate CanAct(r: Round, a: Action)
    requires Valid(r.threads)
  {
    var c := r.threads.current;
    match a
    case Wait =>
      c in r.pcs && !r.pcs[c].Returned? && (r.pcs[c].Before? ==> r.threads.pending[c].Idle?)
    case Other(op) => !InBarrier(r, c) && Allowed(r.threads, op)
  }

  /** From the test of the spin loop to the next call of schedule(0). */
  function Test(r: Round, c: nat): Round
    requires c < |r.threads.status| && c == r.threads.current
  {
    var pc := if r.blocked < |r.pcs| then Spin else Leaving;
    r.(threads := Scheduled(r.threads), pcs := r.pcs[c := pc])
  }

  function WaitStep(r: Round): Round
    requires r.threads.current < |r.threads.status| && r.threads.current in r.pcs
  {
    var c := r.threads.current;
    match r.pcs[c]
    case Before => Test(r.(blocked := r.blocked + 1), c)
    case Spin => Test(r, c)
    case Leaving => r.(pcs := r.pcs[c := Returned(!r.serialed)], blocked := 0, serialed := true)
    case Returned(_) => r
  }

  function Act(r: Round, a: Action): Round
    requires Valid(r.threads) && CanAct(r, a)
  {
    match a
    case Wait => WaitStep(r)
    case Other(op) => r.(threads := Step(r.threads, op).0)
  }

  /** Whether the action calls schedule(). */
  predicate Turns(r: Round, a: Action)
    requires Valid(r.threads) && CanAct(r, a)
  {
    match a
    case Wait => !r.pcs[r.threads.current].Leaving?
    case Other(op) => Switches(r.threads, op)
  }

  // ---------------------------------------------------------------------------------------------
  // Invariants
  // ---------------------------------------------------------------------------------------------

  ghost function Arrived(r: Round): set<nat> {
    set t | t in r.pcs && !r.pcs[t].Before?
  }

  /** A thread inside the barrier is ready, unless it is the current one. */
  ghost predicate InPlay(r: Round, t: nat) {
    t < |r.threads.status| && (t == r.threads.current || r.threads.status[t].Ready?)
  }

  ghost predicate Common(r: Round) {
    && Valid(r.threads) && r.pcs != map[]
    && forall t: nat :: InBarrier(r, t) ==> InPlay(r, t)
  }

  /** Some participant has not arrived: the others spin. */
  ghost predicate Gathering(r: Round) {
    && Common(r) && !r.serialed && r.blocked == |Arrived(r)|
    && (exists t: nat :: t in r.pcs && r.pcs[t].Before?)
    && forall t: nat :: t in r.pcs ==> r.pcs[t].Before? || r.pcs[t].Spin?
  }

  /**
   Thread `last` arrived last and is on its way out. Going round from it, the participants before the current thread
   left the spin loop, and the others have their turn to leave it before `last` has its next turn.
   */
  ghost predicate Releasing(r: Round, last: nat) {
    && Common(r) && !r.serialed && r.blocked == |r.pcs|
    && last in r.pcs && r.pcs[last].Leaving? && last < |r.threads.status|
    && forall t: nat :: t in r.pcs ==> InBarrier(r, t) && (t != last ==> Ordered(r, last, t))
  }

  ghost predicate Ordered(r: Round, last: nat, t: nat)
    requires Valid(r.threads) && last < |r.threads.status| && t in r.pcs
  {
    var n, c := |r.threads.status|, r.threads.current;
    && t < n
    && (r.pcs[t].Spin? <==> Distance(n, last, c) <= Distance(n, last, t))
  }

  /** Thread `last` returned the serial value; the others are on their way out or returned zero. */
  ghost predicate Over(r: Round, last: nat) {
    && Common(r) && r.serialed && r.blocked == 0
    && last in r.pcs && r.pcs[last] == Returned(true)
    && forall t: nat :: t in r.pcs && t != last ==> r.pcs[t].Leaving? || r.pcs[t] == Returned(false)
  }

  /** After pthread_barrier_init, with a count of the number of participants. */
  ghost predicate Initial(r: Round) {
    && Common(r) && !r.serialed && r.blocked == 0
    && forall t: nat :: t in r.pcs ==> r.pcs[t].Before?
  }

  lemma InitialGathers(r: Round)
    requires Initial(r)
    ensures Gathering(r)
  {
    assert Arrived(r) == {};
    var keys := r.pcs.Keys;
    assert keys != {} by {
      assert r.pcs == map[] <==> keys == {};
    }
    var t :| t in keys;
    assert r.pcs[t].Before?;
  }

  // ---------------------------------------------------------------------------------------------
  // Every action keeps the invariants
  // ---------------------------------------------------------------------------------------------

  /** An action without a call of schedule() leaves the current thread current, and ready threads ready. */
  lemma ActStays(r: Round, a: Action)
    requires Common(r) && CanAct(r, a) && !Turns(r, a)
    ensures var r' := Act(r, a);
      && Valid(r'.threads) && |r'.threads.status| == |r.threads.status|
      && r'.threads.current == r.threads.current
      && (forall t: nat :: InPlay(r, t) ==> InPlay(r', t))
  {
    if a.Other? {
      StepKeepsValid(r.threads, a.op);
    }
  }

  /** An action that calls schedule() turns to the nearest ready thread, and a thread in the barrier stays in play. */
  lemma ActTurns(r: Round, a: Action)
    requires Common(r) && CanAct(r, a) && Turns(r, a)
    ensures var r' := Act(r, a); var n, c, c' := |r.threads.status|, r.threads.current, r'.threads.current;
      && Valid(r'.threads) && |r'.threads.status| == n
      && (forall t: nat :: InPlay(r, t) && (t != c || a.Wait?) ==> InPlay(r', t))
      && (forall t: nat :: InPlay(r, t) && t != c ==> Distance(n, c, c') <= Distance(n, c, t))
  {
    var op := if a.Wait? then Yield else a.op;
    StepKeepsValid(r.threads, op);
    StepSwitches(r.threads, op);
    var s := Prepared(r.threads, op);
    ScheduledKeeps(s);
    var r' := Act(r, a);
    assert r'.threads == Scheduled(s);
    forall t: nat | InPlay(r, t) && (t != r.threads.current || a.Wait?)
      ensures Preempted(s)[t].Ready? && InPlay(r', t)
    {
      assert t != r.threads.current ==> s.status[t].Ready?;
    }
  }

  lemma ActKeepsCommon(r: Round, a: Action)
    requires Common(r) && CanAct(r, a)
    ensures Common(Act(r, a)) && |Act(r, a).threads.status| == |r.threads.status|
  {
    var r', c := Act(r, a), r.threads.current;
    if Turns(r, a) {
      ActTurns(r, a);
    } else {
      ActStays(r, a);
    }
    assert r'.pcs != map[] by {
      assert r.pcs.Keys <= r'.pcs.Keys;
      assert r.pcs.Keys != {};
    }
    forall t: nat | InBarrier(r', t)
      ensures InPlay(r', t)
    {
      assert t != c ==> InBarrier(r, t);
      assert t == c ==> a.Wait? && InPlay(r, t);
    }
  }

  /** The number of arrivals goes up by one. */
  lemma OneArrives(r: Round, r': Round, c: nat)
    requires c in r.pcs && r.pcs[c].Before?
    requires r'.pcs.Keys == r.pcs.Keys && !r'.pcs[c].Before?
    requires forall t: nat :: t in r.pcs && t != c ==> r'.pcs[t] == r.pcs[t]
    ensures |Arrived(r')| == |Arrived(r)| + 1
  {
    assert Arrived(r') == Arrived(r) + {c};
  }

  /** All have arrived exactly when as many as there are participants have. */
  lemma AllArrived(r: Round)
    ensures |Arrived(r)| <= |r.pcs|
    ensures |Arrived(r)| == |r.pcs| <==> forall t: nat :: t in r.pcs ==> !r.pcs[t].Before?
  {
    var keys := r.pcs.Keys;
    var rest := keys - Arrived(r);
    assert Arrived(r) <= keys;
    assert |keys| == |Arrived(r)| + |rest| by {
      assert keys == Arrived(r) + rest;
    }
    if rest == {} {
      assert Arrived(r) == keys;
    } else {
      var t :| t in rest;
      assert r.pcs[t].Before?;
    }
  }

  /** Until the last one arrives, nobody leaves the spin loop; the last one goes on at once. */
  lemma GatheringSteps(r: Round, a: Action)
    requires Gathering(r) && CanAct(r, a)
    ensures Gathering(Act(r, a)) || (a.Wait? && Releasing(Act(r, a), r.threads.current))
  {
    var r', c := Act(r, a), r.threads.current;
    ActKeepsCommon(r, a);
    AllArrived(r);
    if a.Wait? {
      ActTurns(r, a);
      if r.pcs[c].Before? {
        OneArrives(r, r', c);
        AllArrived(r');
        if r'.blocked == |r.pcs| {
          LastArrives(r, a);
        }
      } else {
        assert r'.pcs == r.pcs;
      }
    } else {
      assert r'.pcs == r.pcs;
    }
  }

  lemma LastArrives(r: Round, a: Action)
    requires Gathering(r) && CanAct(r, a) && a.Wait? && r.pcs[r.threads.current].Before?
    requires r.blocked + 1 == |r.pcs| && forall t: nat :: t in Act(r, a).pcs ==> !Act(r, a).pcs[t].Before?
    ensures Releasing(Act(r, a), r.threads.current)
  {
    var r', c := Act(r, a), r.threads.current;
    ActKeepsCommon(r, a);
    ActTurns(r, a);
    assert |r'.pcs| == |r.pcs| by {
      assert r'.pcs.Keys == r.pcs.Keys;
    }
    forall t: nat | t in r'.pcs
      ensures InBarrier(r', t) && (t != c ==> Ordered(r', c, t))
    {
      assert t != c ==> r'.pcs[t] == r.pcs[t] && InBarrier(r, t) && InPlay(r, t);
    }
  }

  /** Going round from `last`, the next turn comes after the current thread and not after the next spinning one. */
  lemma OrderAdvances(n: nat, last: nat, c: nat, c': nat, t: nat, spins: bool)
    requires last < n && c < n && c' < n && t < n && c != last && t != last
    requires Distance(n, c, c') <= Distance(n, c, last)
    requires t != c && spins ==> Distance(n, c, c') <= Distance(n, c, t)
    requires spins <==> Distance(n, last, c) <= Distance(n, last, t)
    ensures spins && t != c <==> Distance(n, last, c') <= Distance(n, last, t)
  {
    DistanceAdds(n, last, c, c');
    DistanceAdds(n, last, c, last);
    DistanceAdds(n, last, c, t);
  }

  /** Round by round, each spinning thread has its turn before `last`, which is the first to return. */
  lemma ReleasingSteps(r: Round, a: Action, last: nat)
    requires Releasing(r, last) && CanAct(r, a)
    ensures if a.Wait? && r.threads.current == last then Over(Act(r, a), last) else Releasing(Act(r, a), last)
  {
    var r', c := Act(r, a), r.threads.current;
    var n := |r.threads.status|;
    ActKeepsCommon(r, a);
    if c == last {
      assert a.Wait?;
      forall t: nat | t in r'.pcs && t != last
        ensures r'.pcs[t].Leaving?
      {
        assert InBarrier(r, t) && Ordered(r, last, t);
      }
    } else {
      assert a.Wait? ==> r.pcs[c].Spin? by {
        assert a.Wait? ==> InBarrier(r, c) && Ordered(r, last, c);
      }
      assert |r'.pcs| == |r.pcs| by {
        assert r'.pcs.Keys == r.pcs.Keys;
      }
      forall t: nat | t in r'.pcs
        ensures InBarrier(r', t) && (t != last ==> Ordered(r', last, t))
      {
        assert InBarrier(r, t);
        if t != last {
          ReleasingOrder(r, a, last, t);
        }
      }
    }
  }

  lemma ReleasingOrder(r: Round, a: Action, last: nat, t: nat)
    requires Releasing(r, last) && CanAct(r, a) && r.threads.current != last
    requires a.Wait? ==> r.pcs[r.threads.current].Spin?
    requires t in r.pcs && t != last
    ensures Valid(Act(r, a).threads) && |Act(r, a).threads.status| == |r.threads.status| && t in Act(r, a).pcs
    ensures Ordered(Act(r, a), last, t)
  {
    var r', c := Act(r, a), r.threads.current;
    assert InBarrier(r, t) && Ordered(r, last, t) && InPlay(r, t) && InPlay(r, last);
    if Turns(r, a) {
      ActTurns(r, a);
      assert a.Other? ==> t != c;
      OrderAdvances(|r.threads.status|, last, c, r'.threads.current, t, r.pcs[t].Spin?);
    } else {
      ActStays(r, a);
    }
  }

  lemma OverSteps(r: Round, a: Action, last: nat)
    requires Over(r, last) && CanAct(r, a)
    ensures Over(Act(r, a), last)
  {
    ActKeepsCommon(r, a);
  }

  // ---------------------------------------------------------------------------------------------
  // Runs
  // ---------------------------------------------------------------------------------------------

  ghost predicate CanRun(r: Round, acts: seq<Action>)
    requires Common(r)
    decreases |acts|
  {
    acts == [] || (CanAct(r, acts[0]) && (ActKeepsCommon(r, acts[0]); CanRun(Act(r, acts[0]), acts[1..])))
  }

  /** Where a run of actions ends. */
  ghost function RunRound(r: Round, acts: seq<Action>): (r': Round)
    requires Common(r) && CanRun(r, acts)
    ensures Common(r')
    decreases |acts|
  {
    if acts == [] then r else (ActKeepsCommon(r, acts[0]); RunRound(Act(r, acts[0]), acts[1..]))
  }

  /** The participant whose call completes the arrivals, if there is one in the run. */
  ghost predicate ArrivesLast(r: Round, acts: seq<Action>, t: nat)
    requires Common(r) && CanRun(r, acts)
    decreases |acts|
  {
    acts != [] && (
      (t == r.threads.current && t in r.pcs && r.pcs[t].Before? && acts[0].Wait? && r.blocked + 1 == |r.pcs|) ||
      (ActKeepsCommon(r, acts[0]); ArrivesLast(Act(r, acts[0]), acts[1..], t)))
  }

  lemma {:induction false} RunOver(r: Round, acts: seq<Action>, last: nat)
    requires Over(r, last) && CanRun(r, acts)
    ensures Over(RunRound(r, acts), last)
    decreases |acts|
  {
    if acts != [] {
      OverSteps(r, acts[0], last);
      RunOver(Act(r, acts[0]), acts[1..], last);
    }
  }

  lemma {:induction false} RunReleasing(r: Round, acts: seq<Action>, last: nat)
    requires Releasing(r, last) && CanRun(r, acts)
    ensures Releasing(RunRound(r, acts), last) || Over(RunRound(r, acts), last)
    decreases |acts|
  {
    if acts != [] {
      ReleasingSteps(r, acts[0], last);
      if acts[0].Wait? && r.threads.current == last {
        RunOver(Act(r, acts[0]), acts[1..], last);
      } else {
        RunReleasing(Act(r, acts[0]), acts[1..], last);
      }
    }
  }

  /** Every state of a round is one of the three: gathering, releasing, or over; the last arriver is the same in all. */
  lemma {:induction false} RunGathering(r: Round, acts: seq<Action>)
    requires Gathering(r) && CanRun(r, acts)
    ensures var r' := RunRound(r, acts);
      Gathering(r') || exists last: nat :: ArrivesLast(r, acts, last) && (Releasing(r', last) || Over(r', last))
    decreases |acts|
  {
    if acts != [] {
      var r1 := Act(r, acts[0]);
      GatheringSteps(r, acts[0]);
      if Gathering(r1) {
        RunGathering(r1, acts[1..]);
        if !Gathering(RunRound(r, acts)) {
          var last: nat :| ArrivesLast(r1, acts[1..], last)
            && (Releasing(RunRound(r1, acts[1..]), last) || Over(RunRound(r1, acts[1..]), last));
          assert ArrivesLast(r, acts, last);
        }
      } else {
        var c := r.threads.current;
        AllArrived(r);
        assert r.pcs[c].Before? && r.blocked + 1 == |r.pcs| by {
          assert r1.pcs.Keys == r.pcs.Keys;
          assert |r1.pcs| == |r.pcs|;
        }
        RunReleasing(r1, acts[1..], c);
        assert ArrivesLast(r, acts, c);
      }
    }
  }

  /**
   The round, from pthread_barrier_init on, whatever else the threads do: a participant is back only after all have
   arrived and when nobody is left in the spin loop, the one that arrived last is back first and has the serial value,
   and no other has it.
   */
  lemma BarrierRound(r: Round, acts: seq<Action>, t: nat)
    requires Initial(r) && CanRun(r, acts)
    requires t in RunRound(r, acts).pcs && RunRound(r, acts).pcs[t].Returned?
    ensures forall u: nat :: u in RunRound(r, acts).pcs ==>
      RunRound(r, acts).pcs[u].Leaving? || RunRound(r, acts).pcs[u].Returned?
    ensures exists last: nat :: ArrivesLast(r, acts, last) && HasSerial(RunRound(r, acts), last)
  {
    InitialGathers(r);
    RunGathering(r, acts);
    var r' := RunRound(r, acts);
    var last: nat :| ArrivesLast(r, acts, last) && (Releasing(r', last) || Over(r', last));
    assert Releasing(r', last) ==> InBarrier(r', t);
    assert HasSerial(r', last);
  }

  /** Thread `last` and no other returned the serial value. */
  ghost predicate HasSerial(r: Round, last: nat) {
    && last in r.pcs && r.pcs[last] == Returned(true)
    && forall t: nat :: t in r.pcs && r.pcs[t].Returned? ==> (r.pcs[t].serial <==> t == last)
  }

  // ---------------------------------------------------------------------------------------------
  // Everybody returns
  // ---------------------------------------------------------------------------------------------

  ghost function TurnCount(r: Round, acts: seq<Action>): nat
    requires Common(r) && CanRun(r, acts)
    decreases |acts|
  {
    if acts == [] then 0
    else (if Turns(r, acts[0]) then 1 else 0) + (ActKeepsCommon(r, acts[0]); TurnCount(Act(r, acts[0]), acts[1..]))
  }

  /** A bound on the calls of schedule() before a participant has returned. */
  ghost function TurnsLeft(r: Round, t: nat): (d: nat)
    requires Common(r) && (t in r.pcs && r.pcs[t].Spin? ==> r.blocked == |r.pcs|)
    ensures d < 2 * |r.threads.status|
  {
    if !InBarrier(r, t) then 0
    else
      assert InPlay(r, t);
      var n := |r.threads.status|;
      var toTurn := if t == r.threads.current then 0 else Distance(n, r.threads.current, t);
      if r.pcs[t].Spin? then n + toTurn else toTurn
  }

  /** All have arrived. */
  ghost predicate Complete(r: Round) {
    exists last: nat :: Releasing(r, last) || Over(r, last)
  }

  lemma CompleteSteps(r: Round, a: Action)
    requires Complete(r) && Common(r) && CanAct(r, a)
    ensures Complete(Act(r, a))
  {
    var last: nat :| Releasing(r, last) || Over(r, last);
    if Releasing(r, last) {
      ReleasingSteps(r, a, last);
    } else {
      OverSteps(r, a, last);
    }
  }

  lemma SpinsWhenComplete(r: Round, t: nat)
    requires Complete(r) && t in r.pcs
    ensures InBarrier(r, t) || r.pcs[t].Returned?
    ensures r.pcs[t].Spin? ==> r.blocked == |r.pcs|
  {
    var last: nat :| Releasing(r, last) || Over(r, last);
    assert Releasing(r, last) ==> InBarrier(r, t);
  }

  /** A call of schedule() brings a participant that is not back nearer to its return; other actions do not delay it. */
  lemma TurnsLeftFalls(r: Round, a: Action, t: nat)
    requires Complete(r) && Common(r) && CanAct(r, a) && t in r.pcs && !r.pcs[t].Returned?
    ensures var r' := Act(r, a);
      && Common(r') && Complete(r') && t in r'.pcs
      && (r'.pcs[t].Spin? ==> r'.blocked == |r'.pcs|)
      && (r'.pcs[t].Returned? || TurnsLeft(r', t) + (if Turns(r, a) then 1 else 0) <= TurnsLeft(r, t))
  {
    var r', c := Act(r, a), r.threads.current;
    ActKeepsCommon(r, a);
    CompleteSteps(r, a);
    SpinsWhenComplete(r, t);
    SpinsWhenComplete(r', t);
    assert InBarrier(r, t) && InPlay(r, t);
    if Turns(r, a) {
      ActTurns(r, a);
      if t != c {
        assert InPlay(r', t);
        DistanceAdds(|r.threads.status|, c, r'.threads.current, t);
      }
    } else {
      ActStays(r, a);
    }
  }

  lemma {:induction false} BackEventually(r: Round, acts: seq<Action>, t: nat)
    requires Complete(r) && Common(r) && CanRun(r, acts) && t in r.pcs
    requires r.pcs[t].Spin? ==> r.blocked == |r.pcs|
    requires r.pcs[t].Returned? || TurnsLeft(r, t) < TurnCount(r, acts)
    ensures t in RunRound(r, acts).pcs && RunRound(r, acts).pcs[t].Returned?
    decreases |acts|
  {
    if acts != [] {
      var r' := Act(r, acts[0]);
      ActKeepsCommon(r, acts[0]);
      CompleteSteps(r, acts[0]);
      if r.pcs[t].Returned? {
        assert r'.pcs[t] == r.pcs[t];
      } else {
        TurnsLeftFalls(r, acts[0], t);
      }
      BackEventually(r', acts[1..], t);
    }
  }

  /**
   Nobody is stranded: in a round where all have arrived (`before` is the run so far), each participant is back after
   the scheduler went round twice.
   */
  lemma NobodyIsStranded(start: Round, before: seq<Action>, r: Round, acts: seq<Action>, t: nat)
    requires Initial(start) && CanRun(start, before) && r == RunRound(start, before)
    requires forall u: nat :: u in r.pcs ==> !r.pcs[u].Before?
    requires CanRun(r, acts) && t in r.pcs && TurnCount(r, acts) >= 2 * |r.threads.status|
    ensures t in RunRound(r, acts).pcs && RunRound(r, acts).pcs[t].Returned?
  {
    InitialGathers(start);
    RunGathering(start, before);
    assert Complete(r);
    SpinsWhenComplete(r, t);
    BackEventually(r, acts, t);
  }
}
