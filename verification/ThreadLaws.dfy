/** What every run of the thread library of ulpt-noodlez102/threads.c keeps. */
module ThreadLaws {
  import opened RoundRobin
  import opened ThreadModel

  function Next(s: Threads, op: Op): Threads
    requires Valid(s) && Allowed(s, op)
  {
    Step(s, op).0
  }

  // ---------------------------------------------------------------------------------------------
  // Bounded waiting
  // ---------------------------------------------------------------------------------------------

  /** The number of calls of schedule() in a run. */
  ghost function SwitchCount(s: Threads, ops: seq<Op>): nat
    requires Valid(s) && RunAllowed(s, ops)
    decreases |ops|
  {
    if ops == [] then 0
    else (if Switches(s, ops[0]) then 1 else 0) + (StepKeepsValid(s, ops[0]); SwitchCount(Next(s, ops[0]), ops[1..]))
  }

  /** Thread `t` becomes the current thread within the first `calls` calls of schedule(). */
  ghost predicate BecomesCurrent(s: Threads, ops: seq<Op>, t: nat, calls: nat)
    requires Valid(s) && RunAllowed(s, ops)
    decreases |ops|
  {
    s.current == t || (
      ops != [] &&
      (StepKeepsValid(s, ops[0]);
       if Switches(s, ops[0]) then calls > 0 && BecomesCurrent(Next(s, ops[0]), ops[1..], t, calls - 1)
       else BecomesCurrent(Next(s, ops[0]), ops[1..], t, calls)))
  }

  ghost predicate IsWaiting(s: Threads, t: nat) {
    t < |s.status| && s.status[t].Ready? && t != s.current < |s.status|
  }

  /** A call of schedule() turns to a ready thread or comes nearer to it. */
  lemma ScheduledComesNearer(s: Threads, t: nat)
    requires Switchable(s) && IsWaiting(s, t)
    ensures var s' := Scheduled(s); var n := |s.status|;
      s'.current == t || (IsWaiting(s', t) && Distance(n, s'.current, t) < Distance(n, s.current, t))
  {
    ScheduledKeeps(s);
    assert Preempted(s)[t].Ready?;
    DistanceAdds(|s.status|, s.current, Scheduled(s).current, t);
  }

  lemma StepComesNearer(s: Threads, op: Op, t: nat)
    requires Valid(s) && Allowed(s, op) && IsWaiting(s, t)
    ensures var s' := Next(s, op); var n := |s.status|;
      |s'.status| == n &&
      if Switches(s, op) then
        s'.current == t || (IsWaiting(s', t) && Distance(n, s'.current, t) < Distance(n, s.current, t))
      else
        s'.current == s.current && IsWaiting(s', t)
  {
    if Switches(s, op) {
      StepSwitches(s, op);
      ScheduledComesNearer(Prepared(s, op), t);
    }
  }

  lemma {:induction false} WaitsAtMostDistance(s: Threads, ops: seq<Op>, t: nat, calls: nat)
    requires Valid(s) && RunAllowed(s, ops) && IsWaiting(s, t)
    requires Distance(|s.status|, s.current, t) <= calls && calls <= SwitchCount(s, ops)
    ensures BecomesCurrent(s, ops, t, calls)
    decreases |ops|
  {
    var s' := Next(s, ops[0]);
    StepKeepsValid(s, ops[0]);
    StepComesNearer(s, ops[0], t);
    if !Switches(s, ops[0]) {
      WaitsAtMostDistance(s', ops[1..], t, calls);
    } else if s'.current != t {
      WaitsAtMostDistance(s', ops[1..], t, calls - 1);
    }
  }

  /** A ready thread becomes current within one call of schedule() less than there are slots. */
  lemma BoundedWaiting(s: Threads, ops: seq<Op>, t: nat)
    requires Valid(s) && RunAllowed(s, ops) && IsWaiting(s, t)
    requires SwitchCount(s, ops) >= |s.status| - 1
    ensures BecomesCurrent(s, ops, t, |s.status| - 1)
  {
    WaitsAtMostDistance(s, ops, t, |s.status| - 1);
  }

  /** Every thread of `n` is ready or runs. */
  ghost predicate AllBusy(s: Threads, n: nat) {
    Valid(s) && |s.status| == n && forall t: nat :: t < n ==> s.status[t].Ready? || s.status[t].Running?
  }

  /** The bound is reached: when all threads are busy, the one behind the current thread waits for a whole turn. */
  lemma {:induction false} BoundIsReached(s: Threads, n: nat, ops: seq<Op>, calls: nat)
    requires AllBusy(s, n) && RunAllowed(s, ops) && forall i :: 0 <= i < |ops| ==> ops[i] == Op.Yield
    requires s.current + calls < n - 1
    ensures !BecomesCurrent(s, ops, n - 1, calls)
    decreases |ops|
  {
    if ops != [] && calls > 0 {
      var s' := Next(s, ops[0]);
      StepKeepsValid(s, ops[0]);
      YieldKeeps(s);
      ScheduledKeeps(s);
      var after := After(n, s.current);
      assert Preempted(s)[after].Ready?;
      assert Distance(n, s.current, after) == 1;
      assert s'.current == after;
      BoundIsReached(s', n, ops[1..], calls - 1);
    }
  }

  // ---------------------------------------------------------------------------------------------
  // Exited threads
  // ---------------------------------------------------------------------------------------------

  lemma ScheduledKeepsExited(s: Threads, t: nat)
    requires Switchable(s) && t < |s.status|
    ensures Scheduled(s).status[t].Exited? <==> s.status[t].Exited?
    ensures Scheduled(s).exits == s.exits
  {
    ScheduledKeeps(s);
  }

  lemma StepKeepsExited(s: Threads, op: Op, t: nat)
    requires Valid(s) && Allowed(s, op) && t < |s.status|
    ensures Valid(Next(s, op)) && |Next(s, op).status| == |s.status| == |s.exits| == |Next(s, op).exits|
    ensures Next(s, op).status[t].Exited? <==> s.status[t].Exited? || (op.Exit? && t == s.current)
    ensures s.status[t].Exited? ==> Next(s, op).exits[t] == s.exits[t]
    ensures op.Exit? && t == s.current ==> Next(s, op).exits[t] == op.value
  {
    StepKeepsValid(s, op);
    if Switches(s, op) {
      StepSwitches(s, op);
      ScheduledKeepsExited(Prepared(s, op), t);
      assert op.Unlock? ==> Waits(s.mutexes, s.mutexes[op.mutex].waiting[0], op.mutex, 0);
    }
  }

  /** An exited thread stays exited, keeps its value, and never becomes current again. */
  lemma {:induction false} ExitedForever(s: Threads, ops: seq<Op>, t: nat)
    requires Valid(s) && RunAllowed(s, ops) && t < |s.status| && s.status[t].Exited?
    ensures Run(s, ops).status[t].Exited? && Run(s, ops).exits[t] == s.exits[t] && Run(s, ops).current != t
    decreases |ops|
  {
    if ops != [] {
      StepKeepsExited(s, ops[0], t);
      ExitedForever(Next(s, ops[0]), ops[1..], t);
    }
  }

  /** Thread `t` calls pthread_exit with `value` in the run. */
  ghost predicate ExitsWith(s: Threads, ops: seq<Op>, t: nat, value: int)
    requires Valid(s) && RunAllowed(s, ops)
    decreases |ops|
  {
    ops != [] && (
      (s.current == t && ops[0] == Op.Exit(value)) ||
      (StepKeepsValid(s, ops[0]); ExitsWith(Next(s, ops[0]), ops[1..], t, value)))
  }

  /** pthread_join returns a value exactly when the thread passed that value to pthread_exit before. */
  lemma {:induction false} JoinReturnsExitValue(s: Threads, ops: seq<Op>, t: nat, value: int)
    requires Valid(s) && RunAllowed(s, ops) && t < |s.status| && !s.status[t].Exited?
    ensures Allowed(Run(s, ops), Op.Join(t)) ==>
      (Step(Run(s, ops), Op.Join(t)).1 == Value(value) <==> ExitsWith(s, ops, t, value))
    decreases |ops|
  {
    if ops != [] {
      var s' := Next(s, ops[0]);
      StepKeepsExited(s, ops[0], t);
      if s'.status[t].Exited? {
        ExitedForever(s', ops[1..], t);
        ExitsOnce(s', ops[1..], t, value);
      } else {
        JoinReturnsExitValue(s', ops[1..], t, value);
      }
    }
  }

  lemma {:induction false} ExitsOnce(s: Threads, ops: seq<Op>, t: nat, value: int)
    requires Valid(s) && RunAllowed(s, ops) && t < |s.status| && s.status[t].Exited?
    ensures !ExitsWith(s, ops, t, value)
    decreases |ops|
  {
    if ops != [] {
      StepKeepsExited(s, ops[0], t);
      ExitsOnce(Next(s, ops[0]), ops[1..], t, value);
    }
  }

  // ---------------------------------------------------------------------------------------------
  // Handles
  // ---------------------------------------------------------------------------------------------

  /** The handles that the pthread_create calls of a run return. */
  ghost function Handles(s: Threads, ops: seq<Op>): seq<nat>
    requires Valid(s) && RunAllowed(s, ops)
    decreases |ops|
  {
    if ops == [] then []
    else
      (if ops[0].Create? && Step(s, ops[0]).1.Handle? then [Step(s, ops[0]).1.thread] else [])
      + (StepKeepsValid(s, ops[0]); Handles(Next(s, ops[0]), ops[1..]))
  }

  /** The handles are the slots in order, so no two threads share one, and there are never more than slots. */
  lemma {:induction false} HandlesAreSlots(s: Threads, ops: seq<Op>)
    requires Valid(s) && RunAllowed(s, ops)
    ensures var hs := Handles(s, ops);
      && Run(s, ops).count == s.count + |hs| <= |s.status|
      && forall k: nat :: k < |hs| ==> hs[k] == s.count + k
    decreases |ops|
  {
    if ops != [] {
      StepKeepsValid(s, ops[0]);
      HandlesAreSlots(Next(s, ops[0]), ops[1..]);
    }
  }

  // ---------------------------------------------------------------------------------------------
  // Mutex queues
  // ---------------------------------------------------------------------------------------------

  /** The threads that the run makes wait for mutex `m`, in order. */
  ghost function Arrivals(s: Threads, ops: seq<Op>, m: nat): seq<nat>
    requires Valid(s) && RunAllowed(s, ops)
    decreases |ops|
  {
    if ops == [] then []
    else
      (if ops[0] == Op.Lock(m) && s.mutexes[m].locked then [s.current] else [])
      + (StepKeepsValid(s, ops[0]); Arrivals(Next(s, ops[0]), ops[1..], m))
  }

  /** The threads that the run wakes from the queue of mutex `m`: one for each unlock that finds a waiter. */
  ghost function Wakes(s: Threads, ops: seq<Op>, m: nat): seq<nat>
    requires Valid(s) && RunAllowed(s, ops)
    decreases |ops|
  {
    if ops == [] then []
    else
      (if ops[0] == Op.Unlock(m) && s.mutexes[m].waiting != [] then [s.mutexes[m].waiting[0]] else [])
      + (StepKeepsValid(s, ops[0]); Wakes(Next(s, ops[0]), ops[1..], m))
  }

  /** The thread of each wake-up is blocked before and ready or current after. */
  lemma WakeIsReal(s: Threads, m: nat)
    requires Valid(s) && Allowed(s, Op.Unlock(m)) && s.mutexes[m].waiting != []
    ensures var w := s.mutexes[m].waiting[0]; var s' := Next(s, Op.Unlock(m));
      w < |s.status| == |s'.status| && s.status[w].Blocked? && (IsWaiting(s', w) || s'.current == w)
  {
    var w := s.mutexes[m].waiting[0];
    assert Waits(s.mutexes, w, m, 0);
    DequeuedKeeps(s, m);
    ScheduledKeeps(Dequeued(s, m));
  }

  lemma Regroup(q: seq<nat>, a: seq<nat>, a': seq<nat>, w: seq<nat>, w': seq<nat>, q': seq<nat>, q'': seq<nat>)
    requires q + a == w + q' && q' + a' == w' + q''
    ensures q + (a + a') == (w + w') + q''
  {
    assert q + (a + a') == (q + a) + a';
    assert (w + q') + a' == w + (q' + a');
    assert w + (w' + q'') == (w + w') + q'';
  }

  lemma QueueStep(s: Threads, op: Op, m: nat)
    requires Valid(s) && Allowed(s, op) && m < |s.mutexes|
    ensures m < |Next(s, op).mutexes|
    ensures s.mutexes[m].waiting + (if op == Op.Lock(m) && s.mutexes[m].locked then [s.current] else [])
         == (if op == Op.Unlock(m) && s.mutexes[m].waiting != [] then [s.mutexes[m].waiting[0]] else [])
            + Next(s, op).mutexes[m].waiting
  {}

  /** First come, first served: whoever waited or came to wait was woken in that order or waits still, in that order. */
  lemma {:induction false} QueueIsFifo(s: Threads, ops: seq<Op>, m: nat)
    requires Valid(s) && RunAllowed(s, ops) && m < |s.mutexes|
    ensures m < |Run(s, ops).mutexes|
    ensures s.mutexes[m].waiting + Arrivals(s, ops, m) == Wakes(s, ops, m) + Run(s, ops).mutexes[m].waiting
    decreases |ops|
  {
    if ops == [] {
      assert s.mutexes[m].waiting + [] == [] + s.mutexes[m].waiting;
    } else {
      var s' := Next(s, ops[0]);
      StepKeepsValid(s, ops[0]);
      QueueStep(s, ops[0], m);
      QueueIsFifo(s', ops[1..], m);
      var arrival: seq<nat> := if ops[0] == Op.Lock(m) && s.mutexes[m].locked then [s.current] else [];
      var wake: seq<nat> :=
        if ops[0] == Op.Unlock(m) && s.mutexes[m].waiting != [] then [s.mutexes[m].waiting[0]] else [];
      Regroup(s.mutexes[m].waiting, arrival, Arrivals(s', ops[1..], m), wake, Wakes(s', ops[1..], m),
              s'.mutexes[m].waiting, Run(s, ops).mutexes[m].waiting);
    }
  }

  /** The k-th waiter is woken by the k-th unlock that finds a waiter. */
  lemma KthWaiterKthWake(s: Threads, ops: seq<Op>, m: nat, k: nat)
    requires Valid(s) && RunAllowed(s, ops) && m < |s.mutexes| && k < |Wakes(s, ops, m)|
    ensures k < |s.mutexes[m].waiting + Arrivals(s, ops, m)|
    ensures Wakes(s, ops, m)[k] == (s.mutexes[m].waiting + Arrivals(s, ops, m))[k]
  {
    QueueIsFifo(s, ops, m);
  }

  // ---------------------------------------------------------------------------------------------
  // What a call that was switched away answers
  // ---------------------------------------------------------------------------------------------

  /** Thread `t` ends an interrupted call in the run. */
  ghost predicate ReturnsIn(s: Threads, ops: seq<Op>, t: nat)
    requires Valid(s) && RunAllowed(s, ops)
    decreases |ops|
  {
    ops != [] && (
      (s.current == t && ops[0].Return?) ||
      (StepKeepsValid(s, ops[0]); ReturnsIn(Next(s, ops[0]), ops[1..], t)))
  }

  lemma PendingStep(s: Threads, op: Op, t: nat)
    requires Valid(s) && Allowed(s, op) && t < |s.status| && s.pending[t].Answers?
    requires !(s.current == t && op.Return?)
    ensures Valid(Next(s, op)) && |Next(s, op).status| == |s.status| && Next(s, op).pending[t] == s.pending[t]
  {
    StepKeepsValid(s, op);
  }

  /** An interrupted call keeps its answer until it ends, whatever the other threads do. */
  lemma {:induction false} PendingKept(s: Threads, ops: seq<Op>, t: nat)
    requires Valid(s) && RunAllowed(s, ops) && t < |s.status| && s.pending[t].Answers? && !ReturnsIn(s, ops, t)
    ensures |Run(s, ops).status| == |s.status| && Run(s, ops).pending[t] == s.pending[t]
    decreases |ops|
  {
    if ops != [] {
      PendingStep(s, ops[0], t);
      PendingKept(Next(s, ops[0]), ops[1..], t);
    }
  }

  /** A call of pthread_mutex_lock that had to wait answers -1 when its thread goes on, although it was woken. */
  lemma WaitAnswersMinusOne(s: Threads, m: nat, ops: seq<Op>)
    requires Valid(s) && Allowed(s, Op.Lock(m)) && s.mutexes[m].locked
    requires Valid(Next(s, Op.Lock(m))) && RunAllowed(Next(s, Op.Lock(m)), ops)
    requires !ReturnsIn(Next(s, Op.Lock(m)), ops, s.current) && Run(Next(s, Op.Lock(m)), ops).current == s.current
    ensures var s' := Run(Next(s, Op.Lock(m)), ops);
      Allowed(s', Op.Return) && Step(s', Op.Return).1 == Code(-1)
  {
    StepKeepsValid(s, Op.Lock(m));
    PendingKept(Next(s, Op.Lock(m)), ops, s.current);
  }

  // ---------------------------------------------------------------------------------------------
  // Mutual exclusion, as far as it goes
  // ---------------------------------------------------------------------------------------------

  /**
   Which threads are inside a mutex can be read in two ways. Either a waiter that is woken was handed the mutex, and
   the -1 that its call answers is ignored; or only a call of pthread_mutex_lock that answers 0 lets a thread in.
   */
  datatype Reading = Handed | Answered

  /** The threads inside mutex `m` after a step, until they unlock it. */
  ghost function Inside(rd: Reading, s: Threads, inside: set<nat>, op: Op, m: nat): set<nat>
    requires s.current < |s.status| == |s.pending| && Allowed(s, op)
  {
    if op == Op.Lock(m) && !s.mutexes[m].locked then inside + {s.current}
    else if op == Op.Unlock(m) then
      inside - {s.current} + (if rd.Handed? && s.mutexes[m].waiting != [] then {s.mutexes[m].waiting[0]} else {})
    else inside
  }

  /** At most one thread is inside, and the flag says whether one is. */
  ghost predicate Exclusive(s: Threads, inside: set<nat>, m: nat) {
    m < |s.mutexes| && |inside| <= 1 && (s.mutexes[m].locked <==> inside != {})
  }

  /** The unlock that breaks it: one that finds exactly one waiter, or in the other reading more than one. */
  predicate Breaks(rd: Reading, s: Threads, op: Op, m: nat)
    requires m < |s.mutexes|
  {
    op == Op.Unlock(m) && if rd.Handed? then |s.mutexes[m].waiting| == 1 else |s.mutexes[m].waiting| > 1
  }

  /**
   As long as only the thread inside unlocks, a step keeps exclusion and the flag exactly when it is not such an
   unlock. With one waiter, the mutex is unlocked although the waiter was handed it; with more than one, it stays
   locked although the calls of all waiters fail.
   */
  lemma ExclusionIsKept(rd: Reading, s: Threads, inside: set<nat>, op: Op, m: nat)
    requires Valid(s) && Allowed(s, op) && Exclusive(s, inside, m)
    requires op == Op.Unlock(m) ==> s.current in inside
    ensures Exclusive(Next(s, op), Inside(rd, s, inside, op, m), m) <==> !Breaks(rd, s, op, m)
  {
    if op == Op.Lock(m) && !s.mutexes[m].locked {
      assert inside + {s.current} == {s.current};
    }
    if op == Op.Unlock(m) {
      Single(inside, s.current);
      assert inside - {s.current} == {};
      if rd.Handed? && s.mutexes[m].waiting != [] {
        var w := s.mutexes[m].waiting[0];
        assert Inside(rd, s, inside, op, m) == {w};
        assert w in Inside(rd, s, inside, op, m);
      }
    }
  }

  lemma Single(a: set<nat>, x: nat)
    requires |a| <= 1 && x in a
    ensures a == {x}
  {
    assert |a - {x}| == |a| - 1;
    forall y: nat
      ensures y in a <==> y in {x}
    {
      assert y in a && y != x ==> y in a - {x};
    }
  }

  /** The threads inside mutex `m` at the end of a run. */
  ghost function InsideAfter(rd: Reading, s: Threads, inside: set<nat>, ops: seq<Op>, m: nat): set<nat>
    requires Valid(s) && RunAllowed(s, ops)
    decreases |ops|
  {
    if ops == [] then inside
    else
      (StepKeepsValid(s, ops[0]);
       InsideAfter(rd, Next(s, ops[0]), Inside(rd, s, inside, ops[0], m), ops[1..], m))
  }

  /** In the run only threads inside unlock mutex `m`. */
  ghost predicate OwnersUnlock(rd: Reading, s: Threads, inside: set<nat>, ops: seq<Op>, m: nat)
    requires Valid(s) && RunAllowed(s, ops)
    decreases |ops|
  {
    ops == [] || (
      && (ops[0] == Op.Unlock(m) ==> s.current in inside)
      && (StepKeepsValid(s, ops[0]);
          OwnersUnlock(rd, Next(s, ops[0]), Inside(rd, s, inside, ops[0], m), ops[1..], m)))
  }

  ghost predicate NeverBreaks(rd: Reading, s: Threads, ops: seq<Op>, m: nat)
    requires Valid(s) && RunAllowed(s, ops) && m < |s.mutexes|
    decreases |ops|
  {
    ops == [] || (
      !Breaks(rd, s, ops[0], m) && (StepKeepsValid(s, ops[0]); NeverBreaks(rd, Next(s, ops[0]), ops[1..], m)))
  }

  /** In every state of the run there is exclusion, and the flag is right. */
  ghost predicate StaysExclusive(rd: Reading, s: Threads, inside: set<nat>, ops: seq<Op>, m: nat)
    requires Valid(s) && RunAllowed(s, ops)
    decreases |ops|
  {
    Exclusive(s, inside, m) && (ops != [] ==>
      (StepKeepsValid(s, ops[0]);
       StaysExclusive(rd, Next(s, ops[0]), Inside(rd, s, inside, ops[0], m), ops[1..], m)))
  }

  /** A run has exclusion throughout exactly when it has no such unlock. */
  lemma {:induction false} ExclusionOverRuns(rd: Reading, s: Threads, inside: set<nat>, ops: seq<Op>, m: nat)
    requires Valid(s) && RunAllowed(s, ops) && Exclusive(s, inside, m) && OwnersUnlock(rd, s, inside, ops, m)
    ensures StaysExclusive(rd, s, inside, ops, m) <==> NeverBreaks(rd, s, ops, m)
    decreases |ops|
  {
    if ops != [] {
      StepKeepsValid(s, ops[0]);
      ExclusionIsKept(rd, s, inside, ops[0], m);
      if !Breaks(rd, s, ops[0], m) {
        ExclusionOverRuns(rd, Next(s, ops[0]), Inside(rd, s, inside, ops[0], m), ops[1..], m);
      }
    }
  }

  // Where a woken waiter counts as inside, a wrong flag is not yet a second thread inside.

  /** One thread is inside, but the mutex is unlocked. */
  ghost predicate Loose(s: Threads, inside: set<nat>, m: nat) {
    m < |s.mutexes| && |inside| == 1 && !s.mutexes[m].locked && s.mutexes[m].waiting == []
  }

  /** A thread that is not inside locks a mutex that is unlocked although another thread is inside. */
  ghost predicate Barges(s: Threads, inside: set<nat>, op: Op, m: nat)
    requires m < |s.mutexes|
  {
    op == Op.Lock(m) && !s.mutexes[m].locked && inside != {} && s.current !in inside
  }

  /** The flag goes wrong exactly at an unlock that finds one waiter, and is right again after the next unlock. */
  lemma LooseExactly(s: Threads, inside: set<nat>, op: Op, m: nat)
    requires Valid(s) && Allowed(s, op) && m < |s.mutexes| && (op == Op.Unlock(m) ==> s.current in inside)
    ensures Exclusive(s, inside, m) ==>
      (Loose(Next(s, op), Inside(Handed, s, inside, op, m), m) <==> Breaks(Handed, s, op, m))
    ensures Loose(s, inside, m) && op == Op.Unlock(m) ==>
      Exclusive(Next(s, op), Inside(Handed, s, inside, op, m), m)
  {
    var inside' := Inside(Handed, s, inside, op, m);
    if op == Op.Unlock(m) && |inside| <= 1 {
      Single(inside, s.current);
      assert inside - {s.current} == {};
      if s.mutexes[m].waiting != [] {
        assert inside' == {s.mutexes[m].waiting[0]};
      }
    } else if Exclusive(s, inside, m) {
      ExclusionIsKept(Handed, s, inside, op, m);
    }
  }

  /** A second thread gets inside at a step exactly when it barges in. */
  lemma BargesExactly(s: Threads, inside: set<nat>, op: Op, m: nat)
    requires Valid(s) && Allowed(s, op) && (op == Op.Unlock(m) ==> s.current in inside)
    requires Exclusive(s, inside, m) || Loose(s, inside, m)
    ensures var s', inside' := Next(s, op), Inside(Handed, s, inside, op, m);
      && (|inside'| <= 1 <==> !Barges(s, inside, op, m))
      && (!Barges(s, inside, op, m) ==> Exclusive(s', inside', m) || Loose(s', inside', m))
  {
    LooseExactly(s, inside, op, m);
    if Exclusive(s, inside, m) {
      ExclusionIsKept(Handed, s, inside, op, m);
    } else if op == Op.Lock(m) {
      if s.current in inside {
        assert inside + {s.current} == inside;
      } else {
        assert |inside + {s.current}| == 2;
      }
    }
  }

  /** In every state of the run at most one thread is inside. */
  ghost predicate StaysSingle(s: Threads, inside: set<nat>, ops: seq<Op>, m: nat)
    requires Valid(s) && RunAllowed(s, ops)
    decreases |ops|
  {
    |inside| <= 1 && (ops != [] ==>
      (StepKeepsValid(s, ops[0]);
       StaysSingle(Next(s, ops[0]), Inside(Handed, s, inside, ops[0], m), ops[1..], m)))
  }

  ghost predicate NeverBarges(s: Threads, inside: set<nat>, ops: seq<Op>, m: nat)
    requires Valid(s) && RunAllowed(s, ops) && m < |s.mutexes|
    decreases |ops|
  {
    ops == [] || (
      && !Barges(s, inside, ops[0], m)
      && (StepKeepsValid(s, ops[0]);
          NeverBarges(Next(s, ops[0]), Inside(Handed, s, inside, ops[0], m), ops[1..], m)))
  }

  /**
   Mutual exclusion holds in every state of a run exactly when nobody barges in. By `LooseExactly` that can only happen
   between an unlock that finds one waiter and the unlock of the thread it woke.
   */
  lemma {:induction false} SingleOverRuns(s: Threads, inside: set<nat>, ops: seq<Op>, m: nat)
    requires Valid(s) && RunAllowed(s, ops) && OwnersUnlock(Handed, s, inside, ops, m)
    requires Exclusive(s, inside, m) || Loose(s, inside, m)
    ensures StaysSingle(s, inside, ops, m) <==> NeverBarges(s, inside, ops, m)
    decreases |ops|
  {
    if ops != [] {
      var s', inside' := Next(s, ops[0]), Inside(Handed, s, inside, ops[0], m);
      StepKeepsValid(s, ops[0]);
      BargesExactly(s, inside, ops[0], m);
      if Barges(s, inside, ops[0], m) {
        assert !StaysSingle(s', inside', ops[1..], m);
      } else {
        SingleOverRuns(s', inside', ops[1..], m);
      }
    }
  }

  lemma AnsweredStep(s: Threads, inside: set<nat>, op: Op, m: nat)
    requires Valid(s) && Allowed(s, op) && m < |s.mutexes| && (op == Op.Unlock(m) ==> s.current in inside)
    requires |inside| <= 1 && (inside != {} ==> s.mutexes[m].locked)
    ensures var inside' := Inside(Answered, s, inside, op, m);
      |inside'| <= 1 && m < |Next(s, op).mutexes| && (inside' != {} ==> Next(s, op).mutexes[m].locked)
  {
    if op == Op.Unlock(m) {
      Single(inside, s.current);
      assert inside - {s.current} + {} == {};
    } else if op == Op.Lock(m) && !s.mutexes[m].locked {
      assert inside + {s.current} == {s.current};
    }
  }

  /** Where only an answer of 0 lets a thread in, there is never more than one inside, in any run. */
  lemma {:induction false} AnsweredExcludes(s: Threads, inside: set<nat>, ops: seq<Op>, m: nat)
    requires Valid(s) && RunAllowed(s, ops) && m < |s.mutexes| && OwnersUnlock(Answered, s, inside, ops, m)
    requires |inside| <= 1 && (inside != {} ==> s.mutexes[m].locked)
    ensures |InsideAfter(Answered, s, inside, ops, m)| <= 1
    decreases |ops|
  {
    if ops != [] {
      StepKeepsValid(s, ops[0]);
      AnsweredStep(s, inside, ops[0], m);
      AnsweredExcludes(Next(s, ops[0]), Inside(Answered, s, inside, ops[0], m), ops[1..], m);
    }
  }

  /**
   But then an unlock that finds more than one waiter locks everybody out for good: the mutex stays locked, nobody ever
   gets inside, and its waiters wait for ever.
   */
  lemma {:induction false} LockedOut(s: Threads, ops: seq<Op>, m: nat)
    requires Valid(s) && RunAllowed(s, ops) && m < |s.mutexes| && s.mutexes[m].locked
    requires OwnersUnlock(Answered, s, {}, ops, m)
    ensures m < |Run(s, ops).mutexes| && Run(s, ops).mutexes[m].locked
    ensures InsideAfter(Answered, s, {}, ops, m) == {} && Wakes(s, ops, m) == []
    decreases |ops|
  {
    if ops != [] {
      StepKeepsValid(s, ops[0]);
      LockedOut(Next(s, ops[0]), ops[1..], m);
    }
  }
}
