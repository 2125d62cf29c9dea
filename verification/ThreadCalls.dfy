/**
 What each call of the thread library (ulpt-noodlez102/threads.c:48-367) answers, at once or when its thread goes on
 after a switch, and what it does to the threads.
 */
module ThreadCalls {
  import opened RoundRobin
  import opened ThreadModel
  import opened ThreadLaws

  // ---------------------------------------------------------------------------------------------
  // Calls that were switched away
  // ---------------------------------------------------------------------------------------------

  /**
   A call of pthread_mutex_unlock that wakes a waiter answers 0 when its thread goes on, whatever the other threads do
   before that.
   */
  lemma WakerAnswersZero(s: Threads, m: nat, ops: seq<Op>)
    requires Valid(s) && Allowed(s, Op.Unlock(m)) && s.mutexes[m].waiting != []
    requires Valid(Next(s, Op.Unlock(m))) && RunAllowed(Next(s, Op.Unlock(m)), ops)
    requires !ReturnsIn(Next(s, Op.Unlock(m)), ops, s.current) && Run(Next(s, Op.Unlock(m)), ops).current == s.current
    ensures Step(s, Op.Unlock(m)).1 == Switched
    ensures var s' := Run(Next(s, Op.Unlock(m)), ops);
      Allowed(s', Op.Return) && Step(s', Op.Return).1 == Code(0)
  {
    StepKeepsValid(s, Op.Unlock(m));
    PendingKept(Next(s, Op.Unlock(m)), ops, s.current);
  }

  /** A call returns once, and its return changes nothing else. */
  lemma ReturnsOnce(s: Threads)
    requires Valid(s) && Allowed(s, Op.Return)
    ensures var s' := Next(s, Op.Return);
      && !Allowed(s', Op.Return)
      && s'.status == s.status && s'.exits == s.exits && s'.current == s.current && s'.count == s.count
      && s'.mutexes == s.mutexes && |s'.pending| == |s.pending|
      && forall t :: 0 <= t < |s.pending| && t != s.current ==> s'.pending[t] == s.pending[t]
  {}

  // ---------------------------------------------------------------------------------------------
  // Calls that answer at once
  // ---------------------------------------------------------------------------------------------

  /** A lock answers 0 at once, and leaves the mutex locked, exactly if it was unlocked. */
  lemma LockAtOnce(s: Threads, m: nat)
    requires Valid(s) && Allowed(s, Op.Lock(m))
    ensures var (s', outcome) := Step(s, Op.Lock(m));
      && (outcome == Code(0) <==> !s.mutexes[m].locked) && (outcome != Code(0) ==> outcome == Switched)
      && |s'.mutexes| == |s.mutexes| && s'.mutexes[m].locked
      && (outcome == Code(0) ==> s'.current == s.current && s'.pending == s.pending)
      && forall k :: 0 <= k < |s.mutexes| && k != m ==> s'.mutexes[k] == s.mutexes[k]
  {}

  /** An unlock answers 0 at once, and leaves the mutex unlocked, exactly if it finds no waiter. */
  lemma UnlockAtOnce(s: Threads, m: nat)
    requires Valid(s) && Allowed(s, Op.Unlock(m))
    ensures var (s', outcome) := Step(s, Op.Unlock(m));
      && (outcome == Code(0) <==> s.mutexes[m].waiting == []) && (outcome != Code(0) ==> outcome == Switched)
      && |s'.mutexes| == |s.mutexes| && s'.mutexes[m].locked == (|s.mutexes[m].waiting| > 1 && s.mutexes[m].locked)
      && (outcome == Code(0) ==> s'.current == s.current && s'.status == s.status && s'.pending == s.pending)
      && forall k :: 0 <= k < |s.mutexes| && k != m ==> s'.mutexes[k] == s.mutexes[k]
  {}

  /** A new mutex is unlocked with nobody waiting: the next lock of it answers 0 at once. */
  lemma NewMutexIsFree(s: Threads)
    requires Valid(s) && Allowed(s, Op.InitMutex)
    ensures var (s', outcome) := Step(s, Op.InitMutex); var m := |s.mutexes|;
      && outcome == Handle(m) && s'.mutexes[..m] == s.mutexes && s'.current == s.current && s'.status == s.status
      && Valid(s') && Allowed(s', Op.Lock(m)) && Step(s', Op.Lock(m)).1 == Code(0)
  {
    StepKeepsValid(s, Op.InitMutex);
  }

  /** A create answers the number of an empty slot, which becomes ready; it fails exactly when no slot is empty. */
  lemma CreateAnswers(s: Threads)
    requires Valid(s) && Allowed(s, Op.Create)
    ensures var (s', outcome) := Step(s, Op.Create);
      && (outcome == Code(-1) <==> forall t :: 0 <= t < |s.status| ==> !s.status[t].Empty?)
      && (outcome == Code(-1) ==> s' == s)
      && (outcome != Code(-1) ==>
        && outcome.Handle? && outcome.thread < |s.status| == |s'.status|
        && s.status[outcome.thread].Empty? && s'.status[outcome.thread].Ready?
        && (forall t :: 0 <= t < |s.status| && t != outcome.thread ==> s'.status[t] == s.status[t])
        && s'.current == s.current && s'.mutexes == s.mutexes && s'.pending == s.pending && s'.exits == s.exits)
  {
    assert s.count < |s.status| ==> s.status[s.count].Empty?;
  }

  // ---------------------------------------------------------------------------------------------
  // Switches
  // ---------------------------------------------------------------------------------------------

  /** What the thread that lets go is left as. */
  function LeftAs(op: Op): Status {
    match op
    case Exit(_) => Exited
    case Lock(_) => Blocked
    case _ => Ready
  }

  /**
   After a step that calls schedule() the current thread runs. The one that let go is exited, blocked or ready by what
   it called, unless the scan came back to it. The others stay as they are, but for a waiter that an unlock wakes.
   */
  lemma SwitchLeaves(s: Threads, op: Op)
    requires Valid(s) && Allowed(s, op) && Switches(s, op)
    ensures var s' := Next(s, op);
      && Step(s, op).1 == Switched && |s'.status| == |s.status|
      && s'.current < |s'.status| && s'.status[s'.current].Running?
      && (s'.current != s.current ==> s'.status[s.current] == LeftAs(op))
      && (s'.current == s.current ==> LeftAs(op).Ready?)
      && forall t: nat :: t < |s.status| && t != s.current && t != s'.current ==>
          (op.Unlock? && t == s.mutexes[op.mutex].waiting[0]) || s'.status[t] == s.status[t]
  {
    StepSwitches(s, op);
    ScheduledKeeps(Prepared(s, op));
    if op.Unlock? {
      assert Waits(s.mutexes, s.mutexes[op.mutex].waiting[0], op.mutex, 0);
    }
  }

  /** Every other step goes on with the same thread, and leaves what the others are as it was. */
  lemma StaysCurrent(s: Threads, op: Op)
    requires Valid(s) && Allowed(s, op) && !Switches(s, op)
    ensures var s' := Next(s, op);
      && s'.current == s.current && Step(s, op).1 != Switched && |s'.status| == |s.status|
      && forall t: nat :: t < |s.status| && t != s.current && !s.status[t].Empty? ==> s'.status[t] == s.status[t]
  {}

  /** What a step leaves alone: exit values but for an exit, mutexes but for a call on them, and other answers. */
  lemma StepFrame(s: Threads, op: Op)
    requires Valid(s) && Allowed(s, op)
    ensures var s' := Next(s, op);
      && s'.exits == (if op.Exit? then s.exits[s.current := op.value] else s.exits)
      && (!op.Create? ==> s'.count == s.count)
      && (!op.InitMutex? && !op.Lock? && !op.Unlock? ==> s'.mutexes == s.mutexes)
      && |s'.pending| == |s.pending|
      && (forall t :: 0 <= t < |s.pending| && t != s.current ==> s'.pending[t] == s.pending[t])
      && (!op.Lock? && !op.Unlock? && !op.Return? ==> s'.pending == s.pending)
      && (op.Join? && s.status[op.thread].Exited? ==> s' == s)
  {}
}
