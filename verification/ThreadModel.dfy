/**
 The thread library of ulpt-noodlez102/threads.c as a transition system on values: the scheduler, the thread table and
 the wait queues of the mutexes. Each step is a library call made by the current thread, or a timer preemption, and
 ends where another thread may go on.
 */
module ThreadModel {
  import opened RoundRobin

  /** A mutex: its flag, and the threads that wait for it, first come first. */
  datatype Mutex = Mutex(locked: bool, waiting: seq<nat>)

  /** A call that was interrupted by a switch goes on when its thread is scheduled again, and answers then. */
  datatype Pending = Idle | Answers(code: int)

  /**
   The thread table: status and exit value of each slot, the current slot, and the number of slots given out
   (`num_threads`); and where each thread goes on.
   */
  datatype Threads = Threads(
    status: seq<Status>,
    exits: seq<int>,
    current: nat,
    count: nat,
    mutexes: seq<Mutex>,
    pending: seq<Pending>)

  datatype Op =
    | Yield
    | Create
    | Exit(value: int)
    | Join(thread: nat)
    | InitMutex
    | Lock(mutex: nat)
    | Unlock(mutex: nat)
    | Return

  /**
   What a call returns at once. `Switched` is a call that has not returned when another thread goes on; `Return` is
   how it ends later.
   */
  datatype Outcome =
    | Code(code: int)
    | Handle(thread: nat)
    | Value(value: int)
    | Switched

  // ---------------------------------------------------------------------------------------------
  // Invariants
  // ---------------------------------------------------------------------------------------------

  /** Thread `t` is at place `i` of the queue of mutex `m`. */
  predicate Waits(mutexes: seq<Mutex>, t: nat, m: nat, i: nat) {
    m < |mutexes| && i < |mutexes[m].waiting| && mutexes[m].waiting[i] == t
  }

  /** The current thread runs (ready is what scheduler_init and pthread_mutex_lock leave it), and no other does. */
  ghost predicate OneRuns(s: Threads) {
    && s.current < |s.status|
    && (s.status[s.current].Running? || s.status[s.current].Ready?)
    && forall t: nat :: t < |s.status| && s.status[t].Running? ==> t == s.current
  }

  /** The slots given out are the first ones. */
  ghost predicate SlotsInOrder(s: Threads) {
    && |s.exits| == |s.pending| == |s.status|
    && 1 <= s.count <= |s.status|
    && forall t: nat :: t < |s.status| ==> (s.status[t].Empty? <==> s.count <= t)
  }

  /** The threads in queues are blocked, each at one place of one queue, and only a locked mutex has a queue. */
  ghost predicate QueuesOk(s: Threads) {
    && (forall t: nat, m: nat, i: nat :: Waits(s.mutexes, t, m, i) ==> t < |s.status| && s.status[t].Blocked?)
    && (forall t: nat, m: nat, i: nat, m': nat, i': nat ::
        Waits(s.mutexes, t, m, i) && Waits(s.mutexes, t, m', i') ==> m == m' && i == i')
    && (forall m: nat :: m < |s.mutexes| && s.mutexes[m].waiting != [] ==> s.mutexes[m].locked)
  }

  /** Every blocked thread is in a queue, in a call of pthread_mutex_lock that will answer -1. */
  ghost predicate BlockedWait(s: Threads)
    requires |s.pending| == |s.status|
  {
    forall t: nat :: t < |s.status| && s.status[t].Blocked? ==>
      s.pending[t] == Answers(-1) && exists m: nat, i: nat :: Waits(s.mutexes, t, m, i)
  }

  ghost predicate Valid(s: Threads) {
    OneRuns(s) && SlotsInOrder(s) && QueuesOk(s) && BlockedWait(s)
  }

  /** After scheduler_init with `n` slots. */
  function Start(n: nat): (s: Threads)
    requires n > 0
    ensures Valid(s)
  {
    Threads(seq(n, i => if i == 0 then Ready else Empty), seq(n, _ => 0), 0, 1, [], seq(n, _ => Idle))
  }

  // ---------------------------------------------------------------------------------------------
  // Steps
  // ---------------------------------------------------------------------------------------------

  /** A running thread that lets go becomes ready. */
  function Preempted(s: Threads): (status: seq<Status>)
    requires s.current < |s.status|
    ensures |status| == |s.status|
  {
    if s.status[s.current].Running? then s.status[s.current := Ready] else s.status
  }

  /** schedule() */
  function Scheduled(s: Threads): (s': Threads)
    requires s.current < |s.status|
  {
    var next := NextReady(Preempted(s), s.current);
    s.(status := Preempted(s)[next := Running], current := next)
  }

  /** Another thread is ready; without one, schedule() would scan for ever. */
  predicate AnotherReady(s: Threads) {
    exists t: nat :: t < |s.status| && t != s.current && s.status[t].Ready?
  }

  function CreateStep(s: Threads): (Threads, Outcome)
    requires SlotsInOrder(s)
  {
    if s.count >= |s.status| then (s, Code(-1))
    else (s.(status := s.status[s.count := Ready], count := s.count + 1), Handle(s.count))
  }

  function ExitStep(s: Threads, value: int): (Threads, Outcome)
    requires s.current < |s.status| == |s.exits|
  {
    (Scheduled(s.(status := s.status[s.current := Exited], exits := s.exits[s.current := value])), Switched)
  }

  /** One turn of the loop of pthread_join. */
  function JoinStep(s: Threads, thread: nat): (Threads, Outcome)
    requires s.current < |s.status| == |s.exits| && thread < |s.status|
  {
    if s.status[thread].Exited? then (s, Value(s.exits[thread])) else (Scheduled(s), Switched)
  }

  /** The current thread blocks at the end of the queue; its call will answer -1. */
  function Enqueued(s: Threads, m: nat): Threads
    requires s.current < |s.status| == |s.pending| && m < |s.mutexes|
  {
    s.(status := s.status[s.current := Blocked],
       pending := s.pending[s.current := Answers(-1)],
       mutexes := s.mutexes[m := s.mutexes[m].(waiting := s.mutexes[m].waiting + [s.current])])
  }

  function LockStep(s: Threads, m: nat): (Threads, Outcome)
    requires s.current < |s.status| == |s.pending| && m < |s.mutexes|
  {
    if !s.mutexes[m].locked then
      (s.(status := s.status[s.current := Ready], mutexes := s.mutexes[m := s.mutexes[m].(locked := true)]), Code(0))
    else
      (Scheduled(Enqueued(s, m)), Switched)
  }

  /**
   The first waiter becomes ready and leaves; when it was the last, the mutex becomes unlocked too. The call of the
   current thread will answer 0.
   */
  function Dequeued(s: Threads, m: nat): Threads
    requires m < |s.mutexes| && s.mutexes[m].waiting != [] && s.mutexes[m].waiting[0] < |s.status|
    requires s.current < |s.pending|
  {
    var rest := s.mutexes[m].waiting[1..];
    s.(status := s.status[s.mutexes[m].waiting[0] := Ready],
       pending := s.pending[s.current := Answers(0)],
       mutexes := s.mutexes[m := Mutex(s.mutexes[m].locked && rest != [], rest)])
  }

  function UnlockStep(s: Threads, m: nat): (Threads, Outcome)
    requires s.current < |s.status| == |s.pending| && m < |s.mutexes|
    requires s.mutexes[m].waiting != [] ==> s.mutexes[m].waiting[0] < |s.status|
  {
    if s.mutexes[m].waiting == [] then
      (s.(mutexes := s.mutexes[m := s.mutexes[m].(locked := false)]), Code(0))
    else
      (Scheduled(Dequeued(s, m)), Switched)
  }

  /** An interrupted call ends. */
  function ReturnStep(s: Threads): (Threads, Outcome)
    requires s.current < |s.pending| && s.pending[s.current].Answers?
  {
    (s.(pending := s.pending[s.current := Idle]), Code(s.pending[s.current].code))
  }

  /**
   What the code demands of its callers: handles and mutexes that exist, and a thread to turn to. A thread makes no
   call while it is in one; the timer may take its turn away at any time.
   */
  predicate Allowed(s: Threads, op: Op)
    requires s.current < |s.pending|
  {
    match op
    case Yield => true
    case Return => s.pending[s.current].Answers?
    case Create => s.pending[s.current].Idle?
    case InitMutex => s.pending[s.current].Idle?
    case Exit(_) => s.pending[s.current].Idle? && AnotherReady(s)
    case Join(thread) => s.pending[s.current].Idle? && thread < |s.status|
    case Lock(m) => s.pending[s.current].Idle? && m < |s.mutexes| && (s.mutexes[m].locked ==> AnotherReady(s))
    case Unlock(m) => s.pending[s.current].Idle? && m < |s.mutexes|
  }

  function Step(s: Threads, op: Op): (Threads, Outcome)
    requires Valid(s) && Allowed(s, op)
  {
    match op
    case Yield => (Scheduled(s), Switched)
    case Create => CreateStep(s)
    case Exit(value) => ExitStep(s, value)
    case Join(thread) => JoinStep(s, thread)
    case InitMutex => (s.(mutexes := s.mutexes + [Mutex(false, [])]), Handle(|s.mutexes|))
    case Lock(m) => LockStep(s, m)
    case Unlock(m) =>
      assert s.mutexes[m].waiting != [] ==> Waits(s.mutexes, s.mutexes[m].waiting[0], m, 0);
      UnlockStep(s, m)
    case Return => ReturnStep(s)
  }

  /** Whether the step calls schedule(). */
  predicate Switches(s: Threads, op: Op)
    requires s.current < |s.pending| && Allowed(s, op)
  {
    match op
    case Yield => true
    case Exit(_) => true
    case Join(thread) => !s.status[thread].Exited?
    case Lock(m) => s.mutexes[m].locked
    case Unlock(m) => s.mutexes[m].waiting != []
    case _ => false
  }

  // ---------------------------------------------------------------------------------------------
  // Every step keeps the invariants
  // ---------------------------------------------------------------------------------------------

  /** The parts of the invariants that hold when schedule() is called: nobody but the current thread may run. */
  ghost predicate Switchable(s: Threads) {
    && s.current < |s.status|
    && (forall t: nat :: t < |s.status| && s.status[t].Running? ==> t == s.current)
    && (exists t: nat :: t < |s.status| && Preempted(s)[t].Ready?)
    && SlotsInOrder(s) && QueuesOk(s) && BlockedWait(s)
  }

  lemma ScheduledKeeps(s: Threads)
    requires Switchable(s)
    ensures Valid(Scheduled(s))
    ensures Nearest(Preempted(s), s.current, Scheduled(s).current)
    ensures forall t: nat :: t < |s.status| && t != s.current && t != Scheduled(s).current ==>
      Scheduled(s).status[t] == s.status[t]
  {
    var r: nat :| r < |s.status| && Preempted(s)[r].Ready?;
    NextIsNearest(Preempted(s), s.current, r);
    var s' := Scheduled(s);
    assert s'.mutexes == s.mutexes;
    assert OneRuns(s');
    forall t: nat | t < |s'.status| && s'.status[t].Blocked?
      ensures exists m: nat, i: nat :: Waits(s'.mutexes, t, m, i)
    {
      assert s.status[t].Blocked?;
    }
    assert BlockedWait(s');
    forall t: nat, m: nat, i: nat | Waits(s'.mutexes, t, m, i)
      ensures t < |s'.status| && s'.status[t].Blocked?
    {
      assert Waits(s.mutexes, t, m, i);
    }
  }

  /** The current thread is in no queue. */
  lemma CurrentNotQueued(s: Threads, m: nat, i: nat)
    requires Valid(s)
    ensures !Waits(s.mutexes, s.current, m, i)
  {}

  lemma EnqueuedKeeps(s: Threads, m: nat)
    requires Valid(s) && m < |s.mutexes| && s.mutexes[m].locked && AnotherReady(s)
    ensures Switchable(Enqueued(s, m))
  {
    var s' := Enqueued(s, m);
    var place := |s.mutexes[m].waiting|;
    forall t: nat, k: nat, i: nat
      ensures Waits(s'.mutexes, t, k, i) <==> Waits(s.mutexes, t, k, i) || (t == s.current && k == m && i == place)
    {}
    forall k: nat, i: nat
      ensures !Waits(s.mutexes, s.current, k, i)
    {
      CurrentNotQueued(s, k, i);
    }
    forall t: nat | t < |s'.status| && s'.status[t].Blocked?
      ensures exists k: nat, i: nat :: Waits(s'.mutexes, t, k, i)
    {
      if t == s.current {
        assert Waits(s'.mutexes, t, m, place);
      } else {
        var k: nat, i: nat :| Waits(s.mutexes, t, k, i);
        assert Waits(s'.mutexes, t, k, i);
      }
    }
    var r: nat :| r < |s.status| && r != s.current && s.status[r].Ready?;
    assert Preempted(s')[r].Ready?;
  }

  lemma DequeuedKeeps(s: Threads, m: nat)
    requires Valid(s) && m < |s.mutexes| && s.mutexes[m].waiting != []
    ensures s.mutexes[m].waiting[0] < |s.status| && Switchable(Dequeued(s, m))
  {
    var first := s.mutexes[m].waiting[0];
    assert Waits(s.mutexes, first, m, 0);
    var s' := Dequeued(s, m);
    forall t: nat, k: nat, i: nat
      ensures Waits(s'.mutexes, t, k, i)
        <==> if k == m then Waits(s.mutexes, t, k, i + 1) else Waits(s.mutexes, t, k, i)
    {}
    forall t: nat, k: nat, i: nat | Waits(s'.mutexes, t, k, i)
      ensures t < |s'.status| && s'.status[t].Blocked?
    {
      assert Waits(s.mutexes, t, k, if k == m then i + 1 else i);
    }
    forall t: nat, k: nat, i: nat, k': nat, i': nat | Waits(s'.mutexes, t, k, i) && Waits(s'.mutexes, t, k', i')
      ensures k == k' && i == i'
    {
      assert Waits(s.mutexes, t, k, if k == m then i + 1 else i);
      assert Waits(s.mutexes, t, k', if k' == m then i' + 1 else i');
    }
    forall t: nat | t < |s'.status| && s'.status[t].Blocked?
      ensures exists k: nat, i: nat :: Waits(s'.mutexes, t, k, i)
    {
      var k: nat, i: nat :| Waits(s.mutexes, t, k, i);
      assert k == m ==> i > 0;
      assert Waits(s'.mutexes, t, k, if k == m then i - 1 else i);
    }
    assert Preempted(s')[first].Ready?;
  }

  lemma ExitedKeeps(s: Threads, value: int)
    requires Valid(s) && AnotherReady(s)
    ensures Switchable(s.(status := s.status[s.current := Exited], exits := s.exits[s.current := value]))
  {
    var s' := s.(status := s.status[s.current := Exited], exits := s.exits[s.current := value]);
    forall k: nat, i: nat
      ensures !Waits(s.mutexes, s.current, k, i)
    {
      CurrentNotQueued(s, k, i);
    }
    var r: nat :| r < |s.status| && r != s.current && s.status[r].Ready?;
    assert Preempted(s')[r].Ready?;
  }

  lemma YieldKeeps(s: Threads)
    requires Valid(s)
    ensures Switchable(s)
  {
    assert Preempted(s)[s.current].Ready?;
  }

  /** A thread becomes ready or changes a flag; the queues stay. */
  lemma QuietKeeps(s: Threads, s': Threads)
    requires Valid(s) && OneRuns(s') && SlotsInOrder(s') && |s'.status| == |s.status|
    requires forall t: nat :: t < |s.status| ==> (s'.status[t].Blocked? <==> s.status[t].Blocked?)
    requires forall t: nat :: t < |s.status| && t != s.current ==> s'.pending[t] == s.pending[t]
    requires forall t: nat, m: nat, i: nat :: Waits(s'.mutexes, t, m, i) <==> Waits(s.mutexes, t, m, i)
    requires forall m: nat :: m < |s'.mutexes| && s'.mutexes[m].waiting != [] ==> s'.mutexes[m].locked
    ensures Valid(s')
  {
    forall t: nat | t < |s'.status| && s'.status[t].Blocked?
      ensures exists k: nat, i: nat :: Waits(s'.mutexes, t, k, i)
    {
      var k: nat, i: nat :| Waits(s.mutexes, t, k, i);
      assert Waits(s'.mutexes, t, k, i);
    }
  }

  /** The state in which a step calls schedule(). */
  function Prepared(s: Threads, op: Op): (s': Threads)
    requires Valid(s) && Allowed(s, op)
    ensures s'.current == s.current && |s'.status| == |s.status|
  {
    match op
    case Exit(value) => s.(status := s.status[s.current := Exited], exits := s.exits[s.current := value])
    case Lock(m) => if s.mutexes[m].locked then Enqueued(s, m) else s
    case Unlock(m) =>
      assert s.mutexes[m].waiting != [] ==> Waits(s.mutexes, s.mutexes[m].waiting[0], m, 0);
      if s.mutexes[m].waiting != [] then Dequeued(s, m) else s
    case _ => s
  }

  lemma StepSwitches(s: Threads, op: Op)
    requires Valid(s) && Allowed(s, op) && Switches(s, op)
    ensures Switchable(Prepared(s, op)) && Step(s, op).0 == Scheduled(Prepared(s, op))
  {
    match op {
      case Exit(value) => ExitedKeeps(s, value);
      case Lock(m) => EnqueuedKeeps(s, m);
      case Unlock(m) => DequeuedKeeps(s, m);
      case _ => YieldKeeps(s);
    }
  }

  lemma StepKeepsValid(s: Threads, op: Op)
    requires Valid(s) && Allowed(s, op)
    ensures Valid(Step(s, op).0) && |Step(s, op).0.status| == |s.status|
  {
    if Switches(s, op) {
      StepSwitches(s, op);
      ScheduledKeeps(Prepared(s, op));
    } else if !op.Join? {
      QuietKeeps(s, Step(s, op).0);
    }
  }

  // ---------------------------------------------------------------------------------------------
  // Runs
  // ---------------------------------------------------------------------------------------------

  ghost predicate RunAllowed(s: Threads, ops: seq<Op>)
    requires Valid(s)
    decreases |ops|
  {
    ops == [] || (
      Allowed(s, ops[0]) &&
      (StepKeepsValid(s, ops[0]); RunAllowed(Step(s, ops[0]).0, ops[1..])))
  }

  /** Where a run of steps ends. */
  ghost function Run(s: Threads, ops: seq<Op>): (s': Threads)
    requires Valid(s) && RunAllowed(s, ops)
    ensures Valid(s') && |s'.status| == |s.status|
    decreases |ops|
  {
    if ops == [] then s else (StepKeepsValid(s, ops[0]); Run(Step(s, ops[0]).0, ops[1..]))
  }

  /** What the steps of a run return. */
  ghost function Outcomes(s: Threads, ops: seq<Op>): (r: seq<Outcome>)
    requires Valid(s) && RunAllowed(s, ops)
    ensures |r| == |ops|
    decreases |ops|
  {
    if ops == [] then []
    else [Step(s, ops[0]).1] + (StepKeepsValid(s, ops[0]); Outcomes(Step(s, ops[0]).0, ops[1..]))
  }
}
