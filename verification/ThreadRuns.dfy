/** Runs of the thread library that show where a mutex fails (ulpt-noodlez102/threads.c:307-367). */
module ThreadRuns {
  import opened RoundRobin
  import opened ThreadModel
  import opened ThreadLaws

  /** One more step in front of a run. */
  lemma Prepend(rd: Reading, s: Threads, inside: set<nat>, op: Op, rest: seq<Op>, s': Threads, inside': set<nat>)
    requires Valid(s) && Allowed(s, op) && s' == Next(s, op) && Valid(s') && RunAllowed(s', rest)
    requires inside' == Inside(rd, s, inside, op, 0)
    ensures RunAllowed(s, [op] + rest)
    ensures Run(s, [op] + rest) == Run(s', rest)
    ensures InsideAfter(rd, s, inside, [op] + rest, 0) == InsideAfter(rd, s', inside', rest, 0)
  {
    assert ([op] + rest)[1..] == rest;
  }

  function Pair(first: Status, second: Status, current: nat, m: Mutex, p: Pending, q: Pending): Threads {
    Threads([first, second], [0, 0], current, 2, [m], [p, q])
  }

  /** schedule() turns to the next slot if it is ready. */
  lemma TurnTo(s: Threads, t: nat)
    requires s.current < |s.status| && t == After(|s.status|, s.current) && Preempted(s)[t].Ready?
    ensures Scheduled(s).current == t
  {}

  lemma PairIsValid(first: Status, second: Status, current: nat, locked: bool, p: Pending, q: Pending)
    requires current < 2 && (first.Ready? || (first.Running? && current == 0))
    requires second.Ready? || (second.Running? && current == 1)
    ensures Valid(Pair(first, second, current, Mutex(locked, []), p, q))
  {}

  lemma PairYields(first: Status, second: Status, current: nat, locked: bool, p: Pending, q: Pending)
    requires current < 2 && (first.Ready? || (first.Running? && current == 0))
    requires second.Ready? || (second.Running? && current == 1)
    ensures var m := Mutex(locked, []); var s := Pair(first, second, current, m, p, q);
      Valid(s) &&
      Next(s, Op.Yield) == if current == 0 then Pair(Ready, Running, 1, m, p, q) else Pair(Running, Ready, 0, m, p, q)
  {
    PairIsValid(first, second, current, locked, p, q);
    TurnTo(Pair(first, second, current, Mutex(locked, []), p, q), 1 - current);
  }

  lemma SecondWaits()
    ensures var s := Pair(Ready, Running, 1, Mutex(true, []), Idle, Idle);
      && Valid(s) && Allowed(s, Op.Lock(0))
      && Next(s, Op.Lock(0)) == Pair(Running, Blocked, 0, Mutex(true, [1]), Idle, Answers(-1))
  {
    var s := Pair(Ready, Running, 1, Mutex(true, []), Idle, Idle);
    PairIsValid(Ready, Running, 1, true, Idle, Idle);
    assert s.status[0].Ready?;
    assert s.mutexes[0].waiting + [s.current] == [1];
    assert s.mutexes[0 := Mutex(true, [1])] == [Mutex(true, [1])];
    assert s.status[1 := Blocked] == [Ready, Blocked] && s.pending[1 := Answers(-1)] == [Idle, Answers(-1)];
    TurnTo(Enqueued(s, 0), 0);
  }

  lemma FirstUnlocks()
    ensures var s := Pair(Running, Blocked, 0, Mutex(true, [1]), Idle, Answers(-1));
      && Valid(s) && Allowed(s, Op.Unlock(0))
      && Next(s, Op.Unlock(0)) == Pair(Ready, Running, 1, Mutex(false, []), Answers(0), Answers(-1))
  {
    var s := Pair(Running, Blocked, 0, Mutex(true, [1]), Idle, Answers(-1));
    assert Waits(s.mutexes, 1, 0, 0);
    assert Valid(s);
    assert s.pending[0 := Answers(0)] == [Answers(0), Answers(-1)];
    TurnTo(Dequeued(s, 0), 1);
  }

  lemma Five<T>(a: T, b: T, c: T, d: T, e: T, rest: seq<T>)
    ensures [a, b, c, d, e] + rest == [a] + ([b] + ([c] + ([d] + ([e] + rest))))
  {}

  /** The second half of the run: the first thread inside unlocks, and gets inside again beside the one it woke. */
  lemma TwoEnd()
    ensures var s := Pair(Running, Blocked, 0, Mutex(true, [1]), Idle, Answers(-1));
      var ops := [Op.Unlock(0)] + ([Op.Return] + ([Op.Yield] + ([Op.Return] + ([Op.Lock(0)] + []))));
      Valid(s) && RunAllowed(s, ops) && InsideAfter(Handed, s, {0}, ops, 0) == {0, 1}
  {
    var free, held := Mutex(false, []), Mutex(true, []);
    var s1 := Pair(Ready, Running, 1, free, Answers(0), Answers(-1));
    var s2 := Pair(Ready, Running, 1, free, Answers(0), Idle);
    var s3 := Pair(Running, Ready, 0, free, Answers(0), Idle);
    var s4 := Pair(Running, Ready, 0, free, Idle, Idle);
    var s5 := Pair(Ready, Ready, 0, held, Idle, Idle);
    PairIsValid(Ready, Ready, 0, true, Idle, Idle);
    PairIsValid(Running, Ready, 0, false, Idle, Idle);
    Prepend(Handed, s4, {1}, Op.Lock(0), [], s5, {0, 1});
    PairIsValid(Running, Ready, 0, false, Answers(0), Idle);
    Prepend(Handed, s3, {1}, Op.Return, [Op.Lock(0)] + [], s4, {1});
    PairYields(Ready, Running, 1, false, Answers(0), Idle);
    Prepend(Handed, s2, {1}, Op.Yield, [Op.Return] + ([Op.Lock(0)] + []), s3, {1});
    PairIsValid(Ready, Running, 1, false, Answers(0), Answers(-1));
    Prepend(Handed, s1, {1}, Op.Return, [Op.Yield] + ([Op.Return] + ([Op.Lock(0)] + [])), s2, {1});
    FirstUnlocks();
    Prepend(Handed, Pair(Running, Blocked, 0, Mutex(true, [1]), Idle, Answers(-1)), {0}, Op.Unlock(0),
            [Op.Return] + ([Op.Yield] + ([Op.Return] + ([Op.Lock(0)] + []))), s1, {1});
  }

  lemma FirstMutex()
    ensures var s := Threads([Ready, Empty], [0, 0], 0, 1, [Mutex(false, [])], [Idle, Idle]);
      && Valid(s) && Next(Start(2), Op.InitMutex) == s
      && Next(s, Op.Create) == Pair(Ready, Ready, 0, Mutex(false, []), Idle, Idle)
  {
    StepKeepsValid(Start(2), Op.InitMutex);
    assert Threads([Ready, Empty], [0, 0], 0, 1, [Mutex(false, [])], [Idle, Idle]) == Next(Start(2), Op.InitMutex);
    assert [Ready, Empty][1 := Ready] == [Ready, Ready];
  }

  /** The second thread's turn comes, and it waits. */
  lemma TwoMiddle(rest: seq<Op>)
    requires Valid(Pair(Running, Blocked, 0, Mutex(true, [1]), Idle, Answers(-1)))
    requires RunAllowed(Pair(Running, Blocked, 0, Mutex(true, [1]), Idle, Answers(-1)), rest)
    ensures var s := Pair(Ready, Ready, 0, Mutex(true, []), Idle, Idle); var ops := [Op.Yield] + ([Op.Lock(0)] + rest);
      && Valid(s) && RunAllowed(s, ops)
      && InsideAfter(Handed, s, {0}, ops, 0)
         == InsideAfter(Handed, Pair(Running, Blocked, 0, Mutex(true, [1]), Idle, Answers(-1)), {0}, rest, 0)
  {
    var s := Pair(Ready, Running, 1, Mutex(true, []), Idle, Idle);
    SecondWaits();
    Prepend(Handed, s, {0}, Op.Lock(0), rest, Pair(Running, Blocked, 0, Mutex(true, [1]), Idle, Answers(-1)), {0});
    PairYields(Ready, Ready, 0, true, Idle, Idle);
    Prepend(Handed, Pair(Ready, Ready, 0, Mutex(true, []), Idle, Idle), {0}, Op.Yield, [Op.Lock(0)] + rest, s, {0});
  }

  /** The first steps: a mutex, a second thread, and the first thread inside. */
  lemma TwoStart(rest: seq<Op>)
    requires Valid(Pair(Ready, Ready, 0, Mutex(true, []), Idle, Idle))
    requires RunAllowed(Pair(Ready, Ready, 0, Mutex(true, []), Idle, Idle), rest)
    ensures var ops := [Op.InitMutex] + ([Op.Create] + ([Op.Lock(0)] + rest));
      && RunAllowed(Start(2), ops)
      && InsideAfter(Handed, Start(2), {}, ops, 0)
         == InsideAfter(Handed, Pair(Ready, Ready, 0, Mutex(true, []), Idle, Idle), {0}, rest, 0)
  {
    var s1 := Threads([Ready, Empty], [0, 0], 0, 1, [Mutex(false, [])], [Idle, Idle]);
    var s2 := Pair(Ready, Ready, 0, Mutex(false, []), Idle, Idle);
    PairIsValid(Ready, Ready, 0, false, Idle, Idle);
    Prepend(Handed, s2, {}, Op.Lock(0), rest, Pair(Ready, Ready, 0, Mutex(true, []), Idle, Idle), {0});
    FirstMutex();
    Prepend(Handed, s1, {}, Op.Create, [Op.Lock(0)] + rest, s2, {});
    Prepend(Handed, Start(2), {}, Op.InitMutex, [Op.Create] + ([Op.Lock(0)] + rest), s1, {});
  }

  /**
   A run after which two threads are inside, if a woken waiter counts as inside: the only waiter is woken, its call
   answers -1, and another thread locks the mutex it was handed.
   */
  lemma TwoInside()
    ensures
      var ops := [Op.InitMutex, Op.Create, Op.Lock(0), Op.Yield, Op.Lock(0)]
        + [Op.Unlock(0), Op.Return, Op.Yield, Op.Return, Op.Lock(0)];
      RunAllowed(Start(2), ops) && InsideAfter(Handed, Start(2), {}, ops, 0) == {0, 1}
  {
    TwoEnd();
    var end := [Op.Unlock(0), Op.Return, Op.Yield, Op.Return, Op.Lock(0)];
    Five(Op.Unlock(0), Op.Return, Op.Yield, Op.Return, Op.Lock(0), []);
    assert end == end + [];
    TwoMiddle(end);
    TwoStart([Op.Yield] + ([Op.Lock(0)] + end));
    Five(Op.InitMutex, Op.Create, Op.Lock(0), Op.Yield, Op.Lock(0), end);
  }

  // Three threads, as they go through the run of `EverybodyOut`.

  function Triple(status: seq<Status>, current: nat, count: nat, m: Mutex, pending: seq<Pending>): Threads {
    Threads(status, [0, 0, 0], current, count, [m], pending)
  }

  /** All three threads are started, and the first is inside. */
  function FirstInside(): Threads {
    Triple([Ready, Ready, Ready], 0, 3, Mutex(true, []), [Idle, Idle, Idle])
  }

  /** The first thread runs and is inside; the others wait. */
  function OthersWait(): Threads {
    Triple([Running, Blocked, Blocked], 0, 3, Mutex(true, [1, 2]), [Idle, Answers(-1), Answers(-1)])
  }

  /** The first thread has left, the second was woken and its call will fail, the third waits. */
  function NobodyInside(): Threads {
    Triple([Ready, Running, Blocked], 1, 3, Mutex(true, [2]), [Answers(0), Answers(-1), Answers(-1)])
  }

  lemma ThreeCreates()
    ensures var free, idle := Mutex(false, []), [Idle, Idle, Idle];
      var s1 := Triple([Ready, Empty, Empty], 0, 1, free, idle);
      var s2 := Triple([Ready, Ready, Empty], 0, 2, free, idle);
      && Next(Start(3), Op.InitMutex) == s1 && Valid(s1) && Next(s1, Op.Create) == s2 && Valid(s2)
  {
    StepKeepsValid(Start(3), Op.InitMutex);
    assert Start(3).status == [Ready, Empty, Empty] && Start(3).exits == [0, 0, 0];
    assert Start(3).pending == [Idle, Idle, Idle];
    var s1 := Next(Start(3), Op.InitMutex);
    StepKeepsValid(s1, Op.Create);
    assert [Ready, Empty, Empty][1 := Ready] == [Ready, Ready, Empty];
  }

  lemma ThreeLocks()
    requires Valid(Triple([Ready, Ready, Empty], 0, 2, Mutex(false, []), [Idle, Idle, Idle]))
    ensures var free, idle := Mutex(false, []), [Idle, Idle, Idle];
      var s2 := Triple([Ready, Ready, Empty], 0, 2, free, idle);
      var s3 := Triple([Ready, Ready, Ready], 0, 3, free, idle);
      && Next(s2, Op.Create) == s3 && Valid(s3) && Next(s3, Op.Lock(0)) == FirstInside() && Valid(FirstInside())
  {
    var s2 := Triple([Ready, Ready, Empty], 0, 2, Mutex(false, []), [Idle, Idle, Idle]);
    StepKeepsValid(s2, Op.Create);
    assert [Ready, Ready, Empty][2 := Ready] == [Ready, Ready, Ready];
    StepKeepsValid(Next(s2, Op.Create), Op.Lock(0));
  }

  /** A mutex and two more threads, and the first thread inside. */
  lemma ThreeStart(rest: seq<Op>)
    requires Valid(FirstInside()) && RunAllowed(FirstInside(), rest)
    ensures var ops := [Op.InitMutex] + ([Op.Create] + ([Op.Create] + ([Op.Lock(0)] + rest)));
      && RunAllowed(Start(3), ops) && Run(Start(3), ops) == Run(FirstInside(), rest)
      && InsideAfter(Answered, Start(3), {}, ops, 0) == InsideAfter(Answered, FirstInside(), {0}, rest, 0)
  {
    var free, idle := Mutex(false, []), [Idle, Idle, Idle];
    var s1 := Triple([Ready, Empty, Empty], 0, 1, free, idle);
    var s2 := Triple([Ready, Ready, Empty], 0, 2, free, idle);
    ThreeCreates();
    ThreeSecond(rest);
    Prepend(Answered, s1, {}, Op.Create, [Op.Create] + ([Op.Lock(0)] + rest), s2, {});
    Prepend(Answered, Start(3), {}, Op.InitMutex, [Op.Create] + ([Op.Create] + ([Op.Lock(0)] + rest)), s1, {});
  }

  lemma ThreeSecond(rest: seq<Op>)
    requires Valid(FirstInside()) && RunAllowed(FirstInside(), rest)
    requires Valid(Triple([Ready, Ready, Empty], 0, 2, Mutex(false, []), [Idle, Idle, Idle]))
    ensures var s2 := Triple([Ready, Ready, Empty], 0, 2, Mutex(false, []), [Idle, Idle, Idle]);
      var ops := [Op.Create] + ([Op.Lock(0)] + rest);
      && RunAllowed(s2, ops) && Run(s2, ops) == Run(FirstInside(), rest)
      && InsideAfter(Answered, s2, {}, ops, 0) == InsideAfter(Answered, FirstInside(), {0}, rest, 0)
  {
    var s2 := Triple([Ready, Ready, Empty], 0, 2, Mutex(false, []), [Idle, Idle, Idle]);
    var s3 := Triple([Ready, Ready, Ready], 0, 3, Mutex(false, []), [Idle, Idle, Idle]);
    ThreeLocks();
    Prepend(Answered, s3, {}, Op.Lock(0), rest, FirstInside(), {0});
    Prepend(Answered, s2, {}, Op.Create, [Op.Lock(0)] + rest, s3, {});
  }

  lemma YieldsToSecond()
    ensures Valid(FirstInside())
    ensures var s := Triple([Ready, Running, Ready], 1, 3, Mutex(true, []), [Idle, Idle, Idle]);
      Next(FirstInside(), Op.Yield) == s && Valid(s)
  {
    TurnTo(FirstInside(), 1);
    assert [Ready, Ready, Ready][1 := Running] == [Ready, Running, Ready];
    StepKeepsValid(FirstInside(), Op.Yield);
  }

  lemma TripleWaits(t: nat, s: Threads)
    requires Valid(s) && |s.status| == 3 && |s.mutexes| == 1 && s.mutexes[0].locked && s.current == t < 3
    requires s.pending[t].Idle? && s.status[After(3, t)].Ready? && After(3, t) != t
    ensures Allowed(s, Op.Lock(0)) && Valid(Next(s, Op.Lock(0)))
    ensures Next(s, Op.Lock(0)) == Threads(
      s.status[t := Blocked][After(3, t) := Running], s.exits, After(3, t), s.count,
      [Mutex(true, s.mutexes[0].waiting + [t])], s.pending[t := Answers(-1)])
  {
    assert s.mutexes[0 := Mutex(true, s.mutexes[0].waiting + [t])] == [Mutex(true, s.mutexes[0].waiting + [t])];
    TurnTo(Enqueued(s, 0), After(3, t));
    StepKeepsValid(s, Op.Lock(0));
  }

  lemma BothWait()
    requires Valid(Triple([Ready, Running, Ready], 1, 3, Mutex(true, []), [Idle, Idle, Idle]))
    ensures var s1 := Triple([Ready, Running, Ready], 1, 3, Mutex(true, []), [Idle, Idle, Idle]);
      var s2 := Triple([Ready, Blocked, Running], 2, 3, Mutex(true, [1]), [Idle, Answers(-1), Idle]);
      && Allowed(s1, Op.Lock(0)) && Next(s1, Op.Lock(0)) == s2 && Valid(s2)
      && Allowed(s2, Op.Lock(0)) && Next(s2, Op.Lock(0)) == OthersWait() && Valid(OthersWait())
  {
    var s1 := Triple([Ready, Running, Ready], 1, 3, Mutex(true, []), [Idle, Idle, Idle]);
    var s2 := Triple([Ready, Blocked, Running], 2, 3, Mutex(true, [1]), [Idle, Answers(-1), Idle]);
    TripleWaits(1, s1);
    assert s1.status[1 := Blocked][2 := Running] == s2.status && s1.pending[1 := Answers(-1)] == s2.pending;
    assert [] + [1] == [1];
    TripleWaits(2, s2);
    assert s2.status[2 := Blocked][0 := Running] == OthersWait().status;
    assert s2.pending[2 := Answers(-1)] == OthersWait().pending;
    assert [1] + [2] == [1, 2];
  }

  lemma FirstLeaves()
    requires Valid(OthersWait())
    ensures Allowed(OthersWait(), Op.Unlock(0))
    ensures Next(OthersWait(), Op.Unlock(0)) == NobodyInside() && Valid(NobodyInside())
  {
    var s := OthersWait();
    assert [1, 2][1..] == [2];
    assert s.mutexes[0 := Mutex(true, [2])] == [Mutex(true, [2])];
    assert s.status[1 := Ready][0 := Ready][1 := Running] == [Ready, Running, Blocked];
    assert s.pending[0 := Answers(0)] == NobodyInside().pending;
    TurnTo(Dequeued(s, 0), 1);
    StepKeepsValid(s, Op.Unlock(0));
  }

  /** The two others wait, and the first thread unlocks. */
  lemma ThreeEnd()
    ensures var ops := [Op.Yield] + ([Op.Lock(0)] + ([Op.Lock(0)] + ([Op.Unlock(0)] + [])));
      && Valid(FirstInside()) && RunAllowed(FirstInside(), ops)
      && InsideAfter(Answered, FirstInside(), {0}, ops, 0) == {} && Run(FirstInside(), ops) == NobodyInside()
  {
    var s1 := Triple([Ready, Running, Ready], 1, 3, Mutex(true, []), [Idle, Idle, Idle]);
    var s2 := Triple([Ready, Blocked, Running], 2, 3, Mutex(true, [1]), [Idle, Answers(-1), Idle]);
    YieldsToSecond();
    BothWait();
    FirstLeaves();
    Prepend(Answered, OthersWait(), {0}, Op.Unlock(0), [], NobodyInside(), {});
    Prepend(Answered, s2, {0}, Op.Lock(0), [Op.Unlock(0)] + [], OthersWait(), {0});
    Prepend(Answered, s1, {0}, Op.Lock(0), [Op.Lock(0)] + ([Op.Unlock(0)] + []), s2, {0});
    Prepend(Answered, FirstInside(), {0}, Op.Yield, [Op.Lock(0)] + ([Op.Lock(0)] + ([Op.Unlock(0)] + [])), s1, {0});
  }

  lemma Four<T>(a: T, b: T, c: T, d: T, rest: seq<T>)
    ensures [a, b, c, d] + rest == [a] + ([b] + ([c] + ([d] + rest)))
  {}

  /**
   A run after which the mutex is locked with nobody inside, if only an answer of 0 lets a thread in; by `LockedOut` it
   stays so.
   */
  lemma EverybodyOut()
    ensures
      var ops := [Op.InitMutex, Op.Create, Op.Create, Op.Lock(0)] + [Op.Yield, Op.Lock(0), Op.Lock(0), Op.Unlock(0)];
      && RunAllowed(Start(3), ops) && InsideAfter(Answered, Start(3), {}, ops, 0) == {}
      && Run(Start(3), ops) == NobodyInside()
  {
    ThreeEnd();
    var end := [Op.Yield, Op.Lock(0), Op.Lock(0), Op.Unlock(0)];
    Four(Op.Yield, Op.Lock(0), Op.Lock(0), Op.Unlock(0), []);
    assert end == end + [];
    ThreeStart(end);
    Four(Op.InitMutex, Op.Create, Op.Create, Op.Lock(0), end);
  }
}
