/**
 The thread library of ulpt-noodlez102/threads.c as it runs: the thread table in arrays, mutexes with linked queues,
 and each call proved to do what `ThreadModel.Step` says. A call ends where another thread may go on, so the switch of
 stacks and registers is not part of the model.
 */
module UserThreads {
  import opened RoundRobin
  import opened ThreadModel
  import opened WaitQueue

  class Library {
    const status: array<Status>
    const exits: array<int>
    const tids: array<nat>
    const stacks: array<bool>
    /** Where an interrupted call of each thread goes on: what it answers, in place of saved registers. */
    const pending: array<Pending>
    var current: nat
    var numThreads: nat
    var mutexes: seq<MutexCell>
    ghost var model: Threads

    /** The nodes of all queues. */
    ghost var nodes: set<Node>

    /** The table holds the statuses and exit values; a slot past the first has a stack once it was given out. */
    ghost predicate TableOk()
      reads this, status, exits, tids, stacks, pending
    {
      && exits.Length == tids.Length == stacks.Length == pending.Length == status.Length
      && model.status == status[..] && model.exits == exits[..] && model.pending == pending[..]
      && model.current == current < status.Length && model.count == numThreads
      && (forall t: nat :: t < tids.Length ==> tids[t] == t)
      && (forall t: nat :: t < stacks.Length ==> (stacks[t] <==> 1 <= t < numThreads))
    }

    ghost predicate MutexOk(m: nat)
      requires m < |mutexes|
      reads this, mutexes, mutexes[m].nodes
    {
      && m < |model.mutexes| && mutexes[m].Valid()
      && model.mutexes[m] == Mutex(mutexes[m].locked, mutexes[m].waiting)
    }

    ghost predicate NodesOf(m: nat)
      requires m < |mutexes|
      reads this, mutexes
    {
      forall n :: n in mutexes[m].nodes ==> n in nodes
    }

    ghost predicate Apart(i: nat, j: nat)
      requires i < |mutexes| && j < |mutexes|
      reads this, mutexes
    {
      mutexes[i] != mutexes[j] && forall n :: n in mutexes[i].nodes ==> n !in mutexes[j].nodes
    }

    ghost predicate MutexesOk()
      reads this, mutexes, nodes
    {
      && |model.mutexes| == |mutexes|
      && (forall m: nat :: m < |mutexes| ==> NodesOf(m) && MutexOk(m))
      && (forall i: nat, j: nat :: i < j < |mutexes| ==> Apart(i, j))
    }

    ghost predicate Matches()
      reads this, status, exits, tids, stacks, pending, mutexes, nodes
    {
      TableOk() && MutexesOk()
    }

    ghost predicate Valid()
      reads this, status, exits, tids, stacks, pending, mutexes, nodes
    {
      Matches() && ThreadModel.Valid(model)
    }

    /** scheduler_init */
    constructor (n: nat)
      requires n > 0
      ensures Valid() && model == Start(n)
      ensures fresh(status) && fresh(exits) && fresh(tids) && fresh(stacks) && fresh(pending) && nodes == {}
    {
      status := new Status[n](i => if i == 0 then Ready else Empty);
      exits := new int[n](_ => 0);
      tids := new nat[n](i => i);
      stacks := new bool[n](_ => false);
      pending := new Pending[n](_ => Idle);
      current, numThreads, mutexes := 0, 1, [];
      model, nodes := Start(n), {};
    }

    /** The scan of schedule() for the next ready thread. */
    method FindNext() returns (next: nat)
      requires current < status.Length && exists r: nat :: r < status.Length && status[r].Ready?
      ensures next == NextReady(status[..], current)
    {
      ghost var st := status[..];
      ghost var r: nat :| r < status.Length && st[r].Ready?;
      NextIsNearest(st, current, r);
      next := current;
      ghost var left := status.Length;
      while true
        invariant next < status.Length && 0 < left <= status.Length
        invariant Scan(st, next, left) == NextReady(st, current)
        decreases left
      {
        if next == status.Length - 1 {
          next := 0;
        } else {
          next := next + 1;
        }
        if status[next].Ready? {
          break;
        }
        left := left - 1;
      }
    }

    /** schedule(): the thread that ran becomes ready, and the next ready one runs. */
    method Schedule()
      requires Matches() && Switchable(model)
      modifies `current, `model, status
      ensures Matches() && model == Scheduled(old(model))
    {
      if status[current].Running? {
        status[current] := Ready;
      }
      assert status[..] == Preempted(model);
      var next := FindNext();
      model := Scheduled(model);
      current := next;
      status[current] := Running;
      QueuesKept();
    }

    /** What a call does to the table alone keeps the mutexes. */
    twostate lemma QueuesKept()
      requires old(MutexesOk()) && mutexes == old(mutexes) && model.mutexes == old(model.mutexes)
      requires nodes == old(nodes) && unchanged(nodes) && unchanged(mutexes)
      ensures MutexesOk()
    {
      forall m: nat | m < |mutexes|
        ensures NodesOf(m) && MutexOk(m)
      {
        assert old(NodesOf(m) && MutexOk(m));
      }
      forall i: nat, j: nat | i < j < |mutexes|
        ensures Apart(i, j)
      {
        assert old(Apart(i, j));
      }
    }

    // -------------------------------------------------------------------------------------------
    // Queues
    // -------------------------------------------------------------------------------------------

    /** A change of one mutex and its own or new nodes keeps the others. */
    twostate lemma OneQueueChanged(k: nat)
      requires old(MutexesOk()) && mutexes == old(mutexes) && k < |mutexes|
      requires |model.mutexes| == old(|model.mutexes|)
      requires forall m: nat :: m < |mutexes| && m != k ==>
        model.mutexes[m] == old(model.mutexes[m]) && unchanged(mutexes[m]) && unchanged(mutexes[m].nodes)
      requires MutexOk(k) && NodesOf(k) && old(nodes) <= nodes
      requires forall n :: n in mutexes[k].nodes ==> n in old(mutexes[k].nodes) || fresh(n)
      ensures MutexesOk()
    {
      forall m: nat | m < |mutexes|
        ensures NodesOf(m) && MutexOk(m)
      {
        assert old(NodesOf(m) && MutexOk(m));
      }
      forall i: nat, j: nat | i < j < |mutexes|
        ensures Apart(i, j)
      {
        assert old(Apart(i, j));
      }
    }

    /** The other mutexes have other nodes. */
    lemma OthersApart(k: nat)
      requires MutexesOk() && k < |mutexes|
      ensures forall m: nat :: m < |mutexes| && m != k ==>
        mutexes[m] != mutexes[k] && forall n :: n in mutexes[m].nodes ==> n !in mutexes[k].nodes
    {
      forall m: nat | m < |mutexes| && m != k
        ensures mutexes[m] != mutexes[k] && forall n :: n in mutexes[m].nodes ==> n !in mutexes[k].nodes
      {
        assert if m < k then Apart(m, k) else Apart(k, m);
      }
    }

    /** The current thread goes to the end of a queue. */
    method AddWaiter(k: nat)
      requires Matches() && k < |mutexes|
      modifies `model, `nodes, mutexes[k], mutexes[k].nodes
      ensures Matches() && fresh(nodes - old(nodes))
      ensures model == old(model).(mutexes := old(model.mutexes)[k := old(model.mutexes)[k].(waiting :=
        old(model.mutexes)[k].waiting + [current])])
    {
      OthersApart(k);
      assert MutexOk(k) && NodesOf(k);
      var m := mutexes[k];
      m.Enqueue(current);
      nodes := nodes + {m.nodes[|m.nodes| - 1]};
      model := model.(mutexes :=
        model.mutexes[k := model.mutexes[k].(waiting := model.mutexes[k].waiting + [current])]);
      forall j: nat | j < |mutexes| && j != k
        ensures unchanged(mutexes[j]) && unchanged(mutexes[j].nodes)
      {
        assert mutexes[j].nodes == old(mutexes[j].nodes);
        assert forall i: nat :: i < |mutexes[j].nodes| ==> mutexes[j].nodes[i] in mutexes[j].nodes;
      }
      OneQueueChanged(k);
    }

    /** The first thread leaves a queue; the mutex becomes unlocked when it was the last. */
    method TakeWaiter(k: nat) returns (tid: nat)
      requires Matches() && k < |mutexes| && k < |model.mutexes| && model.mutexes[k].waiting != []
      modifies `model, mutexes[k]
      ensures Matches() && tid == old(model.mutexes[k].waiting[0])
      ensures var rest := old(model.mutexes)[k].waiting[1..];
        model == old(model).(mutexes :=
          old(model.mutexes)[k := Mutex(old(model.mutexes)[k].locked && rest != [], rest)])
    {
      OthersApart(k);
      assert MutexOk(k) && NodesOf(k);
      var m := mutexes[k];
      tid := m.Dequeue();
      if m.head == null {
        m.locked := false;
      }
      ghost var rest := model.mutexes[k].waiting[1..];
      model := model.(mutexes := model.mutexes[k := Mutex(model.mutexes[k].locked && rest != [], rest)]);
      OneQueueChanged(k);
    }

    /** A thread gets a status, and the current thread is about to be switched away inside a call with this answer. */
    method Interrupt(t: nat, st: Status, code: int)
      requires Matches() && t < status.Length && current < pending.Length
      modifies `model, status, pending
      ensures Matches()
      ensures model == old(model).(
        status := old(model.status)[t := st], pending := old(model.pending)[current := Answers(code)])
    {
      status[t] := st;
      pending[current] := Answers(code);
      model := model.(status := model.status[t := st], pending := model.pending[current := Answers(code)]);
      QueuesKept();
    }

    // -------------------------------------------------------------------------------------------
    // Calls
    // -------------------------------------------------------------------------------------------

    method Self() returns (tid: nat)
      requires Valid()
      ensures tid == model.current
    {
      tid := tids[current];
    }

    /** pthread_create: the first slot without a stack, which has the number of threads as its place. */
    method Create() returns (outcome: Outcome)
      requires Valid() && Allowed(model, Op.Create)
      modifies `numThreads, `model, status, tids, stacks
      ensures Valid() && (model, outcome) == Step(old(model), Op.Create)
    {
      StepKeepsValid(model, Op.Create);
      var tid := 1;
      while tid < stacks.Length && stacks[tid]
        invariant 1 <= tid <= numThreads
      {
        tid := tid + 1;
      }
      if numThreads >= stacks.Length {
        return Code(-1);
      }
      model := CreateStep(model).0;
      stacks[tid] := true;
      status[tid] := Ready;
      tids[tid] := numThreads;
      outcome := Handle(numThreads);
      numThreads := numThreads + 1;
      QueuesKept();
    }

    method Yield()
      requires Valid()
      modifies `current, `model, status
      ensures Valid() && (model, Switched) == Step(old(model), Op.Yield)
    {
      StepKeepsValid(model, Op.Yield);
      StepSwitches(model, Op.Yield);
      Schedule();
    }

    method Exit(value: int)
      requires Valid() && Allowed(model, Op.Exit(value))
      modifies `current, `model, status, exits
      ensures Valid() && (model, Switched) == Step(old(model), Op.Exit(value))
    {
      StepKeepsValid(model, Op.Exit(value));
      StepSwitches(model, Op.Exit(value));
      status[current] := Exited;
      exits[current] := value;
      model := Prepared(model, Op.Exit(value));
      QueuesKept();
      Schedule();
    }

    /** One turn of the loop of pthread_join. */
    method Join(thread: nat) returns (outcome: Outcome)
      requires Valid() && Allowed(model, Op.Join(thread))
      modifies `current, `model, status
      ensures Valid() && (model, outcome) == Step(old(model), Op.Join(thread))
    {
      StepKeepsValid(model, Op.Join(thread));
      if status[thread].Exited? {
        return Value(exits[thread]);
      }
      StepSwitches(model, Op.Join(thread));
      Schedule();
      outcome := Switched;
    }

    method InitMutex() returns (outcome: Outcome)
      requires Valid() && Allowed(model, Op.InitMutex)
      modifies `model, `mutexes
      ensures Valid() && (model, outcome) == Step(old(model), Op.InitMutex)
      ensures |mutexes| > 0 && mutexes == old(mutexes) + [mutexes[|mutexes| - 1]] && fresh(mutexes[|mutexes| - 1])
    {
      StepKeepsValid(model, Op.InitMutex);
      var m := new MutexCell();
      outcome := Handle(|mutexes|);
      mutexes := mutexes + [m];
      model := model.(mutexes := model.mutexes + [Mutex(false, [])]);
      forall k: nat | k < |mutexes|
        ensures NodesOf(k) && MutexOk(k)
      {
        assert old(k < |mutexes| ==> NodesOf(k) && MutexOk(k));
      }
      forall i: nat, j: nat | i < j < |mutexes|
        ensures Apart(i, j)
      {
        assert old(j < |mutexes| ==> Apart(i, j));
      }
    }

    /** The branch of pthread_mutex_lock for a mutex that is not locked. */
    method Acquire(k: nat)
      requires Valid() && Allowed(model, Op.Lock(k)) && !model.mutexes[k].locked
      modifies `model, status, mutexes[k]
      ensures Valid() && (model, Code(0)) == Step(old(model), Op.Lock(k))
    {
      assert MutexOk(k) && NodesOf(k);
      OthersApart(k);
      StepKeepsValid(model, Op.Lock(k));
      mutexes[k].locked := true;
      status[current] := Ready;
      model := LockStep(model, k).0;
      OneQueueChanged(k);
    }

    /** The other branch: the thread waits, and pthread_mutex_lock returns -1 once it is scheduled again. */
    method Wait(k: nat)
      requires Valid() && Allowed(model, Op.Lock(k)) && model.mutexes[k].locked
      modifies `current, `model, `nodes, status, pending, mutexes[k], mutexes[k].nodes
      ensures Valid() && (model, Switched) == Step(old(model), Op.Lock(k)) && fresh(nodes - old(nodes))
    {
      StepKeepsValid(model, Op.Lock(k));
      StepSwitches(model, Op.Lock(k));
      AddWaiter(k);
      Interrupt(current, Blocked, -1);
      Schedule();
    }

    method Lock(k: nat) returns (outcome: Outcome)
      requires Valid() && Allowed(model, Op.Lock(k))
      modifies `current, `model, `nodes, status, pending, mutexes[k], mutexes[k].nodes
      ensures Valid() && (model, outcome) == Step(old(model), Op.Lock(k)) && fresh(nodes - old(nodes))
    {
      assert MutexOk(k);
      if !mutexes[k].locked {
        Acquire(k);
        outcome := Code(0);
      } else {
        Wait(k);
        outcome := Switched;
      }
    }

    method Unlock(k: nat) returns (outcome: Outcome)
      requires Valid() && Allowed(model, Op.Unlock(k))
      modifies `current, `model, status, pending, mutexes[k]
      ensures Valid() && (model, outcome) == Step(old(model), Op.Unlock(k))
    {
      assert MutexOk(k);
      StepKeepsValid(model, Op.Unlock(k));
      if mutexes[k].head == null {
        OthersApart(k);
        assert NodesOf(k);
        mutexes[k].locked := false;
        model := UnlockStep(model, k).0;
        OneQueueChanged(k);
        return Code(0);
      }
      StepSwitches(model, Op.Unlock(k));
      assert Waits(model.mutexes, model.mutexes[k].waiting[0], k, 0);
      var tid := TakeWaiter(k);
      Interrupt(tid, Ready, 0);
      Schedule();
      outcome := Switched;
    }

    /** An interrupted call goes on after its call of schedule() and returns. */
    method Return() returns (outcome: Outcome)
      requires Valid() && Allowed(model, Op.Return)
      modifies `model, pending
      ensures Valid() && (model, outcome) == Step(old(model), Op.Return)
    {
      StepKeepsValid(model, Op.Return);
      outcome := Code(pending[current].code);
      pending[current] := Idle;
      model := ReturnStep(model).0;
      QueuesKept();
    }

    // -------------------------------------------------------------------------------------------
    // Runs
    // -------------------------------------------------------------------------------------------

    ghost function Footprint(): set<object>
      reads this
    {
      {this, status, exits, tids, stacks, pending} + (set m | m in mutexes) + nodes
    }

    method Execute(op: Op) returns (outcome: Outcome)
      requires Valid() && Allowed(model, op)
      modifies Footprint()
      ensures Valid() && (model, outcome) == Step(old(model), op)
      ensures fresh(Footprint() - old(Footprint()))
    {
      outcome := Switched;
      match op {
        case Yield => Yield();
        case Create => outcome := Create();
        case Exit(value) => Exit(value);
        case Join(thread) => outcome := Join(thread);
        case InitMutex => outcome := InitMutex();
        case Lock(k) =>
          assert NodesOf(k);
          outcome := Lock(k);
        case Unlock(k) => outcome := Unlock(k);
        case Return => outcome := Return();
      }
    }

    /** Any run of steps does to the library what it does to the model, with the same outcomes. */
    method Run(ops: seq<Op>) returns (outcomes: seq<Outcome>)
      requires Valid() && RunAllowed(model, ops)
      modifies Footprint()
      ensures Valid() && model == ThreadModel.Run(old(model), ops)
      ensures outcomes == Outcomes(old(model), ops)
      decreases |ops|
    {
      if ops == [] {
        return [];
      }
      var first := Execute(ops[0]);
      var rest := Run(ops[1..]);
      outcomes := [first] + rest;
    }
  }
}
