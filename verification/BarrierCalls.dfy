/**
 pthread_barrier_wait of ulpt-noodlez102/threads.c:392-447 as it runs in a round: what the current thread does from one
 call of schedule(0) to the next.
 */
module BarrierCalls {
  import opened Barrier
  import opened UserThreads

  /** The barrier, and where in pthread_barrier_wait each participant goes on when it is scheduled. */
  class BarrierCell {
    const library: Library
    const count: nat
    var threadsBlocked: nat
    var serialed: bool
    var pcs: map<nat, Pc>

    ghost function Model(): Round
      reads this, library
    {
      Round(library.model, pcs, threadsBlocked, serialed)
    }

    ghost predicate Valid()
      reads this, library, library.status, library.exits, library.tids, library.stacks, library.pending
      reads library.mutexes, library.nodes
    {
      library.Valid() && count == |pcs| && Common(Model())
    }

    /** pthread_barrier_init, for participants that are known beforehand. */
    constructor (library: Library, participants: set<nat>)
      requires library.Valid() && participants != {}
      ensures Valid() && Initial(Model()) && this.library == library && pcs.Keys == participants
    {
      this.library := library;
      count := |participants|;
      threadsBlocked, serialed := 0, false;
      pcs := map t | t in participants :: Before;
      new;
      assert pcs.Keys == participants;
      assert pcs != map[];
    }

    /** The test of the spin loop, and the call of schedule(0) in it or after it. */
    method TestCount()
      requires library.Valid() && count == |pcs| && library.model.current in pcs
      modifies `pcs, library`current, library`model, library.status
      ensures library.Valid() && count == |pcs| && pcs.Keys == old(pcs.Keys)
      ensures Model() == Test(old(Model()), old(library.model.current))
    {
      pcs := pcs[library.current := if threadsBlocked < count then Spin else Leaving];
      assert pcs.Keys == old(pcs.Keys);
      assert |pcs| == |pcs.Keys|;
      library.Yield();
    }

    /** From the call, or from the return of schedule(0) in the spin loop, to the next call of schedule(0). */
    method Enter()
      requires Valid() && CanAct(Model(), Action.Wait) && !pcs[library.model.current].Leaving?
      modifies `pcs, `threadsBlocked, library`current, library`model, library.status
      ensures library.Valid() && count == |pcs| && Model() == WaitStep(old(Model()))
    {
      if pcs[library.current].Before? {
        threadsBlocked := threadsBlocked + 1;
      }
      TestCount();
    }

    /** From the return of the last schedule(0) to the end of the call. */
    method Leave() returns (serial: bool)
      requires Valid() && library.model.current in pcs && pcs[library.model.current].Leaving?
      modifies `pcs, `threadsBlocked, `serialed
      ensures library.Valid() && count == |pcs| && Model() == WaitStep(old(Model()))
      ensures library.model.current in pcs && pcs[library.model.current] == Returned(serial)
    {
      serial := !serialed;
      ghost var before := pcs.Keys;
      pcs := pcs[library.current := Returned(serial)];
      threadsBlocked := 0;
      serialed := true;
      assert pcs.Keys == before;
      assert |pcs| == |pcs.Keys|;
    }

    /** Where the current thread goes on: at the start of the call, in the spin loop, or after it. */
    method Wait() returns (serial: bool)
      requires Valid() && CanAct(Model(), Action.Wait)
      modifies this, library`current, library`model, library.status
      ensures Valid() && Model() == Barrier.Act(old(Model()), Action.Wait)
      ensures old(pcs[library.model.current].Leaving?) ==>
        old(library.model.current) in pcs && pcs[old(library.model.current)] == Returned(serial)
    {
      ActKeepsCommon(Model(), Action.Wait);
      serial := false;
      if pcs[library.current].Leaving? {
        serial := Leave();
      } else {
        Enter();
      }
    }

    ghost function Footprint(): set<object>
      reads this, library
    {
      {this} + library.Footprint()
    }

    method Act(a: Action)
      requires Valid() && CanAct(Model(), a)
      modifies Footprint()
      ensures Valid() && Model() == Barrier.Act(old(Model()), a)
      ensures fresh(Footprint() - old(Footprint()))
    {
      ActKeepsCommon(Model(), a);
      match a {
        case Wait =>
          var serial := Wait();
        case Other(op) =>
          var outcome := library.Execute(op);
      }
    }

    /** A whole round, with any steps of the library in between, goes as the model's does. */
    method Run(acts: seq<Action>)
      requires Valid() && CanRun(Model(), acts)
      modifies Footprint()
      ensures Valid() && Model() == RunRound(old(Model()), acts)
      decreases |acts|
    {
      if acts != [] {
        Act(acts[0]);
        Run(acts[1..]);
      }
    }
  }
}
