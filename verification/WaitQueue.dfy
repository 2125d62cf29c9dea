/**
 The mutex of ulpt-noodlez102/threads.c:244-253 with its linked wait queue, as pthread_mutex_lock and
 pthread_mutex_unlock change it (lines 318-339, 353-362). `tail` may be null while the queue has one node.
 */
module WaitQueue {

  class Node {
    const tid: nat
    var next: Node?

    constructor (tid: nat)
      ensures this.tid == tid && next == null
    {
      this.tid, next := tid, null;
    }
  }

  class MutexCell {
    var locked: bool
    var head: Node?
    var tail: Node?

    /** The nodes in order, and the threads that wait. */
    ghost var nodes: seq<Node>
    ghost var waiting: seq<nat>

    ghost predicate Linked(i: nat)
      requires i < |nodes|
      reads this, nodes
    {
      nodes[i].next == if i + 1 < |nodes| then nodes[i + 1] else null
    }

    ghost predicate Valid()
      reads this, nodes
    {
      && (forall i: nat, j: nat :: i < j < |nodes| ==> nodes[i] != nodes[j])
      && (forall i: nat :: i < |nodes| ==> Linked(i))
      && |waiting| == |nodes| && (forall i: nat :: i < |nodes| ==> waiting[i] == nodes[i].tid)
      && head == (if nodes == [] then null else nodes[0])
      && (if tail == null then |nodes| <= 1 else nodes != [] && tail == nodes[|nodes| - 1])
    }

    constructor ()
      ensures Valid() && !locked && waiting == [] && nodes == []
    {
      locked, head, tail, nodes, waiting := false, null, null, [], [];
    }

    method Enqueue(tid: nat)
      requires Valid()
      modifies this, nodes
      ensures Valid() && waiting == old(waiting) + [tid] && locked == old(locked)
      ensures |nodes| > 0 && nodes == old(nodes) + [nodes[|nodes| - 1]] && fresh(nodes[|nodes| - 1])
    {
      var n := new Node(tid);
      if head == null {
        head := n;
      } else if tail == null {
        assert Linked(0);
        head.next := n;
        tail := n;
      } else {
        var oldTail := tail;
        tail := n;
        oldTail.next := n;
      }
      ghost var before := nodes;
      nodes, waiting := nodes + [n], waiting + [tid];
      forall i: nat | i < |nodes|
        ensures Linked(i)
      {
        assert nodes[i] == if i < |before| then before[i] else n;
        assert old(i < |nodes| ==> Linked(i));
      }
    }

    method Dequeue() returns (tid: nat)
      requires Valid() && waiting != []
      modifies this
      ensures Valid() && tid == old(waiting)[0] && waiting == old(waiting)[1..] && locked == old(locked)
      ensures nodes == old(nodes)[1..] && (head == null <==> waiting == [])
    {
      assert Linked(0);
      tid := head.tid;
      var next := head.next;
      head := next;
      if next == null {
        tail := null;
      }
      ghost var before := nodes;
      nodes, waiting := nodes[1..], waiting[1..];
      forall i: nat | i < |nodes|
        ensures Linked(i)
      {
        assert nodes[i] == before[i + 1];
        assert old(i + 1 < |nodes| ==> Linked(i + 1));
      }
    }
  }
}
