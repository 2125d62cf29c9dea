/**
 The cyclic scan of the scheduler in ulpt-noodlez102/threads.c:59-92, and the distance that orders thread slots by
 when the scan reaches them. The number of slots is the length of the status sequence (128 in the source).
 */
module RoundRobin {

  datatype Status = Exited | Running | Ready | Empty | Blocked

  /** How many slots the scan moves to get from slot `a` to slot `b`: from 1 to `n`, a full turn. */
  function Distance(n: nat, a: nat, b: nat): (d: nat)
    requires a < n && b < n
    ensures 1 <= d <= n
  {
    if b > a then b - a else b - a + n
  }

  /** The slot after slot `t`. */
  function After(n: nat, t: nat): (u: nat)
    requires t < n
    ensures u < n
  {
    if t == n - 1 then 0 else t + 1
  }

  /** The slot of the first ready thread among the `left` slots after `t`, or the last of them. */
  function Scan(status: seq<Status>, t: nat, left: nat): (u: nat)
    requires t < |status| && left > 0
    ensures u < |status|
    decreases left
  {
    var u := After(|status|, t);
    if status[u].Ready? || left == 1 then u else Scan(status, u, left - 1)
  }

  /** The slot the scheduler turns to from slot `current`. */
  function NextReady(status: seq<Status>, current: nat): (u: nat)
    requires current < |status|
    ensures u < |status|
  {
    Scan(status, current, |status|)
  }

  /** The ready thread nearest after `current`. */
  ghost predicate Nearest(status: seq<Status>, current: nat, u: nat)
    requires current < |status|
  {
    && u < |status| && status[u].Ready?
    && forall t: nat :: t < |status| && status[t].Ready? ==>
      Distance(|status|, current, u) <= Distance(|status|, current, t)
  }

  /** The scan finds the nearest ready thread, if there is any. */
  lemma NextIsNearest(status: seq<Status>, current: nat, r: nat)
    requires current < |status| && r < |status| && status[r].Ready?
    ensures Nearest(status, current, NextReady(status, current))
  {
    ScanIsNearest(status, current, current, |status|, r);
  }

  lemma {:induction false} ScanIsNearest(status: seq<Status>, current: nat, t: nat, left: nat, r: nat)
    requires current < |status| && t < |status| && 0 < left <= |status|
    requires if t == current then left == |status| else left == |status| - Distance(|status|, current, t)
    requires r < |status| && status[r].Ready?
    requires forall u: nat :: u < |status| && status[u].Ready? ==>
      t == current || Distance(|status|, current, t) < Distance(|status|, current, u)
    ensures Nearest(status, current, Scan(status, t, left))
    decreases left
  {
    var n := |status|;
    var u := After(n, t);
    assert Distance(n, current, u) == n - left + 1;
    if left == 1 {
      assert r == current == u;
    } else if !status[u].Ready? {
      forall v: nat | v < n && status[v].Ready?
        ensures Distance(n, current, u) < Distance(n, current, v)
      {
        assert v != u;
      }
      ScanIsNearest(status, current, u, left - 1, r);
    }
  }

  /** Distances add up until they make a full turn. */
  lemma DistanceAdds(n: nat, a: nat, b: nat, c: nat)
    requires a < n && b < n && c < n
    ensures Distance(n, a, b) + Distance(n, b, c) <= n <==> Distance(n, a, b) < Distance(n, a, c) || (a == c && a != b)
    ensures Distance(n, a, b) + Distance(n, b, c) <= n ==>
      Distance(n, a, c) == Distance(n, a, b) + Distance(n, b, c)
  {}
}
