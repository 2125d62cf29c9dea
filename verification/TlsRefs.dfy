/**
 Reference counting of shared pages (copy-on-write-noodlez102/tls.c:147-152, 176-184, 270-280, 327-331), over any
 type of page identities. `h` maps each thread to the pages of its storage, `refs` maps each live page to its count,
 and `lost` counts the references that clones took for storages they could not register.
 */
module TlsRefs {

  /** The threads whose storage holds page `p`. */
  ghost function Holders<P>(h: map<int, seq<P>>, p: P): (r: set<int>)
    ensures forall t :: t in r <==> t in h && p in h[t]
  {
    set t | t in h && p in h[t]
  }

  lemma NoHolders<P>(h: map<int, seq<P>>, p: P)
    requires forall t :: t in h ==> p !in h[t]
    ensures Holders(h, p) == {}
  {
    forall t: int
      ensures t !in Holders(h, p)
    {}
  }

  ghost predicate NoDuplicates<P>(ps: seq<P>) {
    forall i, j :: 0 <= i < j < |ps| ==> ps[i] != ps[j]
  }

  /** A storage holds live pages, none twice. */
  ghost predicate Holds<P>(h: map<int, seq<P>>, refs: map<P, int>, t: int)
    requires t in h
  {
    NoDuplicates(h[t]) && forall i :: 0 <= i < |h[t]| ==> h[t][i] in refs
  }

  ghost function LostOf<P>(lost: map<P, nat>, p: P): nat {
    if p in lost then lost[p] else 0
  }

  /** The count of a live page is the number of storages that hold it, plus what was lost. */
  ghost predicate Exact<P>(h: map<int, seq<P>>, refs: map<P, int>, lost: map<P, nat>, p: P)
    requires p in refs
  {
    refs[p] == |Holders(h, p)| + LostOf(lost, p) && refs[p] >= 1
  }

  ghost predicate RefExact<P>(h: map<int, seq<P>>, refs: map<P, int>, lost: map<P, nat>) {
    && (forall t {:trigger Holds(h, refs, t)} :: t in h ==> Holds(h, refs, t))
    && (forall p {:trigger Exact(h, refs, lost, p)} :: p in refs ==> Exact(h, refs, lost, p))
  }

  // ---------------------------------------------------------------------------------------------
  // What each step of the library does to the counts
  // ---------------------------------------------------------------------------------------------

  /** A storage without pages holds nothing. */
  lemma EmptyStorage<P>(h: map<int, seq<P>>, refs: map<P, int>, lost: map<P, nat>, t: int)
    requires RefExact(h, refs, lost) && t !in h
    ensures RefExact(h[t := []], refs, lost)
  {
    var h' := h[t := []];
    forall p | p in refs
      ensures Exact(h', refs, lost, p)
    {
      assert Exact(h, refs, lost, p);
      assert Holders(h', p) == Holders(h, p);
    }
    forall t' | t' in h'
      ensures Holds(h', refs, t')
    {
      assert t' in h ==> Holds(h, refs, t');
    }
  }

  lemma ForgetEmpty<P>(h: map<int, seq<P>>, refs: map<P, int>, lost: map<P, nat>, t: int)
    requires RefExact(h, refs, lost) && t in h && h[t] == []
    ensures RefExact(h - {t}, refs, lost)
  {
    var h' := h - {t};
    forall p | p in refs
      ensures Exact(h', refs, lost, p)
    {
      assert Exact(h, refs, lost, p);
      assert Holders(h', p) == Holders(h, p);
    }
    forall t' | t' in h'
      ensures Holds(h', refs, t')
    {
      assert Holds(h, refs, t');
    }
  }

  lemma AppendHolders<P>(h: map<int, seq<P>>, t: int, p: P, q: P)
    requires t in h
    ensures Holders(h[t := h[t] + [p]], q) == if q == p then Holders(h, q) + {t} else Holders(h, q)
  {
    var ps := h[t] + [p];
    assert ps[|h[t]|] == p;
    assert forall x :: x in ps <==> x in h[t] || x == p;
  }

  /** tls_clone: one more storage holds page `p`. */
  lemma AddHolder<P>(h: map<int, seq<P>>, refs: map<P, int>, lost: map<P, nat>, t: int, p: P)
    requires RefExact(h, refs, lost) && t in h && p in refs && p !in h[t]
    ensures RefExact(h[t := h[t] + [p]], refs[p := refs[p] + 1], lost)
  {
    var h', refs' := h[t := h[t] + [p]], refs[p := refs[p] + 1];
    forall q | q in refs'
      ensures Exact(h', refs', lost, q)
    {
      assert Exact(h, refs, lost, q);
      AppendHolders(h, t, p, q);
    }
    forall t' | t' in h'
      ensures Holds(h', refs', t')
    {
      assert Holds(h, refs, t');
    }
  }

  /** tls_create: a new page with one holder. */
  lemma AddFresh<P>(h: map<int, seq<P>>, refs: map<P, int>, lost: map<P, nat>, t: int, p: P)
    requires RefExact(h, refs, lost) && t in h && p !in refs && p !in lost
    ensures RefExact(h[t := h[t] + [p]], refs[p := 1], lost)
  {
    var h', refs' := h[t := h[t] + [p]], refs[p := 1];
    NotHeld(h, refs, lost, p);
    forall q | q in refs'
      ensures Exact(h', refs', lost, q)
    {
      AppendHolders(h, t, p, q);
      if q == p {
        NoHolders(h, q);
      } else {
        assert Exact(h, refs, lost, q);
      }
    }
    forall t' | t' in h'
      ensures Holds(h', refs', t')
    {
      assert Holds(h, refs, t');
    }
  }

  lemma NotHeld<P>(h: map<int, seq<P>>, refs: map<P, int>, lost: map<P, nat>, p: P)
    requires RefExact(h, refs, lost) && p !in refs
    ensures forall t :: t in h ==> p !in h[t]
  {
    forall t | t in h
      ensures p !in h[t]
    {
      assert Holds(h, refs, t);
    }
  }

  /** tls_destroy: the storage lets go of its first page; the page goes when this was the last reference. */
  lemma DropFirst<P>(h: map<int, seq<P>>, refs: map<P, int>, lost: map<P, nat>, t: int)
    requires RefExact(h, refs, lost) && t in h && h[t] != []
    ensures var p := h[t][0];
      && p in refs
      && (refs[p] == 1 ==> RefExact(h[t := h[t][1..]], refs - {p}, lost))
      && (refs[p] != 1 ==> RefExact(h[t := h[t][1..]], refs[p := refs[p] - 1], lost))
  {
    assert Holds(h, refs, t);
    var p := h[t][0];
    var h' := h[t := h[t][1..]];
    var last := refs[p] == 1;
    var refs' := if last then refs - {p} else refs[p := refs[p] - 1];
    assert Exact(h, refs, lost, p);
    assert Holders(h', p) == Holders(h, p) - {t};
    forall q | q in refs'
      ensures Exact(h', refs', lost, q)
    {
      assert Exact(h, refs, lost, q);
      if q != p {
        TailHolders(h, t, q);
      }
    }
    forall t' | t' in h'
      ensures Holds(h', refs', t')
    {
      assert Holds(h, refs, t');
      if last {
        SoleHolder(h, refs, lost, t, p);
        assert t' in Holders(h, p) <==> p in h[t'];
      }
    }
  }

  lemma TailHolders<P>(h: map<int, seq<P>>, t: int, q: P)
    requires t in h && h[t] != [] && q != h[t][0]
    ensures Holders(h[t := h[t][1..]], q) == Holders(h, q)
  {
    assert h[t] == [h[t][0]] + h[t][1..];
  }

  /** A page with count 1 that a storage holds is held by no other storage. */
  lemma SoleHolder<P>(h: map<int, seq<P>>, refs: map<P, int>, lost: map<P, nat>, t: int, p: P)
    requires RefExact(h, refs, lost) && t in h && p in h[t] && p in refs && refs[p] == 1
    ensures Holders(h, p) == {t} && LostOf(lost, p) == 0
  {
    assert Exact(h, refs, lost, p);
    var rest := Holders(h, p) - {t};
    assert |Holders(h, p)| == |rest| + 1;
    assert rest == {};
  }

  /** tls_write on a shared page: position `i` of a storage goes from a shared page to a new copy of it. */
  lemma Split<P>(h: map<int, seq<P>>, refs: map<P, int>, lost: map<P, nat>, t: int, i: nat, c: P)
    requires RefExact(h, refs, lost) && t in h && i < |h[t]| && c !in refs && c !in lost
    requires h[t][i] in refs && refs[h[t][i]] > 1
    ensures var p := h[t][i];
      RefExact(h[t := h[t][i := c]], refs[p := refs[p] - 1][c := 1], lost)
  {
    var p := h[t][i];
    var h', refs' := h[t := h[t][i := c]], refs[p := refs[p] - 1][c := 1];
    NotHeld(h, refs, lost, c);
    assert Holds(h, refs, t);
    forall q | q in refs'
      ensures Exact(h', refs', lost, q)
    {
      SplitHolders(h, t, i, c, q);
      if q != c {
        assert Exact(h, refs, lost, q);
      }
    }
    forall t' | t' in h'
      ensures Holds(h', refs', t')
    {
      assert Holds(h, refs, t');
    }
  }

  lemma SplitHolders<P>(h: map<int, seq<P>>, t: int, i: nat, c: P, q: P)
    requires t in h && i < |h[t]| && NoDuplicates(h[t])
    requires forall t' :: t' in h ==> c !in h[t']
    ensures var h' := h[t := h[t][i := c]];
      Holders(h', q) == if q == c then {t} else if q == h[t][i] then Holders(h, q) - {t} else Holders(h, q)
  {
    var ps, ps' := h[t], h[t][i := c];
    assert forall j :: 0 <= j < |ps| ==> ps'[j] == if j == i then c else ps[j];
    if q == c {
      assert ps'[i] == c;
      var r := Holders(h[t := ps'], q);
      forall t': int
        ensures t' in r <==> t' in {t}
      {}
    } else if q == ps[i] {
      assert q !in ps';
    } else if q in ps {
      var j :| 0 <= j < |ps| && ps[j] == q;
      assert ps'[j] == q;
    }
  }

  /** tls_clone on a full registry: a reference is taken that no storage accounts for. */
  lemma Lose<P>(h: map<int, seq<P>>, refs: map<P, int>, lost: map<P, nat>, p: P)
    requires RefExact(h, refs, lost) && p in refs
    ensures RefExact(h, refs[p := refs[p] + 1], lost[p := LostOf(lost, p) + 1])
  {
    var refs', lost' := refs[p := refs[p] + 1], lost[p := LostOf(lost, p) + 1];
    forall q | q in refs'
      ensures Exact(h, refs', lost', q)
    {
      assert Exact(h, refs, lost, q);
    }
    forall t | t in h
      ensures Holds(h, refs', t)
    {
      assert Holds(h, refs, t);
    }
  }

  // ---------------------------------------------------------------------------------------------
  // Counts sum to the pages of all storages
  // ---------------------------------------------------------------------------------------------

  ghost function Sum<K>(keys: set<K>, f: map<K, int>): int
    requires keys <= f.Keys
  {
    if keys == {} then 0 else var k :| k in keys; f[k] + Sum(keys - {k}, f)
  }

  /** The order in which a sum is taken does not matter. */
  lemma {:induction false} SumRemove<K>(keys: set<K>, f: map<K, int>, k: K)
    requires keys <= f.Keys && k in keys
    ensures Sum(keys, f) == f[k] + Sum(keys - {k}, f)
    decreases |keys|
  {
    var j :| j in keys && Sum(keys, f) == f[j] + Sum(keys - {j}, f);
    if j != k {
      SumRemove(keys - {j}, f, k);
      SumRemove(keys - {k}, f, j);
      assert keys - {j} - {k} == keys - {k} - {j};
    }
  }

  lemma {:induction false} SumAdd<K>(keys: set<K>, f: map<K, int>, g: map<K, int>, r: map<K, int>)
    requires keys <= f.Keys && keys <= g.Keys && keys <= r.Keys
    requires forall k :: k in keys ==> r[k] == f[k] + g[k]
    ensures Sum(keys, r) == Sum(keys, f) + Sum(keys, g)
    decreases |keys|
  {
    if keys != {} {
      var k :| k in keys;
      SumRemove(keys, f, k);
      SumRemove(keys, g, k);
      SumRemove(keys, r, k);
      SumAdd(keys - {k}, f, g, r);
    }
  }

  lemma {:induction false} SumZero<K>(keys: set<K>, f: map<K, int>)
    requires keys <= f.Keys && forall k :: k in keys ==> f[k] == 0
    ensures Sum(keys, f) == 0
    decreases |keys|
  {
    if keys != {} {
      var k :| k in keys;
      SumRemove(keys, f, k);
      SumZero(keys - {k}, f);
    }
  }

  /** One for each page of `ps`, none for the others. */
  ghost function Indicator<P>(pages: set<P>, ps: seq<P>): (m: map<P, int>)
    ensures m.Keys == pages && forall p :: p in pages ==> m[p] == if p in ps then 1 else 0
  {
    map p | p in pages :: if p in ps then 1 else 0
  }

  lemma {:induction false} SumIndicator<P>(pages: set<P>, ps: seq<P>)
    requires NoDuplicates(ps) && forall i :: 0 <= i < |ps| ==> ps[i] in pages
    ensures Sum(pages, Indicator(pages, ps)) == |ps|
    decreases |ps|
  {
    if ps == [] {
      SumZero(pages, Indicator(pages, ps));
    } else {
      var n := |ps| - 1;
      var init, last := ps[..n], ps[n];
      SumIndicator(pages, init);
      SumRemove(pages, Indicator(pages, ps), last);
      SumRemove(pages, Indicator(pages, init), last);
      assert ps == init + [last];
      assert last !in init;
      SumSame(pages - {last}, Indicator(pages, ps), Indicator(pages, init));
    }
  }

  lemma {:induction false} SumSame<K>(keys: set<K>, f: map<K, int>, g: map<K, int>)
    requires keys <= f.Keys && keys <= g.Keys && forall k :: k in keys ==> f[k] == g[k]
    ensures Sum(keys, f) == Sum(keys, g)
    decreases |keys|
  {
    if keys != {} {
      var k :| k in keys;
      SumRemove(keys, f, k);
      SumRemove(keys, g, k);
      SumSame(keys - {k}, f, g);
    }
  }

  ghost function HolderCounts<P>(pages: set<P>, h: map<int, seq<P>>): (m: map<P, int>)
    ensures m.Keys == pages && forall p :: p in pages ==> m[p] == |Holders(h, p)|
  {
    map p | p in pages :: |Holders(h, p)|
  }

  ghost function LostCounts<P>(pages: set<P>, lost: map<P, nat>): (m: map<P, int>)
    ensures m.Keys == pages && forall p :: p in pages ==> m[p] == LostOf(lost, p)
  {
    map p | p in pages :: LostOf(lost, p)
  }

  ghost function PageCounts<P>(h: map<int, seq<P>>): (m: map<int, int>)
    ensures m.Keys == h.Keys && forall t :: t in h ==> m[t] == |h[t]|
  {
    map t | t in h :: |h[t]|
  }

  lemma Pick<K>(s: set<K>) returns (k: K)
    requires s != {}
    ensures k in s
  {
    k :| k in s;
  }

  lemma KeyOf<K, V>(m: map<K, V>, v: V) returns (k: K)
    requires v in m.Values
    ensures k in m && m[k] == v
  {
    k :| k in m && m[k] == v;
  }

  lemma HoldersWithout<P>(h: map<int, seq<P>>, t: int, p: P)
    requires t in h
    ensures |Holders(h, p)| == |Holders(h - {t}, p)| + if p in h[t] then 1 else 0
  {
    assert Holders(h, p) == if p in h[t] then Holders(h - {t}, p) + {t} else Holders(h - {t}, p);
  }

  /** Counting holders page by page or pages storage by storage gives the same number. */
  lemma {:induction false} DoubleCount<P>(pages: set<P>, h: map<int, seq<P>>)
    requires forall t :: t in h ==> NoDuplicates(h[t]) && forall i :: 0 <= i < |h[t]| ==> h[t][i] in pages
    ensures Sum(pages, HolderCounts(pages, h)) == Sum(h.Keys, PageCounts(h))
    decreases |h|
  {
    var keys: set<int> := h.Keys;
    if keys == {} {
      forall p | p in pages
        ensures |Holders(h, p)| == 0
      {
        NoHolders(h, p);
      }
      SumZero(pages, HolderCounts(pages, h));
    } else {
      var t := Pick(keys);
      var h' := h - {t};
      DoubleCount(pages, h');
      forall p | p in pages
        ensures |Holders(h, p)| == |Holders(h', p)| + if p in h[t] then 1 else 0
      {
        HoldersWithout(h, t, p);
      }
      SumIndicator(pages, h[t]);
      SumAdd(pages, HolderCounts(pages, h'), Indicator(pages, h[t]), HolderCounts(pages, h));
      SumRemove(h.Keys, PageCounts(h), t);
      SumSame(h'.Keys, PageCounts(h), PageCounts(h'));
      assert h.Keys - {t} == h'.Keys;
    }
  }

  /** The counts of all live pages sum to the pages of all live storages, plus what was lost. */
  lemma CountsSum<P>(h: map<int, seq<P>>, refs: map<P, int>, lost: map<P, nat>)
    requires RefExact(h, refs, lost)
    ensures Sum(refs.Keys, refs) == Sum(h.Keys, PageCounts(h)) + Sum(refs.Keys, LostCounts(refs.Keys, lost))
  {
    forall t | t in h
      ensures NoDuplicates(h[t]) && forall i :: 0 <= i < |h[t]| ==> h[t][i] in refs.Keys
    {
      assert Holds(h, refs, t);
    }
    DoubleCount(refs.Keys, h);
    forall p | p in refs.Keys
      ensures refs[p] == HolderCounts(refs.Keys, h)[p] + LostCounts(refs.Keys, lost)[p]
    {
      assert Exact(h, refs, lost, p);
    }
    SumAdd(refs.Keys, HolderCounts(refs.Keys, h), LostCounts(refs.Keys, lost), refs);
  }
}
