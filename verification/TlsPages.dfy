/**
 How the pages of a storage show a byte sequence, and how the page operations of copy-on-write-noodlez102/tls.c
 keep every thread's view (lines 220-236, 264-283), over any type of page identities.
 */
module TlsPages {
  import opened Bytes
  import opened TlsRefs

  /** The number of pages for `size` bytes. */
  function PageNum(size: nat, pageSize: nat): nat
    requires size > 0 && pageSize > 0
  {
    (size - 1) / pageSize + 1
  }

  /** Byte `j` of page `k` is `b`. */
  ghost predicate HoldsByte<P>(ps: seq<P>, bytes: map<P, seq<Byte>>, k: nat, j: nat, b: Byte) {
    k < |ps| && ps[k] in bytes && j < |bytes[ps[k]]| && bytes[ps[k]][j] == b
  }

  /** Byte `i` of the storage is at its place in page `i / pageSize`. */
  ghost predicate ShowsAt<P>(ps: seq<P>, bytes: map<P, seq<Byte>>, pageSize: nat, view: seq<Byte>, i: nat)
    requires i < |view| && pageSize > 0
  {
    HoldsByte(ps, bytes, i / pageSize, i % pageSize, view[i])
  }

  ghost predicate Shows<P>(ps: seq<P>, bytes: map<P, seq<Byte>>, pageSize: nat, view: seq<Byte>)
    requires pageSize > 0
  {
    forall i: nat :: i < |view| ==> ShowsAt(ps, bytes, pageSize, view, i)
  }

  /** Every live page has its size, and every thread with a view has the pages that show it. */
  ghost predicate StateOk<P>(
    h: map<int, seq<P>>, refs: map<P, int>, lost: map<P, nat>, bytes: map<P, seq<Byte>>,
    views: map<int, seq<Byte>>, pageSize: nat)
    requires pageSize > 0
  {
    && RefExact(h, refs, lost)
    && bytes.Keys == refs.Keys
    && (forall p :: p in bytes ==> |bytes[p]| == pageSize)
    && (forall t {:trigger HasView(h, bytes, views, pageSize, t)} ::
        t in views ==> HasView(h, bytes, views, pageSize, t))
  }

  ghost predicate HasView<P>(
    h: map<int, seq<P>>, bytes: map<P, seq<Byte>>, views: map<int, seq<Byte>>, pageSize: nat, t: int)
    requires pageSize > 0 && t in views
  {
    && t in h && |views[t]| > 0
    && |h[t]| == PageNum(|views[t]|, pageSize)
    && Shows(h[t], bytes, pageSize, views[t])
  }

  /** A position of a storage lies in one of its pages. */
  lemma PageInRange(size: nat, pageSize: nat, i: nat)
    requires pageSize > 0 && i < size
    ensures i / pageSize < PageNum(size, pageSize) && 0 <= i % pageSize < pageSize
  {
    DivMonotonic(i, size - 1, pageSize);
  }

  lemma DivMonotonic(i: nat, j: nat, d: nat)
    requires d > 0 && i <= j
    ensures i / d <= j / d
  {
    assert i == (i / d) * d + i % d && j == (j / d) * d + j % d;
    MulLess(i / d, j / d + 1, d);
  }

  lemma MulLess(a: nat, b: nat, d: nat)
    requires a * d < b * d
    ensures a < b
  {
    if b <= a {
      MulMonotonic(b, a, d);
    }
  }

  lemma MulMonotonic(a: nat, b: nat, d: nat)
    requires a <= b
    ensures a * d <= b * d
  {}

  /** Two positions with the same page and the same place in it are the same position. */
  lemma SamePlace(i: nat, j: nat, d: nat)
    requires d > 0 && i / d == j / d && i % d == j % d
    ensures i == j
  {
    assert i == (i / d) * d + i % d;
  }

  lemma ByteUnchanged<P>(ps: seq<P>, bytes: map<P, seq<Byte>>, bytes': map<P, seq<Byte>>, k: nat, j: nat, b: Byte)
    requires HoldsByte(ps, bytes, k, j, b)
    requires forall k :: 0 <= k < |ps| && ps[k] in bytes ==> ps[k] in bytes' && bytes'[ps[k]] == bytes[ps[k]]
    ensures HoldsByte(ps, bytes', k, j, b)
  {}

  /** A change to pages a storage does not hold is not seen by its thread. */
  lemma ViewUnchanged<P>(
    ps: seq<P>, bytes: map<P, seq<Byte>>, bytes': map<P, seq<Byte>>, pageSize: nat, view: seq<Byte>)
    requires pageSize > 0 && Shows(ps, bytes, pageSize, view)
    requires forall k :: 0 <= k < |ps| && ps[k] in bytes ==> ps[k] in bytes' && bytes'[ps[k]] == bytes[ps[k]]
    ensures Shows(ps, bytes', pageSize, view)
  {
    forall i: nat | i < |view|
      ensures ShowsAt(ps, bytes', pageSize, view, i)
    {
      assert ShowsAt(ps, bytes, pageSize, view, i);
      ByteUnchanged(ps, bytes, bytes', i / pageSize, i % pageSize, view[i]);
    }
  }

  /** Storing byte `b` at place `j0` of page `k0` changes that place and no other. */
  lemma PokeByte<P>(
    ps: seq<P>, bytes: map<P, seq<Byte>>, k0: nat, j0: nat, b: Byte, k: nat, j: nat, v: Byte)
    requires NoDuplicates(ps) && k0 < |ps| && ps[k0] in bytes && j0 < |bytes[ps[k0]]| && HoldsByte(ps, bytes, k, j, v)
    ensures HoldsByte(ps, bytes[ps[k0] := SetAt(bytes[ps[k0]], j0, b)], k, j, if k == k0 && j == j0 then b else v)
  {
    assert ps[k] == ps[k0] ==> k == k0;
  }

  lemma PokeAt<P>(ps: seq<P>, bytes: map<P, seq<Byte>>, pageSize: nat, view: seq<Byte>, idx: nat, b: Byte, i: nat)
    requires pageSize > 0 && idx < |view| && i < |view| && NoDuplicates(ps)
    requires ShowsAt(ps, bytes, pageSize, view, idx) && ShowsAt(ps, bytes, pageSize, view, i)
    ensures var p := ps[idx / pageSize];
      ShowsAt(ps, bytes[p := SetAt(bytes[p], idx % pageSize, b)], pageSize, SetAt(view, idx, b), i)
  {
    PokeByte(ps, bytes, idx / pageSize, idx % pageSize, b, i / pageSize, i % pageSize, view[i]);
    if i / pageSize == idx / pageSize && i % pageSize == idx % pageSize {
      SamePlace(i, idx, pageSize);
    }
  }

  /** Storing a byte in a page of the storage changes that byte of the view. */
  lemma Poke<P>(ps: seq<P>, bytes: map<P, seq<Byte>>, pageSize: nat, view: seq<Byte>, idx: nat, b: Byte)
    requires pageSize > 0 && Shows(ps, bytes, pageSize, view) && idx < |view| && NoDuplicates(ps)
    ensures idx / pageSize < |ps| && ps[idx / pageSize] in bytes
    ensures var p := ps[idx / pageSize];
      idx % pageSize < |bytes[p]| &&
      Shows(ps, bytes[p := SetAt(bytes[p], idx % pageSize, b)], pageSize, SetAt(view, idx, b))
  {
    assert ShowsAt(ps, bytes, pageSize, view, idx);
    var p := ps[idx / pageSize];
    var bytes', view' := bytes[p := SetAt(bytes[p], idx % pageSize, b)], SetAt(view, idx, b);
    forall i: nat | i < |view|
      ensures ShowsAt(ps, bytes', pageSize, view', i)
    {
      assert ShowsAt(ps, bytes, pageSize, view, i);
      PokeAt(ps, bytes, pageSize, view, idx, b, i);
    }
  }

  lemma CopyByte<P>(ps: seq<P>, bytes: map<P, seq<Byte>>, k0: nat, c: P, k: nat, j: nat, v: Byte)
    requires k0 < |ps| && ps[k0] in bytes && c !in bytes && HoldsByte(ps, bytes, k, j, v)
    ensures HoldsByte(ps[k0 := c], bytes[c := bytes[ps[k0]]], k, j, v)
  {}

  /** Replacing a page by a copy of it does not change the view. */
  lemma CopyPage<P>(ps: seq<P>, bytes: map<P, seq<Byte>>, pageSize: nat, view: seq<Byte>, k: nat, c: P)
    requires pageSize > 0 && Shows(ps, bytes, pageSize, view) && k < |ps| && ps[k] in bytes && c !in bytes
    ensures Shows(ps[k := c], bytes[c := bytes[ps[k]]], pageSize, view)
  {
    var ps', bytes' := ps[k := c], bytes[c := bytes[ps[k]]];
    forall i: nat | i < |view|
      ensures ShowsAt(ps', bytes', pageSize, view, i)
    {
      assert ShowsAt(ps, bytes, pageSize, view, i);
      CopyByte(ps, bytes, k, c, i / pageSize, i % pageSize, view[i]);
    }
  }

  // ---------------------------------------------------------------------------------------------
  // Steps of the library
  // ---------------------------------------------------------------------------------------------

  /** The first write to a shared page: the caller gets a copy, and no view changes. */
  lemma SplitKeeps<P>(
    h: map<int, seq<P>>, refs: map<P, int>, lost: map<P, nat>, bytes: map<P, seq<Byte>>,
    views: map<int, seq<Byte>>, pageSize: nat, t: int, k: nat, c: P)
    requires pageSize > 0 && StateOk(h, refs, lost, bytes, views, pageSize)
    requires t in h && k < |h[t]| && c !in refs && c !in lost
    requires h[t][k] in refs && refs[h[t][k]] > 1
    ensures
      StateOk(h[t := h[t][k := c]], refs[h[t][k] := refs[h[t][k]] - 1][c := 1], lost,
              bytes[c := bytes[h[t][k]]], views, pageSize)
  {
    var p := h[t][k];
    var h', bytes' := h[t := h[t][k := c]], bytes[c := bytes[p]];
    Split(h, refs, lost, t, k, c);
    forall u | u in views
      ensures HasView(h', bytes', views, pageSize, u)
    {
      assert HasView(h, bytes, views, pageSize, u);
      if u == t {
        CopyPage(h[t], bytes, pageSize, views[t], k, c);
      } else {
        ViewUnchanged(h[u], bytes, bytes', pageSize, views[u]);
      }
    }
  }

  /** A write to a page with count 1 changes one byte of the caller's view and no other view. */
  lemma PokeKeeps<P>(
    h: map<int, seq<P>>, refs: map<P, int>, lost: map<P, nat>, bytes: map<P, seq<Byte>>,
    views: map<int, seq<Byte>>, pageSize: nat, t: int, idx: nat, b: Byte)
    requires pageSize > 0 && StateOk(h, refs, lost, bytes, views, pageSize)
    requires t in views && idx < |views[t]|
    requires t in h && idx / pageSize < |h[t]| && h[t][idx / pageSize] in refs && refs[h[t][idx / pageSize]] == 1
    ensures var p := h[t][idx / pageSize];
      && idx % pageSize < |bytes[p]|
      && StateOk(h, refs, lost, bytes[p := SetAt(bytes[p], idx % pageSize, b)],
                 views[t := SetAt(views[t], idx, b)], pageSize)
  {
    assert HasView(h, bytes, views, pageSize, t);
    assert Holds(h, refs, t);
    Poke(h[t], bytes, pageSize, views[t], idx, b);
    var p := h[t][idx / pageSize];
    var bytes', views' := bytes[p := SetAt(bytes[p], idx % pageSize, b)], views[t := SetAt(views[t], idx, b)];
    SoleHolder(h, refs, lost, t, p);
    forall u | u in views'
      ensures HasView(h, bytes', views', pageSize, u)
    {
      assert HasView(h, bytes, views, pageSize, u);
      if u != t {
        assert u in Holders(h, p) <==> p in h[u];
        ViewUnchanged(h[u], bytes, bytes', pageSize, views[u]);
      }
    }
  }

  /** Views stay when a thread without a view changes what it holds and the pages of the others stay. */
  lemma OthersKeep<P>(
    h: map<int, seq<P>>, h': map<int, seq<P>>, refs: map<P, int>, lost: map<P, nat>,
    bytes: map<P, seq<Byte>>, refs': map<P, int>, lost': map<P, nat>, bytes': map<P, seq<Byte>>,
    views: map<int, seq<Byte>>, pageSize: nat)
    requires pageSize > 0 && StateOk(h, refs, lost, bytes, views, pageSize)
    requires RefExact(h', refs', lost') && bytes'.Keys == refs'.Keys
    requires forall p :: p in bytes' ==> |bytes'[p]| == pageSize && (p in bytes ==> bytes'[p] == bytes[p])
    requires forall t :: t in views ==> t in h && t in h' && h'[t] == h[t]
    ensures StateOk(h', refs', lost', bytes', views, pageSize)
  {
    forall t | t in views
      ensures HasView(h', bytes', views, pageSize, t)
    {
      assert HasView(h, bytes, views, pageSize, t);
      assert Holds(h', refs', t);
      ViewUnchanged(h[t], bytes, bytes', pageSize, views[t]);
    }
  }

  lemma ZeroByte<P>(ps: seq<P>, bytes: map<P, seq<Byte>>, pageSize: nat, k: nat, j: nat)
    requires k < |ps| && j < pageSize && ps[k] in bytes && bytes[ps[k]] == Zeros(pageSize)
    ensures HoldsByte(ps, bytes, k, j, 0)
  {}

  lemma ZeroAt<P>(ps: seq<P>, bytes: map<P, seq<Byte>>, pageSize: nat, size: nat, i: nat)
    requires pageSize > 0 && i < size && |ps| == PageNum(size, pageSize)
    requires forall k :: 0 <= k < |ps| ==> ps[k] in bytes && bytes[ps[k]] == Zeros(pageSize)
    ensures ShowsAt(ps, bytes, pageSize, Zeros(size), i)
  {
    PageInRange(size, pageSize, i);
    ZeroByte(ps, bytes, pageSize, i / pageSize, i % pageSize);
  }

  /** tls_create: fresh pages of zeros show a storage of zeros. */
  lemma ZeroPagesShow<P>(ps: seq<P>, bytes: map<P, seq<Byte>>, pageSize: nat, size: nat)
    requires pageSize > 0 && size > 0 && |ps| == PageNum(size, pageSize)
    requires forall k :: 0 <= k < |ps| ==> ps[k] in bytes && bytes[ps[k]] == Zeros(pageSize)
    ensures Shows(ps, bytes, pageSize, Zeros(size))
  {
    var view := Zeros(size);
    forall i: nat | i < size
      ensures ShowsAt(ps, bytes, pageSize, view, i)
    {
      ZeroAt(ps, bytes, pageSize, size, i);
    }
  }

  /** A thread whose pages show `view` can be given that view. */
  lemma GainView<P>(
    h: map<int, seq<P>>, refs: map<P, int>, lost: map<P, nat>, bytes: map<P, seq<Byte>>,
    views: map<int, seq<Byte>>, pageSize: nat, t: int, view: seq<Byte>)
    requires pageSize > 0 && StateOk(h, refs, lost, bytes, views, pageSize)
    requires t in h && |view| > 0 && |h[t]| == PageNum(|view|, pageSize) && Shows(h[t], bytes, pageSize, view)
    ensures StateOk(h, refs, lost, bytes, views[t := view], pageSize)
  {
    var views' := views[t := view];
    forall u | u in views'
      ensures HasView(h, bytes, views', pageSize, u)
    {
      assert u != t ==> HasView(h, bytes, views, pageSize, u);
    }
  }

  /** tls_create: a storage without pages. */
  lemma StartKeeps<P>(
    h: map<int, seq<P>>, refs: map<P, int>, lost: map<P, nat>, bytes: map<P, seq<Byte>>,
    views: map<int, seq<Byte>>, pageSize: nat, t: int)
    requires pageSize > 0 && StateOk(h, refs, lost, bytes, views, pageSize) && t !in h
    ensures StateOk(h[t := []], refs, lost, bytes, views, pageSize)
  {
    EmptyStorage(h, refs, lost, t);
    ViewsHeld(h, refs, lost, bytes, views, pageSize);
    OthersKeep(h, h[t := []], refs, lost, bytes, refs, lost, bytes, views, pageSize);
  }

  lemma ViewsHeld<P>(
    h: map<int, seq<P>>, refs: map<P, int>, lost: map<P, nat>, bytes: map<P, seq<Byte>>,
    views: map<int, seq<Byte>>, pageSize: nat)
    requires pageSize > 0 && StateOk(h, refs, lost, bytes, views, pageSize)
    ensures forall t :: t in views ==> t in h
  {
    forall t | t in views
      ensures t in h
    {
      assert HasView(h, bytes, views, pageSize, t);
    }
  }

  /** tls_create: a new page of zeros for a storage that has no view yet. */
  lemma MapKeeps<P>(
    h: map<int, seq<P>>, refs: map<P, int>, lost: map<P, nat>, bytes: map<P, seq<Byte>>,
    views: map<int, seq<Byte>>, pageSize: nat, t: int, c: P)
    requires pageSize > 0 && StateOk(h, refs, lost, bytes, views, pageSize)
    requires t in h && t !in views && c !in refs && c !in lost
    ensures StateOk(h[t := h[t] + [c]], refs[c := 1], lost, bytes[c := Zeros(pageSize)], views, pageSize)
  {
    AddFresh(h, refs, lost, t, c);
    ViewsHeld(h, refs, lost, bytes, views, pageSize);
    OthersKeep(
      h, h[t := h[t] + [c]], refs, lost, bytes, refs[c := 1], lost, bytes[c := Zeros(pageSize)], views, pageSize);
  }

  /** tls_clone: one more holder of a page. */
  lemma ShareKeeps<P>(
    h: map<int, seq<P>>, refs: map<P, int>, lost: map<P, nat>, bytes: map<P, seq<Byte>>,
    views: map<int, seq<Byte>>, pageSize: nat, t: int, p: P)
    requires pageSize > 0 && StateOk(h, refs, lost, bytes, views, pageSize)
    requires t in h && t !in views && p in refs && p !in h[t]
    ensures StateOk(h[t := h[t] + [p]], refs[p := refs[p] + 1], lost, bytes, views, pageSize)
  {
    AddHolder(h, refs, lost, t, p);
    ViewsHeld(h, refs, lost, bytes, views, pageSize);
    OthersKeep(h, h[t := h[t] + [p]], refs, lost, bytes, refs[p := refs[p] + 1], lost, bytes, views, pageSize);
  }

  /** tls_clone with no slot free: a reference without a holder. */
  lemma LoseKeeps<P>(
    h: map<int, seq<P>>, refs: map<P, int>, lost: map<P, nat>, bytes: map<P, seq<Byte>>,
    views: map<int, seq<Byte>>, pageSize: nat, p: P)
    requires pageSize > 0 && StateOk(h, refs, lost, bytes, views, pageSize) && p in refs
    ensures StateOk(h, refs[p := refs[p] + 1], lost[p := LostOf(lost, p) + 1], bytes, views, pageSize)
  {
    Lose(h, refs, lost, p);
    ViewsHeld(h, refs, lost, bytes, views, pageSize);
    OthersKeep(h, h, refs, lost, bytes, refs[p := refs[p] + 1], lost[p := LostOf(lost, p) + 1], bytes, views, pageSize);
  }

  /** tls_destroy: a thread without a view lets go of its first page. */
  lemma DropKeeps<P>(
    h: map<int, seq<P>>, refs: map<P, int>, lost: map<P, nat>, bytes: map<P, seq<Byte>>,
    views: map<int, seq<Byte>>, pageSize: nat, t: int)
    requires pageSize > 0 && StateOk(h, refs, lost, bytes, views, pageSize)
    requires t in h && t !in views && h[t] != []
    ensures h[t][0] in refs
    ensures refs[h[t][0]] == 1 ==>
      StateOk(h[t := h[t][1..]], refs - {h[t][0]}, lost, bytes - {h[t][0]}, views, pageSize)
    ensures refs[h[t][0]] != 1 ==>
      StateOk(h[t := h[t][1..]], refs[h[t][0] := refs[h[t][0]] - 1], lost, bytes, views, pageSize)
  {
    DropFirst(h, refs, lost, t);
    ViewsHeld(h, refs, lost, bytes, views, pageSize);
    var p := h[t][0];
    if refs[p] == 1 {
      OthersKeep(h, h[t := h[t][1..]], refs, lost, bytes, refs - {p}, lost, bytes - {p}, views, pageSize);
    } else {
      OthersKeep(h, h[t := h[t][1..]], refs, lost, bytes, refs[p := refs[p] - 1], lost, bytes, views, pageSize);
    }
  }

  /** tls_destroy: the storage is gone once it has let go of all its pages. */
  lemma ForgetKeeps<P>(
    h: map<int, seq<P>>, refs: map<P, int>, lost: map<P, nat>, bytes: map<P, seq<Byte>>,
    views: map<int, seq<Byte>>, pageSize: nat, t: int)
    requires pageSize > 0 && StateOk(h, refs, lost, bytes, views, pageSize)
    requires t in h && t !in views && h[t] == []
    ensures StateOk(h - {t}, refs, lost, bytes, views, pageSize)
  {
    ForgetEmpty(h, refs, lost, t);
    ViewsHeld(h, refs, lost, bytes, views, pageSize);
    OthersKeep(h, h - {t}, refs, lost, bytes, refs, lost, bytes, views, pageSize);
  }

  lemma LoseView<P>(
    h: map<int, seq<P>>, refs: map<P, int>, lost: map<P, nat>, bytes: map<P, seq<Byte>>,
    views: map<int, seq<Byte>>, pageSize: nat, t: int)
    requires pageSize > 0 && StateOk(h, refs, lost, bytes, views, pageSize)
    ensures StateOk(h, refs, lost, bytes, views - {t}, pageSize)
  {
    var views' := views - {t};
    forall u | u in views'
      ensures HasView(h, bytes, views', pageSize, u)
    {
      assert HasView(h, bytes, views, pageSize, u);
    }
  }

  // ---------------------------------------------------------------------------------------------
  // Release
  // ---------------------------------------------------------------------------------------------

  /** A page in `ps` with one reference is gone, and with more has one less; any other page is as it was. */
  ghost predicate ReleasedAt<P>(ps: seq<P>, refs0: map<P, int>, refs: map<P, int>, p: P) {
    && (p in refs <==> p in refs0 && !(p in ps && refs0[p] == 1))
    && (p in refs ==> refs[p] == if p in ps then refs0[p] - 1 else refs0[p])
  }

  /** A storage let go of the pages `ps`. */
  ghost predicate Released<P>(ps: seq<P>, refs0: map<P, int>, refs: map<P, int>) {
    forall p {:trigger ReleasedAt(ps, refs0, refs, p)} :: p in refs0.Keys + refs.Keys ==> ReleasedAt(ps, refs0, refs, p)
  }

  lemma ReleaseAdvances<P>(ps: seq<P>, refs0: map<P, int>, refs: map<P, int>, refs': map<P, int>, i: nat)
    requires i < |ps| && NoDuplicates(ps) && Released(ps[..i], refs0, refs) && ps[i] in refs
    requires refs' == if refs[ps[i]] == 1 then refs - {ps[i]} else refs[ps[i] := refs[ps[i]] - 1]
    ensures Released(ps[..i + 1], refs0, refs')
  {
    var before, after := ps[..i], ps[..i + 1];
    assert after == before + [ps[i]];
    assert ps[i] !in before;
    forall p | p in refs0.Keys + refs'.Keys
      ensures ReleasedAt(after, refs0, refs', p)
    {
      assert ReleasedAt(before, refs0, refs, p);
    }
  }

  // ---------------------------------------------------------------------------------------------
  // Sharing
  // ---------------------------------------------------------------------------------------------

  /** A page in `ps` has one reference more; any other page is as it was. */
  ghost predicate SharedAt<P>(ps: seq<P>, refs0: map<P, int>, refs: map<P, int>, p: P) {
    && (p in refs <==> p in refs0)
    && (p in refs ==> refs[p] == refs0[p] + if p in ps then 1 else 0)
  }

  /** A new storage took a reference to each of the pages `ps`. */
  ghost predicate Shared<P>(ps: seq<P>, refs0: map<P, int>, refs: map<P, int>) {
    forall p {:trigger SharedAt(ps, refs0, refs, p)} :: p in refs0.Keys + refs.Keys ==> SharedAt(ps, refs0, refs, p)
  }

  lemma ShareAdvances<P>(ps: seq<P>, refs0: map<P, int>, refs: map<P, int>, refs': map<P, int>, i: nat)
    requires i < |ps| && NoDuplicates(ps) && Shared(ps[..i], refs0, refs) && ps[i] in refs
    requires refs' == refs[ps[i] := refs[ps[i]] + 1]
    ensures Shared(ps[..i + 1], refs0, refs')
  {
    var before, after := ps[..i], ps[..i + 1];
    assert after == before + [ps[i]];
    assert ps[i] !in before;
    forall p | p in refs0.Keys + refs'.Keys
      ensures SharedAt(after, refs0, refs', p)
    {
      assert SharedAt(before, refs0, refs, p);
    }
  }

  // ---------------------------------------------------------------------------------------------
  // Minimal copying
  // ---------------------------------------------------------------------------------------------

  function PageIndex(i: nat, pageSize: nat): nat
    requires pageSize > 0
  {
    i / pageSize
  }

  /** Some position from `offset` to before `end` lies in page `k`. */
  ghost predicate Touched(offset: nat, end: nat, pageSize: nat, k: nat)
    requires pageSize > 0
  {
    exists i: nat :: offset <= i < end && PageIndex(i, pageSize) == k
  }

  /** Writing one byte to page `k` copies the page if it is shared, and nothing else. */
  ghost predicate CopyStep<P>(ps: seq<P>, refs: map<P, int>, ps': seq<P>, refs': map<P, int>, k: nat) {
    && k < |ps| && |ps'| == |ps| && ps[k] in refs
    && if refs[ps[k]] > 1 then
         && ps'[k] !in refs && ps' == ps[k := ps'[k]]
         && refs' == refs[ps[k] := refs[ps[k]] - 1][ps'[k] := 1]
       else ps' == ps && refs' == refs
  }

  /** What a write did to page `k`: a page in the range has one reference, and is a new one only if it was shared. */
  ghost predicate CopiedAt<P>(
    ps0: seq<P>, refs0: map<P, int>, ps: seq<P>, refs: map<P, int>, touched: bool, k: nat)
  {
    && k < |ps0| && k < |ps| && ps0[k] in refs0 && ps[k] in refs
    && if touched && refs0[ps0[k]] > 1 then
         ps[k] !in refs0 && refs[ps[k]] == 1 && ps0[k] in refs && refs[ps0[k]] == refs0[ps0[k]] - 1
       else
         ps[k] == ps0[k] && refs[ps[k]] == refs0[ps0[k]] && (touched ==> refs[ps[k]] == 1)
  }

  /**
   A write of the positions from `offset` to `end` gives each shared page in that range one copy, and leaves every
   other page as it was, with its count.
   */
  ghost predicate MinimalCopying<P>(
    ps0: seq<P>, refs0: map<P, int>, ps: seq<P>, refs: map<P, int>, offset: nat, end: nat, pageSize: nat)
    requires pageSize > 0
  {
    && |ps| == |ps0|
    && (forall k: nat {:trigger Touched(offset, end, pageSize, k)} :: k < |ps0| ==>
        CopiedAt(ps0, refs0, ps, refs, Touched(offset, end, pageSize, k), k))
    && (forall p {:trigger KeptAt(ps0, refs0, ps, refs, p)} :: p in refs0.Keys + refs.Keys ==>
        KeptAt(ps0, refs0, ps, refs, p))
  }

  /** No page goes, pages of other storages only keep their counts, and a new page is one of the storage. */
  ghost predicate KeptAt<P>(ps0: seq<P>, refs0: map<P, int>, ps: seq<P>, refs: map<P, int>, p: P) {
    && (p in refs0 ==> p in refs && (p !in ps0 ==> refs[p] == refs0[p]))
    && (p in refs ==> p in refs0 || p in ps)
  }

  lemma NothingCopied<P>(ps: seq<P>, refs: map<P, int>, offset: nat, pageSize: nat)
    requires pageSize > 0 && forall k :: 0 <= k < |ps| ==> ps[k] in refs
    ensures MinimalCopying(ps, refs, ps, refs, offset, offset, pageSize)
  {}

  lemma CopyingAdvances<P>(
    ps0: seq<P>, refs0: map<P, int>, ps: seq<P>, refs: map<P, int>, ps': seq<P>, refs': map<P, int>,
    offset: nat, idx: nat, pageSize: nat)
    requires pageSize > 0 && offset <= idx && NoDuplicates(ps0)
    requires MinimalCopying(ps0, refs0, ps, refs, offset, idx, pageSize)
    requires CopyStep(ps, refs, ps', refs', PageIndex(idx, pageSize))
    requires forall p :: p in refs0 ==> refs0[p] >= 1
    ensures MinimalCopying(ps0, refs0, ps', refs', offset, idx + 1, pageSize)
  {
    var pn, end := PageIndex(idx, pageSize), idx + 1;
    assert ps'[pn] in refs0.Keys + refs.Keys ==> KeptAt(ps0, refs0, ps, refs, ps'[pn]);
    forall k: nat | k < |ps0|
      ensures CopiedAt(ps0, refs0, ps', refs', Touched(offset, end, pageSize, k), k)
    {
      assert CopiedAt(ps0, refs0, ps, refs, Touched(offset, idx, pageSize, k), k);
      assert CopiedAt(ps0, refs0, ps, refs, Touched(offset, idx, pageSize, pn), pn);
      assert Touched(offset, end, pageSize, k) <==> Touched(offset, idx, pageSize, k) || k == pn by {
        if k == pn {
          assert PageIndex(idx, pageSize) == k;
        }
      }
    }
    assert CopiedAt(ps0, refs0, ps, refs, Touched(offset, idx, pageSize, pn), pn);
    forall p | p in refs0.Keys + refs'.Keys
      ensures KeptAt(ps0, refs0, ps', refs', p)
    {
      assert p in refs0.Keys + refs.Keys ==> KeptAt(ps0, refs0, ps, refs, p);
      if ps' != ps && p == ps'[pn] {
        assert p in ps';
      } else if p in refs && p !in refs0 {
        var j :| 0 <= j < |ps| && ps[j] == p;
        assert ps'[j] == p;
      }
    }
  }
}
