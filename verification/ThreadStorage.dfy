/**
 The thread-local storage library of copy-on-write-noodlez102/tls.c as it runs: pages and storages are objects,
 storages share pages, and each call is proved to do to the private byte sequences what `TlsModel.Step` says.
 Each call is one atomic step.
 */
module ThreadStorage {
  import opened Bytes
  import opened TlsModel
  import opened TlsRefs
  import opened TlsPages

  /** `struct page`, with the mapped memory and its protection. */
  class Page {
    var bytes: seq<Byte>
    var refCount: int
    var accessible: bool

    constructor (bytes: seq<Byte>, accessible: bool)
      ensures this.bytes == bytes && refCount == 1 && this.accessible == accessible
    {
      this.bytes, this.refCount, this.accessible := bytes, 1, accessible;
    }

    // Touching the memory of a page that is protected is a page fault, so these ask for access.

    method Load(k: nat) returns (b: Byte)
      requires accessible && k < |bytes|
      ensures b == bytes[k]
    {
      b := bytes[k];
    }

    method Store(k: nat, b: Byte)
      requires accessible && k < |bytes|
      modifies `bytes
      ensures bytes == SetAt(old(bytes), k, b)
    {
      bytes := SetAt(bytes, k, b);
    }

    /** What memcpy takes from the page. */
    method LoadAll() returns (s: seq<Byte>)
      requires accessible
      ensures s == bytes
    {
      s := bytes;
    }
  }

  /** `struct thread_local_storage` */
  class Tls {
    const tid: int
    const size: nat
    const pageNum: nat
    var pages: seq<Page>

    constructor (tid: int, size: nat, pageNum: nat)
      ensures this.tid == tid && this.size == size && this.pageNum == pageNum && pages == []
    {
      this.tid, this.size, this.pageNum, pages := tid, size, pageNum, [];
    }
  }

  datatype Pair = Pair(tid: int, tls: Tls?)

  const FREE: Pair := Pair(-1, null)
  const DESTROYED: Pair := Pair(0, null)

  class Registry {
    const pairs: array<Pair>
    const pageSize: nat
    var initialize: bool

    /** The storages by thread, their slots, the pages they hold, the mapped pages and the lost references. */
    ghost var storages: map<int, Tls>
    ghost var slots: map<int, nat>
    ghost var held: map<int, seq<Page>>
    ghost var live: set<Page>
    ghost var lost: map<Page, nat>
    ghost var model: Library
    /** After a clone was refused a slot: a page that has a lost reference. */
    ghost var leaked: Page?

    ghost function Refs(): (r: map<Page, int>)
      reads `live, live
      ensures r.Keys == live
    {
      map p | p in live :: p.refCount
    }

    ghost function Contents(): (r: map<Page, seq<Byte>>)
      reads `live, live
      ensures r.Keys == live
    {
      map p | p in live :: p.bytes
    }

    /** Counts are exact, and the pages of each thread show its byte sequence. */
    ghost predicate PagesOk()
      reads this, live
    {
      pageSize > 0 && StateOk<Page>(held, Refs(), lost, Contents(), model.views, pageSize)
    }

    lemma PagesOkFrom(
      h: map<int, seq<Page>>, refs: map<Page, int>, l: map<Page, nat>, bytes: map<Page, seq<Byte>>,
      views: map<int, seq<Byte>>)
      requires pageSize > 0 && StateOk<Page>(h, refs, l, bytes, views, pageSize)
      requires held == h && Refs() == refs && lost == l && Contents() == bytes && model.views == views
      ensures PagesOk()
    {}

    /** A slot is free from `model.used` on; before, it holds a storage or was given up. */
    ghost predicate SlotOk(i: nat)
      requires i < pairs.Length
      reads this, pairs
    {
      if !initialize then pairs[i] == DESTROYED
      else if i >= model.used then pairs[i] == FREE
      else
        var tid := pairs[i].tid;
        pairs[i] == DESTROYED ||
        (tid in storages && tid in slots && slots[tid] == i && pairs[i].tls == storages[tid])
    }

    ghost predicate StorageOk(t: int)
      requires t in storages
      reads this, pairs, storages.Values
    {
      && IsThread(t) && t in slots && t in held && t in model.views
      && slots[t] < model.used && slots[t] < pairs.Length && pairs[slots[t]] == Pair(t, storages[t])
      && storages[t].tid == t
      && storages[t].size == |model.views[t]| > 0 && pageSize > 0
      && storages[t].pageNum == PageNum(storages[t].size, pageSize)
      && storages[t].pages == held[t]
    }

    ghost predicate SlotsOk()
      reads this, pairs, storages.Values
    {
      && pairs.Length == MAX_THREAD_COUNT && model.used <= MAX_THREAD_COUNT
      && (!initialize ==> model.used == 0)
      && storages.Keys == model.views.Keys
      && (forall i: nat :: i < MAX_THREAD_COUNT ==> SlotOk(i))
      && (forall t {:trigger StorageOk(t)} :: t in storages ==> StorageOk(t))
    }

    static ghost predicate Positive(refs: map<Page, int>) {
      forall p :: p in refs ==> refs[p] >= 1
    }

    ghost predicate OnlyAccessible(ps: seq<Page>)
      reads `live, live
    {
      forall p :: p in live ==> (p.accessible <==> p in ps)
    }

    /** Between calls every mapped page is inaccessible. */
    ghost predicate Valid()
      reads this, pairs, live, storages.Values
    {
      && PagesOk() && SlotsOk() && OnlyAccessible([])
      && held.Keys == storages.Keys
      && LossKnown()
    }

    /** References are lost exactly when a clone was refused a slot. */
    ghost predicate LossKnown()
      reads this
    {
      && (!model.lossy ==> lost == map[])
      && (model.lossy ==> leaked != null && leaked in live && leaked in lost && lost[leaked] > 0)
    }

    constructor (pageSize: nat)
      requires pageSize > 0
      ensures Valid() && this.pageSize == pageSize && fresh(pairs)
      ensures model == Unused()
    {
      this.pageSize := pageSize;
      pairs := new Pair[MAX_THREAD_COUNT](_ => DESTROYED);
      initialize := false;
      storages, slots, held, live, lost := map[], map[], map[], {}, map[];
      model, leaked := Unused(), null;
    }

    // -------------------------------------------------------------------------------------------
    // The registry
    // -------------------------------------------------------------------------------------------

    /** tls_init: every slot becomes free. */
    method Init()
      requires Valid() && !initialize
      modifies `initialize, pairs
      ensures Valid() && initialize
    {
      forall k: nat | k < MAX_THREAD_COUNT
        ensures pairs[k] == DESTROYED
      {
        assert SlotOk(k);
      }
      assert storages.Keys == {} by { NoStorages(); }
      initialize := true;
      for i := 0 to MAX_THREAD_COUNT
        invariant initialize
        invariant forall k :: 0 <= k < i ==> pairs[k] == FREE
        invariant forall k :: i <= k < MAX_THREAD_COUNT ==> pairs[k] == DESTROYED
      {
        pairs[i] := Pair(-1, pairs[i].tls);
      }
    }

    lemma NoStorages()
      requires SlotsOk() && model.used == 0
      ensures storages.Keys == {}
    {
      forall t: int
        ensures t !in storages.Keys
      {
        assert t in storages ==> StorageOk(t);
      }
    }

    /** The scan of the registry for the storage of a thread. */
    method Find(tid: int) returns (tls: Tls?)
      requires SlotsOk()
      ensures tls == if tid in storages then storages[tid] else null
      ensures Refs() == old(Refs())
    {
      tls := null;
      assert tid in storages ==> StorageOk(tid);
      for i := 0 to MAX_THREAD_COUNT
        invariant tid in storages ==> tid in slots && i <= slots[tid] < MAX_THREAD_COUNT
      {
        assert SlotOk(i) && (tid in storages ==> StorageOk(tid));
        if pairs[i].tid == tid {
          return pairs[i].tls;
        }
      }
    }

    /** The scan for a free slot, or -1. */
    method FreeSlot() returns (slot: int)
      requires SlotsOk()
      ensures slot == if initialize && model.used < MAX_THREAD_COUNT then model.used else -1
      ensures Refs() == old(Refs()) && Contents() == old(Contents())
    {
      slot := -1;
      for i := 0 to MAX_THREAD_COUNT
        invariant initialize ==> i <= model.used
      {
        assert SlotOk(i);
        assert pairs[i].tid in storages ==> StorageOk(pairs[i].tid);
        if pairs[i].tid == -1 {
          return i;
        }
      }
    }

    // -------------------------------------------------------------------------------------------
    // Protection
    // -------------------------------------------------------------------------------------------

    /** The loop of tls_unprotect calls at the start of a read or write. */
    method UnprotectAll(tls: Tls)
      requires PagesOk() && OnlyAccessible([]) && (forall p :: p in tls.pages ==> p in live)
      modifies live`accessible
      ensures PagesOk() && OnlyAccessible(tls.pages) && Refs() == old(Refs())
    {
      for i := 0 to |tls.pages|
        invariant OnlyAccessible(tls.pages[..i])
      {
        tls.pages[i].accessible := true;
        assert tls.pages[..i + 1] == tls.pages[..i] + [tls.pages[i]];
      }
      assert tls.pages[..|tls.pages|] == tls.pages;
      assert Refs() == old(Refs()) && Contents() == old(Contents());
    }

    /** The loop of tls_protect calls at the end. */
    method ProtectAll(tls: Tls)
      requires PagesOk() && OnlyAccessible(tls.pages) && (forall p :: p in tls.pages ==> p in live)
      modifies live`accessible
      ensures PagesOk() && OnlyAccessible([]) && Refs() == old(Refs())
    {
      for i := 0 to |tls.pages|
        invariant forall p :: p in live && p.accessible ==> p in tls.pages[i..]
      {
        tls.pages[i].accessible := false;
        assert tls.pages[i..] == [tls.pages[i]] + tls.pages[i + 1..];
      }
      assert Refs() == old(Refs()) && Contents() == old(Contents());
    }

    // -------------------------------------------------------------------------------------------
    // Reading and writing bytes
    // -------------------------------------------------------------------------------------------

    /** The page of a position of a storage is mapped, and holds its byte at its place. */
    lemma PageOf(t: int, idx: nat)
      requires PagesOk() && t in model.views && idx < |model.views[t]|
      ensures t in held && idx / pageSize < |held[t]| && held[t][idx / pageSize] in live
      ensures |held[t][idx / pageSize].bytes| == pageSize && idx % pageSize < pageSize
      ensures held[t][idx / pageSize].bytes[idx % pageSize] == model.views[t][idx]
      ensures NoDuplicates<Page>(held[t])
    {
      assert HasView<Page>(held, Contents(), model.views, pageSize, t);
      assert ShowsAt<Page>(held[t], Contents(), pageSize, model.views[t], idx);
      assert Holds<Page>(held, Refs(), t);
      assert held[t][idx / pageSize] in Contents();
    }

    /** One turn of the loop of tls_read. */
    method ReadByte(tls: Tls, idx: nat) returns (b: Byte)
      requires PagesOk() && tls.tid in held && held[tls.tid] == tls.pages && OnlyAccessible(tls.pages)
      requires tls.tid in model.views && idx < |model.views[tls.tid]|
      ensures b == model.views[tls.tid][idx]
    {
      PageOf(tls.tid, idx);
      var pn := idx / pageSize;
      var poff := idx % pageSize;
      var p := tls.pages[pn];
      b := p.Load(poff);
    }

    /** Copy a page, put the copy in its place, and let go of the original, which is protected again. */
    method CopyPage(tls: Tls, pn: nat) returns (copy: Page)
      requires OnlyAccessible(tls.pages) && pn < |tls.pages| && tls.pages[pn] in live && NoDuplicates<Page>(tls.pages)
      modifies `held, `live, tls, live
      ensures held == old(held)[tls.tid := tls.pages] && copy !in lost
      ensures fresh(copy) && tls.pages == old(tls.pages)[pn := copy] && live == old(live) + {copy}
      ensures OnlyAccessible(tls.pages)
      ensures var p := old(tls.pages[pn]);
        && Refs() == old(Refs())[p := old(Refs())[p] - 1][copy := 1]
        && Contents() == old(Contents())[copy := old(Contents())[p]]
    {
      var p := tls.pages[pn];
      var memory := p.LoadAll();
      copy := new Page(memory, true);
      tls.pages := tls.pages[pn := copy];
      p.refCount := p.refCount - 1;
      p.accessible := false;
      live := live + {copy};
      held := held[tls.tid := tls.pages];
      forall q | q in live
        ensures q.accessible <==> q in tls.pages
      {
        AfterReplace(old(tls.pages), pn, copy, q);
      }
    }

    /** The page under a write, if it is shared. */
    method SplitPage(tls: Tls, pn: nat)
      requires PagesOk() && tls.tid in held && held[tls.tid] == tls.pages && OnlyAccessible(tls.pages)
      requires pn < |tls.pages| && tls.pages[pn] in live && tls.pages[pn].refCount > 1 && NoDuplicates<Page>(tls.pages)
      modifies `held, `live, tls, live
      ensures PagesOk() && OnlyAccessible(tls.pages)
      ensures pn < |tls.pages| && fresh(tls.pages[pn]) && tls.pages == old(tls.pages)[pn := tls.pages[pn]]
      ensures held == old(held)[tls.tid := tls.pages]
      ensures live == old(live) + {tls.pages[pn]}
      ensures var p := old(tls.pages[pn]);
        p in old(live) && Refs() == old(Refs())[p := old(Refs())[p] - 1][tls.pages[pn] := 1]
    {
      ghost var h, refs, l, bytes, views := held, Refs(), lost, Contents(), model.views;
      ghost var p := tls.pages[pn];
      var copy := CopyPage(tls, pn);
      SplitKeeps<Page>(h, refs, l, bytes, views, pageSize, tls.tid, pn, copy);
      PagesOkFrom(h[tls.tid := h[tls.tid][pn := copy]], refs[p := refs[p] - 1][copy := 1], l,
                  bytes[copy := bytes[p]], views);
    }

    /** A live page has at least one reference. */
    lemma Referenced(p: Page)
      requires PagesOk() && p in live
      ensures p.refCount >= 1
    {
      assert Exact<Page>(held, Refs(), lost, p);
    }

    /** The store at the end of a turn of the loop of tls_write. */
    method StoreByte(tls: Tls, idx: nat, b: Byte)
      requires PagesOk() && tls.tid in held && held[tls.tid] == tls.pages && OnlyAccessible(tls.pages)
      requires tls.tid in model.views && idx < |model.views[tls.tid]|
      requires idx / pageSize < |tls.pages| && tls.pages[idx / pageSize].refCount == 1
      modifies `model, live`bytes
      ensures PagesOk() && OnlyAccessible(tls.pages) && Refs() == old(Refs())
      ensures model == old(model).(views :=
        old(model.views)[tls.tid := SetAt(old(model.views)[tls.tid], idx, b)])
    {
      PageOf(tls.tid, idx);
      var pn := idx / pageSize;
      var poff := idx % pageSize;
      var p := tls.pages[pn];
      ghost var h, refs, l, bytes, views := held, Refs(), lost, Contents(), model.views;
      PokeKeeps<Page>(h, refs, l, bytes, views, pageSize, tls.tid, idx, b);
      p.Store(poff, b);
      model := model.(views := views[tls.tid := SetAt(views[tls.tid], idx, b)]);
      PagesOkFrom(h, refs, l, bytes[p := SetAt(bytes[p], poff, b)], model.views);
    }

    /** One turn of the loop of tls_write. */
    method WriteByte(tls: Tls, idx: nat, b: Byte)
      requires PagesOk() && tls.tid in held && held[tls.tid] == tls.pages && OnlyAccessible(tls.pages)
      requires tls.tid in model.views && idx < |model.views[tls.tid]|
      modifies `held, `live, `model, tls, live
      ensures PagesOk() && OnlyAccessible(tls.pages) && held == old(held)[tls.tid := tls.pages]
      ensures model == old(model).(views :=
        old(model.views)[tls.tid := SetAt(old(model.views)[tls.tid], idx, b)])
      ensures fresh(live - old(live))
      ensures CopyStep<Page>(old(tls.pages), old(Refs()), tls.pages, Refs(), idx / pageSize)
    {
      PageOf(tls.tid, idx);
      var pn := idx / pageSize;
      Referenced(tls.pages[pn]);
      if tls.pages[pn].refCount > 1 {
        SplitPage(tls, pn);
        assert Refs()[tls.pages[pn]] == 1;
      }
      StoreByte(tls, idx, b);
    }

    /** The loop of tls_read. */
    method ReadBytes(tls: Tls, offset: nat, end: nat) returns (data: seq<Byte>)
      requires PagesOk() && tls.tid in held && held[tls.tid] == tls.pages && OnlyAccessible(tls.pages)
      requires tls.tid in model.views && end <= |model.views[tls.tid]|
      ensures data == if offset <= end then model.views[tls.tid][offset..end] else []
    {
      data := [];
      var idx := offset;
      while idx < end
        invariant offset <= end ==> idx <= end && data == model.views[tls.tid][offset..idx]
        invariant offset > end ==> data == []
      {
        var b := ReadByte(tls, idx);
        data := data + [b];
        idx := idx + 1;
      }
    }

    /** The pages of a storage as the pure predicates need them. */
    lemma PagesOf(tls: Tls)
      requires PagesOk() && tls.tid in held && held[tls.tid] == tls.pages
      ensures NoDuplicates<Page>(tls.pages)
      ensures forall k :: 0 <= k < |tls.pages| ==> tls.pages[k] in live
      ensures Positive(Refs())
    {
      assert Holds<Page>(held, Refs(), tls.tid);
      forall p | p in live
        ensures Refs()[p] >= 1
      {
        Referenced(p);
      }
    }

    /** `WriteByte` advances what the whole write has done so far. */
    method WriteTurn(
      tls: Tls, offset: nat, idx: nat, buffer: seq<Byte>, cnt: nat,
      ghost ps0: seq<Page>, ghost refs0: map<Page, int>, ghost l0: Library)
      requires PagesOk() && tls.tid in held && held[tls.tid] == tls.pages && OnlyAccessible(tls.pages)
      requires tls.tid in l0.views && idx == offset + cnt && cnt < |buffer| && offset + |buffer| <= |l0.views[tls.tid]|
      requires NoDuplicates<Page>(ps0) && Positive(refs0)
      requires MinimalCopying<Page>(ps0, refs0, tls.pages, Refs(), offset, idx, pageSize)
      requires model == Written(l0, tls.tid, offset, buffer[..cnt])
      modifies `held, `live, `model, tls, live
      ensures PagesOk() && OnlyAccessible(tls.pages) && held == old(held)[tls.tid := tls.pages]
      ensures fresh(live - old(live))
      ensures MinimalCopying<Page>(ps0, refs0, tls.pages, Refs(), offset, idx + 1, pageSize)
      ensures model == Written(l0, tls.tid, offset, buffer[..cnt + 1])
    {
      ghost var ps, refs := tls.pages, Refs();
      WriteAdvances(l0, tls.tid, offset, buffer, cnt);
      WriteByte(tls, idx, buffer[cnt]);
      CopyingAdvances<Page>(ps0, refs0, ps, refs, tls.pages, Refs(), offset, idx, pageSize);
    }

    lemma WriteStarts(tls: Tls, offset: nat, end: nat, buffer: seq<Byte>)
      requires PagesOk() && tls.tid in held && held[tls.tid] == tls.pages
      requires tls.tid in model.views && end <= |model.views[tls.tid]|
      ensures NoDuplicates<Page>(tls.pages) && Positive(Refs())
      ensures MinimalCopying<Page>(tls.pages, Refs(), tls.pages, Refs(), offset, offset, pageSize)
      ensures offset <= end ==> model == Written(model, tls.tid, offset, buffer[..0])
    {
      PagesOf(tls);
      NothingCopied<Page>(tls.pages, Refs(), offset, pageSize);
      if offset <= end {
        NothingWritten(model, tls.tid, offset, buffer);
      }
    }

    /** The loop of tls_write, on a range of the storage. */
    method WriteBytes(tls: Tls, offset: nat, end: nat, buffer: seq<Byte>)
      requires PagesOk() && tls.tid in held && held[tls.tid] == tls.pages && OnlyAccessible(tls.pages)
      requires tls.tid in model.views && end <= |model.views[tls.tid]|
      requires offset <= end ==> |buffer| == end - offset
      modifies `held, `live, `model, tls, live
      ensures PagesOk() && OnlyAccessible(tls.pages) && held == old(held)[tls.tid := tls.pages]
      ensures model == if offset > end then old(model) else Written(old(model), tls.tid, offset, buffer)
      ensures fresh(live - old(live))
      ensures MinimalCopying<Page>(old(tls.pages), old(Refs()), tls.pages, Refs(), offset, Max(offset, end), pageSize)
    {
      ghost var ps0, refs0, l0 := tls.pages, Refs(), model;
      var cnt, idx := 0, offset;
      WriteStarts(tls, offset, end, buffer);
      while idx < end
        invariant PagesOk() && OnlyAccessible(tls.pages) && held == old(held)[tls.tid := tls.pages]
        invariant offset <= end ==> idx <= end && cnt == idx - offset
        invariant offset > end ==> idx == offset
        invariant model == if offset > end then l0 else Written(l0, tls.tid, offset, buffer[..cnt])
        invariant fresh(live - old(live))
        invariant MinimalCopying<Page>(ps0, refs0, tls.pages, Refs(), offset, idx, pageSize)
      {
        WriteTurn(tls, offset, idx, buffer, cnt, ps0, refs0, l0);
        cnt, idx := cnt + 1, idx + 1;
      }
      assert offset <= end ==> buffer[..cnt] == buffer;
    }

    // -------------------------------------------------------------------------------------------
    // Calls that read and write
    // -------------------------------------------------------------------------------------------

    /** What `Valid` says of the storage of a thread. */
    lemma StorageOf(t: int)
      requires Valid() && t in storages
      ensures t in held && t in model.views && storages[t].tid == t && storages[t].pages == held[t]
      ensures storages[t].size == |model.views[t]| > 0
      ensures storages[t].pageNum == |held[t]| == PageNum(|model.views[t]|, pageSize)
      ensures forall p :: p in storages[t].pages ==> p in live
    {
      assert StorageOk(t) && HasView<Page>(held, Contents(), model.views, pageSize, t);
      PagesOf(storages[t]);
    }

    /** The three loops of tls_read. */
    method ReadPages(tls: Tls, offset: nat, end: nat) returns (data: seq<Byte>)
      requires PagesOk() && tls.tid in held && held[tls.tid] == tls.pages && OnlyAccessible([])
      requires tls.tid in model.views && end <= |model.views[tls.tid]|
      modifies live`accessible
      ensures PagesOk() && OnlyAccessible([])
      ensures data == if offset <= end then model.views[tls.tid][offset..end] else []
    {
      PagesOf(tls);
      UnprotectAll(tls);
      data := ReadBytes(tls, offset, end);
      ProtectAll(tls);
    }

    /** tls_read once the storage is found and the range is checked. */
    method ReadStorage(self: int, tls: Tls, offset: nat, end: nat) returns (data: seq<Byte>)
      requires Valid() && self in storages && tls == storages[self]
      requires self in model.views && end <= |model.views[self]|
      modifies live`accessible
      ensures Valid()
      ensures data == if offset <= end then model.views[self][offset..end] else []
    {
      StorageOf(self);
      data := ReadPages(tls, offset, end);
    }

    method Read(self: int, offset: nat, length: nat) returns (code: int, data: seq<Byte>)
      requires Valid() && Allowed(model, Call(self, Op.Read(offset, length)))
      modifies live`accessible
      ensures Valid()
      ensures (model, Result(code, data)) == ReadStep(old(model), self, offset, length)
    {
      var tls := Find(self);
      if tls == null {
        return -1, [];
      }
      StorageOf(self);
      var end := End(offset, length);
      if end > tls.size {
        return -1, [];
      }
      data := ReadStorage(self, tls, offset, end);
      code := 0;
    }

    lemma OtherStorages(self: int)
      requires SlotsOk() && self in storages
      ensures forall t :: t in storages && t != self ==> storages[t] != storages[self]
    {
      assert StorageOk(self);
      forall t | t in storages && t != self
        ensures storages[t] != storages[self]
      {
        assert StorageOk(t);
      }
    }

    /** What a call does to pages keeps the registry, as long as each storage is known to hold what it holds. */
    twostate lemma SlotsKept()
      requires old(SlotsOk())
      requires unchanged(pairs) && unchanged(`storages, `slots, `initialize)
      requires forall t :: t in storages ==> t in held && storages[t].pages == held[t]
      requires model.used == old(model.used) && model.views.Keys == old(model.views.Keys)
      requires forall t :: t in model.views ==> |model.views[t]| == old(|model.views[t]|)
      ensures SlotsOk()
    {
      forall t | t in storages
        ensures StorageOk(t)
      {
        assert old(StorageOk(t));
      }
      forall i: nat | i < MAX_THREAD_COUNT
        ensures SlotOk(i)
      {
        assert old(SlotOk(i));
      }
    }

    /** The storages and what they hold. */
    lemma AllHeld()
      requires SlotsOk()
      ensures forall t :: t in storages ==> t in held && storages[t].pages == held[t]
    {
      forall t | t in storages
        ensures t in held && storages[t].pages == held[t]
      {
        assert StorageOk(t);
      }
    }

    /** The three loops of tls_write. */
    method WritePages(tls: Tls, offset: nat, end: nat, buffer: seq<Byte>)
      requires PagesOk() && tls.tid in held && held[tls.tid] == tls.pages && OnlyAccessible([]) && LossKnown()
      requires tls.tid in model.views && end <= |model.views[tls.tid]|
      requires offset <= end ==> |buffer| == end - offset
      modifies `held, `live, `model, tls, live
      ensures PagesOk() && OnlyAccessible([]) && held == old(held)[tls.tid := tls.pages] && LossKnown()
      ensures model == if offset > end then old(model) else Written(old(model), tls.tid, offset, buffer)
      ensures fresh(live - old(live))
      ensures MinimalCopying<Page>(old(tls.pages), old(Refs()), tls.pages, Refs(), offset, Max(offset, end), pageSize)
    {
      PagesOf(tls);
      UnprotectAll(tls);
      WriteBytes(tls, offset, end, buffer);
      PagesOf(tls);
      ProtectAll(tls);
      if model.lossy {
        ghost var p: Page := leaked;
        assert KeptAt<Page>(old(tls.pages), old(Refs()), tls.pages, Refs(), p);
      }
    }

    /** `WritePages` leaves the registry as it was. */
    method WriteKept(self: int, tls: Tls, offset: nat, end: nat, buffer: seq<Byte>)
      requires PagesOk() && SlotsOk() && OnlyAccessible([]) && LossKnown()
      requires self in storages && tls == storages[self] && tls.tid == self && self in held && held[self] == tls.pages
      requires self in model.views && end <= |model.views[self]|
      requires offset <= end ==> |buffer| == end - offset
      modifies `held, `live, `model, tls, live
      ensures PagesOk() && SlotsOk() && OnlyAccessible([]) && LossKnown()
      ensures held == old(held)[self := tls.pages] && fresh(live - old(live))
      ensures model == if offset > end then old(model) else Written(old(model), self, offset, buffer)
      ensures MinimalCopying<Page>(old(tls.pages), old(Refs()), tls.pages, Refs(), offset, Max(offset, end), pageSize)
    {
      OtherStorages(self);
      AllHeld();
      WritePages(tls, offset, end, buffer);
      SlotsKept();
    }

    /** tls_write once the storage is found and the range is checked. */
    method WriteStorage(self: int, tls: Tls, offset: nat, end: nat, buffer: seq<Byte>)
      requires Valid() && self in storages && tls == storages[self]
      requires self in model.views && end <= |model.views[self]|
      requires offset <= end ==> |buffer| == end - offset
      modifies `held, `live, `model, tls, live
      ensures Valid() && fresh(live - old(live))
      ensures model == if offset > end then old(model) else Written(old(model), self, offset, buffer)
      ensures self in held && self in old(held) && held == old(held)[self := held[self]]
      ensures MinimalCopying<Page>(old(held[self]), old(Refs()), held[self], Refs(), offset, Max(offset, end), pageSize)
    {
      StorageOf(self);
      WriteKept(self, tls, offset, end, buffer);
    }

    /** The pages of a thread's storage, if it has one. */
    ghost function PagesHeld(t: int): seq<Page>
      reads `held
    {
      if t in held then held[t] else []
    }

    /** tls_write once the storage is found. */
    method WriteFound(self: int, tls: Tls, offset: nat, buffer: seq<Byte>) returns (code: int)
      requires Valid() && Allowed(model, Call(self, Op.Write(offset, buffer)))
      requires self in storages && tls == storages[self]
      modifies `held, `live, `model, tls, live
      ensures Valid() && fresh(live - old(live)) && held == old(held)[self := PagesHeld(self)]
      ensures (model, Result(code, [])) == WriteStep(old(model), self, offset, buffer)
      ensures code == 0 ==> MinimalCopying<Page>(
        old(PagesHeld(self)), old(Refs()), PagesHeld(self), Refs(),
        offset, Max(offset, End(offset, |buffer|)), pageSize)
    {
      StorageOf(self);
      var end := End(offset, |buffer|);
      if end > tls.size {
        return -1;
      }
      WriteStorage(self, tls, offset, end, buffer);
      code := 0;
    }

    method Write(self: int, offset: nat, buffer: seq<Byte>) returns (code: int)
      requires Valid() && Allowed(model, Call(self, Op.Write(offset, buffer)))
      modifies `held, `live, `model, storages.Values, live
      ensures Valid() && fresh(live - old(live))
      ensures (model, Result(code, [])) == WriteStep(old(model), self, offset, buffer)
      ensures code == 0 ==> held == old(held)[self := PagesHeld(self)] && MinimalCopying<Page>(
        old(PagesHeld(self)), old(Refs()), PagesHeld(self), Refs(),
        offset, Max(offset, End(offset, |buffer|)), pageSize)
    {
      var tls := Find(self);
      if tls == null {
        code := -1;
      } else {
        code := WriteFound(self, tls, offset, buffer);
      }
    }

    // -------------------------------------------------------------------------------------------
    // New storages
    // -------------------------------------------------------------------------------------------

    /** One turn of the loop of tls_create. */
    method MapPage(tls: Tls) returns (p: Page)
      requires OnlyAccessible([])
      modifies `held, `live, tls`pages
      ensures fresh(p) && p !in lost && OnlyAccessible([])
      ensures live == old(live) + {p} && tls.pages == old(tls.pages) + [p]
      ensures held == old(held)[tls.tid := tls.pages]
      ensures Refs() == old(Refs())[p := 1] && Contents() == old(Contents())[p := Zeros(pageSize)]
    {
      p := new Page(Zeros(pageSize), false);
      tls.pages := tls.pages + [p];
      live := live + {p};
      held := held[tls.tid := tls.pages];
    }

    /** The loop of tls_create. */
    method MapPages(tls: Tls)
      requires PagesOk() && OnlyAccessible([])
      requires tls.tid in held && tls.tid !in model.views && held[tls.tid] == tls.pages == []
      modifies `held, `live, tls`pages
      ensures PagesOk() && OnlyAccessible([]) && old(live) <= live && fresh(live - old(live))
      ensures held == old(held)[tls.tid := tls.pages]
      ensures |tls.pages| == tls.pageNum
      ensures forall k :: 0 <= k < |tls.pages| ==> tls.pages[k] in live && tls.pages[k].bytes == Zeros(pageSize)
    {
      for i := 0 to tls.pageNum
        invariant PagesOk() && OnlyAccessible([]) && old(live) <= live && fresh(live - old(live))
        invariant held == old(held)[tls.tid := tls.pages] && |tls.pages| == i
        invariant forall k :: 0 <= k < i ==> tls.pages[k] in live && tls.pages[k].bytes == Zeros(pageSize)
      {
        ghost var h, refs, bytes := held, Refs(), Contents();
        var p := MapPage(tls);
        MapKeeps<Page>(h, refs, lost, bytes, model.views, pageSize, tls.tid, p);
        PagesOkFrom(h[tls.tid := h[tls.tid] + [p]], refs[p := 1], lost, bytes[p := Zeros(pageSize)], model.views);
      }
    }

    /** A storage gets the free slot that was found, and its thread the view that its pages show. */
    method Register(self: int, slot: nat, tls: Tls, ghost view: seq<Byte>)
      requires PagesOk() && SlotsOk() && IsThread(self) && self !in storages
      requires initialize && slot == model.used < MAX_THREAD_COUNT
      requires self in held && tls.tid == self && tls.pages == held[self]
      requires tls.size == |view| > 0 && tls.pageNum == |held[self]| == PageNum(|view|, pageSize)
      requires Shows<Page>(held[self], Contents(), pageSize, view)
      modifies `storages, `slots, `model, pairs
      ensures PagesOk() && SlotsOk() && storages == old(storages)[self := tls]
      ensures model == old(model).(views := old(model.views)[self := view], used := old(model.used) + 1)
    {
      GainView<Page>(held, Refs(), lost, Contents(), model.views, pageSize, self, view);
      ghost var refs, bytes, views := Refs(), Contents(), model.views[self := view];
      pairs[slot] := Pair(self, tls);
      storages, slots := storages[self := tls], slots[self := slot];
      model := model.(views := views, used := model.used + 1);
      PagesOkFrom(held, refs, lost, bytes, views);
      Registered(self);
    }

    twostate lemma Registered(self: int)
      requires old(SlotsOk()) && IsThread(self) && self !in old(storages) && self in storages
      requires old(initialize) && initialize && held == old(held)
      requires old(model.used) < MAX_THREAD_COUNT && model.used == old(model.used) + 1
      requires pairs[..] == old(pairs[..])[old(model.used) := Pair(self, storages[self])]
      requires storages == old(storages)[self := storages[self]] && slots == old(slots)[self := old(model.used)]
      requires model.views.Keys == old(model.views.Keys) + {self}
      requires forall t :: t in old(storages) ==> t in model.views && model.views[t] == old(model.views[t])
      requires forall t :: t in old(storages) ==> storages[t].pages == old(storages[t].pages)
      requires self in held && storages[self].tid == self && storages[self].pages == held[self] && pageSize > 0
      requires storages[self].size == |model.views[self]| > 0
      requires storages[self].pageNum == PageNum(storages[self].size, pageSize)
      ensures SlotsOk()
    {
      forall t | t in storages
        ensures StorageOk(t)
      {
        assert t != self ==> old(StorageOk(t));
        assert pairs[slots[t]] == pairs[..][slots[t]];
      }
      forall i: nat | i < MAX_THREAD_COUNT
        ensures SlotOk(i)
      {
        assert old(SlotOk(i));
        assert pairs[i] == pairs[..][i];
      }
    }

    /** The only storage that was not in the registry yet takes its slot. */
    method Admit(self: int, slot: nat, tls: Tls, ghost view: seq<Byte>)
      requires PagesOk() && SlotsOk() && OnlyAccessible([]) && LossKnown() && IsThread(self) && self !in storages
      requires initialize && slot == model.used < MAX_THREAD_COUNT && held.Keys == storages.Keys + {self}
      requires tls.tid == self && tls.pages == held[self]
      requires tls.size == |view| > 0 && tls.pageNum == |held[self]| == PageNum(|view|, pageSize)
      requires Shows<Page>(held[self], Contents(), pageSize, view)
      modifies `storages, `slots, `model, pairs
      ensures Valid() && Refs() == old(Refs()) && storages == old(storages)[self := tls]
      ensures model == old(model).(views := old(model.views)[self := view], used := old(model.used) + 1)
    {
      Register(self, slot, tls, view);
    }

    /** A storage of zeros that is not in the registry yet. */
    method NewStorage(self: int, size: nat) returns (tls: Tls)
      requires PagesOk() && OnlyAccessible([]) && size > 0 && self !in held && self !in model.views
      modifies `held, `live
      ensures PagesOk() && OnlyAccessible([]) && old(live) <= live && fresh(live - old(live))
      ensures fresh(tls) && tls.tid == self && tls.size == size && tls.pageNum == PageNum(size, pageSize)
      ensures held == old(held)[self := tls.pages] && |tls.pages| == tls.pageNum
      ensures Shows<Page>(tls.pages, Contents(), pageSize, Zeros(size))
    {
      tls := new Tls(self, size, PageNum(size, pageSize));
      StartKeeps<Page>(held, Refs(), lost, Contents(), model.views, pageSize, self);
      ghost var h, refs, bytes := held[self := []], Refs(), Contents();
      held := held[self := []];
      PagesOkFrom(h, refs, lost, bytes, model.views);
      MapPages(tls);
      ZeroPagesShow<Page>(tls.pages, Contents(), pageSize, size);
    }

    /** `NewStorage` leaves the registry as it was. */
    method StorageFor(self: int, size: nat) returns (tls: Tls)
      requires Valid() && size > 0 && self !in storages
      modifies `held, `live
      ensures PagesOk() && SlotsOk() && OnlyAccessible([]) && LossKnown()
      ensures old(live) <= live && fresh(live - old(live))
      ensures fresh(tls) && tls.tid == self && tls.size == size && tls.pageNum == PageNum(size, pageSize)
      ensures held == old(held)[self := tls.pages] && |tls.pages| == tls.pageNum
      ensures Shows<Page>(tls.pages, Contents(), pageSize, Zeros(size))
    {
      AllHeld();
      tls := NewStorage(self, size);
      SlotsKept();
    }

    /** tls_create once a slot is found and the thread is known to have no storage. */
    method CreateStorage(self: int, slot: nat, size: nat)
      requires Valid() && IsThread(self) && self !in storages && size > 0
      requires initialize && slot == model.used < MAX_THREAD_COUNT
      modifies `held, `live, `storages, `slots, `model, pairs
      ensures Valid() && old(live) <= live && fresh(live - old(live))
      ensures model == old(model).(views := old(model.views)[self := Zeros(size)], used := old(model.used) + 1)
      ensures self in storages && fresh(storages[self]) && storages == old(storages)[self := storages[self]]
    {
      var tls := StorageFor(self, size);
      Admit(self, slot, tls, Zeros(size));
    }

    /** tls_create once the library is initialized. */
    method CreateReady(self: int, size: nat) returns (code: int)
      requires Valid() && initialize && Allowed(model, Call(self, Op.Create(size)))
      modifies `held, `live, `storages, `slots, `model, pairs
      ensures Valid() && old(live) <= live && fresh(live - old(live)) && StoragesGrow(old(storages), self)
      ensures (model, Result(code, [])) == CreateStep(old(model), self, size)
    {
      if size == 0 {
        return -1;
      }
      var slot := FreeSlot();
      var found := Find(self);
      if found != null {
        return -1;
      }
      CreateStorage(self, slot, size);
      code := 0;
    }

    method Create(self: int, size: nat) returns (code: int)
      requires Valid() && Allowed(model, Call(self, Op.Create(size)))
      modifies `held, `live, `storages, `slots, `model, `initialize, pairs
      ensures Valid() && old(live) <= live && fresh(live - old(live)) && StoragesGrow(old(storages), self)
      ensures (model, Result(code, [])) == CreateStep(old(model), self, size)
    {
      if !initialize {
        Init();
      }
      code := CreateReady(self, size);
    }

    // -------------------------------------------------------------------------------------------
    // Clones
    // -------------------------------------------------------------------------------------------

    /**
     One turn of the loop of tls_clone. Whether the new storage will find a slot (`room`) decides if it counts as a
     holder of the page.
     */
    method SharePage(tls: Tls, page: Page, ghost room: bool)
      requires PagesOk() && OnlyAccessible([]) && page in live && tls.tid !in model.views
      requires room ==> tls.tid in held && held[tls.tid] == tls.pages && page !in tls.pages
      modifies `held, `lost, tls`pages, page`refCount
      ensures PagesOk() && OnlyAccessible([]) && Contents() == old(Contents())
      ensures tls.pages == old(tls.pages) + [page]
      ensures held == if room then old(held)[tls.tid := tls.pages] else old(held)
      ensures room ==> lost == old(lost)
      ensures !room ==> lost == old(lost)[page := LostOf(old(lost), page) + 1]
      ensures Refs() == old(Refs())[page := old(page.refCount) + 1]
    {
      ghost var h, refs, l, bytes := held, Refs(), lost, Contents();
      tls.pages := tls.pages + [page];
      page.refCount := page.refCount + 1;
      ghost var refs' := refs[page := refs[page] + 1];
      if room {
        held := h[tls.tid := h[tls.tid] + [page]];
        ShareKeeps<Page>(h, refs, l, bytes, model.views, pageSize, tls.tid, page);
      } else {
        lost := l[page := LostOf(l, page) + 1];
        LoseKeeps<Page>(h, refs, l, bytes, model.views, pageSize, page);
      }
      assert Refs() == refs' && Contents() == bytes;
      PagesOkFrom(held, refs', lost, bytes, model.views);
    }

    /** The loop of tls_clone. */
    method SharePages(tls: Tls, target: Tls, ghost room: bool)
      requires PagesOk() && OnlyAccessible([]) && tls != target && tls.tid !in model.views && tls.pages == []
      requires NoDuplicates<Page>(target.pages) && |target.pages| == tls.pageNum
      requires forall p :: p in target.pages ==> p in live
      requires room ==> tls.tid in held && held[tls.tid] == []
      modifies `held, `lost, tls`pages, live`refCount
      ensures PagesOk() && OnlyAccessible([]) && Contents() == old(Contents())
      ensures tls.pages == target.pages && Shared<Page>(tls.pages, old(Refs()), Refs())
      ensures held == if room then old(held)[tls.tid := tls.pages] else old(held)
      ensures room ==> lost == old(lost)
      ensures !room ==> forall p :: p in tls.pages ==> p in lost && lost[p] > 0
    {
      ghost var ps, refs0 := target.pages, Refs();
      for i := 0 to tls.pageNum
        invariant PagesOk() && OnlyAccessible([]) && Contents() == old(Contents())
        invariant tls.pages == ps[..i] && Shared<Page>(ps[..i], refs0, Refs())
        invariant held == if room then old(held)[tls.tid := tls.pages] else old(held)
        invariant room ==> lost == old(lost)
        invariant !room ==> forall p :: p in ps[..i] ==> p in lost && lost[p] > 0
      {
        ghost var refs := Refs();
        assert ps[..i + 1] == ps[..i] + [ps[i]];
        SharePage(tls, target.pages[i], room);
        ShareAdvances<Page>(ps, refs0, refs, Refs(), i);
      }
      assert ps[..tls.pageNum] == ps;
    }

    /** A storage that shares the pages of another and is not in the registry yet. */
    method NewClone(self: int, target: int, targetTls: Tls, ghost room: bool) returns (tls: Tls)
      requires PagesOk() && OnlyAccessible([]) && self !in held && self !in model.views
      requires target in model.views && target in held && held[target] == targetTls.pages
      requires targetTls.pageNum == |targetTls.pages|
      modifies `held, `lost, live`refCount
      ensures PagesOk() && OnlyAccessible([]) && Contents() == old(Contents())
      ensures fresh(tls) && tls.tid == self && tls.size == targetTls.size && tls.pageNum == targetTls.pageNum
      ensures tls.pages == targetTls.pages && Shows<Page>(tls.pages, Contents(), pageSize, model.views[target])
      ensures held == if room then old(held)[self := tls.pages] else old(held)
      ensures room ==> lost == old(lost)
      ensures !room ==> forall p :: p in tls.pages ==> p in lost && lost[p] > 0
      ensures Shared<Page>(tls.pages, old(Refs()), Refs())
    {
      tls := new Tls(self, targetTls.size, targetTls.pageNum);
      assert HasView<Page>(held, Contents(), model.views, pageSize, target);
      assert Holds<Page>(held, Refs(), target);
      if room {
        StartKeeps<Page>(held, Refs(), lost, Contents(), model.views, pageSize, self);
        ghost var h, refs, bytes := held[self := []], Refs(), Contents();
        held := held[self := []];
        PagesOkFrom(h, refs, lost, bytes, model.views);
      }
      SharePages(tls, targetTls, room);
    }

    /** The last loop of tls_clone where no slot is free: the pages keep a reference that no storage holds. */
    ghost method Refuse(tls: Tls)
      requires PagesOk() && SlotsOk() && OnlyAccessible([]) && held.Keys == storages.Keys
      requires tls.pages != [] && forall p :: p in tls.pages ==> p in live && p in lost && lost[p] > 0
      modifies `model, `leaked
      ensures Valid() && Refs() == old(Refs()) && model == old(model).(lossy := true)
    {
      AllHeld();
      model, leaked := model.(lossy := true), tls.pages[0];
      SlotsKept();
    }

    /** The last loop of tls_clone: the new storage gets a slot if there is one. */
    method TakeSlot(self: int, tls: Tls, ghost view: seq<Byte>, ghost room: bool)
      requires PagesOk() && SlotsOk() && OnlyAccessible([]) && IsThread(self) && self !in storages
      requires held.Keys == if room then storages.Keys + {self} else storages.Keys
      requires room ==> LossKnown()
      requires !room ==> forall p :: p in tls.pages ==> p in live && p in lost && lost[p] > 0
      requires initialize && room == (model.used < MAX_THREAD_COUNT)
      requires tls.tid == self && (room ==> self in held && tls.pages == held[self])
      requires tls.size == |view| > 0 && tls.pageNum == |tls.pages| == PageNum(|view|, pageSize)
      requires Shows<Page>(tls.pages, Contents(), pageSize, view)
      modifies `storages, `slots, `model, `leaked, pairs
      ensures Valid() && Refs() == old(Refs())
      ensures storages == if room then old(storages)[self := tls] else old(storages)
      ensures model == if room then
        old(model).(views := old(model.views)[self := view], used := old(model.used) + 1)
        else old(model).(lossy := true)
    {
      var slot := FreeSlot();
      if slot != -1 {
        Admit(self, slot, tls, view);
      } else {
        Refuse(tls);
      }
    }

    /** The storage of `target`, shared, with the registry as it was. */
    method CloneOf(self: int, target: int, targetTls: Tls, ghost room: bool) returns (tls: Tls)
      requires Valid() && self !in storages && target in storages && targetTls == storages[target]
      modifies `held, `lost, live`refCount
      ensures PagesOk() && SlotsOk() && OnlyAccessible([]) && initialize && target in model.views
      ensures fresh(tls) && tls.tid == self && tls.size == |model.views[target]| > 0
      ensures tls.pageNum == |tls.pages| == PageNum(|model.views[target]|, pageSize)
      ensures Shows<Page>(tls.pages, Contents(), pageSize, model.views[target])
      ensures held == if room then old(held)[self := tls.pages] else old(held)
      ensures room ==> LossKnown()
      ensures !room ==> forall p :: p in tls.pages ==> p in live && p in lost && lost[p] > 0
      ensures tls.pages == targetTls.pages && Shared<Page>(tls.pages, old(Refs()), Refs())
    {
      AllHeld();
      StorageOf(target);
      assert StorageOk(target);
      tls := NewClone(self, target, targetTls, room);
      SlotsKept();
    }

    /** tls_clone once the target is found and the thread is known to have no storage. No page is copied. */
    method CloneStorage(self: int, target: int, targetTls: Tls, ghost view: seq<Byte>, ghost room: bool)
      returns (tls: Tls)
      requires Valid() && IsThread(self) && self !in storages && target in storages && targetTls == storages[target]
      requires target in model.views && view == model.views[target] && room == (model.used < MAX_THREAD_COUNT)
      modifies `held, `lost, `storages, `slots, `model, `leaked, pairs, live`refCount
      ensures Valid()
      ensures Shared<Page>(targetTls.pages, old(Refs()), Refs())
      ensures model == if room then
        old(model).(views := old(model.views)[self := view], used := old(model.used) + 1)
        else old(model).(lossy := true)
      ensures storages == if room then old(storages)[self := tls] else old(storages)
      ensures fresh(tls) && tls.pages == targetTls.pages
    {
      tls := CloneOf(self, target, targetTls, room);
      TakeSlot(self, tls, view, room);
    }

    /** At most a new storage for thread `t` is registered. */
    twostate predicate StoragesGrow(before: map<int, Tls>, t: int)
      reads `storages
    {
      storages == before || (t in storages && fresh(storages[t]) && storages == before[t := storages[t]])
    }

    /** tls_clone once the thread is known to have no storage. */
    method CloneFree(self: int, target: int) returns (code: int)
      requires Valid() && self !in storages && Allowed(model, Call(self, Op.Clone(target)))
      modifies `held, `lost, `storages, `slots, `model, `leaked, pairs, live`refCount
      ensures Valid()
      ensures (model, Result(code, [])) == CloneStep(old(model), self, target)
      ensures StoragesGrow(old(storages), self)
      ensures code == 0 ==>
        target in old(storages) && Shared<Page>(old(storages[target].pages), old(Refs()), Refs())
      ensures code == 0 && old(model.used) < MAX_THREAD_COUNT ==>
        self in storages && storages[self].pages == old(storages[target].pages)
    {
      var targetTls := Find(target);
      if targetTls == null {
        return -1;
      }
      StorageOf(target);
      var tls := CloneStorage(self, target, targetTls, model.views[target], model.used < MAX_THREAD_COUNT);
      code := 0;
    }

    method Clone(self: int, target: int) returns (code: int)
      requires Valid() && Allowed(model, Call(self, Op.Clone(target)))
      modifies `held, `lost, `storages, `slots, `model, `leaked, pairs, live`refCount
      ensures Valid()
      ensures (model, Result(code, [])) == CloneStep(old(model), self, target)
      ensures StoragesGrow(old(storages), self)
      ensures code == 0 ==>
        target in old(storages) && Shared<Page>(old(storages[target].pages), old(Refs()), Refs())
      ensures code == 0 && old(model.used) < MAX_THREAD_COUNT ==>
        self in storages && storages[self].pages == old(storages[target].pages)
    {
      var selfTls := Find(self);
      if selfTls != null {
        return -1;
      }
      code := CloneFree(self, target);
    }

    // -------------------------------------------------------------------------------------------
    // Destruction
    // -------------------------------------------------------------------------------------------

    /** One turn of the loop of tls_destroy: the page is unmapped and freed if this was its last reference. */
    method ReleasePage(self: int, p: Page)
      requires PagesOk() && OnlyAccessible([])
      requires self in held && self !in model.views && held[self] != [] && p == held[self][0] && p in live
      modifies `held, `live, p`refCount
      ensures PagesOk() && OnlyAccessible([]) && live <= old(live)
      ensures held == old(held)[self := old(held[self])[1..]]
      ensures Refs() == if old(Refs())[p] == 1 then old(Refs()) - {p} else old(Refs())[p := old(Refs())[p] - 1]
    {
      ghost var h, refs, bytes := held, Refs(), Contents();
      DropKeeps<Page>(h, refs, lost, bytes, model.views, pageSize, self);
      held := h[self := h[self][1..]];
      if p.refCount == 1 {
        live := live - {p};
        assert Refs() == refs - {p} && Contents() == bytes - {p};
        PagesOkFrom(held, refs - {p}, lost, bytes - {p}, model.views);
      } else {
        p.refCount := p.refCount - 1;
        assert Refs() == refs[p := refs[p] - 1] && Contents() == bytes;
        PagesOkFrom(held, refs[p := refs[p] - 1], lost, bytes, model.views);
      }
    }

    /** The first loop of tls_destroy: exactly the pages with no other reference go. */
    method ReleasePages(tls: Tls)
      requires PagesOk() && OnlyAccessible([])
      requires tls.tid in held && tls.tid !in model.views && held[tls.tid] == tls.pages && tls.pageNum == |tls.pages|
      modifies `held, `live, live`refCount
      ensures PagesOk() && OnlyAccessible([]) && live <= old(live)
      ensures held == old(held)[tls.tid := []]
      ensures Released<Page>(tls.pages, old(Refs()), Refs())
    {
      PagesOf(tls);
      ghost var ps, refs0 := tls.pages, Refs();
      for i := 0 to tls.pageNum
        invariant PagesOk() && OnlyAccessible([]) && live <= old(live)
        invariant held == old(held)[tls.tid := ps[i..]]
        invariant Released<Page>(ps[..i], refs0, Refs())
      {
        ghost var refs := Refs();
        HeldIsLive(tls.tid);
        ReleasePage(tls.tid, tls.pages[i]);
        ReleaseAdvances<Page>(ps, refs0, refs, Refs(), i);
      }
      assert ps[..tls.pageNum] == ps;
    }

    lemma HeldIsLive(t: int)
      requires PagesOk() && t in held && held[t] != []
      ensures held[t][0] in live
    {
      assert Holds<Page>(held, Refs(), t);
    }

    /** The thread has no view from here on, and in the end no pages. */
    method DropStorage(tls: Tls)
      requires PagesOk() && OnlyAccessible([])
      requires tls.tid in held && held[tls.tid] == tls.pages && tls.pageNum == |tls.pages|
      modifies `held, `live, `model, live`refCount
      ensures PagesOk() && OnlyAccessible([]) && live <= old(live)
      ensures held == old(held) - {tls.tid} && model == old(model).(views := old(model.views) - {tls.tid})
      ensures Released<Page>(tls.pages, old(Refs()), Refs())
    {
      LoseView<Page>(held, Refs(), lost, Contents(), model.views, pageSize, tls.tid);
      ghost var h, views := held, model.views - {tls.tid};
      model := model.(views := views);
      ReleasePages(tls);
      ForgetKeeps<Page>(held, Refs(), lost, Contents(), views, pageSize, tls.tid);
      ghost var refs, bytes := Refs(), Contents();
      held := h - {tls.tid};
      assert old(held)[tls.tid := []] - {tls.tid} == held;
      PagesOkFrom(held, refs, lost, bytes, views);
    }

    /** A page with a lost reference outlives its holders. */
    lemma LeakSurvives(self: int)
      requires PagesOk() && LossKnown() && model.lossy && self in held
      ensures leaked in held[self] ==> leaked.refCount > 1
    {
      ghost var p: Page := leaked;
      assert Exact<Page>(held, Refs(), lost, p);
      if p in held[self] {
        assert self in Holders<Page>(held, p);
        assert |Holders<Page>(held, p)| > 0;
      }
    }

    /** `DropStorage` leaves a page that has a lost reference. */
    method DropKnown(tls: Tls)
      requires PagesOk() && OnlyAccessible([]) && LossKnown()
      requires tls.tid in held && held[tls.tid] == tls.pages && tls.pageNum == |tls.pages|
      modifies `held, `live, `model, live`refCount
      ensures PagesOk() && OnlyAccessible([]) && live <= old(live) && LossKnown()
      ensures held == old(held) - {tls.tid} && model == old(model).(views := old(model.views) - {tls.tid})
      ensures Released<Page>(tls.pages, old(Refs()), Refs())
    {
      if model.lossy {
        LeakSurvives(tls.tid);
      }
      DropStorage(tls);
      if model.lossy {
        ghost var p: Page := leaked;
        assert ReleasedAt<Page>(tls.pages, old(Refs()), Refs(), p);
      }
    }

    ghost predicate OnlySlot(self: int, slot: nat)
      reads pairs
    {
      slot < pairs.Length && forall i: nat :: i < pairs.Length ==> (pairs[i].tid == self <==> i == slot)
    }

    lemma SlotOf(self: int)
      requires SlotsOk() && self in storages
      ensures self in slots && OnlySlot(self, slots[self])
    {
      assert StorageOk(self);
      forall i: nat | i < pairs.Length
        ensures pairs[i].tid == self <==> i == slots[self]
      {
        assert SlotOk(i);
      }
    }

    /** The last loop of tls_destroy: the slot is given up for good. */
    method ClearSlot(self: int, ghost slot: nat)
      requires pairs.Length == MAX_THREAD_COUNT && OnlySlot(self, slot)
      modifies pairs
      ensures pairs[..] == old(pairs[..])[slot := DESTROYED]
      ensures Refs() == old(Refs()) && Contents() == old(Contents())
    {
      for i := 0 to MAX_THREAD_COUNT
        invariant i <= slot && pairs[..] == old(pairs[..])
        invariant Refs() == old(Refs()) && Contents() == old(Contents())
      {
        assert pairs[i] == old(pairs[..])[i] == old(pairs[i]);
        if pairs[i].tid == self {
          pairs[i] := Pair(0, null);
          return;
        }
      }
    }

    /** The registry without the storage of a thread. */
    twostate lemma Cleared(self: int)
      requires old(SlotsOk()) && self in old(storages) && self in old(slots)
      requires old(slots)[self] < pairs.Length && pairs[..] == old(pairs[..])[old(slots)[self] := DESTROYED]
      requires storages == old(storages) - {self} && slots == old(slots) - {self}
      requires initialize == old(initialize) && model == old(model).(views := old(model.views) - {self})
      requires forall t :: t in storages ==> t in held && storages[t].pages == held[t]
      ensures SlotsOk()
    {
      assert old(StorageOk(self));
      forall t | t in storages
        ensures StorageOk(t)
      {
        assert old(StorageOk(t));
        assert pairs[slots[t]] == pairs[..][slots[t]];
      }
      forall i: nat | i < MAX_THREAD_COUNT
        ensures SlotOk(i)
      {
        assert old(SlotOk(i));
        assert pairs[i] == pairs[..][i];
      }
    }

    /** The thread is no longer one with a storage. */
    ghost method Forget(self: int)
      modifies `storages, `slots
      ensures storages == old(storages) - {self} && slots == old(slots) - {self}
      ensures Refs() == old(Refs()) && Contents() == old(Contents())
    {
      storages, slots := storages - {self}, slots - {self};
    }

    /** The pages are let go of, and the storage is forgotten, but its slot is not cleared yet. */
    method DropRegistered(self: int, tls: Tls)
      requires Valid() && self in storages && tls == storages[self]
      modifies `held, `live, `storages, `slots, `model, live`refCount
      ensures PagesOk() && OnlyAccessible([]) && live <= old(live)
      ensures storages == old(storages) - {self} && slots == old(slots) - {self} && held.Keys == storages.Keys
      ensures model == old(model).(views := old(model.views) - {self})
      ensures forall t :: t in storages ==> t in held && storages[t].pages == held[t]
      ensures Released<Page>(tls.pages, old(Refs()), Refs()) && LossKnown()
    {
      StorageOf(self);
      AllHeld();
      DropKnown(tls);
      ghost var refs, bytes := Refs(), Contents();
      Forget(self);
      PagesOkFrom(held, refs, lost, bytes, model.views);
    }

    /** tls_destroy once the storage is found. */
    method DestroyStorage(self: int, tls: Tls)
      requires Valid() && IsThread(self) && self in storages && tls == storages[self]
      modifies `held, `live, `storages, `slots, `model, pairs, live`refCount
      ensures Valid() && live <= old(live) && storages == old(storages) - {self}
      ensures model == old(model).(views := old(model.views) - {self})
      ensures Released<Page>(tls.pages, old(Refs()), Refs())
    {
      SlotOf(self);
      ghost var slot := slots[self];
      DropRegistered(self, tls);
      ghost var refs, bytes := Refs(), Contents();
      ClearSlot(self, slot);
      PagesOkFrom(held, refs, lost, bytes, model.views);
      Cleared(self);
    }

    method Destroy(self: int) returns (code: int)
      requires Valid() && Allowed(model, Call(self, Op.Destroy))
      modifies `held, `live, `storages, `slots, `model, pairs, live`refCount
      ensures Valid() && live <= old(live) && storages == old(storages) - {self}
      ensures (model, Result(code, [])) == Step(old(model), Call(self, Op.Destroy))
      ensures code == 0 ==> self in old(storages) && Released<Page>(old(storages[self].pages), old(Refs()), Refs())
    {
      var tls := Find(self);
      if tls == null {
        return -1;
      }
      DestroyStorage(self, tls);
      code := 0;
    }

    // -------------------------------------------------------------------------------------------
    // Runs
    // -------------------------------------------------------------------------------------------

    ghost function Footprint(): set<object>
      reads this
    {
      {this, pairs} + live + storages.Values
    }

    twostate lemma FootprintGrows(t: int)
      requires fresh(live - old(live))
      requires storages == old(storages) - {t} || StoragesGrow(old(storages), t)
      ensures fresh(Footprint() - old(Footprint()))
    {
      forall o: Tls | o in storages.Values
        ensures o in old(storages).Values || fresh(o)
      {
        var u := KeyOf<int, Tls>(storages, o);
        assert (u in old(storages) && storages[u] == old(storages)[u]) || fresh(o);
      }
    }

    /** A call that reads or writes bytes. */
    method Access(call: Call) returns (result: Result)
      requires Valid() && Allowed(model, call) && (call.op.Read? || call.op.Write?)
      modifies Footprint()
      ensures Valid() && fresh(Footprint() - old(Footprint()))
      ensures (model, result) == Step(old(model), call)
    {
      if call.op.Read? {
        var code, data := Read(call.self, call.op.offset, call.op.length);
        result := Result(code, data);
      } else {
        var code := Write(call.self, call.op.offset, call.op.buffer);
        result := Result(code, []);
      }
    }

    method Execute(call: Call) returns (result: Result)
      requires Valid() && Allowed(model, call)
      modifies Footprint()
      ensures Valid() && fresh(Footprint() - old(Footprint()))
      ensures (model, result) == Step(old(model), call)
    {
      var code: int;
      match call.op {
        case Create(size) =>
          code := Create(call.self, size);
          FootprintGrows(call.self);
          result := Result(code, []);
        case Destroy =>
          code := Destroy(call.self);
          FootprintGrows(call.self);
          result := Result(code, []);
        case Clone(target) =>
          code := Clone(call.self, target);
          FootprintGrows(call.self);
          result := Result(code, []);
        case _ =>
          result := Access(call);
      }
    }

    /** Any run of calls, by any threads, does to the storages what it does to the private byte sequences. */
    method Run(calls: seq<Call>) returns (results: seq<Result>)
      requires Valid() && RunAllowed(model, calls)
      modifies Footprint()
      ensures Valid() && model == TlsModel.Run(old(model), calls)
      ensures results == RunResults(old(model), calls)
      decreases |calls|
    {
      if calls == [] {
        return [];
      }
      var first := Execute(calls[0]);
      var rest := Run(calls[1..]);
      results := [first] + rest;
    }

    // -------------------------------------------------------------------------------------------
    // What holds between calls
    // -------------------------------------------------------------------------------------------

    /** The threads whose storage holds page `p`. */
    ghost function HoldersOf(p: Page): set<int>
      reads `storages, storages.Values
    {
      set t | t in storages && p in storages[t].pages
    }

    /**
     The count of every page is the number of storages that hold it exactly as long as no clone was refused a slot. No
     storage ever holds a page twice, and the counts sum to the pages of all storages and the lost references.
     */
    lemma CountsAreExact()
      requires Valid()
      ensures (forall p :: p in live ==> p.refCount == |HoldersOf(p)|) <==> !model.lossy
      ensures forall p :: p in live ==> p.refCount >= 1
      ensures forall t :: t in storages ==> NoDuplicates<Page>(storages[t].pages)
      ensures Sum(Refs().Keys, Refs())
        == Sum(held.Keys, PageCounts<Page>(held)) + Sum(Refs().Keys, LostCounts<Page>(Refs().Keys, lost))
      ensures held.Keys == storages.Keys && forall t :: t in storages ==> held[t] == storages[t].pages
    {
      AllHeld();
      forall p | p in live
        ensures p.refCount == |HoldersOf(p)| + LostOf(lost, p) && p.refCount >= 1
      {
        CountOf(p);
      }
      if model.lossy {
        ghost var p: Page := leaked;
        assert p.refCount == |HoldersOf(p)| + LostOf(lost, p);
      }
      forall t | t in storages
        ensures NoDuplicates<Page>(storages[t].pages)
      {
        StorageOf(t);
        PagesOf(storages[t]);
      }
      CountsSum<Page>(held, Refs(), lost);
    }

    lemma CountOf(p: Page)
      requires Valid() && p in live
      ensures p.refCount == |HoldersOf(p)| + LostOf(lost, p) && p.refCount >= 1
    {
      AllHeld();
      assert Exact<Page>(held, Refs(), lost, p);
      forall t: int
        ensures t in HoldersOf(p) <==> t in Holders<Page>(held, p)
      {}
      assert HoldersOf(p) == Holders<Page>(held, p);
    }
  }

  lemma AfterReplace(ps: seq<Page>, k: nat, c: Page, q: Page)
    requires k < |ps| && NoDuplicates<Page>(ps) && c !in ps
    ensures q in ps[k := c] <==> q == c || (q in ps && q != ps[k])
  {
    var ps' := ps[k := c];
    assert ps'[k] == c;
    if q in ps && q != ps[k] {
      var j :| 0 <= j < |ps| && ps[j] == q;
      assert ps'[j] == q;
    }
  }
}
