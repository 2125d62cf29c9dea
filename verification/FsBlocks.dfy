/** How allocating a block and writing into a block change the abstract file system (fs.c:453-494). */
module FsBlocks {
  import opened Bytes
  import opened FsModel
  import opened FsBitmap
  import opened FsState
  import opened FsSteps

  /** The tables after block `b` is given to position `j` of file `f`. */
  function AllocState(s: State, bitmap: seq<bv8>, f: nat, j: nat, b: nat): State
    requires Shape(s) && f < MAX_NUM_OF_FILES && j < BLOCKS_PER_FILE
  {
    State(bitmap, s.inodes[f := s.inodes[f].(direct := s.inodes[f].direct[j := b])],
          s.directory, s.fds, s.disk, s.usedCount + 1)
  }

  function AllocShadow(g: Shadow, f: nat, b: nat): Shadow
    requires f < |g.mapped|
  {
    Shadow(g.count, g.owner[b := (f, g.mapped[f])], g.written, g.mapped[f := g.mapped[f] + 1])
  }

  ghost predicate CanAllocate(s: State, g: Shadow, bitmap: seq<bv8>, f: nat, b: nat) {
    && Core(s, g) && f < g.count && g.mapped[f] < BLOCKS_PER_FILE
    && 0 < b < TOTAL_BLOCKS && b !in g.owner
    && |bitmap| == |s.bitmap|
    && forall k: nat :: k < TOTAL_BLOCKS ==> (Bit(bitmap, k) <==> k == b || Bit(s.bitmap, k))
  }

  lemma AllocEntries(s: State, g: Shadow, bitmap: seq<bv8>, f: nat, b: nat)
    requires CanAllocate(s, g, bitmap, f, b)
    ensures var j := g.mapped[f];
      var s' := AllocState(s, bitmap, f, j, b);
      && Shape(s') && ShadowShape(AllocShadow(g, f, b))
      && (forall f': nat, j': nat :: f' < MAX_NUM_OF_FILES && j' < BLOCKS_PER_FILE ==>
            Entry(s', f', j') == if f' == f && j' == j then b else Entry(s, f', j'))
  {
    var s' := AllocState(s, bitmap, f, g.mapped[f], b);
    assert forall i :: 0 <= i < MAX_NUM_OF_FILES ==> |s.inodes[i].direct| == BLOCKS_PER_FILE;
  }

  lemma AllocEntriesOwned(s: State, g: Shadow, bitmap: seq<bv8>, f: nat, b: nat)
    requires CanAllocate(s, g, bitmap, f, b)
    ensures var s', g' := AllocState(s, bitmap, f, g.mapped[f], b), AllocShadow(g, f, b);
      && Shape(s') && ShadowShape(g')
      && (forall f': nat, j': nat :: f' < MAX_NUM_OF_FILES && j' < BLOCKS_PER_FILE ==> OwnsEntry(s', g', f', j'))
  {
    var s', g' := AllocState(s, bitmap, f, g.mapped[f], b), AllocShadow(g, f, b);
    AllocEntries(s, g, bitmap, f, b);
    forall f': nat, j': nat | f' < MAX_NUM_OF_FILES && j' < BLOCKS_PER_FILE
      ensures OwnsEntry(s', g', f', j')
    {
      assert OwnsEntry(s, g, f', j');
    }
  }

  lemma AllocOwnership(s: State, g: Shadow, bitmap: seq<bv8>, f: nat, b: nat)
    requires CanAllocate(s, g, bitmap, f, b)
    ensures var s', g' := AllocState(s, bitmap, f, g.mapped[f], b), AllocShadow(g, f, b);
      Shape(s') && ShadowShape(g') && Ownership(s', g')
  {
    var s', g' := AllocState(s, bitmap, f, g.mapped[f], b), AllocShadow(g, f, b);
    AllocEntriesOwned(s, g, bitmap, f, b);
    forall b' | b' in g'.owner
      ensures OwnedBlock(s', g', b')
    {
      if b' != b {
        assert OwnedBlock(s, g, b');
      }
    }
    AllocCount(g, f, b);
    forall k: nat | k < TOTAL_BLOCKS
      ensures Bit(s'.bitmap, k) <==> k in g'.owner
    {
      assert Bit(bitmap, k) <==> k == b || Bit(s.bitmap, k);
    }
  }

  lemma AllocCount(g: Shadow, f: nat, b: nat)
    requires ShadowShape(g) && f < MAX_NUM_OF_FILES && b !in g.owner
    ensures |AllocShadow(g, f, b).owner| == |g.owner| + 1
    ensures Sum(AllocShadow(g, f, b).mapped) == Sum(g.mapped) + 1
  {
    SumUpdate(g.mapped, f, g.mapped[f] + 1);
    assert AllocShadow(g, f, b).owner.Keys == g.owner.Keys + {b};
  }

  /** Giving a clear block to the next position of a file is invisible to callers. */
  lemma AllocKeeps(s: State, g: Shadow, bitmap: seq<bv8>, f: nat, b: nat)
    requires CanAllocate(s, g, bitmap, f, b)
    ensures var s', g' := AllocState(s, bitmap, f, g.mapped[f], b), AllocShadow(g, f, b);
      Core(s', g') && View(s', g') == View(s, g)
  {
    var s', g' := AllocState(s, bitmap, f, g.mapped[f], b), AllocShadow(g, f, b);
    AllocOwnership(s, g, bitmap, f, b);
    AllocEntries(s, g, bitmap, f, b);
    assert Core(s', g') by {
      forall i: nat | i < MAX_NUM_OF_FILES
        ensures SlotOk(s', g', i) && ExtentOk(s', g', i)
      {
        assert SlotOk(s, g, i) && ExtentOk(s, g, i);
      }
      forall h: nat | h < |s'.fds|
        ensures DescriptorOk(g', s'.fds[h])
      {
        assert DescriptorOk(g, s.fds[h]);
      }
    }
    forall i: nat | i < g.count
      ensures FileOf(s', g', i) == FileOf(s, g, i)
    {
      assert ExtentOk(s, g, i);
      assert forall k: nat :: k < g.written[i] ==> ByteAt(s', i, k) == ByteAt(s, i, k);
    }
    assert Files(s', g') == Files(s, g);
    assert Handles(s') == Handles(s);
  }

  /** The disk after `chunk` is copied into block `b` from position `start` on. */
  function DiskState(s: State, b: nat, start: nat, chunk: seq<Byte>): State
    requires Shape(s) && b < TOTAL_BLOCKS && start + |chunk| <= BLOCK_SIZE
  {
    s.(disk := s.disk[b := Splice(s.disk[b], start, chunk)])
  }

  function WrittenShadow(g: Shadow, f: nat, end: nat): Shadow
    requires f < |g.written|
  {
    g.(written := g.written[f := Max(g.written[f], end)])
  }

  /** `chunk` goes into position `j` of file `f`, at file offset `o`. */
  ghost predicate CanStore(s: State, g: Shadow, f: nat, j: nat, o: nat, chunk: seq<Byte>) {
    && Core(s, g) && f < g.count && j < g.mapped[f]
    && o / BLOCK_SIZE == j && o % BLOCK_SIZE + |chunk| <= BLOCK_SIZE
    && o <= g.written[f]
  }

  lemma StoreByte(s: State, g: Shadow, f: nat, j: nat, o: nat, chunk: seq<Byte>, i: nat, k: nat)
    requires CanStore(s, g, f, j, o, chunk)
    requires i < MAX_NUM_OF_FILES && k < MAX_FILESIZE && (i == f || k < g.written[i])
    ensures var b := Entry(s, f, j);
      && 0 < b < TOTAL_BLOCKS
      && Shape(DiskState(s, b, o % BLOCK_SIZE, chunk))
      && ByteAt(DiskState(s, b, o % BLOCK_SIZE, chunk), i, k) ==
         if i == f && o <= k < o + |chunk| then chunk[k - o] else ByteAt(s, i, k)
  {
    var b := Entry(s, f, j);
    assert OwnsEntry(s, g, f, j);
    assert OwnedBlock(s, g, b);
    assert ExtentOk(s, g, i);
    var s' := DiskState(s, b, o % BLOCK_SIZE, chunk);
    assert OwnsEntry(s, g, i, k / BLOCK_SIZE);
    assert Entry(s, i, k / BLOCK_SIZE) == b ==> i == f && k / BLOCK_SIZE == j;
  }

  /** Copying a chunk into a block splices it into the stored bytes of the one file that owns the block. */
  lemma StoreKeeps(s: State, g: Shadow, f: nat, j: nat, o: nat, chunk: seq<Byte>)
    requires CanStore(s, g, f, j, o, chunk)
    ensures var b := Entry(s, f, j);
      && b < TOTAL_BLOCKS
      && var s', g' := DiskState(s, b, o % BLOCK_SIZE, chunk), WrittenShadow(g, f, o + |chunk|);
         && Core(s', g')
         && o <= |View(s, g).files[f].stored|
         && View(s', g') == View(s, g).(files := View(s, g).files[f :=
              View(s, g).files[f].(stored := Splice(View(s, g).files[f].stored, o, chunk))])
  {
    var b := Entry(s, f, j);
    StoreByte(s, g, f, j, o, chunk, f, 0);
    var s', g' := DiskState(s, b, o % BLOCK_SIZE, chunk), WrittenShadow(g, f, o + |chunk|);
    StoreCore(s, g, f, j, o, chunk);
    forall i: nat | i < g.count
      ensures FileOf(s', g', i) ==
        if i == f then FileOf(s, g, f).(stored := Splice(FileOf(s, g, f).stored, o, chunk)) else FileOf(s, g, i)
    {
      StoreFile(s, g, f, j, o, chunk, i);
    }
    assert Files(s', g') == Files(s, g)[f := Files(s, g)[f].(stored := Splice(Files(s, g)[f].stored, o, chunk))];
    assert Handles(s') == Handles(s);
  }

  lemma StoreCore(s: State, g: Shadow, f: nat, j: nat, o: nat, chunk: seq<Byte>)
    requires CanStore(s, g, f, j, o, chunk) && Entry(s, f, j) < TOTAL_BLOCKS
    ensures Core(DiskState(s, Entry(s, f, j), o % BLOCK_SIZE, chunk), WrittenShadow(g, f, o + |chunk|))
  {
    var s' := DiskState(s, Entry(s, f, j), o % BLOCK_SIZE, chunk);
    var g' := WrittenShadow(g, f, o + |chunk|);
    assert forall k :: 0 <= k < TOTAL_BLOCKS ==> |s.disk[k]| == BLOCK_SIZE;
    assert Ownership(s', g) by { SameTablesOwnership(s, s', g); }
    assert Ownership(s', g') by {
      forall f': nat, j': nat | f' < MAX_NUM_OF_FILES && j' < BLOCKS_PER_FILE
        ensures OwnsEntry(s', g', f', j')
      {
        assert OwnsEntry(s', g, f', j');
      }
      forall b' | b' in g'.owner
        ensures OwnedBlock(s', g', b')
      {
        assert OwnedBlock(s', g, b');
      }
    }
    forall i: nat | i < MAX_NUM_OF_FILES
      ensures SlotOk(s', g', i) && ExtentOk(s', g', i)
    {
      assert SlotOk(s, g, i) && ExtentOk(s, g, i);
    }
    forall h: nat | h < |s'.fds|
      ensures DescriptorOk(g', s'.fds[h])
    {
      assert DescriptorOk(g, s.fds[h]);
    }
  }

  lemma StoreFile(s: State, g: Shadow, f: nat, j: nat, o: nat, chunk: seq<Byte>, i: nat)
    requires CanStore(s, g, f, j, o, chunk) && Entry(s, f, j) < TOTAL_BLOCKS && i < g.count
    requires Core(DiskState(s, Entry(s, f, j), o % BLOCK_SIZE, chunk), WrittenShadow(g, f, o + |chunk|))
    ensures var s', g' := DiskState(s, Entry(s, f, j), o % BLOCK_SIZE, chunk), WrittenShadow(g, f, o + |chunk|);
      o <= |FileOf(s, g, f).stored| &&
      FileOf(s', g', i) ==
        if i == f then FileOf(s, g, f).(stored := Splice(FileOf(s, g, f).stored, o, chunk)) else FileOf(s, g, i)
  {
    var s', g' := DiskState(s, Entry(s, f, j), o % BLOCK_SIZE, chunk), WrittenShadow(g, f, o + |chunk|);
    assert ExtentOk(s, g, i) && ExtentOk(s', g', i);
    forall k: nat | k < g'.written[i]
      ensures ByteAt(s', i, k) == if i == f && o <= k < o + |chunk| then chunk[k - o] else ByteAt(s, i, k)
    {
      StoreByte(s, g, f, j, o, chunk, i, k);
    }
    if i == f {
      assert FileOf(s', g', f).stored == Splice(FileOf(s, g, f).stored, o, chunk);
    } else {
      assert FileOf(s', g', i).stored == FileOf(s, g, i).stored;
    }
  }

  /** After a chunk a file has just the blocks it needs, if it had before or a block was added for the chunk. */
  lemma StoreTight(g: Shadow, f: nat, o: nat, n: nat)
    requires ShadowShape(g) && f < MAX_NUM_OF_FILES && n > 0
    requires o <= g.written[f] <= g.mapped[f] * BLOCK_SIZE
    requires o % BLOCK_SIZE + n <= BLOCK_SIZE && o / BLOCK_SIZE < g.mapped[f]
    requires Tight(g, f) || (o / BLOCK_SIZE == g.mapped[f] - 1 && BlocksFor(g.written[f]) == g.mapped[f] - 1)
    ensures Tight(WrittenShadow(g, f, o + n), f)
  {}
}
