/** How the primitive table updates of fs.c change the abstract file system, and that they keep the invariant. */
module FsSteps {
  import opened FsModel
  import opened FsBitmap
  import opened FsState

  // ---------------------------------------------------------------------------------------------
  // Counting blocks
  // ---------------------------------------------------------------------------------------------

  lemma {:induction false} SumUpdate(ns: seq<nat>, i: nat, n: nat)
    requires i < |ns|
    ensures Sum(ns[i := n]) == Sum(ns) - ns[i] + n
    decreases |ns|
  {
    var k := |ns| - 1;
    if i == k {
      assert ns[i := n][..k] == ns[..k];
    } else {
      assert ns[i := n][..k] == ns[..k][i := n];
      SumUpdate(ns[..k], i, n);
    }
  }

  lemma {:induction false} SumOfZeroTail(ns: seq<nat>, k: nat)
    requires k <= |ns| && forall i :: k <= i < |ns| ==> ns[i] == 0
    ensures Sum(ns) == Sum(ns[..k])
    decreases |ns|
  {
    if k < |ns| {
      SumOfZeroTail(ns[..|ns| - 1], k);
      assert ns[..|ns| - 1][..k] == ns[..k];
    } else {
      assert ns[..k] == ns;
    }
  }

  lemma {:induction false} UsedBlocksIsSum(files: seq<File>, ns: seq<nat>)
    requires |files| == |ns|
    requires forall i :: 0 <= i < |ns| ==> ns[i] == BlocksFor(|files[i].stored|)
    ensures UsedBlocks(files) == Sum(ns)
    decreases |files|
  {
    if files != [] {
      UsedBlocksIsSum(files[..|files| - 1], ns[..|ns| - 1]);
    }
  }

  /** The blocks in use are the blocks of the files. */
  lemma ViewUsedBlocks(s: State, g: Shadow)
    requires Inv(s, g)
    ensures UsedBlocks(Files(s, g)) == |g.owner|
  {
    forall i: nat | i < MAX_NUM_OF_FILES
      ensures i >= g.count ==> g.mapped[i] == 0
      ensures i < g.count ==> g.mapped[i] == BlocksFor(|Files(s, g)[i].stored|)
    {
      assert SlotOk(s, g, i) && Tight(g, i);
    }
    UsedBlocksIsSum(Files(s, g), g.mapped[..g.count]);
    SumOfZeroTail(g.mapped, g.count);
  }

  function Interval(n: nat): (r: set<nat>)
    ensures |r| == n
    ensures forall b :: b in r <==> 0 < b <= n
  {
    if n == 0 then {} else Interval(n - 1) + {n}
  }

  lemma {:induction false} SubsetSize(a: set<nat>, b: set<nat>)
    requires a <= b
    ensures |a| <= |b|
    ensures |a| == |b| ==> a == b
    decreases |a|
  {
    if a != {} {
      var x :| x in a;
      SubsetSize(a - {x}, b - {x});
      assert a == a - {x} + {x} && b == b - {x} + {x};
    }
  }

  /** Block 0 is never given to a file, so at most USABLE_BLOCKS are; all of them are exactly when no bit is clear. */
  lemma OwnerBound(s: State, g: Shadow)
    requires Core(s, g)
    ensures |g.owner| <= USABLE_BLOCKS
    ensures |g.owner| == USABLE_BLOCKS <==> forall b: nat :: 0 < b < TOTAL_BLOCKS ==> b in g.owner.Keys
  {
    var all := Interval(USABLE_BLOCKS);
    assert |g.owner| == |g.owner.Keys|;
    forall b | b in g.owner.Keys
      ensures b in all
    {
      assert OwnedBlock(s, g, b);
    }
    SubsetSize(g.owner.Keys, all);
    if forall b: nat :: 0 < b < TOTAL_BLOCKS ==> b in g.owner.Keys {
      assert g.owner.Keys == all;
    }
  }

  /** The abstract file system of a representation that satisfies the invariant is valid. */
  lemma ViewValid(s: State, g: Shadow)
    requires Inv(s, g)
    ensures Valid(View(s, g))
  {
    var fs := View(s, g);
    ViewUsedBlocks(s, g);
    OwnerBound(s, g);
    forall i | 0 <= i < |fs.files|
      ensures ValidFile(fs.files[i])
    {
      assert SlotOk(s, g, i) && ExtentOk(s, g, i);
    }
    forall h | 0 <= h < |fs.handles|
      ensures ValidHandle(fs, fs.handles[h])
    {
      assert DescriptorOk(g, s.fds[h]);
    }
  }

  // ---------------------------------------------------------------------------------------------
  // Block ownership
  // ---------------------------------------------------------------------------------------------

  /** The blocks whose bit is set. */
  function SetBits(bitmap: seq<bv8>): (r: set<nat>)
    ensures forall b: nat :: b in r <==> b < 8 * |bitmap| && Bit(bitmap, b)
  {
    set b: nat | b < 8 * |bitmap| && Bit(bitmap, b)
  }

  /** Nonzero direct offsets are pairwise distinct across all inodes and positions. */
  lemma OwnershipIsInjective(s: State, g: Shadow, f: nat, j: nat, f': nat, j': nat)
    requires Core(s, g)
    requires f < MAX_NUM_OF_FILES && j < BLOCKS_PER_FILE && f' < MAX_NUM_OF_FILES && j' < BLOCKS_PER_FILE
    requires Entry(s, f, j) == Entry(s, f', j') != 0
    ensures f == f' && j == j'
  {
    assert OwnsEntry(s, g, f, j) && OwnsEntry(s, g, f', j');
  }

  /** A bit is set exactly when some inode names the block, and block 0 is never in use. */
  lemma BitmapAgrees(s: State, g: Shadow, b: nat)
    requires Core(s, g) && b < TOTAL_BLOCKS
    ensures Bit(s.bitmap, b) <==>
      b != 0 && exists f: nat, j: nat :: f < MAX_NUM_OF_FILES && j < BLOCKS_PER_FILE && Entry(s, f, j) == b
  {
    if b in g.owner {
      assert OwnedBlock(s, g, b);
      var (f, j) := g.owner[b];
      assert Entry(s, f, j) == b;
    }
    forall f: nat, j: nat | f < MAX_NUM_OF_FILES && j < BLOCKS_PER_FILE && Entry(s, f, j) == b != 0
      ensures b in g.owner
    {
      assert OwnsEntry(s, g, f, j);
    }
  }

  /** Every block index below the size of a file is mapped. */
  lemma MappedBelowSize(s: State, g: Shadow, f: nat, j: nat)
    requires Core(s, g) && f < g.count
    requires j * BLOCK_SIZE < s.inodes[f].fileSize
    ensures j < BLOCKS_PER_FILE && Entry(s, f, j) != 0
  {
    assert ExtentOk(s, g, f);
    assert OwnsEntry(s, g, f, j);
    assert OwnedBlock(s, g, Entry(s, f, j));
  }

  /** used_block_bitmap_count is its initial value plus the number of set bits, and never wraps its 16 bits. */
  lemma UsedCountIsExact(s: State, g: Shadow)
    requires Core(s, g)
    ensures s.usedCount == 1 + |SetBits(s.bitmap)|
    ensures s.usedCount <= TOTAL_BLOCKS < 0x1_0000
  {
    OwnerBound(s, g);
    forall b: nat
      ensures b in SetBits(s.bitmap) <==> b in g.owner.Keys
    {
      assert b in g.owner ==> OwnedBlock(s, g, b);
      assert b < TOTAL_BLOCKS ==> (Bit(s.bitmap, b) <==> b in g.owner);
    }
    assert SetBits(s.bitmap) == g.owner.Keys;
  }

  // ---------------------------------------------------------------------------------------------
  // Directory and descriptors
  // ---------------------------------------------------------------------------------------------

  function NoBlocks(): (r: seq<nat>)
    ensures |r| == BLOCKS_PER_FILE
    ensures forall j :: 0 <= j < |r| ==> r[j] == 0
  {
    seq(BLOCKS_PER_FILE, _ => 0)
  }

  function CreateState(s: State, slot: nat, name: string): State
    requires Shape(s) && slot < MAX_NUM_OF_FILES
  {
    s.(inodes := s.inodes[slot := Inode(1, NoBlocks(), 0)],
       directory := s.directory[slot := DirEntry(true, slot, name)])
  }

  /** The bytes of a file depend only on its block pointers and the disk. */
  lemma SameStored(s: State, s': State, f: nat, n: nat)
    requires Shape(s) && Shape(s') && f < MAX_NUM_OF_FILES
    requires s'.disk == s.disk && s'.inodes[f].direct == s.inodes[f].direct
    ensures n <= MAX_FILESIZE ==> Stored(s', f, n) == Stored(s, f, n)
  {
    if n <= MAX_FILESIZE {
      assert forall i :: 0 <= i < n ==> ByteAt(s', f, i) == ByteAt(s, f, i);
    }
  }

  /** Taking the first free inode and directory slot for a new file. */
  lemma CreateKeeps(s: State, g: Shadow, name: string)
    requires Inv(s, g) && g.count < MAX_NUM_OF_FILES && LegalName(name)
    requires forall i :: 0 <= i < g.count ==> s.directory[i].name != name
    ensures var s', g' := CreateState(s, g.count, name), g.(count := g.count + 1);
      Inv(s', g') && View(s', g') == View(s, g).(files := View(s, g).files + [File(name, [], 0)])
  {
    var c := g.count;
    var s', g' := CreateState(s, c, name), g.(count := c + 1);
    assert SlotOk(s, g, c);
    forall j | 0 <= j < BLOCKS_PER_FILE
      ensures s.inodes[c].direct[j] == NoBlocks()[j]
    {
      assert OwnsEntry(s, g, c, j);
    }
    CreateOwnership(s, g, name);
    assert Core(s', g') by {
      forall i: nat | i < MAX_NUM_OF_FILES
        ensures SlotOk(s', g', i) && ExtentOk(s', g', i)
      {
        assert SlotOk(s, g, i) && ExtentOk(s, g, i);
      }
      forall h: nat | h < |s'.fds|
        ensures DescriptorOk(g', s'.fds[h])
      {
        assert DescriptorOk(g, s.fds[h]);
      }
    }
    forall i: nat | i < MAX_NUM_OF_FILES
      ensures Tight(g', i)
    {
      assert Tight(g, i);
    }
    forall f: nat | f < c
      ensures FileOf(s', g', f) == FileOf(s, g, f)
    {
      SameStored(s, s', f, g.written[f]);
    }
    assert Files(s', g') == Files(s, g) + [File(name, [], 0)];
    assert Handles(s') == Handles(s);
  }

  lemma CreateOwnership(s: State, g: Shadow, name: string)
    requires Inv(s, g) && g.count < MAX_NUM_OF_FILES
    requires s.inodes[g.count].direct == NoBlocks()
    ensures var s', g' := CreateState(s, g.count, name), g.(count := g.count + 1);
      Shape(s') && ShadowShape(g') && Ownership(s', g')
  {
    var s', g' := CreateState(s, g.count, name), g.(count := g.count + 1);
    forall f: nat, j: nat | f < MAX_NUM_OF_FILES && j < BLOCKS_PER_FILE
      ensures Entry(s', f, j) == Entry(s, f, j)
    {}
    forall f: nat, j: nat | f < MAX_NUM_OF_FILES && j < BLOCKS_PER_FILE
      ensures OwnsEntry(s', g', f, j)
    {
      assert OwnsEntry(s, g, f, j);
    }
    forall b | b in g'.owner
      ensures OwnedBlock(s', g', b)
    {
      assert OwnedBlock(s, g, b);
    }
  }

  /** Changing one descriptor to another that is in order. */
  lemma DescriptorKeeps(s: State, g: Shadow, h: nat, d: FileDescriptor)
    requires Core(s, g) && h < MAX_FILE_DESCRIPTORS && DescriptorOk(g, d)
    ensures var s' := s.(fds := s.fds[h := d]);
      Core(s', g) && View(s', g) == View(s, g).(handles := View(s, g).handles[h := HandleOf(d)])
  {
    var s' := s.(fds := s.fds[h := d]);
    assert Ownership(s', g) by { SameTablesOwnership(s, s', g); }
    assert Core(s', g) by {
      forall i: nat | i < MAX_NUM_OF_FILES
        ensures SlotOk(s', g, i) && ExtentOk(s', g, i)
      {
        assert SlotOk(s, g, i) && ExtentOk(s, g, i);
      }
      forall k: nat | k < |s'.fds|
        ensures DescriptorOk(g, s'.fds[k])
      {
        assert DescriptorOk(g, s.fds[k]);
      }
    }
    forall f: nat | f < g.count
      ensures FileOf(s', g, f) == FileOf(s, g, f)
    {
      SameStored(s, s', f, g.written[f]);
    }
    assert Files(s', g) == Files(s, g);
    assert Handles(s') == Handles(s)[h := HandleOf(d)];
  }

  /** Ownership depends only on the bitmap, the block pointers and the count. */
  lemma SameTablesOwnership(s: State, s': State, g: Shadow)
    requires Shape(s) && Shape(s') && ShadowShape(g) && Ownership(s, g)
    requires s'.bitmap == s.bitmap && s'.usedCount == s.usedCount
    requires forall f: nat :: f < MAX_NUM_OF_FILES ==> s'.inodes[f].direct == s.inodes[f].direct
    ensures Ownership(s', g)
  {
    forall f: nat, j: nat | f < MAX_NUM_OF_FILES && j < BLOCKS_PER_FILE
      ensures OwnsEntry(s', g, f, j)
    {
      assert OwnsEntry(s, g, f, j);
    }
    forall b | b in g.owner
      ensures OwnedBlock(s', g, b)
    {
      assert OwnedBlock(s, g, b);
    }
  }

  /** Changing the size of a file to at most what was written. */
  lemma SizeKeeps(s: State, g: Shadow, f: nat, size: nat)
    requires Core(s, g) && f < g.count && size <= g.written[f]
    ensures var s' := s.(inodes := s.inodes[f := s.inodes[f].(fileSize := size)]);
      Core(s', g) &&
      View(s', g) == View(s, g).(files := View(s, g).files[f := View(s, g).files[f].(size := size)])
  {
    var s' := s.(inodes := s.inodes[f := s.inodes[f].(fileSize := size)]);
    assert Ownership(s', g) by { SameTablesOwnership(s, s', g); }
    assert Core(s', g) by {
      forall i: nat | i < MAX_NUM_OF_FILES
        ensures SlotOk(s', g, i) && ExtentOk(s', g, i)
      {
        assert SlotOk(s, g, i) && ExtentOk(s, g, i);
      }
    }
    forall i: nat | i < g.count
      ensures FileOf(s', g, i).stored == FileOf(s, g, i).stored
    {
      SameStored(s, s', i, g.written[i]);
    }
    assert Files(s', g) == Files(s, g)[f := Files(s, g)[f].(size := size)];
  }
}
