/**
 The representation of a mounted session of file-systems-noodlez102/fs.c as a value: the global tables of
 lines 26-53 and the disk, the invariant that every delete-free session keeps, and the abstract file system
 a representation stands for.
 */
module FsState {
  import opened Bytes
  import opened FsModel
  import opened FsBitmap

  const BLOCKS_PER_FILE: nat := 256

  datatype Inode = Inode(fileType: nat, direct: seq<nat>, fileSize: nat)

  datatype DirEntry = DirEntry(isUsed: bool, inodeNumber: int, name: string)

  datatype FileDescriptor = FileDescriptor(isUsed: bool, inodeNumber: int, offset: nat)

  datatype State = State(
    bitmap: seq<bv8>,
    inodes: seq<Inode>,
    directory: seq<DirEntry>,
    fds: seq<FileDescriptor>,
    disk: seq<seq<Byte>>,
    usedCount: nat)

  /**
   What the proof remembers beside the tables: how many files there are, which file position owns each block in
   use, how many bytes of each file were ever written, and how many blocks each file has.
   */
  datatype Shadow = Shadow(count: nat, owner: map<nat, (nat, nat)>, written: seq<nat>, mapped: seq<nat>)

  predicate Shape(s: State) {
    && 8 * |s.bitmap| == TOTAL_BLOCKS
    && |s.inodes| == MAX_NUM_OF_FILES
    && |s.directory| == MAX_NUM_OF_FILES
    && |s.fds| == MAX_FILE_DESCRIPTORS
    && |s.disk| == TOTAL_BLOCKS
    && (forall f :: 0 <= f < MAX_NUM_OF_FILES ==> |s.inodes[f].direct| == BLOCKS_PER_FILE)
    && (forall b :: 0 <= b < TOTAL_BLOCKS ==> |s.disk[b]| == BLOCK_SIZE)
  }

  predicate ShadowShape(g: Shadow) {
    && g.count <= MAX_NUM_OF_FILES
    && |g.written| == MAX_NUM_OF_FILES
    && |g.mapped| == MAX_NUM_OF_FILES
    && (forall f :: 0 <= f < MAX_NUM_OF_FILES ==> g.mapped[f] <= BLOCKS_PER_FILE)
  }

  /** `direct_offset[j]` of inode `f`. */
  function Entry(s: State, f: nat, j: nat): nat
    requires Shape(s) && f < MAX_NUM_OF_FILES && j < BLOCKS_PER_FILE
  {
    s.inodes[f].direct[j]
  }

  /** Position `j` of file `f` holds a block that the owner map gives to it, or nothing past the mapped blocks. */
  predicate OwnsEntry(s: State, g: Shadow, f: nat, j: nat)
    requires Shape(s) && ShadowShape(g) && f < MAX_NUM_OF_FILES && j < BLOCKS_PER_FILE
  {
    var b := Entry(s, f, j);
    if j < g.mapped[f] then b in g.owner && g.owner[b] == (f, j) else b == 0
  }

  /** Block `b` of the owner map is a usable block held at the position it is given to. */
  predicate OwnedBlock(s: State, g: Shadow, b: nat)
    requires Shape(s) && ShadowShape(g) && b in g.owner
  {
    && 0 < b < TOTAL_BLOCKS
    && g.owner[b].0 < MAX_NUM_OF_FILES
    && g.owner[b].1 < g.mapped[g.owner[b].0]
    && Entry(s, g.owner[b].0, g.owner[b].1) == b
  }

  function Sum(ns: seq<nat>): nat {
    if ns == [] then 0 else Sum(ns[..|ns| - 1]) + ns[|ns| - 1]
  }

  predicate Ownership(s: State, g: Shadow)
    requires Shape(s) && ShadowShape(g)
  {
    && (forall f: nat, j: nat :: f < MAX_NUM_OF_FILES && j < BLOCKS_PER_FILE ==> OwnsEntry(s, g, f, j))
    && (forall b {:trigger OwnedBlock(s, g, b)} :: b in g.owner ==> OwnedBlock(s, g, b))
    && (forall b: nat {:trigger Bit(s.bitmap, b)} :: b < TOTAL_BLOCKS ==> (Bit(s.bitmap, b) <==> b in g.owner))
    && |g.owner| == Sum(g.mapped)
    && s.usedCount == 1 + |g.owner|
  }

  /** Directory slot `i` and inode `i` are in use together, and the slot names that inode. */
  predicate SlotOk(s: State, g: Shadow, i: nat)
    requires Shape(s) && ShadowShape(g) && i < MAX_NUM_OF_FILES
  {
    if i < g.count then
      && s.directory[i].isUsed && s.directory[i].inodeNumber == i && LegalName(s.directory[i].name)
      && s.inodes[i].fileType != 0
    else
      && !s.directory[i].isUsed && s.inodes[i].fileType == 0
      && g.written[i] == 0 && g.mapped[i] == 0
  }

  predicate DirectoryOk(s: State, g: Shadow)
    requires Shape(s) && ShadowShape(g)
  {
    && (forall i: nat :: i < MAX_NUM_OF_FILES ==> SlotOk(s, g, i))
    && (forall i: nat, j: nat :: i < j < g.count ==> s.directory[i].name != s.directory[j].name)
  }

  /** The size of file `i` is within what was written, and that is within its blocks. */
  predicate ExtentOk(s: State, g: Shadow, i: nat)
    requires Shape(s) && ShadowShape(g) && i < MAX_NUM_OF_FILES
  {
    && (i < g.count ==> s.inodes[i].fileSize <= g.written[i])
    && g.written[i] <= g.mapped[i] * BLOCK_SIZE
    && g.written[i] <= MAX_FILESIZE
  }

  predicate DescriptorOk(g: Shadow, d: FileDescriptor)
    requires ShadowShape(g)
  {
    d.isUsed ==> 0 <= d.inodeNumber < g.count && d.offset <= g.written[d.inodeNumber]
  }

  /** The invariant, apart from files having no more blocks than they need. */
  predicate Core(s: State, g: Shadow) {
    && Shape(s) && ShadowShape(g)
    && Ownership(s, g)
    && DirectoryOk(s, g)
    && (forall i: nat :: i < MAX_NUM_OF_FILES ==> ExtentOk(s, g, i))
    && (forall h: nat :: h < |s.fds| ==> DescriptorOk(g, s.fds[h]))
  }

  predicate Tight(g: Shadow, i: nat)
    requires ShadowShape(g) && i < MAX_NUM_OF_FILES
  {
    g.mapped[i] == BlocksFor(g.written[i])
  }

  predicate TightAll(g: Shadow)
    requires ShadowShape(g)
  {
    forall i: nat :: i < MAX_NUM_OF_FILES ==> Tight(g, i)
  }

  /** The invariant of a mounted session without deletions. */
  predicate Inv(s: State, g: Shadow) {
    Core(s, g) && TightAll(g)
  }

  // ---------------------------------------------------------------------------------------------
  // The abstract file system
  // ---------------------------------------------------------------------------------------------

  /** The byte at position `i` of file `f`, as fs_read finds it. */
  function ByteAt(s: State, f: nat, i: nat): Byte
    requires Shape(s) && f < MAX_NUM_OF_FILES && i < MAX_FILESIZE
  {
    var b := Entry(s, f, i / BLOCK_SIZE);
    if b < TOTAL_BLOCKS then s.disk[b][i % BLOCK_SIZE] else 0
  }

  function Stored(s: State, f: nat, n: nat): (r: seq<Byte>)
    requires Shape(s) && f < MAX_NUM_OF_FILES && n <= MAX_FILESIZE
    ensures |r| == n
    ensures forall i :: 0 <= i < n ==> r[i] == ByteAt(s, f, i)
  {
    seq(n, i requires 0 <= i < n => ByteAt(s, f, i))
  }

  function FileOf(s: State, g: Shadow, f: nat): File
    requires Core(s, g) && f < g.count
  {
    assert ExtentOk(s, g, f);
    File(s.directory[f].name, Stored(s, f, g.written[f]), s.inodes[f].fileSize)
  }

  function HandleOf(d: FileDescriptor): Handle {
    if d.isUsed && d.inodeNumber >= 0 then Open(d.inodeNumber, d.offset) else Closed
  }

  function Files(s: State, g: Shadow): (r: seq<File>)
    requires Core(s, g)
    ensures |r| == g.count
    ensures forall f :: 0 <= f < g.count ==> r[f] == FileOf(s, g, f)
  {
    seq(g.count, f requires 0 <= f < g.count => FileOf(s, g, f))
  }

  function Handles(s: State): (r: seq<Handle>)
    ensures |r| == |s.fds|
    ensures forall h :: 0 <= h < |s.fds| ==> r[h] == HandleOf(s.fds[h])
  {
    seq(|s.fds|, h requires 0 <= h < |s.fds| => HandleOf(s.fds[h]))
  }

  /** The abstract file system that a representation stands for. */
  function View(s: State, g: Shadow): Fs
    requires Core(s, g)
  {
    Fs(Files(s, g), Handles(s))
  }
}
