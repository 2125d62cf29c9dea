/** Laws of the abstract file system: what every step keeps, splitting, framing, and when it behaves as POSIX does. */
module FsLaws {
  import opened Bytes
  import opened FsModel

  // ---------------------------------------------------------------------------------------------
  // Blocks are conserved
  // ---------------------------------------------------------------------------------------------

  lemma {:induction false} UsedBlocksUpdate(files: seq<File>, i: nat, f: File)
    requires i < |files|
    ensures UsedBlocks(files[i := f]) == UsedBlocks(files) - BlocksFor(|files[i].stored|) + BlocksFor(|f.stored|)
    decreases |files|
  {
    var n := |files| - 1;
    var files' := files[i := f];
    if i == n {
      assert files'[..n] == files[..n];
    } else {
      assert files'[..n] == files[..n][i := f];
      UsedBlocksUpdate(files[..n], i, f);
    }
  }

  lemma {:induction false} UsedBlocksAppend(files: seq<File>, f: File)
    ensures UsedBlocks(files + [f]) == UsedBlocks(files) + BlocksFor(|f.stored|)
  {
    assert (files + [f])[..|files|] == files;
  }

  /** A position is within the first `blocks` blocks exactly when the blocks for it are among them. */
  lemma BlocksForFits(n: nat, blocks: nat)
    ensures n <= blocks * BLOCK_SIZE <==> BlocksFor(n) <= blocks
  {}

  /** Writing takes from the free blocks what it adds to the file. */
  lemma PutBlocks(fs: Fs, fd: int, b: seq<Byte>)
    requires IsOpen(fs, fd)
    ensures var i := fs.handles[fd].file;
      var n := |fs.files[i].stored|;
      UsedBlocks(Put(fs, fd, b).files) - UsedBlocks(fs.files) ==
      BlocksFor(Max(n, fs.handles[fd].offset + |b|)) - BlocksFor(n)
  {
    var i, o := fs.handles[fd].file, fs.handles[fd].offset;
    var f := fs.files[i];
    UsedBlocksUpdate(fs.files, i, f.(stored := Splice(f.stored, o, b), size := SizeAfter(f.size, o, b)));
  }

  /** Nothing of a write is refused exactly when its last block is in the file or free. */
  lemma AcceptedFits(fs: Fs, fd: int, n: nat)
    requires Valid(fs) && IsOpen(fs, fd)
    ensures fs.handles[fd].offset <= Room(fs, fs.handles[fd].file)
    ensures fs.handles[fd].offset + Accepted(fs, fd, n) <= Room(fs, fs.handles[fd].file)
  {
    assert ValidHandle(fs, fs.handles[fd]);
    var stored := |fs.files[fs.handles[fd].file].stored|;
    BlocksForFits(stored, BlocksFor(stored));
  }

  /** A put that stays within the room and the file limit keeps the file system valid. */
  lemma PutValid(fs: Fs, fd: int, b: seq<Byte>)
    requires Valid(fs) && IsOpen(fs, fd)
    requires fs.handles[fd].offset + |b| <= MAX_FILESIZE
    requires fs.handles[fd].offset + |b| <= Room(fs, fs.handles[fd].file)
    ensures Valid(Put(fs, fd, b))
  {
    assert ValidHandle(fs, fs.handles[fd]);
    var i, o := fs.handles[fd].file, fs.handles[fd].offset;
    var fs' := Put(fs, fd, b);
    PutBlocks(fs, fd, b);
    BlocksForFits(o + |b|, BlocksFor(|fs.files[i].stored|) + (USABLE_BLOCKS - UsedBlocks(fs.files)));
    forall j | 0 <= j < |fs'.files|
      ensures ValidFile(fs'.files[j])
    {
      assert ValidFile(fs.files[j]);
    }
    forall h | 0 <= h < |fs'.handles|
      ensures ValidHandle(fs', fs'.handles[h])
    {
      assert ValidHandle(fs, fs.handles[h]);
    }
    assert forall j :: 0 <= j < |fs'.files| ==> fs'.files[j].name == fs.files[j].name;
  }

  /** Opening, closing and moving handles keeps the file system valid. */
  lemma HandleValid(fs: Fs, fd: nat, h: Handle)
    requires Valid(fs) && fd < |fs.handles| && ValidHandle(fs, h)
    ensures Valid(fs.(handles := fs.handles[fd := h]))
  {
    var fs' := fs.(handles := fs.handles[fd := h]);
    forall k | 0 <= k < |fs'.handles|
      ensures ValidHandle(fs', fs'.handles[k])
    {
      assert ValidHandle(fs, fs.handles[k]);
    }
  }

  lemma CreateValid(fs: Fs, name: string)
    requires Valid(fs)
    ensures Valid(CreateStep(fs, name).0)
  {
    var fs' := CreateStep(fs, name).0;
    if fs' != fs {
      UsedBlocksAppend(fs.files, File(name, [], 0));
      assert BlocksFor(0) == 0 && FindFile(fs.files, name) == |fs.files|;
      forall k | 0 <= k < |fs'.handles|
        ensures ValidHandle(fs', fs'.handles[k])
      {
        assert ValidHandle(fs, fs.handles[k]);
      }
    }
  }

  lemma WriteValid(fs: Fs, fd: int, buf: seq<Byte>)
    requires Valid(fs) && Allowed(fs, Write(fd, buf))
    ensures Valid(WriteStep(fs, fd, buf).0)
  {
    if IsOpen(fs, fd) {
      AcceptedFits(fs, fd, |buf|);
      PutValid(fs, fd, buf[..Accepted(fs, fd, |buf|)]);
    }
  }

  lemma ReadValid(fs: Fs, fd: int, nbyte: nat)
    requires Valid(fs) && Allowed(fs, Read(fd, nbyte))
    ensures Valid(ReadStep(fs, fd, nbyte).0)
  {
    if IsOpen(fs, fd) {
      assert ValidHandle(fs, fs.handles[fd]);
      HandleValid(fs, fd, ReadStep(fs, fd, nbyte).0.handles[fd]);
    }
  }

  lemma SeekValid(fs: Fs, fd: int, offset: int)
    requires Valid(fs)
    ensures Valid(SeekStep(fs, fd, offset).0)
  {
    if IsOpen(fs, fd) && SeekStep(fs, fd, offset).1.code == 0 {
      assert ValidHandle(fs, fs.handles[fd]);
      assert ValidFile(HandleFile(fs, fd));
      HandleValid(fs, fd, Open(fs.handles[fd].file, offset));
    }
  }

  /** Every step of every caller keeps the file system valid. */
  lemma StepKeepsValid(fs: Fs, op: Op)
    requires Valid(fs) && Allowed(fs, op)
    ensures Valid(Step(fs, op).0)
  {
    match op
    case Create(name) =>
      CreateValid(fs, name);
    case OpenFile(name) =>
      var i, fd := FindFile(fs.files, Trunc(name)), FirstClosed(fs.handles);
      if i < |fs.files| && fd < |fs.handles| {
        HandleValid(fs, fd, Open(i, 0));
      }
    case Close(fd) =>
      if IsOpen(fs, fd) {
        HandleValid(fs, fd, Closed);
      }
    case Read(fd, nbyte) =>
      ReadValid(fs, fd, nbyte);
    case Write(fd, buf) =>
      WriteValid(fs, fd, buf);
    case Seek(fd, offset) =>
      SeekValid(fs, fd, offset);
    case Truncate(fd, length) =>
      if IsOpen(fs, fd) {
        assert ValidHandle(fs, fs.handles[fd]);
        if 0 <= length <= HandleFile(fs, fd).size {
          TruncateValid(fs, fd, length);
        }
      }
    case _ =>
  }

  lemma TruncateValid(fs: Fs, fd: int, length: nat)
    requires Valid(fs) && IsOpen(fs, fd)
    requires length <= HandleFile(fs, fd).size
    ensures Valid(TruncateStep(fs, fd, length).0)
  {
    assert ValidHandle(fs, fs.handles[fd]);
    var fs' := TruncateStep(fs, fd, length).0;
    var i := fs.handles[fd].file;
    var cut := fs.(files := fs.files[i := fs.files[i].(size := length)]);
    UsedBlocksUpdate(fs.files, i, fs.files[i].(size := length));
    forall j | 0 <= j < |cut.files|
      ensures ValidFile(cut.files[j]) && cut.files[j].name == fs.files[j].name
    {
      assert ValidFile(fs.files[j]);
    }
    forall h | 0 <= h < |cut.handles|
      ensures ValidHandle(cut, cut.handles[h])
    {
      assert ValidHandle(fs, fs.handles[h]);
    }
    HandleValid(cut, fd, Open(i, length));
  }

  // ---------------------------------------------------------------------------------------------
  // Splitting
  // ---------------------------------------------------------------------------------------------

  lemma SpliceSplice(s: seq<Byte>, o: nat, a: seq<Byte>, b: seq<Byte>)
    requires o <= |s|
    ensures Splice(Splice(s, o, a), o + |a|, b) == Splice(s, o, a + b)
  {}

  /** How fs_write puts a chunk: the bytes, then the offset, then the size if the offset is past it. */
  lemma PutInSteps(fs: Fs, fd: int, file: nat, o: nat, b: seq<Byte>)
    requires IsOpen(fs, fd) && fs.handles[fd] == Open(file, o) && b != []
    ensures var f := fs.files[file];
      var f' := f.(stored := Splice(f.stored, o, b));
      var fs' := Fs(fs.files[file := f'], fs.handles[fd := Open(file, o + |b|)]);
      Put(fs, fd, b) ==
        if o + |b| > f.size then fs'.(files := fs'.files[file := f'.(size := o + |b|)]) else fs'
  {
    var f := fs.files[file];
    var f' := f.(stored := Splice(f.stored, o, b));
    var f'' := f'.(size := o + |b|);
    assert fs.files[file := f'][file := f''] == fs.files[file := f''];
  }

  /** Two consecutive puts are one put of the concatenation. */
  lemma PutPut(fs: Fs, fd: int, a: seq<Byte>, b: seq<Byte>)
    requires IsOpen(fs, fd)
    ensures var fs' := Put(fs, fd, a);
      IsOpen(fs', fd) && Put(fs', fd, b) == Put(fs, fd, a + b)
  {
    var i, o := fs.handles[fd].file, fs.handles[fd].offset;
    var f := fs.files[i];
    SpliceSplice(f.stored, o, a, b);
    var fs1, fs2, fs3 := Put(fs, fd, a), Put(Put(fs, fd, a), fd, b), Put(fs, fd, a + b);
    assert fs2.files == fs3.files;
    assert fs2.handles == fs3.handles;
  }

  /** One more chunk of a buffer. */
  lemma PutNext(fs: Fs, fd: int, buf: seq<Byte>, k: nat, n: nat)
    requires IsOpen(fs, fd) && k + n <= |buf|
    ensures var fs' := Put(fs, fd, buf[..k]);
      IsOpen(fs', fd) && Put(fs', fd, buf[k..k + n]) == Put(fs, fd, buf[..k + n])
  {
    PutPut(fs, fd, buf[..k], buf[k..k + n]);
    assert buf[..k] + buf[k..k + n] == buf[..k + n];
  }

  /** A put neither makes nor loses room for its own file. */
  lemma RoomAfterPut(fs: Fs, fd: int, b: seq<Byte>)
    requires IsOpen(fs, fd)
    ensures Room(Put(fs, fd, b), fs.handles[fd].file) == Room(fs, fs.handles[fd].file)
  {
    PutBlocks(fs, fd, b);
  }

  /** Putting no bytes changes nothing. */
  lemma PutNothing(fs: Fs, fd: int)
    requires IsOpen(fs, fd)
    ensures Put(fs, fd, []) == fs
  {
    var f := HandleFile(fs, fd);
    assert Splice(f.stored, fs.handles[fd].offset, []) == f.stored;
    assert Put(fs, fd, []).files == fs.files && Put(fs, fd, []).handles == fs.handles;
  }

  /** Everything is accepted if all of it can be put and the blocks suffice. */
  lemma WriteComplete(fs: Fs, fd: int, buf: seq<Byte>)
    requires IsOpen(fs, fd)
    requires UsedBlocks(Put(fs, fd, buf).files) <= USABLE_BLOCKS
    ensures WriteStep(fs, fd, buf) == (Put(fs, fd, buf), Code(|buf|))
  {
    var i, o := fs.handles[fd].file, fs.handles[fd].offset;
    var stored := |Put(fs, fd, buf).files[i].stored|;
    RoomAfterPut(fs, fd, buf);
    BlocksForFits(stored, BlocksFor(stored));
    assert Accepted(fs, fd, |buf|) == |buf|;
    assert buf[..|buf|] == buf;
  }

  /** A write stops where the room of the file ends. */
  lemma WriteStopped(fs: Fs, fd: int, buf: seq<Byte>, k: nat)
    requires IsOpen(fs, fd) && k < |buf|
    requires Room(Put(fs, fd, buf[..k]), fs.handles[fd].file) == fs.handles[fd].offset + k
    ensures WriteStep(fs, fd, buf) == (Put(fs, fd, buf[..k]), Code(-1))
  {
    RoomAfterPut(fs, fd, buf[..k]);
  }

  /**
   Splitting law: writing `a` then `b` leaves the same file system as writing `a + b` once, for every split point,
   block alignment and amount of free space.
   */
  lemma WriteSplits(fs: Fs, fd: int, a: seq<Byte>, b: seq<Byte>)
    requires Valid(fs) && Allowed(fs, Write(fd, a + b))
    ensures Valid(WriteStep(fs, fd, a).0)
    ensures WriteStep(WriteStep(fs, fd, a).0, fd, b).0 == WriteStep(fs, fd, a + b).0
  {
    if IsOpen(fs, fd) {
      assert ValidHandle(fs, fs.handles[fd]);
      var k := Accepted(fs, fd, |a|);
      var fs' := WriteStep(fs, fd, a).0;
      AcceptedFits(fs, fd, |a|);
      PutValid(fs, fd, a[..k]);
      RoomAfterPut(fs, fd, a[..k]);
      var k' := Accepted(fs', fd, |b|);
      PutPut(fs, fd, a[..k], b[..k']);
      TakeOfSum(a, b, k, k', Accepted(fs, fd, |a + b|));
    }
  }

  lemma TakeOfSum(a: seq<Byte>, b: seq<Byte>, k: nat, k': nat, n: nat)
    requires k <= |a| && k' <= |b| && n == k + k' && (k < |a| ==> k' == 0)
    ensures a[..k] + b[..k'] == (a + b)[..n]
  {}

  lemma MoveTwice(fs: Fs, fd: int, offset: nat, offset': nat)
    requires IsOpen(fs, fd) && offset <= |HandleFile(fs, fd).stored|
    ensures IsOpen(MoveTo(fs, fd, offset), fd) && HandleFile(MoveTo(fs, fd, offset), fd) == HandleFile(fs, fd)
    ensures MoveTo(MoveTo(fs, fd, offset), fd, offset') == MoveTo(fs, fd, offset')
  {
    assert MoveTo(MoveTo(fs, fd, offset), fd, offset').handles == MoveTo(fs, fd, offset').handles;
  }

  /** A read is a slice of what is stored and a move of the handle. */
  lemma ReadIsMove(fs: Fs, fd: int, nbyte: nat, o: nat, k: nat)
    requires IsOpen(fs, fd) && Allowed(fs, Read(fd, nbyte))
    requires o == fs.handles[fd].offset && k == ReadLength(HandleFile(fs, fd).size, o, nbyte)
    ensures o + k <= |HandleFile(fs, fd).stored|
    ensures ReadStep(fs, fd, nbyte) == (MoveTo(fs, fd, o + k), Result(k, HandleFile(fs, fd).stored[o..o + k], []))
  {}

  /** What the first of two reads leaves for the second. */
  lemma ReadLengthsAdd(size: nat, o: nat, m: nat, n: nat)
    ensures ReadLength(size, o, m) <= ReadLength(size, o, m + n)
    ensures ReadLength(size, o + ReadLength(size, o, m), n) == ReadLength(size, o, m + n) - ReadLength(size, o, m)
  {}

  lemma FirstOfReads(fs: Fs, fd: int, m: nat, n: nat)
    requires Valid(fs) && IsOpen(fs, fd) && Allowed(fs, Read(fd, m + n))
    ensures Allowed(fs, Read(fd, m)) && Valid(ReadStep(fs, fd, m).0) && Allowed(ReadStep(fs, fd, m).0, Read(fd, n))
  {
    ReadValid(fs, fd, m);
  }

  /** Two consecutive reads leave the state of one larger read, and return together what it returns. */
  lemma ReadSplits(fs: Fs, fd: int, m: nat, n: nat)
    requires Valid(fs) && IsOpen(fs, fd) && Allowed(fs, Read(fd, m + n))
    ensures Allowed(fs, Read(fd, m)) && Valid(ReadStep(fs, fd, m).0) && Allowed(ReadStep(fs, fd, m).0, Read(fd, n))
    ensures var first, both := ReadStep(fs, fd, m), ReadStep(fs, fd, m + n);
      var second := ReadStep(first.0, fd, n);
      && second.0 == both.0
      && first.1.data + second.1.data == both.1.data
      && first.1.code + second.1.code == both.1.code
  {
    FirstOfReads(fs, fd, m, n);
    var o, f := fs.handles[fd].offset, HandleFile(fs, fd);
    var k, k' := ReadLength(f.size, o, m), ReadLength(f.size, o, m + n);
    ReadLengthsAdd(f.size, o, m, n);
    ReadIsMove(fs, fd, m, o, k);
    ReadIsMove(fs, fd, m + n, o, k');
    MoveTwice(fs, fd, o + k, o + k');
    ReadIsMove(MoveTo(fs, fd, o + k), fd, n, o + k, k' - k);
    JoinSlices(f.stored, o, o + k, o + k');
  }

  lemma JoinSlices(s: seq<Byte>, i: nat, j: nat, k: nat)
    requires i <= j <= k <= |s|
    ensures s[i..j] + s[j..k] == s[i..k]
  {}

  lemma SpliceRead(s: seq<Byte>, o: nat, b: seq<Byte>)
    requires o <= |s|
    ensures Splice(s, o, b)[o..o + |b|] == b
  {}

  /** What was written is read back: write, seek to where the write started, read. */
  lemma WriteSeekRead(fs: Fs, fd: int, buf: seq<Byte>)
    requires Valid(fs) && Allowed(fs, Write(fd, buf))
    requires buf != [] && WriteStep(fs, fd, buf).1.code == |buf|
    ensures IsOpen(fs, fd)
    ensures var fs1 := WriteStep(fs, fd, buf).0;
      && Valid(fs1)
      && SeekStep(fs1, fd, fs.handles[fd].offset).1.code == 0
      && var fs2 := SeekStep(fs1, fd, fs.handles[fd].offset).0;
         && Valid(fs2) && Allowed(fs2, Read(fd, |buf|))
         && ReadStep(fs2, fd, |buf|).1.data == buf
         && ReadStep(fs2, fd, |buf|).0 == fs1
  {
    WriteValid(fs, fd, buf);
    assert ValidHandle(fs, fs.handles[fd]);
    var o := fs.handles[fd].offset;
    assert buf[..|buf|] == buf;
    var fs1 := WriteStep(fs, fd, buf).0;
    SeekValid(fs1, fd, o);
    var fs2 := SeekStep(fs1, fd, o).0;
    SpliceRead(HandleFile(fs, fd).stored, o, buf);
    assert HandleFile(fs2, fd) == HandleFile(fs1, fd) && fs2.handles[fd].offset == o;
    assert ReadStep(fs2, fd, |buf|).0.handles == fs1.handles;
  }

  // ---------------------------------------------------------------------------------------------
  // A full disk
  // ---------------------------------------------------------------------------------------------

  /** A write fails exactly when the blocks it needs are neither in the file nor free. */
  lemma WriteFailsWhenFull(fs: Fs, fd: int, buf: seq<Byte>)
    requires Valid(fs) && Allowed(fs, Write(fd, buf)) && IsOpen(fs, fd) && buf != []
    ensures WriteStep(fs, fd, buf).1.code == -1 <==>
      BlocksFor(fs.handles[fd].offset + |buf|) >
      BlocksFor(|HandleFile(fs, fd).stored|) + (USABLE_BLOCKS - UsedBlocks(fs.files))
    ensures WriteStep(fs, fd, buf).1.code in {-1, |buf|}
  {
    assert ValidHandle(fs, fs.handles[fd]);
    AcceptedFits(fs, fd, |buf|);
    BlocksForFits(fs.handles[fd].offset + |buf|,
                  BlocksFor(|HandleFile(fs, fd).stored|) + (USABLE_BLOCKS - UsedBlocks(fs.files)));
  }

  /** A failed write stored a proper prefix of the buffer and used up every free block. */
  lemma FailedWriteFillsTheDisk(fs: Fs, fd: int, buf: seq<Byte>)
    requires Valid(fs) && Allowed(fs, Write(fd, buf)) && IsOpen(fs, fd)
    requires WriteStep(fs, fd, buf).1.code == -1
    ensures var fs' := WriteStep(fs, fd, buf).0;
      exists k :: 0 <= k < |buf| && fs' == Put(fs, fd, buf[..k]) &&
        UsedBlocks(fs'.files) == USABLE_BLOCKS
  {
    assert ValidHandle(fs, fs.handles[fd]);
    var k := Accepted(fs, fd, |buf|);
    var i, o := fs.handles[fd].file, fs.handles[fd].offset;
    var stored := |fs.files[i].stored|;
    AcceptedFits(fs, fd, |buf|);
    PutBlocks(fs, fd, buf[..k]);
    assert o + k == Room(fs, i);
    BlocksForFits(stored, BlocksFor(stored));
    assert BlocksFor(o + k) == BlocksFor(stored) + (USABLE_BLOCKS - UsedBlocks(fs.files));
  }

  // ---------------------------------------------------------------------------------------------
  // Framing over runs
  // ---------------------------------------------------------------------------------------------

  /** The file system after an operation. */
  function After(fs: Fs, op: Op): (fs': Fs)
    requires Valid(fs) && Allowed(fs, op)
    ensures Valid(fs')
  {
    StepKeepsValid(fs, op);
    Step(fs, op).0
  }

  predicate RunAllowed(fs: Fs, ops: seq<Op>)
    requires Valid(fs)
    decreases |ops|
  {
    ops == [] || (Allowed(fs, ops[0]) && RunAllowed(After(fs, ops[0]), ops[1..]))
  }

  /** Where a run of operations ends. */
  function Run(fs: Fs, ops: seq<Op>): (fs': Fs)
    requires Valid(fs) && RunAllowed(fs, ops)
    ensures Valid(fs')
    decreases |ops|
  {
    if ops == [] then fs else Run(After(fs, ops[0]), ops[1..])
  }

  /** The results of a run of operations. */
  function RunResults(fs: Fs, ops: seq<Op>): (r: seq<Result>)
    requires Valid(fs) && RunAllowed(fs, ops)
    ensures |r| == |ops|
    decreases |ops|
  {
    if ops == [] then [] else [Step(fs, ops[0]).1] + RunResults(After(fs, ops[0]), ops[1..])
  }

  /** Whether an operation writes or truncates through a handle of file `i`. */
  predicate Changes(fs: Fs, op: Op, i: nat) {
    match op
    case Write(fd, _) => IsOpen(fs, fd) && fs.handles[fd].file == i
    case Truncate(fd, _) => IsOpen(fs, fd) && fs.handles[fd].file == i
    case _ => false
  }

  predicate RunChanges(fs: Fs, ops: seq<Op>, i: nat)
    requires Valid(fs) && RunAllowed(fs, ops)
    decreases |ops|
  {
    ops != [] &&
    (Changes(fs, ops[0], i) || RunChanges(After(fs, ops[0]), ops[1..], i))
  }

  lemma StepFrame(fs: Fs, op: Op, i: nat)
    requires Valid(fs) && Allowed(fs, op) && i < |fs.files| && !Changes(fs, op, i)
    ensures var fs' := Step(fs, op).0; i < |fs'.files| && fs'.files[i] == fs.files[i]
  {
    match op
    case Write(fd, _) =>
      assert IsOpen(fs, fd) ==> ValidHandle(fs, fs.handles[fd]);
    case Truncate(fd, _) =>
      assert IsOpen(fs, fd) ==> ValidHandle(fs, fs.handles[fd]);
    case _ =>
  }

  /** In any run, a file that no operation writes or truncates keeps its name, bytes and size. */
  lemma {:induction false} RunFrame(fs: Fs, ops: seq<Op>, i: nat)
    requires Valid(fs) && RunAllowed(fs, ops) && i < |fs.files| && !RunChanges(fs, ops, i)
    ensures var fs' := Run(fs, ops); i < |fs'.files| && fs'.files[i] == fs.files[i]
    decreases |ops|
  {
    if ops != [] {
      StepFrame(fs, ops[0], i);
      RunFrame(After(fs, ops[0]), ops[1..], i);
    }
  }

  // ---------------------------------------------------------------------------------------------
  // Agreement with a POSIX file
  // ---------------------------------------------------------------------------------------------

  /** What a read through a handle at `offset` should return. */
  function PosixRead(contents: seq<Byte>, offset: nat, nbyte: nat): seq<Byte> {
    if offset >= |contents| then [] else contents[offset..Min(|contents|, offset + nbyte)]
  }

  /** What a nonempty write at `offset` should leave: a gap before it is filled with zeros. */
  function PosixWrite(contents: seq<Byte>, offset: nat, b: seq<Byte>): seq<Byte> {
    if offset <= |contents| then Splice(contents, offset, b) else contents + Zeros(offset - |contents|) + b
  }

  lemma SliceOfTake(s: seq<Byte>, n: nat, i: nat, j: nat)
    requires i <= j <= n <= |s|
    ensures s[..n][i..j] == s[i..j]
  {}

  /** Reads return the slice at the offset clipped to the size exactly when the handle is not past the size. */
  lemma ReadIsPosix(fs: Fs, fd: int, nbyte: nat)
    requires Valid(fs) && Allowed(fs, Read(fd, nbyte)) && IsOpen(fs, fd)
    requires nbyte > 0
    ensures var f, o := HandleFile(fs, fd), fs.handles[fd].offset;
      f.size <= |f.stored| &&
      (ReadStep(fs, fd, nbyte).1.data == PosixRead(Contents(f), o, nbyte) <==> o <= f.size)
  {
    assert ValidHandle(fs, fs.handles[fd]);
    var f, o := HandleFile(fs, fd), fs.handles[fd].offset;
    assert ValidFile(f);
    if o < f.size {
      SliceOfTake(f.stored, f.size, o, Min(f.size, o + nbyte));
    }
  }

  /**
   A write splices its bytes into the contents exactly when the handle is not past the size, or the bytes that a
   truncation left behind in the gap are all zero.
   */
  lemma WriteIsPosix(fs: Fs, fd: int, b: seq<Byte>)
    requires Valid(fs) && IsOpen(fs, fd) && b != []
    ensures var f, o := HandleFile(fs, fd), fs.handles[fd].offset;
      && f.size <= |f.stored| && o <= |f.stored|
      && var f' := Put(fs, fd, b).files[fs.handles[fd].file];
         && f'.size <= |f'.stored|
         && (Contents(f') == PosixWrite(Contents(f), o, b) <==>
             (o <= f.size || forall i :: f.size <= i < o ==> f.stored[i] == 0))
  {
    assert ValidHandle(fs, fs.handles[fd]);
    var f, o := HandleFile(fs, fd), fs.handles[fd].offset;
    assert ValidFile(f);
    var f' := Put(fs, fd, b).files[fs.handles[fd].file];
    var got, want := Contents(f'), PosixWrite(Contents(f), o, b);
    if o <= f.size {
      assert got == want;
    } else {
      assert |got| == |want| == o + |b|;
      assert forall i :: 0 <= i < f.size ==> got[i] == want[i];
      assert forall i :: o <= i < o + |b| ==> got[i] == b[i - o] && want[i] == b[i - o];
      assert forall i :: f.size <= i < o ==> got[i] == f.stored[i] && want[i] == 0;
    }
  }
}
