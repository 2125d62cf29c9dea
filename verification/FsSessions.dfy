/**
 Sessions of the file system in which no handle is left past the size of its file: when they stay that way, and that
 they behave as files of plain bytes do (file-systems-noodlez102/fs.c:391-603).
 */
module FsSessions {
  import opened Bytes
  import opened FsModel
  import opened FsLaws
  import opened FsCalls

  // ---------------------------------------------------------------------------------------------
  // Handles within the size
  // ---------------------------------------------------------------------------------------------

  predicate WithinSize(fs: Fs, h: nat)
    requires h < |fs.handles|
  {
    IsOpen(fs, h) ==> fs.handles[h].offset <= HandleFile(fs, h).size
  }

  /** No handle is past the size of its file. */
  predicate Settled(fs: Fs) {
    forall h: nat :: h < |fs.handles| ==> WithinSize(fs, h)
  }

  /** The operation truncates a file to less than the offset of another handle `h` of the same file. */
  predicate StrandsHandle(fs: Fs, op: Op, h: nat) {
    && op.Truncate? && IsOpen(fs, op.fd) && 0 <= op.length
    && h < |fs.handles| && h != op.fd && IsOpen(fs, h)
    && fs.handles[h].file == fs.handles[op.fd].file && op.length < fs.handles[h].offset
  }

  predicate Strands(fs: Fs, op: Op) {
    exists h: nat :: h < |fs.handles| && StrandsHandle(fs, op, h)
  }

  /** A handle within the size gets past it exactly by such a truncation. */
  lemma HandleStrandsExactly(fs: Fs, op: Op, h: nat)
    requires Valid(fs) && Allowed(fs, op) && h < |fs.handles| && WithinSize(fs, h)
    ensures |Step(fs, op).0.handles| == |fs.handles|
    ensures WithinSize(Step(fs, op).0, h) <==> !StrandsHandle(fs, op, h)
  {
    assert ValidHandle(fs, fs.handles[h]);
    if StrandsHandle(fs, op, h) {
      assert op.length <= HandleFile(fs, op.fd).size;
    }
  }

  /** All handles stay within the size at a step exactly when it strands none. */
  lemma StrandsExactly(fs: Fs, op: Op)
    requires Valid(fs) && Allowed(fs, op) && Settled(fs)
    ensures Settled(Step(fs, op).0) <==> !Strands(fs, op)
  {
    StepKeepsValid(fs, op);
    forall h: nat | h < |fs.handles|
      ensures WithinSize(Step(fs, op).0, h) <==> !StrandsHandle(fs, op, h)
    {
      HandleStrandsExactly(fs, op, h);
    }
  }

  /** A write stays within MAX_FILESIZE; nothing else is asked of callers in a settled session. */
  predicate Fits(fs: Fs, op: Op) {
    op.Write? && IsOpen(fs, op.fd) ==> fs.handles[op.fd].offset + |op.buf| <= MAX_FILESIZE
  }

  lemma SettledAllows(fs: Fs, op: Op)
    requires Settled(fs)
    ensures Allowed(fs, op) <==> Fits(fs, op)
  {
    assert op.Read? && IsOpen(fs, op.fd) ==> WithinSize(fs, op.fd);
  }

  // ---------------------------------------------------------------------------------------------
  // Runs
  // ---------------------------------------------------------------------------------------------

  /** In every state of the run all handles are within the size. */
  predicate StaysSettled(fs: Fs, ops: seq<Op>)
    requires Valid(fs) && RunAllowed(fs, ops)
    decreases |ops|
  {
    Settled(fs) && (ops != [] ==> StaysSettled(After(fs, ops[0]), ops[1..]))
  }

  predicate NeverStrands(fs: Fs, ops: seq<Op>)
    requires Valid(fs) && RunAllowed(fs, ops)
    decreases |ops|
  {
    ops == [] || (!Strands(fs, ops[0]) && NeverStrands(After(fs, ops[0]), ops[1..]))
  }

  /** A run leaves no handle past a size at any time exactly when none of its steps strands one. */
  lemma {:induction false} RunStrandsExactly(fs: Fs, ops: seq<Op>)
    requires Valid(fs) && RunAllowed(fs, ops) && Settled(fs)
    ensures StaysSettled(fs, ops) <==> NeverStrands(fs, ops)
    decreases |ops|
  {
    if ops != [] {
      StrandsExactly(fs, ops[0]);
      if Strands(fs, ops[0]) {
        assert !StaysSettled(After(fs, ops[0]), ops[1..]);
      } else {
        RunStrandsExactly(After(fs, ops[0]), ops[1..]);
      }
    }
  }

  /** What a caller can check before each step: writes stay within MAX_FILESIZE, and no truncation strands a handle. */
  predicate Quiet(fs: Fs, ops: seq<Op>)
    requires Valid(fs) && Settled(fs)
    decreases |ops|
  {
    ops == [] || (
      && Fits(fs, ops[0]) && !Strands(fs, ops[0])
      && (SettledAllows(fs, ops[0]); StrandsExactly(fs, ops[0]); Quiet(After(fs, ops[0]), ops[1..])))
  }

  /** Such a run is allowed, reads included, and stays settled. */
  lemma {:induction false} QuietRuns(fs: Fs, ops: seq<Op>)
    requires Valid(fs) && Settled(fs) && Quiet(fs, ops)
    ensures RunAllowed(fs, ops) && StaysSettled(fs, ops) && Settled(Run(fs, ops))
    decreases |ops|
  {
    if ops != [] {
      SettledAllows(fs, ops[0]);
      StrandsExactly(fs, ops[0]);
      QuietRuns(After(fs, ops[0]), ops[1..]);
    }
  }

  // ---------------------------------------------------------------------------------------------
  // Plain files
  // ---------------------------------------------------------------------------------------------

  /** A file of plain bytes: all that is stored is its contents. */
  function Plain(f: File): File {
    if f.size <= |f.stored| then File(f.name, Contents(f), f.size) else f
  }

  function PlainFiles(files: seq<File>): (r: seq<File>)
    ensures |r| == |files|
    ensures forall i :: 0 <= i < |files| ==> r[i] == Plain(files[i])
  {
    seq(|files|, i requires 0 <= i < |files| => Plain(files[i]))
  }

  /** What callers see: each file as its contents, each handle as its offset. */
  function Ideal(fs: Fs): Fs
    requires Valid(fs)
  {
    Fs(PlainFiles(fs.files), fs.handles)
  }

  function SetContents(i: Fs, fd: int, contents: seq<Byte>, offset: nat): Fs
    requires IsOpen(i, fd)
  {
    var k := i.handles[fd].file;
    i.(files := i.files[k := File(i.files[k].name, contents, |contents|)], handles := i.handles[fd := Open(k, offset)])
  }

  /** A POSIX read. */
  function IdealRead(i: Fs, fd: int, nbyte: nat): (Fs, Result) {
    if !IsOpen(i, fd) then (i, Code(-1))
    else
      var data := PosixRead(HandleFile(i, fd).stored, i.handles[fd].offset, nbyte);
      (MoveTo(i, fd, i.handles[fd].offset + |data|), Result(|data|, data, []))
  }

  /** A POSIX write of as much of the buffer as found room. */
  function IdealWrite(i: Fs, fd: int, buf: seq<Byte>, accepted: nat): (Fs, Result)
    requires accepted <= |buf|
  {
    if !IsOpen(i, fd) then (i, Code(-1))
    else
      var b, o := buf[..accepted], i.handles[fd].offset;
      (SetContents(i, fd, PosixWrite(HandleFile(i, fd).stored, o, b), o + |b|),
       Code(if accepted == |buf| then accepted else -1))
  }

  function IdealTruncate(i: Fs, fd: int, length: int): (Fs, Result) {
    if !IsOpen(i, fd) || length < 0 || length > |HandleFile(i, fd).stored| then (i, Code(-1))
    else (SetContents(i, fd, HandleFile(i, fd).stored[..length], length), Code(0))
  }

  /** A new empty file, for a new name of 1 to 15 characters. */
  ghost function IdealCreate(i: Fs, name: string): (Fs, Result) {
    if 1 <= |name| <= 15 && !NameTaken(i, name) && |i.files| < 64
    then (Fs(i.files + [File(name, [], 0)], i.handles), Code(0))
    else (i, Code(-1))
  }

  /** The lowest unused descriptor, open at the start of the file that the name asks for. */
  ghost function IdealOpen(i: Fs, name: string): (Fs, Result) {
    if k: nat, fd: nat :| Called(i, k, name) && LowestUnused(i, fd)
    then (Fs(i.files, i.handles[fd := Open(k, 0)]), Code(fd))
    else (i, Code(-1))
  }

  function IdealClose(i: Fs, fd: int): (Fs, Result) {
    if InUse(i, fd) then (Fs(i.files, i.handles[fd := Closed]), Code(0)) else (i, Code(-1))
  }

  /** An offset within the contents. */
  function IdealSeek(i: Fs, fd: int, offset: int): (Fs, Result) {
    if IsOpen(i, fd) && 0 <= offset <= |HandleFile(i, fd).stored|
    then (Fs(i.files, i.handles[fd := Open(i.handles[fd].file, offset)]), Code(0))
    else (i, Code(-1))
  }

  /** The length of the contents. */
  function IdealFileSize(i: Fs, fd: int): Result {
    if IsOpen(i, fd) then Code(|HandleFile(i, fd).stored|) else Code(-1)
  }

  /** How much of a write finds room on the disk; see `WriteFailsWhenFull`. */
  function AcceptedBy(fs: Fs, op: Op): (k: nat)
    ensures op.Write? ==> k <= |op.buf|
  {
    if op.Write? && IsOpen(fs, op.fd) then Accepted(fs, op.fd, |op.buf|) else 0
  }

  /** A step of a file system of plain bytes, in which a write finds room for `accepted` bytes. */
  ghost function IdealStep(i: Fs, op: Op, accepted: nat): (Fs, Result)
    requires op.Write? ==> accepted <= |op.buf|
  {
    match op
    case Create(name) => IdealCreate(i, name)
    case OpenFile(name) => IdealOpen(i, name)
    case Close(fd) => IdealClose(i, fd)
    case Read(fd, nbyte) => IdealRead(i, fd, nbyte)
    case Write(fd, buf) => IdealWrite(i, fd, buf, accepted)
    case Seek(fd, offset) => IdealSeek(i, fd, offset)
    case Truncate(fd, length) => IdealTruncate(i, fd, length)
    case FileSize(fd) => (i, IdealFileSize(i, fd))
    case ListFiles => (i, Result(0, [], Names(i.files)))
  }

  // ---------------------------------------------------------------------------------------------
  // Settled sessions are sessions of plain files
  // ---------------------------------------------------------------------------------------------

  lemma OpenAlike(fs: Fs, fd: int)
    requires Valid(fs) && Settled(fs)
    ensures IsOpen(Ideal(fs), fd) <==> IsOpen(fs, fd)
    ensures IsOpen(fs, fd) ==>
      && HandleFile(fs, fd).size <= |HandleFile(fs, fd).stored|
      && HandleFile(Ideal(fs), fd) == Plain(HandleFile(fs, fd))
      && fs.handles[fd].offset <= HandleFile(fs, fd).size
  {
    if 0 <= fd < |fs.handles| {
      assert ValidHandle(fs, fs.handles[fd]) && WithinSize(fs, fd);
    }
  }

  lemma ReadIsIdeal(fs: Fs, fd: int, nbyte: nat)
    requires Valid(fs) && Settled(fs) && Allowed(fs, Read(fd, nbyte))
    ensures Valid(ReadStep(fs, fd, nbyte).0)
    ensures (Ideal(ReadStep(fs, fd, nbyte).0), ReadStep(fs, fd, nbyte).1) == IdealRead(Ideal(fs), fd, nbyte)
  {
    ReadValid(fs, fd, nbyte);
    OpenAlike(fs, fd);
    if IsOpen(fs, fd) {
      var f, o := HandleFile(fs, fd), fs.handles[fd].offset;
      SliceOfTake(f.stored, f.size, o, Min(f.size, o + nbyte));
    }
  }

  /** A put within the size changes one file to what a POSIX write leaves. */
  lemma PutIsIdeal(fs: Fs, fd: int, b: seq<Byte>)
    requires Valid(fs) && Settled(fs) && IsOpen(fs, fd) && Valid(Put(fs, fd, b))
    ensures IsOpen(Ideal(fs), fd)
    ensures var i := Ideal(fs); var o := i.handles[fd].offset;
      Ideal(Put(fs, fd, b)) == SetContents(i, fd, PosixWrite(HandleFile(i, fd).stored, o, b), o + |b|)
  {
    OpenAlike(fs, fd);
    var i, k, o := Ideal(fs), fs.handles[fd].file, fs.handles[fd].offset;
    var f := fs.files[k];
    var f' := Put(fs, fd, b).files[k];
    var want := PosixWrite(Contents(f), o, b);
    if b == [] {
      PutNothing(fs, fd);
      assert want == Contents(f);
    } else {
      WriteIsPosix(fs, fd, b);
    }
    assert Plain(f') == File(f.name, want, |want|);
    assert PlainFiles(Put(fs, fd, b).files) == PlainFiles(fs.files)[k := Plain(f')];
  }

  lemma WriteIsIdeal(fs: Fs, fd: int, buf: seq<Byte>)
    requires Valid(fs) && Settled(fs) && Allowed(fs, Write(fd, buf))
    ensures Valid(WriteStep(fs, fd, buf).0)
    ensures (Ideal(WriteStep(fs, fd, buf).0), WriteStep(fs, fd, buf).1)
         == IdealWrite(Ideal(fs), fd, buf, AcceptedBy(fs, Write(fd, buf)))
  {
    WriteValid(fs, fd, buf);
    OpenAlike(fs, fd);
    if IsOpen(fs, fd) {
      PutIsIdeal(fs, fd, buf[..Accepted(fs, fd, |buf|)]);
    }
  }

  lemma TruncateIsIdeal(fs: Fs, fd: int, length: int)
    requires Valid(fs) && Settled(fs)
    ensures Valid(TruncateStep(fs, fd, length).0)
    ensures (Ideal(TruncateStep(fs, fd, length).0), TruncateStep(fs, fd, length).1)
      == IdealTruncate(Ideal(fs), fd, length)
  {
    StepKeepsValid(fs, Truncate(fd, length));
    OpenAlike(fs, fd);
    if IsOpen(fs, fd) && 0 <= length <= HandleFile(fs, fd).size {
      var f, k := HandleFile(fs, fd), fs.handles[fd].file;
      assert f.stored[..f.size][..length] == f.stored[..length];
      assert PlainFiles(TruncateStep(fs, fd, length).0.files)
          == PlainFiles(fs.files)[k := File(f.name, f.stored[..length], length)];
    }
  }

  lemma CreateIsIdeal(fs: Fs, name: string)
    requires Valid(fs)
    ensures Valid(CreateStep(fs, name).0)
    ensures (Ideal(CreateStep(fs, name).0), CreateStep(fs, name).1) == IdealCreate(Ideal(fs), name)
  {
    CreateValid(fs, name);
    CreateAnswers(fs, name);
    assert NameTaken(Ideal(fs), name) <==> NameTaken(fs, name) by {
      assert forall k :: 0 <= k < |fs.files| ==> PlainFiles(fs.files)[k].name == fs.files[k].name;
    }
    assert PlainFiles(fs.files + [File(name, [], 0)]) == PlainFiles(fs.files) + [File(name, [], 0)];
  }

  /** A name asks for one file, and one descriptor is the lowest unused one. */
  lemma OpensOne(fs: Fs, name: string, k: nat, k': nat, fd: nat, fd': nat)
    requires Valid(fs) && Called(fs, k, name) && Called(fs, k', name) && LowestUnused(fs, fd) && LowestUnused(fs, fd')
    ensures k == k' && fd == fd'
  {
    assert ValidFile(fs.files[k]) && ValidFile(fs.files[k']);
    CalledTrunc(fs, k, name);
    CalledTrunc(fs, k', name);
  }

  lemma CalledAlike(fs: Fs, k: nat, name: string)
    requires Valid(fs)
    ensures Called(Ideal(fs), k, name) <==> Called(fs, k, name)
  {}

  lemma OpenIsIdeal(fs: Fs, name: string)
    requires Valid(fs)
    ensures Valid(OpenStep(fs, name).0)
    ensures (Ideal(OpenStep(fs, name).0), OpenStep(fs, name).1) == IdealOpen(Ideal(fs), name)
  {
    StepKeepsValid(fs, OpenFile(name));
    OpenAnswers(fs, name);
    var (fs', r) := OpenStep(fs, name);
    var i := Ideal(fs);
    forall k: nat, fd: nat | Called(i, k, name) && LowestUnused(i, fd)
      ensures r.code == fd && fs'.handles == fs.handles[fd := Open(k, 0)]
    {
      CalledAlike(fs, k, name);
      OpensOne(fs, name, k, fs'.handles[r.code].file, fd, r.code);
    }
    if r.code >= 0 {
      CalledAlike(fs, fs'.handles[r.code].file, name);
      assert LowestUnused(i, r.code);
    }
  }

  /** A step of a settled session is a step of plain files, with the same result. */
  lemma StepIsIdeal(fs: Fs, op: Op)
    requires Valid(fs) && Settled(fs) && Allowed(fs, op)
    ensures (Ideal(After(fs, op)), Step(fs, op).1) == IdealStep(Ideal(fs), op, AcceptedBy(fs, op))
  {
    match op {
      case Create(name) => CreateIsIdeal(fs, name);
      case OpenFile(name) => OpenIsIdeal(fs, name);
      case Read(fd, nbyte) => ReadIsIdeal(fs, fd, nbyte);
      case Write(fd, buf) => WriteIsIdeal(fs, fd, buf);
      case Truncate(fd, length) => TruncateIsIdeal(fs, fd, length);
      case ListFiles => assert Names(PlainFiles(fs.files)) == Names(fs.files);
      case Close(fd) => OpenAlike(fs, fd);
      case Seek(fd, offset) => OpenAlike(fs, fd);
      case FileSize(fd) => OpenAlike(fs, fd);
    }
  }

  /** How much of each write of a run finds room. */
  function Accepts(fs: Fs, ops: seq<Op>): (r: seq<nat>)
    requires Valid(fs) && RunAllowed(fs, ops)
    ensures |r| == |ops|
    ensures forall k :: 0 <= k < |ops| && ops[k].Write? ==> r[k] <= |ops[k].buf|
    decreases |ops|
  {
    if ops == [] then [] else [AcceptedBy(fs, ops[0])] + Accepts(After(fs, ops[0]), ops[1..])
  }

  /** A run of plain files, and its results. */
  ghost function IdealRun(i: Fs, ops: seq<Op>, accepts: seq<nat>): (Fs, seq<Result>)
    requires |accepts| == |ops| && forall k :: 0 <= k < |ops| && ops[k].Write? ==> accepts[k] <= |ops[k].buf|
    decreases |ops|
  {
    if ops == [] then (i, [])
    else
      var first := IdealStep(i, ops[0], accepts[0]);
      var rest := IdealRun(first.0, ops[1..], accepts[1..]);
      (rest.0, [first.1] + rest.1)
  }

  /**
   A session in which no truncation strands a handle behaves as plain files do: every read returns the slice of the
   contents at the offset, every write splices what found room into them, and nothing else changes.
   */
  lemma {:induction false} SessionIsIdeal(fs: Fs, ops: seq<Op>)
    requires Valid(fs) && Settled(fs) && Quiet(fs, ops)
    ensures RunAllowed(fs, ops)
    ensures IdealRun(Ideal(fs), ops, Accepts(fs, ops)) == (Ideal(Run(fs, ops)), RunResults(fs, ops))
    decreases |ops|
  {
    QuietRuns(fs, ops);
    if ops != [] {
      SettledAllows(fs, ops[0]);
      StrandsExactly(fs, ops[0]);
      StepIsIdeal(fs, ops[0]);
      SessionIsIdeal(After(fs, ops[0]), ops[1..]);
      assert Accepts(fs, ops)[1..] == Accepts(After(fs, ops[0]), ops[1..]);
    }
  }

  // ---------------------------------------------------------------------------------------------
  // A session that strands a handle
  // ---------------------------------------------------------------------------------------------

  /** The file system of a fresh session. */
  function Fresh(): (fs: Fs)
    ensures Valid(fs) && Settled(fs)
  {
    Fs([], seq(MAX_FILE_DESCRIPTORS, _ => Closed))
  }

  /** One file `a`, open on handles 0 and 1. */
  function TwoHandles(stored: seq<Byte>, size: nat, first: nat, second: nat): Fs {
    Fs([File("a", stored, size)], Fresh().handles[0 := Open(0, first)][1 := Open(0, second)])
  }

  lemma TwoHandlesValid(stored: seq<Byte>, size: nat, first: nat, second: nat)
    requires size <= |stored| <= BLOCK_SIZE && first <= |stored| && second <= |stored|
    ensures var fs := TwoHandles(stored, size, first, second); Valid(fs) && IsOpen(fs, 0) && IsOpen(fs, 1)
  {
    var files := [File("a", stored, size)];
    assert files[..0] == [];
    assert UsedBlocks(files) == BlocksFor(|stored|) <= 1;
  }

  /** One more operation in front of a run. */
  lemma Prepend(fs: Fs, op: Op, rest: seq<Op>, fs': Fs)
    requires Valid(fs) && Allowed(fs, op) && Step(fs, op).0 == fs' && Valid(fs') && RunAllowed(fs', rest)
    ensures RunAllowed(fs, [op] + rest) && Run(fs, [op] + rest) == Run(fs', rest)
  {
    assert ([op] + rest)[1..] == rest;
  }

  /** Write two bytes through handle 0, move handle 1 past the first, and truncate the file to nothing. */
  lemma StrandingEnd()
    ensures var fs := TwoHandles([], 0, 0, 0);
      var ops := [Write(0, [7, 8])] + ([Seek(1, 1)] + ([Truncate(0, 0)] + []));
      Valid(fs) && RunAllowed(fs, ops) && Run(fs, ops) == TwoHandles([7, 8], 0, 0, 1)
  {
    TwoHandlesValid([], 0, 0, 0);
    TwoHandlesValid([7, 8], 2, 2, 0);
    TwoHandlesValid([7, 8], 2, 2, 1);
    TwoHandlesValid([7, 8], 0, 0, 1);
    var last: seq<Op> := [Truncate(0, 0)] + [];
    Prepend(TwoHandles([7, 8], 2, 2, 1), Truncate(0, 0), [], TwoHandles([7, 8], 0, 0, 1));
    Prepend(TwoHandles([7, 8], 2, 2, 0), Seek(1, 1), last, TwoHandles([7, 8], 2, 2, 1));
    FirstWrite();
    Prepend(TwoHandles([], 0, 0, 0), Write(0, [7, 8]), [Seek(1, 1)] + last, TwoHandles([7, 8], 2, 2, 0));
  }

  lemma FirstWrite()
    ensures WriteStep(TwoHandles([], 0, 0, 0), 0, [7, 8]).0 == TwoHandles([7, 8], 2, 2, 0)
  {
    var fs := TwoHandles([], 0, 0, 0);
    TwoHandlesValid([], 0, 0, 0);
    assert fs.files[..0] == [];
    assert Accepted(fs, 0, 2) == 2;
    assert Splice([], 0, [7, 8]) == [7, 8];
    assert [7, 8][..2] == [7, 8];
  }

  /** Create a file and open it twice. */
  lemma StrandingStart(rest: seq<Op>)
    requires Valid(TwoHandles([], 0, 0, 0)) && RunAllowed(TwoHandles([], 0, 0, 0), rest)
    ensures var ops := [Create("a")] + ([OpenFile("a")] + ([OpenFile("a")] + rest));
      RunAllowed(Fresh(), ops) && Run(Fresh(), ops) == Run(TwoHandles([], 0, 0, 0), rest)
  {
    var created := Fs([File("a", [], 0)], Fresh().handles);
    var once := Fs([File("a", [], 0)], Fresh().handles[0 := Open(0, 0)]);
    assert CreateStep(Fresh(), "a").0 == created;
    StepKeepsValid(Fresh(), Create("a"));
    assert FindFile(created.files, Trunc("a")) == 0 && FirstClosed(created.handles) == 0;
    StepKeepsValid(created, OpenFile("a"));
    assert FirstClosed(once.handles) == 1;
    Prepend(once, OpenFile("a"), rest, TwoHandles([], 0, 0, 0));
    Prepend(created, OpenFile("a"), [OpenFile("a")] + rest, once);
    Prepend(Fresh(), Create("a"), [OpenFile("a")] + ([OpenFile("a")] + rest), created);
  }

  lemma Three<T>(a: T, b: T, c: T, rest: seq<T>)
    ensures [a, b, c] + rest == [a] + ([b] + ([c] + rest))
  {}

  /** File `a` holds two bytes and has size 0; handle 1 is past the first byte. */
  function Stranded(): Fs {
    TwoHandles([7, 8], 0, 0, 1)
  }

  /** A session from the empty file system reaches that state. */
  lemma StrandingRun()
    ensures
      var ops := [Create("a"), OpenFile("a"), OpenFile("a")] + [Write(0, [7, 8]), Seek(1, 1), Truncate(0, 0)];
      RunAllowed(Fresh(), ops) && Run(Fresh(), ops) == Stranded()
  {
    var end := [Write(0, [7, 8]), Seek(1, 1), Truncate(0, 0)];
    StrandingEnd();
    Three(Write(0, [7, 8]), Seek(1, 1), Truncate(0, 0), []);
    assert end == end + [];
    StrandingStart(end);
    Three(Create("a"), OpenFile("a"), OpenFile("a"), end);
  }

  /** There a read returns a byte of the truncated contents, and a write brings a byte back where a zero should be. */
  lemma StrandedFails()
    ensures var fs := Stranded();
      && Valid(fs) && IsOpen(fs, 1) && !Settled(fs) && Allowed(fs, Read(1, 1)) && Contents(fs.files[0]) == []
      && ReadStep(fs, 1, 1).1.data == [8] && PosixRead([], 1, 1) == []
      && Contents(Put(fs, 1, [9]).files[0]) == [7, 9] && PosixWrite([], 1, [9]) == [0, 9]
  {
    TwoHandlesValid([7, 8], 0, 0, 1);
    assert !WithinSize(Stranded(), 1);
    assert Splice([7, 8], 1, [9]) == [7, 9];
    assert PosixWrite([], 1, [9]) == [0, 9];
    assert [7, 8][1..2] == [8];
  }
}
