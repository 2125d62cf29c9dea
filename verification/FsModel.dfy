/**
 The abstract file system that file-systems-noodlez102/fs.c is proved to refine.

 A file is the bytes that were ever written to it (`stored`) and a size. Truncation lowers the size and forgets
 nothing, so a handle may be left past the size; the bytes between the size and the end of `stored` are what such
 a handle meets. What callers see of a file is its contents, the first `size` bytes.
 */
module FsModel {
  import opened Bytes

  const MAX_FILE_NAME: nat := 15
  const MAX_NUM_OF_FILES: nat := 64
  const TOTAL_BLOCKS: nat := 8192
  const BLOCK_SIZE: nat := 4096
  const MAX_FILESIZE: nat := 0x10_0000
  const MAX_FILE_DESCRIPTORS: nat := 32

  /** Blocks that can be given to files: every block but block 0. */
  const USABLE_BLOCKS: nat := TOTAL_BLOCKS - 1

  datatype File = File(name: string, stored: seq<Byte>, size: nat)

  datatype Handle = Closed | Open(file: nat, offset: nat)

  datatype Fs = Fs(files: seq<File>, handles: seq<Handle>)

  datatype Op =
    | Create(name: string)
    | OpenFile(name: string)
    | Close(fd: int)
    | Read(fd: int, nbyte: nat)
    | Write(fd: int, buf: seq<Byte>)
    | Seek(fd: int, offset: int)
    | Truncate(fd: int, length: int)
    | FileSize(fd: int)
    | ListFiles

  /** A return code, with the bytes of a read or the names of a listing. */
  datatype Result = Result(code: int, data: seq<Byte>, names: seq<string>)

  function Code(code: int): Result {
    Result(code, [], [])
  }

  function Contents(f: File): seq<Byte>
    requires f.size <= |f.stored|
  {
    f.stored[..f.size]
  }

  /** The number of blocks that hold `n` bytes. */
  function BlocksFor(n: nat): nat {
    (n + (BLOCK_SIZE - 1)) / BLOCK_SIZE
  }

  /** Truncation gives no block back, so a file keeps the blocks of everything stored. */
  function UsedBlocks(files: seq<File>): nat {
    if files == [] then 0 else UsedBlocks(files[..|files| - 1]) + BlocksFor(|files[|files| - 1].stored|)
  }

  predicate LegalName(name: string) {
    0 < |name| <= MAX_FILE_NAME
  }

  predicate ValidFile(f: File) {
    LegalName(f.name) && f.size <= |f.stored| <= MAX_FILESIZE
  }

  /** An open handle is on a file, and within what is stored of it. */
  predicate ValidHandle(fs: Fs, h: Handle) {
    h.Open? ==>
      && h.file < |fs.files| && h.offset <= |fs.files[h.file].stored|
      && fs.files[h.file].size <= |fs.files[h.file].stored|
  }

  predicate Valid(fs: Fs) {
    && |fs.files| <= MAX_NUM_OF_FILES
    && |fs.handles| == MAX_FILE_DESCRIPTORS
    && (forall i :: 0 <= i < |fs.files| ==> ValidFile(fs.files[i]))
    && (forall i, j :: 0 <= i < j < |fs.files| ==> fs.files[i].name != fs.files[j].name)
    && (forall i :: 0 <= i < |fs.handles| ==> ValidHandle(fs, fs.handles[i]))
    && UsedBlocks(fs.files) <= USABLE_BLOCKS
  }

  /** The descriptor is open. */
  predicate IsOpen(fs: Fs, fd: int) {
    0 <= fd < |fs.handles| && fs.handles[fd].Open? && ValidHandle(fs, fs.handles[fd])
  }

  function HandleFile(fs: Fs, fd: int): File
    requires IsOpen(fs, fd)
  {
    fs.files[fs.handles[fd].file]
  }

  // ---------------------------------------------------------------------------------------------
  // Operations
  // ---------------------------------------------------------------------------------------------

  /** What strncmp and strncpy see of a name. */
  function Trunc(name: string): string {
    if |name| <= MAX_FILE_NAME then name else name[..MAX_FILE_NAME]
  }

  /** The index of the first file called `name`, or the number of files. */
  function FindFile(files: seq<File>, name: string): (i: nat)
    ensures i <= |files|
    ensures i < |files| ==> files[i].name == name
    ensures forall j :: 0 <= j < i ==> files[j].name != name
    decreases |files|
  {
    if files == [] || files[0].name == name then 0
    else
      var i := FindFile(files[1..], name);
      assert forall j :: 0 < j < i + 1 ==> files[j] == files[1..][j - 1];
      i + 1
  }

  /** The first closed handle, or the number of handles. */
  function FirstClosed(handles: seq<Handle>): (i: nat)
    ensures i <= |handles|
    ensures i < |handles| ==> handles[i].Closed?
    ensures forall j :: 0 <= j < i ==> handles[j].Open?
    decreases |handles|
  {
    if handles == [] || handles[0].Closed? then 0
    else
      var i := FirstClosed(handles[1..]);
      assert forall j :: 0 < j < i + 1 ==> handles[j] == handles[1..][j - 1];
      i + 1
  }

  function CreateStep(fs: Fs, name: string): (Fs, Result) {
    if !LegalName(name) || FindFile(fs.files, name) < |fs.files| || |fs.files| >= MAX_NUM_OF_FILES
    then (fs, Code(-1))
    else (fs.(files := fs.files + [File(name, [], 0)]), Code(0))
  }

  /** Only the first MAX_FILE_NAME characters of the name are compared. */
  function OpenStep(fs: Fs, name: string): (Fs, Result) {
    var i, fd := FindFile(fs.files, Trunc(name)), FirstClosed(fs.handles);
    if i == |fs.files| || fd == |fs.handles| then (fs, Code(-1))
    else (fs.(handles := fs.handles[fd := Open(i, 0)]), Code(fd))
  }

  function CloseStep(fs: Fs, fd: int): (Fs, Result) {
    if !IsOpen(fs, fd) then (fs, Code(-1)) else (fs.(handles := fs.handles[fd := Closed]), Code(0))
  }

  function MoveTo(fs: Fs, fd: int, offset: nat): Fs
    requires IsOpen(fs, fd)
  {
    fs.(handles := fs.handles[fd := Open(fs.handles[fd].file, offset)])
  }

  /** How many bytes a read of `nbyte` returns: a handle past the size is not stopped by the size. */
  function ReadLength(size: nat, offset: nat, nbyte: nat): nat {
    if offset <= size then Min(nbyte, size - offset) else nbyte
  }

  function ReadStep(fs: Fs, fd: int, nbyte: nat): (Fs, Result)
    requires Allowed(fs, Read(fd, nbyte))
  {
    if !IsOpen(fs, fd) then (fs, Code(-1))
    else
      var f, o := HandleFile(fs, fd), fs.handles[fd].offset;
      var n := ReadLength(f.size, o, nbyte);
      (MoveTo(fs, fd, o + n), Result(n, f.stored[o..o + n], []))
  }

  /** The size of a file after `b` is written at offset `o`; writing nothing does not touch it. */
  function SizeAfter(size: nat, o: nat, b: seq<Byte>): nat {
    if b == [] then size else Max(size, o + |b|)
  }

  /** Write `b` at the offset of the handle and move the handle past it. */
  function Put(fs: Fs, fd: int, b: seq<Byte>): Fs
    requires IsOpen(fs, fd)
  {
    var i, o := fs.handles[fd].file, fs.handles[fd].offset;
    var f := fs.files[i];
    var f' := f.(stored := Splice(f.stored, o, b), size := SizeAfter(f.size, o, b));
    MoveTo(fs.(files := fs.files[i := f']), fd, o + |b|)
  }

  /** The largest offset a handle can reach with the blocks its file has and those still free. */
  function Room(fs: Fs, file: nat): int
    requires file < |fs.files|
  {
    (BlocksFor(|fs.files[file].stored|) + (USABLE_BLOCKS - UsedBlocks(fs.files))) * BLOCK_SIZE
  }

  /** How many of `n` bytes find room on the disk. */
  function Accepted(fs: Fs, fd: int, n: nat): (k: nat)
    requires IsOpen(fs, fd)
    ensures k <= n
  {
    Max(0, Min(n, Room(fs, fs.handles[fd].file) - fs.handles[fd].offset))
  }

  function WriteStep(fs: Fs, fd: int, buf: seq<Byte>): (Fs, Result) {
    if !IsOpen(fs, fd) then (fs, Code(-1))
    else
      var k := Accepted(fs, fd, |buf|);
      (Put(fs, fd, buf[..k]), Code(if k == |buf| then k else -1))
  }

  function SeekStep(fs: Fs, fd: int, offset: int): (Fs, Result) {
    if !IsOpen(fs, fd) || offset < 0 then (fs, Code(-1))
    else
      if offset > HandleFile(fs, fd).size then (fs, Code(-1)) else (MoveTo(fs, fd, offset), Code(0))
  }

  /** Lower the size of a file and move this handle to the new end; other handles stay where they are. */
  function TruncateStep(fs: Fs, fd: int, length: int): (Fs, Result) {
    if !IsOpen(fs, fd) then (fs, Code(-1))
    else
      var i := fs.handles[fd].file;
      if length < 0 || length > fs.files[i].size then (fs, Code(-1))
      else (MoveTo(fs.(files := fs.files[i := fs.files[i].(size := length)]), fd, length), Code(0))
  }

  function FileSizeStep(fs: Fs, fd: int): (Fs, Result) {
    if !IsOpen(fs, fd) then (fs, Code(-1))
    else
      (fs, Code(HandleFile(fs, fd).size))
  }

  function Names(files: seq<File>): (names: seq<string>)
    ensures |names| == |files|
    ensures forall i :: 0 <= i < |files| ==> names[i] == files[i].name
  {
    seq(|files|, i requires 0 <= i < |files| => files[i].name)
  }

  /**
   What the code demands of its callers: writes stay within MAX_FILESIZE, and a read through a handle past the
   size stays within what was ever stored (further on it meets bytes no write put there).
   */
  predicate Allowed(fs: Fs, op: Op) {
    match op
    case Write(fd, buf) => IsOpen(fs, fd) ==> fs.handles[fd].offset + |buf| <= MAX_FILESIZE
    case Read(fd, nbyte) =>
      IsOpen(fs, fd) ==>
        var f, o := HandleFile(fs, fd), fs.handles[fd].offset;
        o > f.size ==> o + nbyte <= |f.stored|
    case _ => true
  }

  function Step(fs: Fs, op: Op): (Fs, Result)
    requires Allowed(fs, op)
  {
    match op
    case Create(name) => CreateStep(fs, name)
    case OpenFile(name) => OpenStep(fs, name)
    case Close(fd) => CloseStep(fs, fd)
    case Read(fd, nbyte) => ReadStep(fs, fd, nbyte)
    case Write(fd, buf) => WriteStep(fs, fd, buf)
    case Seek(fd, offset) => SeekStep(fs, fd, offset)
    case Truncate(fd, length) => TruncateStep(fs, fd, length)
    case FileSize(fd) => FileSizeStep(fs, fd)
    case ListFiles => (fs, Result(0, [], Names(fs.files)))
  }
}
