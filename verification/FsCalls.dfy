/**
 What each call of the file system (file-systems-noodlez102/fs.c:227-603) answers and changes, said of the tables that
 callers see: the names, the descriptors and the sizes.
 */
module FsCalls {
  import opened Bytes
  import opened FsModel

  /** The descriptor is in use. */
  predicate InUse(fs: Fs, fd: int) {
    0 <= fd < |fs.handles| && fs.handles[fd].Open?
  }

  /** File `k` is the one that `name` asks for: its name is `name`, or the first 15 characters of it. */
  predicate Called(fs: Fs, k: nat, name: string) {
    && k < |fs.files|
    && (fs.files[k].name == name || (|fs.files[k].name| == 15 && fs.files[k].name <= name))
  }

  lemma CalledTrunc(fs: Fs, k: nat, name: string)
    requires k < |fs.files| && 0 < |fs.files[k].name| <= 15
    ensures Called(fs, k, name) <==> fs.files[k].name == Trunc(name)
  {
    if fs.files[k].name <= name && |fs.files[k].name| == 15 {
      assert fs.files[k].name == name[..15];
    }
  }

  /** Descriptor `fd` is the lowest one that is not in use. */
  predicate LowestUnused(fs: Fs, fd: nat) {
    && fd < |fs.handles| && fs.handles[fd].Closed?
    && forall d :: 0 <= d < fd ==> fs.handles[d].Open?
  }

  /** Only descriptor `fd` changed. */
  predicate OnlyHandle(fs: Fs, fs': Fs, fd: int) {
    && fs'.files == fs.files && |fs'.handles| == |fs.handles|
    && forall d :: 0 <= d < |fs.handles| && d != fd ==> fs'.handles[d] == fs.handles[d]
  }

  /** The result of a call that answers a code alone. */
  predicate Plainly(r: Result, code: int) {
    r.code == code && r.data == [] && r.names == []
  }

  // ---------------------------------------------------------------------------------------------
  // Creating, opening and closing
  // ---------------------------------------------------------------------------------------------

  predicate NameTaken(fs: Fs, name: string) {
    exists k :: 0 <= k < |fs.files| && fs.files[k].name == name
  }

  /** A file is created exactly for a new name of 1 to 15 characters, while there are fewer than 64. It is empty. */
  lemma CreateAnswers(fs: Fs, name: string)
    requires Valid(fs)
    ensures var (fs', r) := Step(fs, Create(name));
      && Plainly(r, if 1 <= |name| <= 15 && !NameTaken(fs, name) && |fs.files| < 64 then 0 else -1)
      && (r.code == -1 ==> fs' == fs)
      && (r.code == 0 ==>
        && fs'.handles == fs.handles && |fs'.files| == |fs.files| + 1 && fs'.files[..|fs.files|] == fs.files
        && fs'.files[|fs.files|].name == name && Contents(fs'.files[|fs.files|]) == [])
  {
    var i := FindFile(fs.files, name);
    assert i < |fs.files| ==> fs.files[i].name == name;
  }

  /**
   An open answers the lowest unused descriptor, and it is then open at offset 0 on the file that the name asks for; it
   fails exactly when there is no such file or no such descriptor.
   */
  lemma OpenAnswers(fs: Fs, name: string)
    requires Valid(fs)
    ensures var (fs', r) := Step(fs, OpenFile(name));
      && Plainly(r, r.code) && r.code >= -1
      && (r.code == -1 <==>
        (forall k: nat :: !Called(fs, k, name)) || (forall d :: 0 <= d < |fs.handles| ==> fs.handles[d].Open?))
      && (r.code == -1 ==> fs' == fs)
      && (r.code >= 0 ==>
        && LowestUnused(fs, r.code) && OnlyHandle(fs, fs', r.code)
        && fs'.handles[r.code].Open? && fs'.handles[r.code].offset == 0
        && Called(fs, fs'.handles[r.code].file, name))
  {
    var i := FindFile(fs.files, Trunc(name));
    forall k: nat | k < |fs.files|
      ensures Called(fs, k, name) <==> fs.files[k].name == Trunc(name)
    {
      assert ValidFile(fs.files[k]);
      CalledTrunc(fs, k, name);
    }
    assert i < |fs.files| ==> Called(fs, i, name);
  }

  /** A close answers 0 exactly for a descriptor in use, which then is not in use any more. */
  lemma CloseAnswers(fs: Fs, fd: int)
    requires Valid(fs)
    ensures var (fs', r) := Step(fs, Close(fd));
      && Plainly(r, if InUse(fs, fd) then 0 else -1)
      && (r.code == -1 ==> fs' == fs)
      && (r.code == 0 ==> OnlyHandle(fs, fs', fd) && !InUse(fs', fd))
  {
    assert InUse(fs, fd) ==> ValidHandle(fs, fs.handles[fd]);
  }

  /** The descriptor that an operation is called with. */
  predicate Takes(op: Op, fd: int) {
    match op
    case Create(_) => false
    case OpenFile(_) => false
    case Close(d) => d == fd
    case Read(d, _) => d == fd
    case Write(d, _) => d == fd
    case Seek(d, _) => d == fd
    case Truncate(d, _) => d == fd
    case FileSize(d) => d == fd
    case ListFiles => false
  }

  /** Every call with a descriptor that is not in use answers -1 and changes nothing. */
  lemma UnusedAnswers(fs: Fs, op: Op, fd: int)
    requires Takes(op, fd) && !InUse(fs, fd)
    ensures Allowed(fs, op) && Step(fs, op).0 == fs && Plainly(Step(fs, op).1, -1)
  {}

  /** After a close, every call with the descriptor fails, and it is there for the next open. */
  lemma ClosedIsGone(fs: Fs, fd: int, op: Op, name: string)
    requires Valid(fs) && InUse(fs, fd) && Takes(op, fd)
    ensures var fs' := Step(fs, Close(fd)).0;
      && Allowed(fs', op) && Step(fs', op).0 == fs' && Plainly(Step(fs', op).1, -1)
      && ((exists k: nat :: Called(fs, k, name)) ==> 0 <= Step(fs', OpenFile(name)).1.code <= fd)
  {
    var fs' := Step(fs, Close(fd)).0;
    CloseAnswers(fs, fd);
    UnusedAnswers(fs', op, fd);
    forall d | 0 <= d < |fs'.handles|
      ensures ValidHandle(fs', fs'.handles[d])
    {
      assert ValidHandle(fs, fs.handles[d]);
    }
    OpenAnswers(fs', name);
    if k: nat :| Called(fs, k, name) {
      assert Called(fs', k, name);
    }
  }

  /** A new file can be opened by its name while a descriptor is unused; it is the new one, and its size is 0. */
  lemma CreateThenOpen(fs: Fs, name: string, fd: nat)
    requires Valid(fs) && Step(fs, Create(name)).1.code == 0 && LowestUnused(fs, fd)
    ensures var (fs', r) := Step(Step(fs, Create(name)).0, OpenFile(name));
      && r.code == fd && |fs'.handles| == |fs.handles| && fs'.handles[fd] == Open(|fs.files|, 0)
      && Plainly(Step(fs', FileSize(fd)).1, 0)
  {
    CreateAnswers(fs, name);
    var created := Step(fs, Create(name)).0;
    var i, k := FindFile(created.files, Trunc(name)), |fs.files|;
    assert Trunc(name) == name && created.files[k].name == name;
    assert forall j :: 0 <= j < k ==> created.files[j] == fs.files[j];
    assert i == k;
    var d := FirstClosed(created.handles);
    assert d == fd;
  }

  // ---------------------------------------------------------------------------------------------
  // Calls with a descriptor
  // ---------------------------------------------------------------------------------------------

  /** A seek goes to any offset from 0 to the size, the size included, and nowhere else. */
  lemma SeekAnswers(fs: Fs, fd: int, offset: int)
    requires Valid(fs)
    ensures var (fs', r) := Step(fs, Seek(fd, offset));
      && Plainly(r, if InUse(fs, fd) && 0 <= offset <= fs.files[fs.handles[fd].file].size then 0 else -1)
      && (r.code == -1 ==> fs' == fs)
      && (r.code == 0 ==>
        OnlyHandle(fs, fs', fd) && fs'.handles[fd] == Open(fs.handles[fd].file, offset))
  {
    assert InUse(fs, fd) ==> ValidHandle(fs, fs.handles[fd]);
  }

  /** The size of a file is the length of what callers see of it. */
  lemma FileSizeAnswers(fs: Fs, fd: int)
    requires Valid(fs)
    ensures InUse(fs, fd) ==> IsOpen(fs, fd) && ValidFile(fs.files[fs.handles[fd].file])
    ensures Step(fs, FileSize(fd)).0 == fs
    ensures Plainly(Step(fs, FileSize(fd)).1,
                    if InUse(fs, fd) then |Contents(fs.files[fs.handles[fd].file])| else -1)
  {
    assert InUse(fs, fd) ==> ValidHandle(fs, fs.handles[fd]);
  }

  /**
   A truncation to any length from 0 to the size lowers the size to it and moves the descriptor there. What is stored
   stays, and so do the other files and descriptors.
   */
  lemma TruncateAnswers(fs: Fs, fd: int, length: int)
    requires Valid(fs)
    ensures InUse(fs, fd) ==> IsOpen(fs, fd)
    ensures var (fs', r) := Step(fs, Truncate(fd, length));
      && Plainly(r, if InUse(fs, fd) && 0 <= length <= fs.files[fs.handles[fd].file].size then 0 else -1)
      && (r.code == -1 ==> fs' == fs)
      && (r.code == 0 ==>
        && |fs'.handles| == |fs.handles| && |fs'.files| == |fs.files|
        && fs'.handles[fd] == Open(fs.handles[fd].file, length)
        && (forall d :: 0 <= d < |fs.handles| && d != fd ==> fs'.handles[d] == fs.handles[d])
        && fs'.files[fs.handles[fd].file] == fs.files[fs.handles[fd].file].(size := length)
        && forall k :: 0 <= k < |fs.files| && k != fs.handles[fd].file ==> fs'.files[k] == fs.files[k])
  {
    assert InUse(fs, fd) ==> ValidHandle(fs, fs.handles[fd]);
  }
}
