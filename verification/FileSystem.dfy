/**
 A mounted session of file-systems-noodlez102/fs.c as it runs: fixed tables updated in place, loops over blocks,
 and each call proved to do to the abstract file system what `FsModel.Step` says.
 */
module FileSystem {
  import opened Bytes
  import opened FsModel
  import opened FsLaws
  import opened FsBitmap
  import opened FsState
  import opened FsSteps
  import opened FsBlocks
  import opened FsSessions

  class Session {
    const bitmap: array<bv8>
    const inodes: array<Inode>
    const directory: array<DirEntry>
    const fds: array<FileDescriptor>
    const disk: array<seq<Byte>>
    var usedCount: nat
    ghost var shadow: Shadow
    /** The abstract file system of the session. */
    ghost var model: Fs

    ghost function Snap(): State
      reads this`usedCount, bitmap, inodes, directory, fds, disk
    {
      State(bitmap[..], inodes[..], directory[..], fds[..], disk[..], usedCount)
    }

    ghost predicate InvCore()
      reads this, bitmap, inodes, directory, fds, disk
    {
      Core(Snap(), shadow) && model == View(Snap(), shadow)
    }

    ghost predicate Valid()
      reads this, bitmap, inodes, directory, fds, disk
      ensures Valid() ==> InvCore()
    {
      InvCore() && Inv(Snap(), shadow)
    }

    /**
     What make_fs and then mount_fs leave in a fresh process. mount_fs takes the first byte of the bitmap from block 1,
     and directory and inodes from blocks of zeros.
     */
    constructor (superblock: seq<Byte>, tail: seq<Byte>)
      requires |superblock| == BLOCK_SIZE && |tail| == BLOCK_SIZE - TOTAL_BLOCKS / 8
      ensures Valid() && model == Fresh() && disk[..] == Formatted(superblock, tail)
      ensures usedCount == 1 && fresh(bitmap) && fresh(inodes) && fresh(directory) && fresh(fds) && fresh(disk)
    {
      var blocks := Formatted(superblock, tail);
      bitmap := new bv8[TOTAL_BLOCKS / 8](i => if i == 0 then blocks[1][0] as bv8 else 0);
      inodes := new Inode[MAX_NUM_OF_FILES](_ => Inode(0, NoBlocks(), 0));
      directory := new DirEntry[MAX_NUM_OF_FILES](_ => DirEntry(false, 0, ""));
      fds := new FileDescriptor[MAX_FILE_DESCRIPTORS](_ => FileDescriptor(false, -1, 0));
      disk := new seq<Byte>[TOTAL_BLOCKS](b requires 0 <= b < TOTAL_BLOCKS => blocks[b]);
      usedCount := 1;
      shadow := EmptyShadow();
      new;
      assert disk[..] == blocks;
      EmptyInv(Snap());
      model := View(Snap(), shadow);
    }

    // -------------------------------------------------------------------------------------------
    // Directory and descriptors
    // -------------------------------------------------------------------------------------------

    /** The scan of the directory for a name, of which only the first MAX_FILE_NAME characters count. */
    method Lookup(name: string) returns (slot: int)
      requires Valid()
      ensures slot == -1 <==> FindFile(model.files, Trunc(name)) == |model.files|
      ensures slot != -1 ==> slot == FindFile(model.files, Trunc(name)) < |model.files|
    {
      ghost var files := model.files;
      ghost var target := FindFile(files, Trunc(name));
      slot := -1;
      for i := 0 to MAX_NUM_OF_FILES
        invariant target < |files| ==> i <= target
      {
        assert SlotOk(Snap(), shadow, i);
        if directory[i].isUsed && directory[i].name == Trunc(name) {
          assert files[i].name == Trunc(name);
          return i;
        }
        assert i < |files| ==> files[i].name == directory[i].name;
      }
    }

    /** The scan for an unused descriptor. */
    method UnusedDescriptor() returns (fd: int)
      requires Valid()
      ensures fd == -1 <==> FirstClosed(model.handles) == |model.handles|
      ensures fd != -1 ==> fd == FirstClosed(model.handles) < |model.handles|
    {
      ghost var handles := model.handles;
      ghost var target := FirstClosed(handles);
      fd := -1;
      for j := 0 to MAX_FILE_DESCRIPTORS
        invariant j <= target
      {
        assert DescriptorOk(shadow, Snap().fds[j]);
        if !fds[j].isUsed {
          assert handles[j].Closed?;
          return j;
        }
      }
    }

    /** The scan for a free inode: the first inode after those of the files. */
    method FreeInode() returns (inode: int)
      requires Valid()
      ensures inode == if shadow.count < MAX_NUM_OF_FILES then shadow.count else -1
    {
      inode := -1;
      for i := 0 to MAX_NUM_OF_FILES
        invariant i <= shadow.count
      {
        assert SlotOk(Snap(), shadow, i);
        if inodes[i].fileType == 0 {
          return i;
        }
      }
    }

    /** The scan for a free directory entry: also the first one after those of the files. */
    method FreeSlot() returns (slot: int)
      requires forall i :: 0 <= i < shadow.count <= directory.Length ==> directory[i].isUsed
      requires shadow.count < directory.Length == MAX_NUM_OF_FILES && !directory[shadow.count].isUsed
      ensures slot == shadow.count
    {
      slot := -1;
      for i := 0 to MAX_NUM_OF_FILES
        invariant i <= shadow.count
      {
        if !directory[i].isUsed {
          return i;
        }
      }
    }

    /** fs_create */
    method Create(name: string) returns (code: int)
      requires Valid()
      modifies `model, `shadow, inodes, directory
      ensures Valid()
      ensures (model, Code(code)) == CreateStep(old(model), name)
    {
      if |name| > MAX_FILE_NAME || |name| == 0 {
        return -1;
      }
      var found := Lookup(name);
      if found != -1 {
        return -1;
      }
      var inode := FreeInode();
      if inode == -1 {
        return -1;
      }
      CreateNames(Snap(), shadow, name);
      AddFile(inode, name);
      code := 0;
    }

    /** The end of fs_create: initialise the inode, and enter it in the first unused directory slot. */
    method AddFile(inode: nat, name: string)
      requires Valid() && inode == shadow.count < MAX_NUM_OF_FILES && LegalName(name)
      requires forall i :: 0 <= i < shadow.count ==> directory[i].name != name
      modifies `model, `shadow, inodes, directory
      ensures Valid()
      ensures model == old(model).(files := old(model).files + [File(name, [], 0)])
    {
      ghost var s := Snap();
      CreateKeeps(s, shadow, name);
      SlotsInUse(s, shadow);
      inodes[inode] := Inode(1, NoBlocks(), 0);
      assert forall i :: 0 <= i < MAX_NUM_OF_FILES ==> directory[i] == s.directory[i];
      var slot := FreeSlot();
      directory[slot] := DirEntry(true, inode, name);
      shadow := shadow.(count := shadow.count + 1);
      assert Snap() == CreateState(s, inode, name);
      model := model.(files := model.files + [File(name, [], 0)]);
    }

    /** fs_open */
    method OpenFile(name: string) returns (code: int)
      requires Valid()
      modifies `model, fds
      ensures Valid()
      ensures (model, Code(code)) == OpenStep(old(model), name)
    {
      var slot := Lookup(name);
      if slot == -1 {
        return -1;
      }
      var fd := UnusedDescriptor();
      if fd == -1 {
        return -1;
      }
      assert SlotOk(Snap(), shadow, slot);
      SetDescriptor(fd, FileDescriptor(true, directory[slot].inodeNumber, 0));
      return fd;
    }

    /** Assign one entry of open_file_descriptors. */
    method SetDescriptor(fd: nat, d: FileDescriptor)
      requires InvCore() && fd < MAX_FILE_DESCRIPTORS && DescriptorOk(shadow, d)
      modifies `model, fds
      ensures InvCore() && (old(Valid()) ==> Valid())
      ensures model == old(model).(handles := old(model).handles[fd := HandleOf(d)])
      ensures fds[..] == old(fds[..])[fd := d]
    {
      ghost var s := Snap();
      DescriptorKeeps(s, shadow, fd, d);
      fds[fd] := d;
      assert Snap() == s.(fds := s.fds[fd := d]);
      model := model.(handles := model.handles[fd := HandleOf(d)]);
    }

    /** A descriptor in use is an open handle on a file. */
    lemma DescriptorFacts(fd: nat)
      requires InvCore() && fd < MAX_FILE_DESCRIPTORS
      ensures |model.handles| == MAX_FILE_DESCRIPTORS && fds.Length == MAX_FILE_DESCRIPTORS
      ensures fds[fd].isUsed <==> IsOpen(model, fd)
      ensures fds[fd].isUsed ==>
        && 0 <= fds[fd].inodeNumber < shadow.count && fds[fd].offset <= shadow.written[fds[fd].inodeNumber]
        && model.handles[fd] == Open(fds[fd].inodeNumber, fds[fd].offset)
        && model.files[fds[fd].inodeNumber].size == inodes[fds[fd].inodeNumber].fileSize
        && inodes[fds[fd].inodeNumber].fileSize <= shadow.written[fds[fd].inodeNumber]
    {
      assert DescriptorOk(shadow, Snap().fds[fd]);
      if fds[fd].isUsed {
        assert ExtentOk(Snap(), shadow, fds[fd].inodeNumber);
      }
    }

    /** fs_close */
    method Close(fd: int) returns (code: int)
      requires Valid()
      modifies `model, fds
      ensures Valid()
      ensures (model, Code(code)) == CloseStep(old(model), fd)
    {
      if fd < 0 || fd >= MAX_FILE_DESCRIPTORS {
        return -1;
      }
      DescriptorFacts(fd);
      if !fds[fd].isUsed {
        return -1;
      }
      SetDescriptor(fd, FileDescriptor(false, 0, 0));
      return 0;
    }

    /** The checks that open read, write, seek and truncate: the file of a descriptor, or -1. */
    method CheckDescriptor(fd: int) returns (file: int)
      requires Valid()
      ensures file == -1 <==> !IsOpen(model, fd)
      ensures file != -1 ==>
        && 0 <= fd < MAX_FILE_DESCRIPTORS && fds[fd].isUsed && fds[fd].inodeNumber == file
        && 0 <= file < shadow.count && fds[fd].offset <= shadow.written[file]
        && model.handles[fd] == Open(file, fds[fd].offset)
        && model.files[file].size == inodes[file].fileSize <= shadow.written[file]
    {
      if fd < 0 || fd >= MAX_FILE_DESCRIPTORS {
        return -1;
      }
      DescriptorFacts(fd);
      if !fds[fd].isUsed {
        return -1;
      }
      file := fds[fd].inodeNumber;
      assert SlotOk(Snap(), shadow, file);
      if file < 0 || file >= MAX_NUM_OF_FILES || !directory[file].isUsed {
        assert false;
      }
    }

    /** fs_lseek */
    method Seek(fd: int, offset: int) returns (code: int)
      requires Valid()
      modifies `model, fds
      ensures Valid()
      ensures (model, Code(code)) == SeekStep(old(model), fd, offset)
    {
      var file := CheckDescriptor(fd);
      if file == -1 || offset < 0 {
        return -1;
      }
      if offset > inodes[file].fileSize {
        return -1;
      }
      SetDescriptor(fd, fds[fd].(offset := offset));
      return 0;
    }

    /** Assign the size of one inode. */
    method SetSize(file: nat, size: nat)
      requires InvCore() && file < shadow.count && size <= shadow.written[file]
      modifies `model, inodes
      ensures InvCore() && (old(Valid()) ==> Valid())
      ensures model == old(model).(files := old(model).files[file := old(model).files[file].(size := size)])
      ensures inodes[..] == old(inodes[..])[file := old(inodes[file]).(fileSize := size)]
    {
      ghost var s := Snap();
      SizeKeeps(s, shadow, file, size);
      inodes[file] := inodes[file].(fileSize := size);
      assert Snap() == s.(inodes := s.inodes[file := s.inodes[file].(fileSize := size)]);
      model := model.(files := model.files[file := model.files[file].(size := size)]);
    }

    /** fs_truncate */
    method Truncate(fd: int, length: int) returns (code: int)
      requires Valid()
      modifies `model, inodes, fds
      ensures Valid()
      ensures (model, Code(code)) == TruncateStep(old(model), fd, length)
    {
      var file := CheckDescriptor(fd);
      if file == -1 {
        return -1;
      }
      if length < 0 || length > inodes[file].fileSize {
        return -1;
      }
      SetSize(file, length);
      SetDescriptor(fd, fds[fd].(offset := length));
      return 0;
    }

    /** fs_get_filesize */
    method FileSize(fd: int) returns (code: int)
      requires Valid()
      ensures (model, Code(code)) == FileSizeStep(model, fd)
    {
      if fd < 0 || fd >= MAX_FILE_DESCRIPTORS {
        return -1;
      }
      DescriptorFacts(fd);
      if !fds[fd].isUsed {
        return -1;
      }
      for i := 0 to MAX_NUM_OF_FILES
        invariant i <= fds[fd].inodeNumber
      {
        assert SlotOk(Snap(), shadow, i);
        if directory[i].isUsed && directory[i].inodeNumber == fds[fd].inodeNumber {
          return inodes[directory[i].inodeNumber].fileSize;
        }
      }
      code := -1;
    }

    /** fs_listfiles: the names of the directory slots below the number of used slots. */
    method ListFiles() returns (code: int, names: seq<string>)
      requires Valid()
      ensures code == 0 && names == Names(model.files)
    {
      var numOfFiles := 0;
      for i := 0 to MAX_NUM_OF_FILES
        invariant numOfFiles == if i <= shadow.count then i else shadow.count
      {
        assert SlotOk(Snap(), shadow, i);
        if directory[i].isUsed {
          numOfFiles := numOfFiles + 1;
        }
      }
      names := [];
      for i := 0 to numOfFiles
        invariant |names| == i
        invariant forall k :: 0 <= k < i ==> names[k] == model.files[k].name
      {
        names := names + [directory[i].name];
      }
      code := 0;
    }

    // -------------------------------------------------------------------------------------------
    // Reading and writing
    // -------------------------------------------------------------------------------------------

    /** A position of a file below MAX_FILESIZE is in a block of the disk. */
    lemma BlockInRange(file: nat, position: nat)
      requires InvCore() && file < MAX_NUM_OF_FILES && position < MAX_FILESIZE
      ensures position / BLOCK_SIZE < BLOCKS_PER_FILE && |inodes[file].direct| == BLOCKS_PER_FILE
      ensures inodes[file].direct[position / BLOCK_SIZE] < TOTAL_BLOCKS == disk.Length
      ensures |disk[inodes[file].direct[position / BLOCK_SIZE]]| == BLOCK_SIZE
    {
      var s, j := Snap(), position / BLOCK_SIZE;
      assert OwnsEntry(s, shadow, file, j);
      var b := Entry(s, file, j);
      if b in shadow.owner {
        assert OwnedBlock(s, shadow, b);
      }
      assert s.disk[b] == disk[b];
    }

    /** One turn of the loop of fs_read: part of one block. */
    method ReadChunk(file: nat, position: nat, blockIndex: nat, blockOffset: nat, n: nat) returns (chunk: seq<Byte>)
      requires InvCore() && file < MAX_NUM_OF_FILES && position < MAX_FILESIZE && position + n <= MAX_FILESIZE
      requires position == blockIndex * BLOCK_SIZE + blockOffset && blockOffset + n <= BLOCK_SIZE
      requires blockOffset < BLOCK_SIZE
      ensures chunk == FileSlice(Snap(), file, position, n)
    {
      BlockInRange(file, position);
      var blockBuffer := disk[inodes[file].direct[blockIndex]];
      chunk := blockBuffer[blockOffset..blockOffset + n];
      ChunkBytes(Snap(), file, position, blockIndex, blockOffset, n);
    }

    /** The loop of fs_read. */
    method ReadBlocks(file: nat, offset: nat, bytesToRead: nat) returns (buf: seq<Byte>)
      requires InvCore() && file < shadow.count && offset + bytesToRead <= shadow.written[file]
      ensures |buf| == bytesToRead && offset + bytesToRead <= |model.files[file].stored|
      ensures buf == model.files[file].stored[offset..offset + bytesToRead]
    {
      assert ExtentOk(Snap(), shadow, file);
      SliceIsStored(Snap(), shadow, file, offset, bytesToRead);
      ghost var s := Snap();
      buf := [];
      var blockIndex := offset / BLOCK_SIZE;
      var blockOffset := offset % BLOCK_SIZE;
      var bytesLeft := bytesToRead;
      while bytesLeft > 0
        invariant |buf| + bytesLeft == bytesToRead && bytesLeft >= 0
        invariant 0 <= blockOffset < BLOCK_SIZE
        invariant bytesLeft > 0 ==> blockIndex * BLOCK_SIZE + blockOffset == offset + |buf|
        invariant buf == FileSlice(s, file, offset, |buf|)
      {
        var n := Min(bytesLeft, BLOCK_SIZE - blockOffset);
        var chunk := ReadChunk(file, offset + |buf|, blockIndex, blockOffset, n);
        SliceExtends(s, file, offset, buf, chunk);
        buf := buf + chunk;
        bytesLeft := bytesLeft - n;
        blockIndex := blockIndex + 1;
        blockOffset := 0;
      }
    }

    /** Read `n` bytes at the offset of an open descriptor and advance it. */
    method ReadAndAdvance(fd: nat, file: nat, n: nat) returns (buf: seq<Byte>)
      requires Valid() && fd < MAX_FILE_DESCRIPTORS && fds[fd].isUsed && fds[fd].inodeNumber == file
      requires file < shadow.count && fds[fd].offset + n <= shadow.written[file]
      modifies `model, fds
      ensures Valid()
      ensures var o := old(fds[fd].offset);
        && |buf| == n && o + n <= |old(model).files[file].stored|
        && buf == old(model).files[file].stored[o..o + n]
        && model == old(model).(handles := old(model).handles[fd := Open(file, o + n)])
    {
      buf := ReadBlocks(file, fds[fd].offset, n);
      SetDescriptor(fd, FileDescriptor(true, file, fds[fd].offset + |buf|));
    }

    /**
     fs_read. A handle past the size is not stopped by the size; `Allowed` keeps it within the stored bytes, where
     its next write still leaves no unmapped block behind.
     */
    method Read(fd: int, nbyte: nat) returns (code: int, buf: seq<Byte>)
      requires Valid() && Allowed(model, FsModel.Read(fd, nbyte))
      modifies `model, fds
      ensures Valid()
      ensures (model, Result(code, buf, [])) == ReadStep(old(model), fd, nbyte)
    {
      buf := [];
      var file := CheckDescriptor(fd);
      if file == -1 {
        return -1, buf;
      }
      DescriptorFacts(fd);
      var offset := fds[fd].offset;
      var remainingBytes := inodes[file].fileSize - offset;
      // A negative remainder is a huge unsigned number in the comparison.
      var bytesToRead := if 0 <= remainingBytes <= nbyte then remainingBytes else nbyte;
      if bytesToRead <= 0 {
        ReadIs(model, fd, nbyte, file, offset, buf);
        return 0, buf;
      }
      buf := ReadAndAdvance(fd, file, bytesToRead);
      ReadIs(old(model), fd, nbyte, file, offset, buf);
      code := |buf|;
    }

    /** The search of fs_write for a clear bit, or -1 if the disk is full. */
    method ClearBlock() returns (block: int)
      requires InvCore()
      ensures block == -1 ==> |shadow.owner| == USABLE_BLOCKS
      ensures block != -1 ==> 0 < block < TOTAL_BLOCKS == 8 * bitmap.Length && !Bit(bitmap[..], block)
    {
      for i := 1 to TOTAL_BLOCKS
        invariant i < TOTAL_BLOCKS
        invariant forall k: nat :: 0 < k < i ==> k in shadow.owner.Keys
      {
        var inUse := GetBit(bitmap, i);
        if !inUse {
          return i;
        }
        assert Bit(Snap().bitmap, i);
        if i == TOTAL_BLOCKS - 1 {
          OwnerBound(Snap(), shadow);
          return -1;
        }
      }
      assert false;
    }

    /** `inode_table[file].direct_offset[blockIndex] = block` */
    method SetDirect(file: nat, blockIndex: nat, block: nat)
      requires file < inodes.Length && blockIndex < |inodes[file].direct|
      modifies inodes
      ensures inodes[..] == old(inodes[..])[file :=
        old(inodes[..])[file].(direct := old(inodes[..])[file].direct[blockIndex := block])]
    {
      inodes[file] := inodes[file].(direct := inodes[file].direct[blockIndex := block]);
    }

    /** Mark a block as used and store it in an inode. */
    method TakeBlock(file: nat, blockIndex: nat, block: nat)
      requires Shape(Snap()) && file < MAX_NUM_OF_FILES && blockIndex < BLOCKS_PER_FILE
      requires block < TOTAL_BLOCKS && usedCount <= TOTAL_BLOCKS
      modifies `usedCount, bitmap, inodes
      ensures Snap() == AllocState(old(Snap()), bitmap[..], file, blockIndex, block)
      ensures forall k: nat :: k < TOTAL_BLOCKS ==> (Bit(bitmap[..], k) <==> k == block || Bit(old(bitmap[..]), k))
    {
      ghost var s := Snap();
      CountFits(usedCount);
      SetBit(bitmap, block);
      SetDirect(file, blockIndex, block);
      usedCount := (usedCount + 1) % 0x1_0000;
      SnapIs(AllocState(s, bitmap[..], file, blockIndex, block));
    }

    /** A clear block becomes the next block of a file. */
    method GiveBlock(file: nat, blockIndex: nat, block: nat)
      requires InvCore() && file < shadow.count && blockIndex == shadow.mapped[file] < BLOCKS_PER_FILE
      requires 0 < block < TOTAL_BLOCKS == 8 * bitmap.Length && !Bit(bitmap[..], block)
      modifies `shadow, `usedCount, bitmap, inodes
      ensures InvCore()
      ensures shadow == AllocShadow(old(shadow), file, block)
    {
      ghost var s := Snap();
      UsedCountIsExact(s, shadow);
      TakeBlock(file, blockIndex, block);
      GiveIsInvisible(s, shadow, bitmap[..], file, block);
      shadow := AllocShadow(shadow, file, block);
    }

    lemma SnapIs(s: State)
      requires s.bitmap == bitmap[..] && s.inodes == inodes[..] && s.directory == directory[..]
      requires s.fds == fds[..] && s.disk == disk[..] && s.usedCount == usedCount
      ensures Snap() == s
    {}

    /** Copy a chunk into one block of the file that holds the offset `o`. */
    method StoreBytes(file: nat, blockIndex: nat, blockOffset: nat, chunk: seq<Byte>)
      requires InvCore() && file < shadow.count && blockIndex < shadow.mapped[file]
      requires blockIndex * BLOCK_SIZE + blockOffset <= shadow.written[file]
      requires chunk != [] && blockOffset + |chunk| <= BLOCK_SIZE
      modifies `model, `shadow, disk
      ensures InvCore()
      ensures var o := blockIndex * BLOCK_SIZE + blockOffset;
        && shadow == WrittenShadow(old(shadow), file, o + |chunk|)
        && file < |old(model).files| && o <= |old(model).files[file].stored|
        && model == old(model).(files := old(model).files[file :=
             old(model).files[file].(stored := Splice(old(model).files[file].stored, o, chunk))])
    {
      ghost var o := blockIndex * BLOCK_SIZE + blockOffset;
      ghost var s := Snap();
      assert o / BLOCK_SIZE == blockIndex && o % BLOCK_SIZE == blockOffset;
      StoreKeeps(s, shadow, file, blockIndex, o, chunk);
      var block := inodes[file].direct[blockIndex];
      assert |s.disk[block]| == BLOCK_SIZE;
      var blockBuffer := disk[block];
      disk[block] := Splice(blockBuffer, blockOffset, chunk);
      SnapIs(DiskState(s, block, blockOffset, chunk));
      shadow := WrittenShadow(shadow, file, o + |chunk|);
      model := View(Snap(), shadow);
    }

    /** One turn of the loop of fs_write once the block is there: part of a block, then the offset and the size. */
    method StoreChunk(fd: nat, file: nat, blockIndex: nat, blockOffset: nat, chunk: seq<Byte>)
      requires InvCore() && fd < MAX_FILE_DESCRIPTORS && fds[fd].isUsed && fds[fd].inodeNumber == file
      requires file < shadow.count && blockIndex < shadow.mapped[file]
      requires fds[fd].offset == blockIndex * BLOCK_SIZE + blockOffset
      requires chunk != [] && blockOffset + |chunk| <= BLOCK_SIZE
      modifies `model, `shadow, inodes, fds, disk
      ensures InvCore() && IsOpen(old(model), fd)
      ensures model == Put(old(model), fd, chunk)
      ensures shadow == WrittenShadow(old(shadow), file, old(fds[fd].offset) + |chunk|)
      ensures fds[fd] == FileDescriptor(true, file, old(fds[fd].offset) + |chunk|)
    {
      DescriptorFacts(fd);
      PutInSteps(model, fd, file, fds[fd].offset, chunk);
      StoreBytes(file, blockIndex, blockOffset, chunk);
      SetDescriptor(fd, FileDescriptor(true, file, fds[fd].offset + |chunk|));
      if fds[fd].offset > inodes[file].fileSize {
        SetSize(file, fds[fd].offset);
      }
    }

    /** Make sure that the block under the offset is there; false if the disk is full. */
    method EnsureBlock(fd: nat, file: nat, blockIndex: nat) returns (ok: bool)
      requires Valid() && fd < MAX_FILE_DESCRIPTORS && fds[fd].isUsed && fds[fd].inodeNumber == file
      requires file < shadow.count && fds[fd].offset < MAX_FILESIZE
      requires blockIndex == fds[fd].offset / BLOCK_SIZE
      modifies `shadow, `usedCount, bitmap, inodes
      ensures InvCore()
      ensures !ok ==> Valid() && fds[fd].offset == Room(model, file)
      ensures ok ==>
        && blockIndex < shadow.mapped[file] && shadow.count == old(shadow.count)
        && fds[fd].offset <= shadow.written[file]
        && TightAfterStore(shadow, file, fds[fd].offset)
    {
      DescriptorFacts(fd);
      assert ExtentOk(Snap(), shadow, file) && Tight(shadow, file);
      assert OwnsEntry(Snap(), shadow, file, blockIndex);
      if inodes[file].direct[blockIndex] == 0 {
        EntryIsMissing(Snap(), shadow, file, blockIndex);
        var block := ClearBlock();
        if block == -1 {
          ViewUsedBlocks(Snap(), shadow);
          return false;
        }
        AllocTight(shadow, file, block, fds[fd].offset);
        GiveBlock(file, blockIndex, block);
      }
      ok := true;
    }

    /** One turn of the loop of fs_write; false if the disk is full. */
    method WriteTurn(fd: nat, file: nat, blockIndex: nat, blockOffset: nat, chunk: seq<Byte>) returns (ok: bool)
      requires Valid() && fd < MAX_FILE_DESCRIPTORS && fds[fd].isUsed && fds[fd].inodeNumber == file
      requires file < shadow.count
      requires fds[fd].offset == blockIndex * BLOCK_SIZE + blockOffset < MAX_FILESIZE
      requires chunk != [] && blockOffset + |chunk| <= BLOCK_SIZE
      modifies `model, `shadow, `usedCount, bitmap, inodes, fds, disk
      ensures Valid() && shadow.count == old(shadow.count)
      ensures !ok ==> model == old(model) && fds[fd] == old(fds[fd]) && fds[fd].offset == Room(model, file)
      ensures ok ==>
        && IsOpen(old(model), fd) && model == Put(old(model), fd, chunk)
        && fds[fd] == FileDescriptor(true, file, old(fds[fd].offset) + |chunk|)
    {
      ok := EnsureBlock(fd, file, blockIndex);
      if ok {
        assert ExtentOk(Snap(), shadow, file);
        StoreTightAll(shadow, file, fds[fd].offset, |chunk|);
        StoreChunk(fd, file, blockIndex, blockOffset, chunk);
      }
    }

    /** Through descriptor `fd`, `n` bytes of `buf` were put at offset `o`, from the file system `start`. */
    ghost predicate Wrote(start: Fs, fd: nat, file: nat, o: nat, buf: seq<Byte>, n: nat)
      reads this, bitmap, inodes, directory, fds, disk
    {
      && Valid() && file < shadow.count && n <= |buf|
      && fd < MAX_FILE_DESCRIPTORS && fds[fd] == FileDescriptor(true, file, o + n)
      && IsOpen(start, fd) && start.handles[fd] == Open(file, o)
      && model == Put(start, fd, buf[..n])
    }

    /** `WriteTurn` for the part of the buffer that comes next. */
    method WriteNext(ghost start: Fs, fd: nat, file: nat, ghost o: nat, buf: seq<Byte>, written: nat,
                     blockIndex: nat, blockOffset: nat, n: nat) returns (ok: bool)
      requires Wrote(start, fd, file, o, buf, written) && written + n <= |buf| && 0 < n
      requires o + written == blockIndex * BLOCK_SIZE + blockOffset < MAX_FILESIZE && blockOffset + n <= BLOCK_SIZE
      modifies `model, `shadow, `usedCount, bitmap, inodes, fds, disk
      ensures Valid()
      ensures ok ==> Wrote(start, fd, file, o, buf, written + n)
      ensures !ok ==> (model, Code(-1)) == WriteStep(start, fd, buf)
    {
      PutNext(start, fd, buf, written, n);
      ok := WriteTurn(fd, file, blockIndex, blockOffset, buf[written..written + n]);
      if !ok {
        WriteStopped(start, fd, buf, written);
      }
    }

    lemma WroteAll(start: Fs, fd: nat, file: nat, o: nat, buf: seq<Byte>)
      requires Wrote(start, fd, file, o, buf, |buf|)
      ensures (model, Code(|buf|)) == WriteStep(start, fd, buf)
    {
      assert buf[..|buf|] == buf;
      ViewUsedBlocks(Snap(), shadow);
      OwnerBound(Snap(), shadow);
      WriteComplete(start, fd, buf);
    }

    lemma WroteNothing(fd: nat, file: nat, buf: seq<Byte>)
      requires Valid() && fd < MAX_FILE_DESCRIPTORS && fds[fd].isUsed && fds[fd].inodeNumber == file
      requires file < shadow.count && IsOpen(model, fd) && model.handles[fd] == Open(file, fds[fd].offset)
      ensures Wrote(model, fd, file, fds[fd].offset, buf, 0)
    {
      PutNothing(model, fd);
      assert buf[..0] == [];
    }

    /** The loop of fs_write. */
    method WriteBlocks(fd: nat, file: nat, buf: seq<Byte>) returns (code: int)
      requires Valid() && fd < MAX_FILE_DESCRIPTORS && fds[fd].isUsed && fds[fd].inodeNumber == file
      requires file < shadow.count && IsOpen(model, fd) && model.handles[fd] == Open(file, fds[fd].offset)
      requires fds[fd].offset + |buf| <= MAX_FILESIZE
      modifies `model, `shadow, `usedCount, bitmap, inodes, fds, disk
      ensures Valid()
      ensures (model, Code(code)) == WriteStep(old(model), fd, buf)
    {
      ghost var start, o := model, fds[fd].offset;
      var bytesWritten := 0;
      var blockIndex := fds[fd].offset / BLOCK_SIZE;
      var blockOffset := fds[fd].offset % BLOCK_SIZE;
      WroteNothing(fd, file, buf);
      while bytesWritten < |buf|
        invariant Wrote(start, fd, file, o, buf, bytesWritten)
        invariant 0 <= blockOffset < BLOCK_SIZE && blockIndex >= 0
        invariant bytesWritten < |buf| ==> o + bytesWritten == blockIndex * BLOCK_SIZE + blockOffset
      {
        var n := Min(|buf| - bytesWritten, BLOCK_SIZE - blockOffset);
        var ok := WriteNext(start, fd, file, o, buf, bytesWritten, blockIndex, blockOffset, n);
        if !ok {
          return -1;
        }
        bytesWritten := bytesWritten + n;
        blockIndex := blockIndex + 1;
        blockOffset := 0;
      }
      WroteAll(start, fd, file, o, buf);
      code := bytesWritten;
    }

    /** fs_write */
    method Write(fd: int, buf: seq<Byte>) returns (code: int)
      requires Valid() && Allowed(model, FsModel.Write(fd, buf))
      modifies `model, `shadow, `usedCount, bitmap, inodes, fds, disk
      ensures Valid()
      ensures (model, Code(code)) == WriteStep(old(model), fd, buf)
    {
      var file := CheckDescriptor(fd);
      if file == -1 {
        return -1;
      }
      code := WriteBlocks(fd, file, buf);
    }

    /** The abstract file system of a session is always valid. */
    lemma ModelValid()
      requires Valid()
      ensures FsModel.Valid(model)
    {
      ViewValid(Snap(), shadow);
    }

    /** Any run of operations: the session ends where the model's run ends, with the same results. */
    method Run(ops: seq<Op>) returns (results: seq<Result>)
      requires Valid() && (ModelValid(); RunAllowed(model, ops))
      modifies this, bitmap, inodes, directory, fds, disk
      ensures Valid() && FsModel.Valid(old(model)) && RunAllowed(old(model), ops)
      ensures model == FsLaws.Run(old(model), ops)
      ensures results == RunResults(old(model), ops)
      decreases |ops|
    {
      ModelValid();
      if ops == [] {
        return [];
      }
      var first := Execute(ops[0]);
      var rest := Run(ops[1..]);
      results := [first] + rest;
    }

    /**
     A session in which writes stay within MAX_FILESIZE and no truncation strands a handle: whatever is in the files,
     every read returns the slice of the contents at the offset, and every write splices what found room into them.
     */
    method RunSettled(ops: seq<Op>) returns (results: seq<Result>)
      requires Valid() && (ModelValid(); Settled(model) && Quiet(model, ops))
      modifies this, bitmap, inodes, directory, fds, disk
      ensures Valid() && FsModel.Valid(old(model)) && FsModel.Valid(model) && RunAllowed(old(model), ops)
      ensures (Ideal(model), results) == IdealRun(Ideal(old(model)), ops, Accepts(old(model), ops))
    {
      ModelValid();
      SessionIsIdeal(model, ops);
      results := Run(ops);
      ModelValid();
    }

    /** One operation. */
    method Execute(op: Op) returns (result: Result)
      requires Valid() && Allowed(model, op)
      modifies this, bitmap, inodes, directory, fds, disk
      ensures Valid()
      ensures (model, result) == Step(old(model), op)
    {
      var code, data := 0, [];
      match op {
        case Create(name) => code := Create(name);
        case OpenFile(name) => code := OpenFile(name);
        case Close(fd) => code := Close(fd);
        case Read(fd, nbyte) => code, data := Read(fd, nbyte);
        case Write(fd, buf) => code := Write(fd, buf);
        case Seek(fd, offset) => code := Seek(fd, offset);
        case Truncate(fd, length) => code := Truncate(fd, length);
        case FileSize(fd) => code := FileSize(fd);
        case ListFiles =>
          var names;
          code, names := ListFiles();
          return Result(code, [], names);
      }
      result := Result(code, data, []);
    }
  }

  /** Every file has just the blocks it needs, or will have once bytes are stored at offset `o` of file `f`. */
  ghost predicate TightAfterStore(g: Shadow, f: nat, o: nat)
    requires ShadowShape(g) && f < MAX_NUM_OF_FILES
  {
    && (forall i: nat :: i < MAX_NUM_OF_FILES && i != f ==> Tight(g, i))
    && (Tight(g, f) || o / BLOCK_SIZE + 1 == BlocksFor(g.written[f]) + 1 == g.mapped[f])
  }

  lemma AllocTight(g: Shadow, f: nat, b: nat, o: nat)
    requires ShadowShape(g) && f < MAX_NUM_OF_FILES && g.mapped[f] < BLOCKS_PER_FILE
    requires TightAll(g)
    requires o / BLOCK_SIZE == g.mapped[f]
    ensures ShadowShape(AllocShadow(g, f, b)) && TightAfterStore(AllocShadow(g, f, b), f, o)
  {
    assert Tight(g, f);
    forall i: nat | i < MAX_NUM_OF_FILES && i != f
      ensures Tight(AllocShadow(g, f, b), i)
    {
      assert Tight(g, i);
    }
  }

  /** After the chunk is stored every file has just the blocks it needs. */
  lemma StoreTightAll(g: Shadow, f: nat, o: nat, n: nat)
    requires ShadowShape(g) && f < MAX_NUM_OF_FILES && n > 0
    requires TightAfterStore(g, f, o)
    requires o <= g.written[f] <= g.mapped[f] * BLOCK_SIZE
    requires o % BLOCK_SIZE + n <= BLOCK_SIZE && o / BLOCK_SIZE < g.mapped[f]
    ensures TightAll(WrittenShadow(g, f, o + n))
  {
    StoreTight(g, f, o, n);
    var g' := WrittenShadow(g, f, o + n);
    forall i: nat | i < MAX_NUM_OF_FILES && i != f
      ensures Tight(g', i)
    {
      assert Tight(g, i);
    }
  }

  /** A missing block pointer is the one after the mapped blocks, if the position is no further than what is stored. */
  lemma EntryIsMissing(s: State, g: Shadow, f: nat, j: nat)
    requires Core(s, g) && f < g.count && j < BLOCKS_PER_FILE && Entry(s, f, j) == 0
    requires j * BLOCK_SIZE <= g.written[f]
    ensures j == g.mapped[f] && g.written[f] == j * BLOCK_SIZE
  {
    assert OwnsEntry(s, g, f, j);
    assert 0 in g.owner ==> OwnedBlock(s, g, 0);
    assert ExtentOk(s, g, f);
  }

  /** The block count never wraps its 16 bits. */
  lemma CountFits(count: nat)
    requires count <= TOTAL_BLOCKS
    ensures (count + 1) % 0x1_0000 == count + 1
  {}

  lemma GiveIsInvisible(s: State, g: Shadow, bitmap: seq<bv8>, file: nat, block: nat)
    requires Core(s, g) && file < g.count && g.mapped[file] < BLOCKS_PER_FILE
    requires 0 < block < TOTAL_BLOCKS && |bitmap| == |s.bitmap| && !Bit(s.bitmap, block)
    requires forall k: nat :: k < TOTAL_BLOCKS ==> (Bit(bitmap, k) <==> k == block || Bit(s.bitmap, k))
    ensures var s', g' := AllocState(s, bitmap, file, g.mapped[file], block), AllocShadow(g, file, block);
      Core(s', g') && View(s', g') == View(s, g)
  {
    assert CanAllocate(s, g, bitmap, file, block);
    AllocKeeps(s, g, bitmap, file, block);
  }

  /** A read returns the stored bytes at the offset and moves the handle past them. */
  lemma ReadIs(fs: Fs, fd: int, nbyte: nat, file: nat, offset: nat, buf: seq<Byte>)
    requires Allowed(fs, FsModel.Read(fd, nbyte)) && IsOpen(fs, fd)
    requires fs.handles[fd] == Open(file, offset) && file < |fs.files|
    requires |buf| == ReadLength(fs.files[file].size, offset, nbyte) && offset + |buf| <= |fs.files[file].stored|
    requires buf == fs.files[file].stored[offset..offset + |buf|]
    ensures ReadStep(fs, fd, nbyte) ==
      (fs.(handles := fs.handles[fd := Open(file, offset + |buf|)]), Result(|buf|, buf, []))
    ensures buf == [] ==> ReadStep(fs, fd, nbyte) == (fs, Result(0, [], []))
  {
    if buf == [] {
      assert fs.handles[fd := fs.handles[fd]] == fs.handles;
    }
  }

  /** `n` bytes of a file from `position` on, as the blocks hold them. */
  function FileSlice(s: State, f: nat, position: nat, n: nat): (r: seq<Byte>)
    requires Shape(s) && f < MAX_NUM_OF_FILES && position + n <= MAX_FILESIZE
    ensures |r| == n
    ensures forall i :: 0 <= i < n ==> r[i] == ByteAt(s, f, position + i)
  {
    seq<Byte>(n, i requires 0 <= i < n => ByteAt(s, f, position + i))
  }

  lemma SliceExtends(s: State, f: nat, position: nat, buf: seq<Byte>, chunk: seq<Byte>)
    requires Shape(s) && f < MAX_NUM_OF_FILES && position + |buf| + |chunk| <= MAX_FILESIZE
    requires buf == FileSlice(s, f, position, |buf|) && chunk == FileSlice(s, f, position + |buf|, |chunk|)
    ensures buf + chunk == FileSlice(s, f, position, |buf + chunk|)
  {}

  /** Within what was written, the blocks hold the stored bytes. */
  lemma SliceIsStored(s: State, g: Shadow, f: nat, position: nat, n: nat)
    requires Core(s, g) && f < g.count && position + n <= g.written[f] <= MAX_FILESIZE
    ensures View(s, g).files[f].stored[position..position + n] == FileSlice(s, f, position, n)
  {}

  lemma ChunkBytes(s: State, f: nat, position: nat, blockIndex: nat, blockOffset: nat, n: nat)
    requires Shape(s) && f < MAX_NUM_OF_FILES && position + n <= MAX_FILESIZE && position < MAX_FILESIZE
    requires position == blockIndex * BLOCK_SIZE + blockOffset && blockOffset + n <= BLOCK_SIZE
    requires blockOffset < BLOCK_SIZE && Entry(s, f, blockIndex) < TOTAL_BLOCKS
    ensures s.disk[Entry(s, f, blockIndex)][blockOffset..blockOffset + n] == FileSlice(s, f, position, n)
  {
    var chunk := s.disk[Entry(s, f, blockIndex)][blockOffset..blockOffset + n];
    forall i | 0 <= i < n
      ensures chunk[i] == FileSlice(s, f, position, n)[i]
    {
      assert (position + i) / BLOCK_SIZE == blockIndex && (position + i) % BLOCK_SIZE == blockOffset + i;
    }
  }

  /** A name that is not in the directory differs from the name of every slot in use. */
  lemma CreateNames(s: State, g: Shadow, name: string)
    requires Inv(s, g) && FindFile(View(s, g).files, name) == |View(s, g).files|
    ensures forall i :: 0 <= i < g.count ==> s.directory[i].name != name
  {
    forall i | 0 <= i < g.count
      ensures s.directory[i].name != name
    {
      assert View(s, g).files[i].name == s.directory[i].name;
    }
  }

  lemma SlotsInUse(s: State, g: Shadow)
    requires Inv(s, g)
    ensures forall i: nat :: i < MAX_NUM_OF_FILES ==> (s.directory[i].isUsed <==> i < g.count)
  {
    forall i: nat | i < MAX_NUM_OF_FILES
      ensures s.directory[i].isUsed <==> i < g.count
    {
      assert SlotOk(s, g, i);
    }
  }

  function EmptyShadow(): Shadow {
    Shadow(0, map[], seq(MAX_NUM_OF_FILES, _ => 0), seq(MAX_NUM_OF_FILES, _ => 0))
  }

  /**
   The disk that make_disk fills with zeros, after make_fs wrote the superblock to block 0 and, to block 1, the bitmap
   of zeros and what follows it in memory (`tail`).
   */
  function Formatted(superblock: seq<Byte>, tail: seq<Byte>): (blocks: seq<seq<Byte>>)
    requires |superblock| == BLOCK_SIZE && |tail| == BLOCK_SIZE - TOTAL_BLOCKS / 8
    ensures |blocks| == TOTAL_BLOCKS && (forall b :: 0 <= b < TOTAL_BLOCKS ==> |blocks[b]| == BLOCK_SIZE)
    ensures blocks[1][0] == 0
  {
    [superblock, Zeros(TOTAL_BLOCKS / 8) + tail] + seq(TOTAL_BLOCKS - 2, _ => Zeros(BLOCK_SIZE))
  }

  predicate EmptyTables(s: State) {
    && Shape(s) && s.usedCount == 1
    && (forall i :: 0 <= i < |s.bitmap| ==> s.bitmap[i] == 0)
    && (forall i :: 0 <= i < |s.inodes| ==> s.inodes[i] == Inode(0, NoBlocks(), 0))
    && (forall i :: 0 <= i < |s.directory| ==> s.directory[i] == DirEntry(false, 0, ""))
    && (forall i :: 0 <= i < |s.fds| ==> s.fds[i] == FileDescriptor(false, -1, 0))
  }

  lemma EmptyInv(s: State)
    requires EmptyTables(s)
    ensures Inv(s, EmptyShadow())
    ensures View(s, EmptyShadow()) == Fresh()
  {
    var g := EmptyShadow();
    SumOfZeroTail(g.mapped, 0);
    forall b: nat | b < TOTAL_BLOCKS
      ensures !Bit(s.bitmap, b)
    {
      NoDigits(b % 8);
    }
    forall f: nat, j: nat | f < MAX_NUM_OF_FILES && j < BLOCKS_PER_FILE
      ensures OwnsEntry(s, g, f, j)
    {}
    assert Handles(s) == Fresh().handles;
  }
}
