/** The file API (sfs_api.c) as a class over the global state of the C
    program: the emulated device, the inode table cache, the open-file
    descriptor table and the root directory cache. Every operation keeps the
    invariant Consistent (module Consistency) and states what it does to
    the files' bytes, the directory and the descriptors. */
module Sfs {
  import opened Common
  import opened Util
  import opened DirList
  import opened DirCache
  import opened Consistency
  import opened Steps
  import opened WriteSteps

  /** write_blocks(1, 64, inode_table_cache): the table goes to blocks 1 .. 64, 8 inodes per block. */
  method WriteInodeTable(disk: array<Block>, inodes: array<Inode>)
    requires disk.Length == NUM_BLOCKS && inodes.Length == NUM_INODES
    modifies disk
    ensures disk[..] == FlushInodes(old(disk[..]), inodes[..])
  {
    ghost var d0 := disk[..];
    for a := 1 to INODE_TABLE_LENGTH + 1
      invariant forall x :: 0 <= x < NUM_BLOCKS ==>
                  disk[x] == if 1 <= x < a then InodeSlice(inodes[INODES_PER_BLOCK * (x - 1)..INODES_PER_BLOCK * x]) else d0[x]
    {
      disk[a] := InodeSlice(inodes[INODES_PER_BLOCK * (a - 1)..INODES_PER_BLOCK * a]);
    }
    assert disk[..] == FlushInodes(d0, inodes[..]);
  }

  /** read_blocks(1, 64, inode_table_cache): the cache becomes the table on the device. */
  method ReadInodeTable(disk: array<Block>, inodes: array<Inode>)
    requires disk.Length == NUM_BLOCKS && inodes.Length == NUM_INODES
    modifies inodes
    ensures inodes[..] == LoadInodes(disk[..])
  {
    for m := 0 to NUM_INODES
      invariant forall j :: 0 <= j < m ==> inodes[j] == LoadInodes(disk[..])[j]
    {
      inodes[m] := InodeView(ReadBlock(disk[..], 1 + m / INODES_PER_BLOCK))[m % INODES_PER_BLOCK];
    }
    assert inodes[..] == LoadInodes(disk[..]);
  }

  /** The inode scan of sfs_fopen: the lowest invalid inode, or -1 when all 512 are valid. */
  method FindFreeInode(inodes: array<Inode>) returns (inodeNum: int)
    requires inodes.Length == NUM_INODES
    ensures inodeNum == FirstInvalid(inodes[..])
  {
    inodeNum := -1;
    var i := 0;
    while i < NUM_INODES
      invariant 0 <= i <= NUM_INODES
      invariant forall m :: 0 <= m < i ==> inodes[m].valid
    {
      if !inodes[i].valid {
        inodeNum := i;
        return;
      }
      i := i + 1;
    }
  }

  /** The descriptor half of sfs_fopen (get_next_fd, then fill the entry):
      -1 and no change when all 100 descriptors are open; otherwise the
      lowest closed descriptor r now refers to inode `ino`, reading from the
      start and writing at `size`, and no other descriptor changes. */
  ghost predicate FdOpened(fs: seq<Fd>, fs': seq<Fd>, ino: int, size: int, r: int) {
    && (r == -1 <==> forall f :: 0 <= f < |fs| ==> fs[f].valid)
    && (r == -1 ==> fs' == fs)
    && (r != -1 ==>
          && 0 <= r < |fs| && !fs[r].valid && (forall f :: 0 <= f < r ==> fs[f].valid)
          && fs' == fs[r := Fd(true, ino, 0, size)])
  }

  /** sfs_fopen on an unlisted name: the create path (CreateEffect), then,
      when it claimed an inode, the descriptor half on the new empty file;
      -1 with the descriptors and the listing cursor as before when it did not. */
  ghost predicate CreateOpenEffect(d0: seq<Block>, it0: seq<Inode>, dir0: seq<DirEntry>, o0: Owner, fs0: seq<Fd>, cur0: nat,
                                   d: seq<Block>, it: seq<Inode>, dir: seq<DirEntry>, o: Owner, fs: seq<Fd>, cur: nat,
                                   name: string, r: int)
    requires |d0| == NUM_BLOCKS && |it0| == NUM_INODES && |it| == NUM_INODES
  {
    var i := CreatedInode(d0, it0);
    && CreateEffect(d0, it0, dir0, o0, d, it, dir, o, name)
    && (i == -1 ==> r == -1 && fs == fs0 && cur == cur0)
    && (i != -1 ==> cur == 0 && FdOpened(fs0, fs, i, 0, r))
  }

  /** A listed name resolves to a valid file inode. */
  lemma ListedInode(it: seq<Inode>, dir: seq<DirEntry>, name: string)
    requires |it| == NUM_INODES && DirOk(it, dir) && Listed(dir, name)
    ensures 1 <= GetInodeNum(dir, name) < NUM_INODES && it[GetInodeNum(dir, name)].valid
  {
    var k :| IsLastMatch(dir, name, k) && GetInodeNum(dir, name) == dir[k].inodeNum;
  }

  /** The entry rdc_remove unlinks is the one entry carrying the name, and
      its inode is the one the name resolves to. */
  lemma RemovedEntry(it: seq<Inode>, dir: seq<DirEntry>, name: string)
    requires |it| == NUM_INODES && DirOk(it, dir)
    ensures Listed(dir, name) <==> GetInodeNum(dir, name) != -1
    ensures Listed(dir, name) ==>
              var k := FindFirst(dir, name);
              && 0 <= k < |dir|
              && dir[k].inodeNum == GetInodeNum(dir, name)
              && RemoveFirst(dir, name) == dir[..k] + dir[k + 1..]
  {
    if Listed(dir, name) {
      var k := FindFirst(dir, name);
      GetInodeNumUnique(dir, name, k);
    }
  }

  /** Copying byte x out of the buffer that holds block k = x / 1024 of
      the file extends the bytes copied from p by the file's byte x. */
  lemma ReadOne(d: seq<Block>, inode: Inode, p: int, x: int, k: int, a: int, buf: ByteTable)
    requires 0 <= p <= x < inode.size && k == x / BLOCK_SIZE
    requires a == InodeIndexToAddress(inode, d, k) && buf == ByteView(ReadBlock(d, a))
    ensures FileData(d, inode)[p..x + 1] == FileData(d, inode)[p..x] + [buf[x % BLOCK_SIZE]]
  {
    var data := FileData(d, inode);
    assert data[x] == ByteAt(d, inode, x);
    assert data[p..x + 1] == data[p..x] + [data[x]];
  }

  /** The bounds check of sfs_frseek and sfs_fwseek, with the lower bound
      the C code omits (see Findings.SeekGuardAsWritten). */
  predicate SeekInBounds(loc: int, size: int) {
    0 <= loc <= size
  }

  /** The device mksfs(1) leaves, with the table read back, is consistent
      with no descriptor open, an empty directory and no block owned. */
  lemma FreshConsistent(d: seq<Block>, it: seq<Inode>, fs: seq<Fd>)
    requires |d| == NUM_BLOCKS && |it| == NUM_INODES && |fs| == MAX_OPEN_FILES
    requires d[0] == Super(EXPECTED_SUPER)
    requires it[ROOT_DIR_INODE_NUM] == Inode(true, 1, 0, seq(NUM_DIRECT, _ => 0), 0)
    requires forall m :: 1 <= m < NUM_INODES ==> !it[m].valid
    requires forall f :: 0 <= f < MAX_OPEN_FILES ==> !fs[f].valid
    ensures DirFromDisk(d, it[ROOT_DIR_INODE_NUM]) == []
    ensures Consistent(d, it, fs, [], map[])
  {
    assert OwnsUpTo(d, it[ROOT_DIR_INODE_NUM], ROOT_DIR_INODE_NUM, 0, map[]);
  }

  /** A Mountable device read back with every descriptor closed is in a consistent state. */
  lemma MountedFds(d: seq<Block>, it: seq<Inode>, fs: seq<Fd>, owner: Owner)
    requires Mountable(d, owner) && it == LoadInodes(d) && |fs| == MAX_OPEN_FILES
    requires forall f :: 0 <= f < MAX_OPEN_FILES ==> !fs[f].valid
    ensures Consistent(d, it, fs, DirFromDisk(d, it[ROOT_DIR_INODE_NUM]), owner)
  {
    ClosedFdsOk(it, fs);
  }

  class FileSystem {
    /** The emulated device: 8258 blocks. */
    const disk: array<Block>
    /** inode_table_cache: 512 inodes. */
    const inodes: array<Inode>
    /** open_file_descriptor_table: 100 entries. */
    const fds: array<Fd>
    /** The root directory cache. */
    const rdc: RootDirCache
    /** Which data-area block holds which file block (bookkeeping only). */
    ghost var owner: Owner

    /** The invariant of a mounted file system. */
    ghost predicate Valid()
      reads this, disk, inodes, fds, rdc
    {
      && disk.Length == NUM_BLOCKS && inodes.Length == NUM_INODES && fds.Length == MAX_OPEN_FILES
      && Consistent(disk[..], inodes[..], fds[..], rdc.entries, owner)
    }

    /** The loop state s of sfs_fwrite describes the current state, with
        cur_inode_i, cur_block_addr and block_buf. */
    ghost predicate Holds(s: Loop, curI: nat, curAddr: int, blockBuf: ByteTable)
      reads this, disk, inodes, fds
    {
      && s.disk == disk[..] && s.it == inodes[..] && s.fs == fds[..] && s.owner == owner
      && s.curI == curI && s.curAddr == curAddr && s.buf == blockBuf
    }

    /** The inode table on the device is the cached one, so that a remount
        (mksfs(0)) reads back this state; see Steps.FlushedMountable. */
    ghost predicate Durable()
      reads this, disk, inodes
      requires disk.Length == NUM_BLOCKS && inodes.Length == NUM_INODES
    {
      disk[..] == FlushInodes(disk[..], inodes[..])
    }

    /** The program's globals before mksfs, over a device image: the caches
        are zero-initialised. */
    constructor (image: seq<Block>)
      requires |image| == NUM_BLOCKS
      ensures disk.Length == NUM_BLOCKS && inodes.Length == NUM_INODES && fds.Length == MAX_OPEN_FILES
      ensures disk[..] == image
      ensures forall m :: 0 <= m < NUM_INODES ==> inodes[m] == ZERO_INODE
      ensures forall f :: 0 <= f < MAX_OPEN_FILES ==> fds[f] == Fd(false, 0, 0, 0)
      ensures rdc.entries == [] && owner == map[]
    {
      disk := new Block[NUM_BLOCKS](i requires 0 <= i < NUM_BLOCKS => image[i]);
      inodes := new Inode[NUM_INODES](_ => ZERO_INODE);
      fds := new Fd[MAX_OPEN_FILES](_ => Fd(false, 0, 0, 0));
      rdc := new RootDirCache();
      owner := map[];
      new;
      assert disk[..] == image;
    }

    /** mksfs. Fresh: zero the device, write the superblock, invalidate every
        cached inode, install the empty root directory (valid, one link, size
        0) and write the table out. Otherwise: accept the device only if its
        superblock is the expected one (the C code exits on a mismatch). On
        both paths the inode table is then read from the device, the
        directory cache is rebuilt from the root inode and every descriptor
        is invalidated. A mounted device that is Mountable gives a valid state. */
    method Mksfs(isFresh: bool) returns (ok: bool)
      requires disk.Length == NUM_BLOCKS && inodes.Length == NUM_INODES && fds.Length == MAX_OPEN_FILES
      modifies this, disk, inodes, fds, rdc
      ensures isFresh ==> ok
      ensures !isFresh ==> (ok <==> SuperView(old(disk[0])) == EXPECTED_SUPER) && disk[..] == old(disk[..])
      ensures isFresh ==>
                && Valid() && Durable() && owner == map[] && rdc.entries == []
                && disk[0] == Super(EXPECTED_SUPER)
                && (forall a :: FREEMAP_ADDRESS <= a < NUM_BLOCKS ==> disk[a] == Zero)
                && inodes[ROOT_DIR_INODE_NUM] == Inode(true, 1, 0, seq(NUM_DIRECT, _ => 0), 0)
                && (forall m :: 1 <= m < NUM_INODES ==> inodes[m] == old(inodes[m]).(valid := false))
      ensures ok ==>
                && inodes[..] == LoadInodes(disk[..])
                && rdc.entries == DirFromDisk(disk[..], inodes[ROOT_DIR_INODE_NUM])
                && (forall f :: 0 <= f < MAX_OPEN_FILES ==> fds[f] == old(fds[f]).(valid := false))
      ensures !isFresh && ok && (exists o :: Mountable(disk[..], o)) ==> Valid() && Mountable(disk[..], owner)
    {
      if isFresh {
        Format();
      } else {
        var sb := SuperView(ReadBlock(disk[..], 0));
        if sb.magicNumber != MAGIC_NUMBER { return false; }
        if sb.blockSize != BLOCK_SIZE { return false; }
        if sb.fsSize != NUM_BLOCKS { return false; }
        if sb.inodeTableLength != INODE_TABLE_LENGTH { return false; }
        if sb.rootDirInodeNum != ROOT_DIR_INODE_NUM { return false; }
      }
      ghost var itw := inodes[..];
      ghost var dw := disk[..];
      ReadInodeTable(disk, inodes);
      var root := inodes[ROOT_DIR_INODE_NUM];
      rdc.Init(disk, root);
      InitOpenFileDescriptorTable(fds);
      ok := true;
      if isFresh {
        FlushRoundTrip(dw, itw);
        FreshConsistent(disk[..], inodes[..], fds[..]);
      } else if exists o :: Mountable(disk[..], o) {
        ghost var o :| Mountable(disk[..], o);
        owner := o;
        MountedFds(disk[..], inodes[..], fds[..], owner);
      }
    }

    /** The fresh half of mksfs: a zeroed device with the superblock in block
        0, every cached inode invalid but the root directory's (valid, one
        link, size 0), and the table written to blocks 1 .. 64. */
    method Format()
      requires disk.Length == NUM_BLOCKS && inodes.Length == NUM_INODES
      modifies this`owner, disk, inodes
      ensures owner == map[]
      ensures disk[0] == Super(EXPECTED_SUPER)
      ensures forall a :: FREEMAP_ADDRESS <= a < NUM_BLOCKS ==> disk[a] == Zero
      ensures inodes[ROOT_DIR_INODE_NUM] == Inode(true, 1, 0, seq(NUM_DIRECT, _ => 0), 0)
      ensures forall m :: 1 <= m < NUM_INODES ==> inodes[m] == old(inodes[m]).(valid := false)
      ensures disk[..] == FlushInodes(disk[..], inodes[..])
    {
      ghost var it0 := inodes[..];
      for a := 0 to NUM_BLOCKS
        modifies disk
        invariant forall x :: 0 <= x < a ==> disk[x] == Zero
      {
        disk[a] := Zero;
      }
      WriteBlock(disk, 0, Super(EXPECTED_SUPER));
      for m := 0 to NUM_INODES
        modifies inodes
        invariant forall j :: 0 <= j < m ==> inodes[j] == it0[j].(valid := false)
        invariant forall j :: m <= j < NUM_INODES ==> inodes[j] == it0[j]
      {
        inodes[m] := inodes[m].(valid := false);
      }
      inodes[ROOT_DIR_INODE_NUM] := Inode(true, 1, 0, seq(NUM_DIRECT, _ => 0), 0);
      ghost var d1 := disk[..];
      WriteInodeTable(disk, inodes);
      FlushTwice(d1, inodes[..]);
      owner := map[];
    }

    /** sfs_getnextfilename: the next name of the listing (rdc_getnextfilename). */
    method GetNextFilename() returns (r: int, fname: string)
      requires Valid()
      modifies rdc
      ensures Valid()
      ensures var l := NextListing(old(rdc.entries), old(rdc.cursor));
              && r == (if l.more then 1 else 0) && fname == l.filename && rdc.cursor == l.cursor
      ensures rdc.entries == old(rdc.entries)
    {
      r, fname := rdc.GetNextFilename();
    }

    /** sfs_getfilesize: the size of the file the name resolves to, which is
        the number of bytes it holds; -1 when the name is not listed. */
    function GetFileSize(path: string): (r: int)
      reads this, disk, inodes, fds, rdc
      requires Valid()
      ensures r == -1 <==> !Listed(rdc.entries, path)
      ensures Listed(rdc.entries, path) ==> r == |FileData(disk[..], inodes[GetInodeNum(rdc.entries, path)])|
    {
      var inodeNum := GetInodeNum(rdc.entries, path);
      if inodeNum == -1 then -1
      else
        ListedInode(inodes[..], rdc.entries, path);
        inodes[inodeNum].size
    }

    /** sfs_fopen: -1 and no change for a name longer than 28 characters or
        a file already open. A listed name is opened as it is. An unlisted
        one is created first (CreateEffect): at a block boundary the root is
        grown by a block, the lowest invalid inode is claimed with size 0,
        its entry is appended to the listing, the listing is written to the
        root's blocks, the root's size counts the entry and the inode table
        is written out; -1 when the root cannot grow or no inode is free.
        Then the lowest closed descriptor is handed out (FdOpened), reading
        from the start and writing at the end of the file; -1 when none is. */
    method Fopen(name: string) returns (r: int)
      requires Valid()
      modifies this`owner, disk, inodes, fds, rdc
      ensures Valid()
      ensures |name| > MAX_FILENAME || IsOpen(old(fds[..]), old(rdc.entries), name) ==>
                r == -1 && unchanged(this, disk, inodes, fds, rdc)
      ensures |name| <= MAX_FILENAME && !IsOpen(old(fds[..]), old(rdc.entries), name) && Listed(old(rdc.entries), name) ==>
                var n := GetInodeNum(old(rdc.entries), name);
                && 1 <= n < NUM_INODES && inodes[n].valid
                && unchanged(this, disk, inodes, rdc)
                && FdOpened(old(fds[..]), fds[..], n, inodes[n].size, r)
      ensures |name| <= MAX_FILENAME && !IsOpen(old(fds[..]), old(rdc.entries), name) && !Listed(old(rdc.entries), name) ==>
                CreateOpenEffect(old(disk[..]), old(inodes[..]), old(rdc.entries), old(owner), old(fds[..]), old(rdc.cursor),
                                 disk[..], inodes[..], rdc.entries, owner, fds[..], rdc.cursor, name, r)
    {
      if |name| > MAX_FILENAME {
        return -1;
      }
      var isOpen := IsFileOpen(fds, rdc.entries, name);
      if isOpen {
        return -1;
      }
      r := OpenName(name);
    }

    /** sfs_fopen past the name-length and already-open checks. */
    method OpenName(name: string) returns (r: int)
      requires Valid() && |name| <= MAX_FILENAME
      modifies this`owner, disk, inodes, fds, rdc
      ensures Valid()
      ensures Listed(old(rdc.entries), name) ==>
                var n := GetInodeNum(old(rdc.entries), name);
                && 1 <= n < NUM_INODES && inodes[n].valid
                && unchanged(this, disk, inodes, rdc)
                && FdOpened(old(fds[..]), fds[..], n, inodes[n].size, r)
      ensures !Listed(old(rdc.entries), name) ==>
                CreateOpenEffect(old(disk[..]), old(inodes[..]), old(rdc.entries), old(owner), old(fds[..]), old(rdc.cursor),
                                 disk[..], inodes[..], rdc.entries, owner, fds[..], rdc.cursor, name, r)
    {
      RemovedEntry(inodes[..], rdc.entries, name);
      var inodeNum := GetInodeNum(rdc.entries, name);
      if inodeNum < 0 {
        r := CreateAndOpen(name);
      } else {
        r := OpenListed(name);
      }
    }

    /** sfs_fopen on a listed name: only the descriptor half runs. */
    method OpenListed(name: string) returns (r: int)
      requires Valid() && Listed(rdc.entries, name)
      modifies fds
      ensures Valid()
      ensures var n := GetInodeNum(old(rdc.entries), name);
              && 1 <= n < NUM_INODES && inodes[n].valid
              && unchanged(this, disk, inodes, rdc)
              && FdOpened(old(fds[..]), fds[..], n, inodes[n].size, r)
    {
      ListedInode(inodes[..], rdc.entries, name);
      r := OpenFd(GetInodeNum(rdc.entries, name));
    }

    /** sfs_fopen on an unlisted name of at most 28 characters. */
    method CreateAndOpen(name: string) returns (r: int)
      requires Valid() && |name| <= MAX_FILENAME && !Listed(rdc.entries, name)
      modifies this`owner, disk, inodes, fds, rdc
      ensures Valid()
      ensures CreateOpenEffect(old(disk[..]), old(inodes[..]), old(rdc.entries), old(owner), old(fds[..]), old(rdc.cursor),
                               disk[..], inodes[..], rdc.entries, owner, fds[..], rdc.cursor, name, r)
    {
      var i := CreateFile(name);
      if i < 0 {
        return -1;
      }
      r := OpenFd(i);
    }

    /** The descriptor half of sfs_fopen for valid inode `ino`. */
    method OpenFd(ino: int) returns (r: int)
      requires Valid() && 1 <= ino < NUM_INODES && inodes[ino].valid
      modifies fds
      ensures Valid()
      ensures FdOpened(old(fds[..]), fds[..], ino, inodes[ino].size, r)
    {
      r := GetNextFd(fds);
      if r < 0 {
        return;
      }
      OpenFdStep(inodes[..], fds[..], r, ino);
      fds[r] := Fd(true, ino, 0, inodes[ino].size);
    }

    /** The create half of sfs_fopen for an unlisted name of at most 28
        characters; returns the claimed inode or -1. */
    method CreateFile(name: string) returns (i: int)
      requires Valid() && |name| <= MAX_FILENAME && !Listed(rdc.entries, name)
      modifies this`owner, disk, inodes, rdc
      ensures Valid()
      ensures i == CreatedInode(old(disk[..]), old(inodes[..]))
      ensures CreateEffect(old(disk[..]), old(inodes[..]), old(rdc.entries), old(owner), disk[..], inodes[..], rdc.entries, owner, name)
      ensures rdc.cursor == if i == -1 then old(rdc.cursor) else 0
    {
      ghost var d0, it0, o0 := disk[..], inodes[..], owner;
      var root := inodes[ROOT_DIR_INODE_NUM];
      if root.size % BLOCK_SIZE == 0 {
        var ok := GrowRoot();
        if !ok {
          UnfitEffect(d0, it0, rdc.entries, o0, name);
          return -1;
        }
      } else {
        RootStays(d0, it0, fds[..], rdc.entries, o0);
      }
      i := FindFreeInode(inodes);
      if i == -1 {
        NoInodeEffect(d0, it0, fds[..], rdc.entries, o0, disk[..], inodes[..], owner, name);
        return;
      }
      AddFile(name, i, d0, it0, o0);
    }

    /** allocate_block_to_inode on the root at a block boundary; on success
        the state is ready for one more entry. */
    method GrowRoot() returns (ok: bool)
      requires Valid() && inodes[ROOT_DIR_INODE_NUM].size % BLOCK_SIZE == 0
      modifies this`owner, disk, inodes
      ensures ok == CanGrow(BitmapView(old(disk[FREEMAP_ADDRESS])), old(inodes[ROOT_DIR_INODE_NUM]).size)
      ensures !ok ==> disk[..] == old(disk[..]) && inodes[..] == old(inodes[..]) && owner == old(owner)
      ensures ok ==> Grown(old(disk[..]), old(inodes[ROOT_DIR_INODE_NUM]), disk[..], inodes[ROOT_DIR_INODE_NUM])
      ensures ok ==> owner == GrownOwner(old(disk[..]), old(inodes[ROOT_DIR_INODE_NUM]), ROOT_DIR_INODE_NUM, old(owner))
      ensures ok ==> RootReady(old(disk[..]), old(inodes[..]), fds[..], rdc.entries, old(owner), disk[..], inodes[..], owner)
    {
      ghost var d0, it0, o0 := disk[..], inodes[..], owner;
      ok := AllocateBlockToInode(disk, inodes, ROOT_DIR_INODE_NUM);
      if ok {
        assert inodes[..] == it0[ROOT_DIR_INODE_NUM := inodes[ROOT_DIR_INODE_NUM]];
        RootGrown(d0, it0, fds[..], rdc.entries, o0, disk[..], inodes[ROOT_DIR_INODE_NUM]);
        owner := GrownOwner(d0, it0[ROOT_DIR_INODE_NUM], ROOT_DIR_INODE_NUM, o0);
      }
    }

    /** The create path from a ready state with inode i the first invalid one. */
    method AddFile(name: string, i: int, ghost d0: seq<Block>, ghost it0: seq<Inode>, ghost o0: Owner)
      requires disk.Length == NUM_BLOCKS && inodes.Length == NUM_INODES && fds.Length == MAX_OPEN_FILES
      requires RootReady(d0, it0, fds[..], rdc.entries, o0, disk[..], inodes[..], owner)
      requires |name| <= MAX_FILENAME && !Listed(rdc.entries, name) && i == FirstInvalid(inodes[..]) && i != -1
      modifies disk, inodes, rdc
      ensures Valid() && rdc.cursor == 0 && i == CreatedInode(d0, it0)
      ensures CreateEffect(d0, it0, old(rdc.entries), o0, disk[..], inodes[..], rdc.entries, owner, name)
    {
      CreateChain(d0, it0, fds[..], rdc.entries, o0, disk[..], inodes[..], owner, name);
      WriteEntry(name, i);
    }

    /** Claim inode i with size 0, append its entry, rdc_to_disk, count the
        entry in the root's size and write the inode table. */
    method WriteEntry(name: string, i: int)
      requires disk.Length == NUM_BLOCKS && inodes.Length == NUM_INODES && 1 <= i < NUM_INODES
      requires NoIndirectHit(disk[..], inodes[ROOT_DIR_INODE_NUM], |rdc.entries| + 1)
      requires -1 !in RootAddrs(disk[..], inodes[ROOT_DIR_INODE_NUM], BlocksChecked(|rdc.entries| + 1))
      modifies disk, inodes, rdc
      ensures rdc.entries == old(rdc.entries) + [DirEntry(name, i)] && rdc.cursor == 0
      ensures inodes[..] == CreatedInodes(old(inodes[..]), i)
      ensures disk[..] == CreatedDisk(old(disk[..]), old(inodes[..]), i, rdc.entries)
    {
      ghost var d0, it0 := disk[..], inodes[..];
      inodes[i] := inodes[i].(valid := true, size := 0);
      rdc.Insert(DirEntry(name, i));
      var written := rdc.ToDisk(disk, inodes[ROOT_DIR_INODE_NUM]);
      ghost var d2 := disk[..];
      assert d2 == CreatedDirDisk(d0, it0, rdc.entries);
      inodes[ROOT_DIR_INODE_NUM] := inodes[ROOT_DIR_INODE_NUM].(size := inodes[ROOT_DIR_INODE_NUM].size + DIR_ENTRY_SIZE);
      assert inodes[..] == CreatedInodes(it0, i);
      WriteInodeTable(disk, inodes);
    }

    /** sfs_fclose: 1 when the descriptor is not open; otherwise close it and return 0. */
    method Fclose(fileID: int) returns (r: int)
      requires Valid() && 0 <= fileID < MAX_OPEN_FILES
      modifies fds
      ensures Valid()
      ensures r == (if old(fds[fileID].valid) then 0 else 1)
      ensures fds[..] == old(fds[..])[fileID := old(fds[fileID]).(valid := false)]
    {
      r := 0;
      if !fds[fileID].valid {
        r := 1;
      } else {
        fds[fileID] := fds[fileID].(valid := false);
      }
      assert fds[..] == old(fds[..])[fileID := old(fds[fileID]).(valid := false)];
    }

    /** sfs_frseek: move the read pointer of an open descriptor to loc, which
        must lie within the file; -1 and no change otherwise. */
    method Frseek(fileID: int, loc: int) returns (r: int)
      requires Valid() && 0 <= fileID < MAX_OPEN_FILES
      modifies fds
      ensures Valid()
      ensures var fd := old(fds[fileID]);
              r == (if fd.valid && 0 <= loc <= inodes[fd.inodeNum].size then 0 else -1)
      ensures r == 0 ==> fds[..] == old(fds[..])[fileID := old(fds[fileID]).(rptr := loc)]
      ensures r == -1 ==> fds[..] == old(fds[..])
    {
      var fd := fds[fileID];
      if !fd.valid {
        return -1;
      }
      var inode := inodes[fd.inodeNum];
      if !SeekInBounds(loc, inode.size) {
        return -1;
      }
      fds[fileID] := fd.(rptr := loc);
      SeekFdStep(inodes[..], old(fds[..]), fileID, fd.(rptr := loc));
      r := 0;
    }

    /** sfs_fwseek: the same for the write pointer. */
    method Fwseek(fileID: int, loc: int) returns (r: int)
      requires Valid() && 0 <= fileID < MAX_OPEN_FILES
      modifies fds
      ensures Valid()
      ensures var fd := old(fds[fileID]);
              r == (if fd.valid && 0 <= loc <= inodes[fd.inodeNum].size then 0 else -1)
      ensures r == 0 ==> fds[..] == old(fds[..])[fileID := old(fds[fileID]).(wptr := loc)]
      ensures r == -1 ==> fds[..] == old(fds[..])
    {
      var fd := fds[fileID];
      if !fd.valid {
        return -1;
      }
      var inode := inodes[fd.inodeNum];
      if !SeekInBounds(loc, inode.size) {
        return -1;
      }
      fds[fileID] := fd.(wptr := loc);
      SeekFdStep(inodes[..], old(fds[..]), fileID, fd.(wptr := loc));
      r := 0;
    }

    /** sfs_fwrite: write buf[..length] at the write pointer of an open
        descriptor, one byte at a time through a one-block buffer, growing
        the file by a block whenever the pointer reaches its end on a block
        boundary; stop early when the device has no room for that block.
        The buffer and then the inode table are written back; the count of
        bytes written is returned, -1 when the descriptor is not open.
        WriteSteps.Progress states what the count means: the file reads its
        old bytes with buf[..r] written over them from the old write
        pointer, which has moved by r, and nothing else has changed. */
    method Fwrite(fileID: int, buf: seq<byte>, length: int) returns (r: int)
      requires Valid() && 0 <= fileID < MAX_OPEN_FILES && length <= |buf|
      modifies this`owner, disk, inodes, fds
      ensures Valid()
      ensures !old(fds[fileID].valid) ==> r == -1 && unchanged(this, disk, inodes, fds)
      ensures old(fds[fileID].valid) ==>
                var c := WriteCall(old(disk[..]), old(inodes[..]), old(fds[..]), old(owner), rdc.entries, fileID, buf);
                && 0 <= r && (length <= 0 ==> r == 0) && (length > 0 ==> r <= length)
                && Progress(c, r, disk[..], inodes[..], fds[..], owner)
                && (r < length ==> Stopped(c, r, disk[FREEMAP_ADDRESS], inodes[..]))
                && Durable()
    {
      if !fds[fileID].valid {
        return -1;
      }
      ghost var c := WriteCall(disk[..], inodes[..], fds[..], owner, rdc.entries, fileID, buf);
      var i := 0;
      var curI: nat := fds[fileID].wptr / BLOCK_SIZE;
      var curAddr := -1;
      var blockBuf: ByteTable := seq(BLOCK_SIZE, _ => 0);
      ghost var s := Loop(disk[..], disk[..], inodes[..], fds[..], owner, curI, curAddr, blockBuf);
      WriteBegins(c, curI);
      while i < length
        invariant Holds(s, curI, curAddr, blockBuf) && Writing(c, i, s)
        invariant 0 <= i && (length > 0 ==> i <= length) && (length <= 0 ==> i == 0)
        decreases length - i
      {
        var ok;
        ok, curI, curAddr, blockBuf, s := WriteByte(c, fileID, i, s, curI, curAddr, blockBuf, buf[i]);
        if !ok {
          break;
        }
        i := i + 1;
      }
      r := i;
      FinishWrite(c, r, s, curI, curAddr, blockBuf);
    }

    /** The end of sfs_fwrite: block_buf goes back to the device (when a
        block was loaded) and then the inode table; the device then shows
        what the loop's view showed, holds the cached table and keeps the
        bitmap the loop saw. */
    method FinishWrite(ghost c: WriteCall, r: int, ghost s: Loop, curI: nat, curAddr: int, blockBuf: ByteTable)
      requires disk.Length == NUM_BLOCKS && inodes.Length == NUM_INODES && fds.Length == MAX_OPEN_FILES
      requires Holds(s, curI, curAddr, blockBuf) && Writing(c, r, s) && c.dir == rdc.entries
      modifies disk
      ensures Valid() && Durable()
      ensures Progress(c, r, disk[..], inodes[..], fds[..], owner)
      ensures disk[FREEMAP_ADDRESS] == s.disk[FREEMAP_ADDRESS]
    {
      WriteEnds(c, r, s);
      if r > 0 {
        WriteBlock(disk, curAddr, Bytes(blockBuf));
      }
      WriteInodeTable(disk, inodes);
    }

    /** One iteration of the loop of sfs_fwrite: the allocation check, the
        block fetch and the store of byte x = buf[i]. When the allocation
        fails nothing changes and the loop stops; otherwise one byte more
        is written. */
    method WriteByte(ghost c: WriteCall, fileID: int, i: int, ghost s: Loop, curI: nat, curAddr: int, blockBuf: ByteTable, x: byte)
      returns (ok: bool, curI': nat, curAddr': int, blockBuf': ByteTable, ghost s': Loop)
      requires disk.Length == NUM_BLOCKS && inodes.Length == NUM_INODES && fds.Length == MAX_OPEN_FILES
      requires c.f == fileID && Holds(s, curI, curAddr, blockBuf) && Writing(c, i, s)
      requires i < |c.w| && x == c.w[i]
      modifies this`owner, disk, inodes, fds
      ensures Holds(s', curI', curAddr', blockBuf')
      ensures !ok ==> s' == s && Stopped(c, i, s.disk[FREEMAP_ADDRESS], s.it)
      ensures ok ==> Writing(c, i + 1, s')
    {
      ghost var kn;
      ok, s', kn := PlaceForWrite(c, fileID, i, s, curI, curAddr, blockBuf);
      curI', curAddr', blockBuf' := curI, curAddr, blockBuf;
      if ok {
        curI', curAddr', blockBuf', s' := LoadForWrite(c, fileID, i, s', curI, curAddr, blockBuf, kn);
        blockBuf', s' := StoreForWrite(c, fileID, i, s', curI', curAddr', blockBuf', kn, x);
      }
    }

    /** One iteration's allocation check, on the loop state: when it fails
        the loop stops with nothing changed, otherwise the block of the
        write pointer belongs to the file. */
    method PlaceForWrite(ghost c: WriteCall, fileID: int, i: int, ghost s: Loop, curI: nat, curAddr: int, blockBuf: ByteTable)
      returns (ok: bool, ghost s': Loop, ghost kn: nat)
      requires disk.Length == NUM_BLOCKS && inodes.Length == NUM_INODES && fds.Length == MAX_OPEN_FILES
      requires c.f == fileID && Holds(s, curI, curAddr, blockBuf) && Writing(c, i, s)
      modifies this`owner, disk, inodes
      ensures Holds(s', curI, curAddr, blockBuf)
      ensures !ok ==> s' == s && Stopped(c, i, s.disk[FREEMAP_ADDRESS], s.it)
      ensures ok ==> Placed(c, i, s', kn)
    {
      ghost var n, wp := AtPointer(c, i, s);
      var grew;
      grew, ok := GrowAtEnd(fileID, s.disk, s.it, n, wp);
      s', kn := PlaceStep(c, i, s, n, wp, grew, ok, disk[..], inodes[..]);
      owner := s'.owner;
    }

    /** One iteration's block fetch, on the loop state: afterwards the
        buffer holds the block of the write pointer. */
    method LoadForWrite(ghost c: WriteCall, fileID: int, i: int, ghost s: Loop, curI: nat, curAddr: int, blockBuf: ByteTable,
                        ghost kn: nat)
      returns (curI': nat, curAddr': int, blockBuf': ByteTable, ghost s': Loop)
      requires disk.Length == NUM_BLOCKS && inodes.Length == NUM_INODES && fds.Length == MAX_OPEN_FILES
      requires c.f == fileID && Holds(s, curI, curAddr, blockBuf) && Placed(c, i, s, kn)
      modifies disk
      ensures Holds(s', curI', curAddr', blockBuf') && Ready(c, i, s', kn)
    {
      ghost var n, wp := AtPointer(c, i, s);
      curI', curAddr', blockBuf' := FetchBlock(fileID, i, curI, curAddr, blockBuf, s.disk, s.it, n, wp);
      s' := FetchStep(c, i, s, kn, n, wp, disk[..], curI', curAddr', blockBuf');
    }

    /** One iteration's store, on the loop state: one byte more is written
        and the loop is back at its top. */
    method StoreForWrite(ghost c: WriteCall, fileID: int, i: int, ghost s: Loop, curI: nat, curAddr: int, blockBuf: ByteTable,
                         ghost kn: nat, x: byte)
      returns (blockBuf': ByteTable, ghost s': Loop)
      requires disk.Length == NUM_BLOCKS && inodes.Length == NUM_INODES && fds.Length == MAX_OPEN_FILES
      requires c.f == fileID && Holds(s, curI, curAddr, blockBuf) && Ready(c, i, s, kn)
      requires i < |c.w| && x == c.w[i]
      modifies inodes, fds
      ensures Holds(s', curI, curAddr, blockBuf') && Writing(c, i + 1, s')
    {
      ghost var n, wp := AtPointer(c, i, s);
      blockBuf' := PutByte(fileID, blockBuf, x, s.it, s.fs, n, wp);
      s' := PutStep(c, i, s, kn, n, wp, blockBuf', inodes[..], fds[..]);
    }

    /** The allocation check at the top of an iteration of sfs_fwrite: when
        the write pointer wp of descriptor fileID (on inode n) is at the end
        of the file on a block boundary, allocate_block_to_inode; `grew`
        says the check applied and `ok` whether the loop goes on. */
    method GrowAtEnd(fileID: int, ghost d0: seq<Block>, ghost it0: seq<Inode>, ghost n: int, ghost wp: int)
      returns (grew: bool, ok: bool)
      requires disk.Length == NUM_BLOCKS && inodes.Length == NUM_INODES && fds.Length == MAX_OPEN_FILES
      requires 0 <= fileID < MAX_OPEN_FILES && 1 <= n < NUM_INODES
      requires fds[fileID].inodeNum == n && fds[fileID].wptr == wp && disk[..] == d0 && inodes[..] == it0
      modifies disk, inodes
      ensures grew == (wp % BLOCK_SIZE == 0 && wp == it0[n].size)
      ensures grew ==> ok == CanGrow(BitmapView(d0[FREEMAP_ADDRESS]), it0[n].size)
      ensures !grew ==> ok
      ensures !(grew && ok) ==> disk[..] == d0 && inodes[..] == it0
      ensures grew && ok ==>
                |inodes[..]| == NUM_INODES && Grown(d0, it0[n], disk[..], inodes[..][n]) && inodes[..] == it0[n := inodes[..][n]]
    {
      var ino := fds[fileID].inodeNum;
      grew, ok := false, true;
      if fds[fileID].wptr % BLOCK_SIZE == 0 && fds[fileID].wptr == inodes[ino].size {
        grew := true;
        ok := AllocateBlockToInode(disk, inodes, ino);
      }
    }

    /** The block fetch of sfs_fwrite: at a block boundary (after the first
        byte) the buffer goes back to the device and cur_inode_i moves on;
        at a boundary or at the first byte the block of the write pointer
        is read into the buffer. */
    method FetchBlock(fileID: int, i: int, curI: nat, curAddr: int, blockBuf: ByteTable,
                        ghost d0: seq<Block>, ghost it0: seq<Inode>, ghost n: int, ghost wp: int)
      returns (curI': nat, curAddr': int, blockBuf': ByteTable)
      requires disk.Length == NUM_BLOCKS && inodes.Length == NUM_INODES && fds.Length == MAX_OPEN_FILES
      requires 0 <= fileID < MAX_OPEN_FILES && 1 <= n < NUM_INODES
      requires fds[fileID].inodeNum == n && fds[fileID].wptr == wp && disk[..] == d0 && inodes[..] == it0
      modifies disk
      ensures !(wp % BLOCK_SIZE == 0 || i == 0) ==>
                disk[..] == d0 && curI' == curI && curAddr' == curAddr && blockBuf' == blockBuf
      ensures i == 0 ==>
                disk[..] == d0 && curI' == curI && curAddr' == InodeIndexToAddress(it0[n], disk[..], curI')
                && blockBuf' == ByteView(ReadBlock(disk[..], curAddr'))
      ensures wp % BLOCK_SIZE == 0 && i != 0 ==>
                disk[..] == Written(d0, InodeIndexToAddress(it0[n], d0, curI), Bytes(blockBuf))
                && curI' == curI + 1 && curAddr' == InodeIndexToAddress(it0[n], disk[..], curI')
                && blockBuf' == ByteView(ReadBlock(disk[..], curAddr'))
    {
      var ino := fds[fileID].inodeNum;
      curI', curAddr', blockBuf' := curI, curAddr, blockBuf;
      if fds[fileID].wptr % BLOCK_SIZE == 0 || i == 0 {
        curAddr' := InodeIndexToAddress(inodes[ino], disk[..], curI);
        if i != 0 {
          WriteBlock(disk, curAddr', Bytes(blockBuf));
          curI' := curI + 1;
          curAddr' := InodeIndexToAddress(inodes[ino], disk[..], curI');
        }
        blockBuf' := ByteView(ReadBlock(disk[..], curAddr'));
      }
    }

    /** block_buf[wptr % 1024] = buf[i]; wptr++; and size++ when the byte
        went at the end of the file. */
    method PutByte(fileID: int, blockBuf: ByteTable, x: byte,
                         ghost it0: seq<Inode>, ghost fs0: seq<Fd>, ghost n: int, ghost wp: int)
      returns (blockBuf': ByteTable)
      requires inodes.Length == NUM_INODES && fds.Length == MAX_OPEN_FILES
      requires 0 <= fileID < MAX_OPEN_FILES && 1 <= n < NUM_INODES
      requires fds[fileID].inodeNum == n && fds[fileID].wptr == wp && inodes[..] == it0 && fds[..] == fs0
      modifies inodes, fds
      ensures blockBuf' == blockBuf[wp % BLOCK_SIZE := x]
      ensures fds[..] == fs0[fileID := fs0[fileID].(wptr := wp + 1)]
      ensures inodes[..] == it0[n := Stored(it0[n], wp)]
    {
      var ino := fds[fileID].inodeNum;
      var p := fds[fileID].wptr;
      blockBuf' := blockBuf[p % BLOCK_SIZE := x];
      fds[fileID] := fds[fileID].(wptr := p + 1);
      if fds[fileID].wptr - 1 == inodes[ino].size {
        inodes[ino] := inodes[ino].(size := inodes[ino].size + 1);
      }
    }

    /** sfs_fread: copy bytes from the read pointer into the caller's buffer,
        stopping at `length` bytes or at the end of the file, whichever comes
        first, and advance the read pointer by the count; -1 when the
        descriptor is not open. Nothing but the read pointer changes. */
    method Fread(fileID: int, length: int) returns (r: int, out: seq<byte>)
      requires Valid() && 0 <= fileID < MAX_OPEN_FILES
      modifies fds
      ensures Valid()
      ensures !old(fds[fileID].valid) ==> r == -1 && out == [] && fds[..] == old(fds[..])
      ensures old(fds[fileID].valid) ==>
                var fd := old(fds[fileID]);
                var data := FileData(disk[..], inodes[fd.inodeNum]);
                && 0 <= fd.rptr <= |data|
                && r == (if length <= 0 then 0 else if length < |data| - fd.rptr then length else |data| - fd.rptr)
                && out == data[fd.rptr..fd.rptr + r]
                && fds[..] == old(fds[..])[fileID := fd.(rptr := fd.rptr + r)]
    {
      var fd := fds[fileID];
      if !fd.valid {
        return -1, [];
      }
      var rptr;
      r, out, rptr := ReadFrom(inodes[fd.inodeNum], fd.rptr, length);
      fds[fileID] := fd.(rptr := rptr);
      SeekFdStep(inodes[..], old(fds[..]), fileID, fd.(rptr := rptr));
    }

    /** The copying loop of sfs_fread: from position p of the file `inode`,
        bring one block at a time into a buffer (the block at p first, the
        next one at each block boundary) and copy bytes out of it until
        `length` bytes are copied or the end of the file is reached. */
    method ReadFrom(inode: Inode, p: int, length: int) returns (r: int, out: seq<byte>, rptr: int)
      requires disk.Length == NUM_BLOCKS && 0 <= p <= inode.size
      ensures var data := FileData(disk[..], inode);
              && r == (if length <= 0 then 0 else if length < |data| - p then length else |data| - p)
              && out == data[p..p + r] && rptr == p + r
    {
      ghost var d := disk[..];
      ghost var data := FileData(d, inode);
      rptr := p;
      var curInodeI := rptr / BLOCK_SIZE;
      var curInodeAddr := InodeIndexToAddress(inode, disk[..], curInodeI);
      var blockBuf: ByteTable := seq(BLOCK_SIZE, _ => 0);
      r, out := 0, [];
      var i := 0;
      while i < length
        invariant 0 <= i && r == i && rptr == p + i <= inode.size && (i == 0 || i <= length)
        invariant out == data[p..rptr]
        invariant i == 0 ==> curInodeI == rptr / BLOCK_SIZE && curInodeAddr == InodeIndexToAddress(inode, d, curInodeI)
        invariant i > 0 ==> curInodeI == (rptr - 1) / BLOCK_SIZE
        invariant i > 0 ==> curInodeAddr == InodeIndexToAddress(inode, d, curInodeI)
        invariant i > 0 ==> blockBuf == ByteView(ReadBlock(d, curInodeAddr))
      {
        if rptr == inode.size {
          break;
        }
        if i > 0 {
          NextIndex(rptr);
        }
        if rptr % BLOCK_SIZE == 0 || i == 0 {
          if i != 0 {
            curInodeI := curInodeI + 1;
            curInodeAddr := InodeIndexToAddress(inode, disk[..], curInodeI);
          }
          blockBuf := ByteView(ReadBlock(disk[..], curInodeAddr));
        }
        ReadOne(d, inode, p, rptr, curInodeI, curInodeAddr, blockBuf);
        out := out + [blockBuf[rptr % BLOCK_SIZE]];
        rptr := rptr + 1;
        r := r + 1;
        i := i + 1;
      }
    }

    /** sfs_remove: 1 and no change when the file is open or not listed.
        Otherwise free the file's blocks in the bitmap (and its indirect
        block past 12 blocks) and write the bitmap back, invalidate its
        inode, unlink its entry, rewrite the directory one entry shorter and
        write the inode table; 0. Steps.RemoveOutcome shows that this state
        keeps every other file's bytes and frees exactly the file's blocks. */
    method Remove(file: string) returns (r: int)
      requires Valid()
      modifies this`owner, disk, inodes, rdc
      ensures Valid()
      ensures r == (if IsOpen(old(fds[..]), old(rdc.entries), file) || !Listed(old(rdc.entries), file) then 1 else 0)
      ensures r == 1 ==>
                && disk[..] == old(disk[..]) && inodes[..] == old(inodes[..])
                && rdc.entries == old(rdc.entries) && rdc.cursor == old(rdc.cursor) && owner == old(owner)
      ensures r == 0 ==>
                var k := FindFirst(old(rdc.entries), file);
                var n := old(rdc.entries)[k].inodeNum;
                && 0 <= k < old(|rdc.entries|) && n == GetInodeNum(old(rdc.entries), file)
                && 1 <= n < NUM_INODES && old(inodes[n].valid)
                && rdc.entries == old(rdc.entries[..k] + rdc.entries[k + 1..]) && rdc.cursor == 0
                && inodes[..] == RemovedInodes(old(inodes[..]), n)
                && disk[..] == RemovedDisk(old(disk[..]), old(inodes[..]), n, rdc.entries)
                && owner == Untagged(old(owner), n)
                && Durable()
    {
      RemovedEntry(inodes[..], rdc.entries, file);
      var isOpen := IsFileOpen(fds, rdc.entries, file);
      if isOpen {
        return 1;
      }
      var inodeNum := GetInodeNum(rdc.entries, file);
      if inodeNum == -1 {
        return 1;
      }
      RemoveAt(file, inodeNum, FindFirst(rdc.entries, file));
      r := 0;
    }

    /** sfs_remove past its checks: entry k of the directory names inode
        inodeNum, which no descriptor has open. */
    method RemoveAt(file: string, inodeNum: int, ghost k: nat)
      requires Valid() && k < |rdc.entries| && rdc.entries[k].inodeNum == inodeNum
      requires Listed(rdc.entries, file) && RemoveFirst(rdc.entries, file) == rdc.entries[..k] + rdc.entries[k + 1..]
      requires forall f :: 0 <= f < MAX_OPEN_FILES && fds[f].valid ==> fds[f].inodeNum != inodeNum
      modifies this`owner, disk, inodes, rdc
      ensures Valid()
      ensures 1 <= inodeNum < NUM_INODES && old(inodes[inodeNum].valid)
      ensures rdc.entries == old(rdc.entries[..k] + rdc.entries[k + 1..]) && rdc.cursor == 0
      ensures inodes[..] == RemovedInodes(old(inodes[..]), inodeNum)
      ensures disk[..] == RemovedDisk(old(disk[..]), old(inodes[..]), inodeNum, rdc.entries)
      ensures owner == Untagged(old(owner), inodeNum)
      ensures Durable()
    {
      ghost var d0, it0, dir, o0 := disk[..], inodes[..], rdc.entries, owner;
      RemoveOutcome(d0, it0, fds[..], dir, o0, k);
      DropFile(file, inodeNum, dir[..k] + dir[k + 1..]);
      owner := Untagged(o0, inodeNum);
    }

    /** The writes of sfs_remove once the file is known to be listed and
        closed: free its blocks, invalidate its inode, drop its entry, write
        the directory back, shrink the root directory and flush the inode
        table. */
    method DropFile(file: string, inodeNum: int, ghost dir': seq<DirEntry>)
      requires disk.Length == NUM_BLOCKS && inodes.Length == NUM_INODES
      requires 1 <= inodeNum < NUM_INODES && inodes[inodeNum].size >= 0
      requires Listed(rdc.entries, file) && RemoveFirst(rdc.entries, file) == dir'
      requires RemoveWritable(disk[..], inodes[..], inodeNum, dir')
      modifies disk, inodes, rdc
      ensures rdc.entries == dir' && rdc.cursor == 0
      ensures inodes[..] == RemovedInodes(old(inodes[..]), inodeNum)
      ensures disk[..] == RemovedDisk(old(disk[..]), old(inodes[..]), inodeNum, dir')
    {
      ghost var d0, it0 := disk[..], inodes[..];
      var inode := inodes[inodeNum];
      FreeBlocksOf(inode);
      assert disk[..] == RemovedBlocks(d0, it0, inodeNum);
      inodes[inodeNum] := inode.(valid := false);
      assert inodes[..] == it0[inodeNum := it0[inodeNum].(valid := false)];
      assert inodes[ROOT_DIR_INODE_NUM] == it0[ROOT_DIR_INODE_NUM];
      RewriteDirectory(file, dir');
    }

    /** The directory half of sfs_remove: unlink the entry, write the
        listing back through the root's block list, shrink the root by one
        entry and write the inode table. */
    method RewriteDirectory(file: string, ghost dir': seq<DirEntry>)
      requires disk.Length == NUM_BLOCKS && inodes.Length == NUM_INODES
      requires Listed(rdc.entries, file) && RemoveFirst(rdc.entries, file) == dir'
      requires NoIndirectHit(disk[..], inodes[ROOT_DIR_INODE_NUM], |dir'|)
      requires -1 !in RootAddrs(disk[..], inodes[ROOT_DIR_INODE_NUM], BlocksChecked(|dir'|))
      modifies disk, inodes, rdc
      ensures rdc.entries == dir' && rdc.cursor == 0
      ensures var root := old(inodes[ROOT_DIR_INODE_NUM]);
              inodes[..] == old(inodes[..])[ROOT_DIR_INODE_NUM := root.(size := root.size - DIR_ENTRY_SIZE)]
      ensures var root := old(inodes[ROOT_DIR_INODE_NUM]);
              disk[..] == FlushInodes(WriteChunks(old(disk[..]), RootAddrs(old(disk[..]), root, BlocksWritten(|dir'|)), dir'), inodes[..])
    {
      var _ := rdc.Remove(file);
      var root := inodes[ROOT_DIR_INODE_NUM];
      var written := rdc.ToDisk(disk, root);
      inodes[ROOT_DIR_INODE_NUM] := root.(size := root.size - DIR_ENTRY_SIZE);
      WriteInodeTable(disk, inodes);
    }

    /** The freeing loop of sfs_remove: clear the bit of each of the inode's
        blocks in use (ceil(size / 1024) of them) and, past 12 blocks, of its
        indirect block, then write the bitmap back. */
    method FreeBlocksOf(inode: Inode)
      requires disk.Length == NUM_BLOCKS && inode.size >= 0
      modifies disk
      ensures disk[..] == FreedDisk(old(disk[..]), inode)
    {
      ghost var d0 := disk[..];
      var freemap := BitmapView(ReadBlock(disk[..], FREEMAP_ADDRESS));
      var blocksToFree := inode.size / BLOCK_SIZE;
      if inode.size % BLOCK_SIZE != 0 {
        blocksToFree := blocksToFree + 1;
      }
      assert blocksToFree == BlocksInUse(inode.size);
      for i := 0 to blocksToFree
        invariant freemap == FreeBlocks(BitmapView(d0[FREEMAP_ADDRESS]), inode, d0, i)
      {
        var addrToFree := InodeIndexToAddress(inode, disk[..], i);
        freemap := ClearBit(freemap, addrToFree);
      }
      if blocksToFree > NUM_DIRECT {
        freemap := ClearBit(freemap, inode.indPtr);
      }
      WriteBlock(disk, FREEMAP_ADDRESS, Bitmap(freemap));
    }
  }
}
