/** Whole steps of the API on snapshots of the state: each lemma takes a
    consistent state and the effect of one primitive (flushing the inode
    table, growing a file, storing a byte, rewriting the directory, freeing
    a file's blocks) and shows the result consistent again, with what it
    does to the files' bytes and to the directory. */
module Steps {
  import opened Common
  import opened Util
  import opened DirList
  import opened DirCache
  import opened Consistency

  /** A file's bytes and, for the root, the directory read from it read the
      same on both devices. */
  ghost predicate FileKept(d: seq<Block>, d': seq<Block>, inode: Inode) {
    FileData(d', inode) == FileData(d, inode) && DirFromDisk(d', inode) == DirFromDisk(d, inode)
  }

  /** Owning more blocks than the size needs includes owning the blocks it needs. */
  lemma Settle(d: seq<Block>, it: seq<Inode>, owner: Owner, n: int, kn: nat)
    requires FilesOk(d, it, owner, n, kn)
    ensures FilesOk(d, it, owner, -1, 0)
  {
    forall m | 0 <= m < |it| && it[m].valid
      ensures OwnsUpTo(d, it[m], m, BlocksInUse(it[m].size), owner)
    {
      if m == n {
        assert OwnsUpTo(d, it[m], m, kn, owner);
      }
    }
  }

  lemma SettleAll(d: seq<Block>, it: seq<Inode>, fs: seq<Fd>, dir: seq<DirEntry>, owner: Owner, n: int, kn: nat)
    requires ConsistentAt(d, it, fs, dir, owner, n, kn)
    ensures Consistent(d, it, fs, dir, owner)
  {
    Settle(d, it, owner, n, kn);
  }

  /** A change confined to blocks that are unowned or inode e's keeps every
      other file's blocks, bytes and directory. */
  lemma FilesFrame(d: seq<Block>, d': seq<Block>, it: seq<Inode>, owner: Owner, n: int, kn: nat, e: int)
    requires FilesOk(d, it, owner, n, kn) && Changed(d, d', owner, e)
    ensures forall m :: 0 <= m < |it| && m != e && it[m].valid ==>
              && FileKept(d, d', it[m])
              && OwnsUpTo(d', it[m], m, if m == n then kn else BlocksInUse(it[m].size), owner)
    ensures e < 0 ==> FilesOk(d', it, owner, n, kn)
  {
    forall m | 0 <= m < |it| && m != e && it[m].valid
      ensures FileKept(d, d', it[m])
      ensures OwnsUpTo(d', it[m], m, if m == n then kn else BlocksInUse(it[m].size), owner)
    {
      ChangedSpares(d, d', owner, e, m);
      OwnedFrame(d, d', it[m], m, if m == n then kn else BlocksInUse(it[m].size), owner);
    }
  }

  /** write_blocks(1, 64, inode_table_cache) keeps the state consistent and
      every file's bytes. */
  lemma FlushKeeps(d: seq<Block>, it: seq<Inode>, fs: seq<Fd>, dir: seq<DirEntry>, owner: Owner, n: int, kn: nat)
    requires ConsistentAt(d, it, fs, dir, owner, n, kn)
    ensures ConsistentAt(FlushInodes(d, it), it, fs, dir, owner, n, kn)
    ensures forall m :: 0 <= m < |it| && it[m].valid ==> FileKept(d, FlushInodes(d, it), it[m])
  {
    FlushSpares(d, it, owner, -1);
    FilesFrame(d, FlushInodes(d, it), it, owner, n, kn, -1);
  }

  /** Writing the table twice leaves what writing it once leaves. */
  lemma FlushTwice(d: seq<Block>, it: seq<Inode>)
    requires |it| == NUM_INODES
    ensures FlushInodes(FlushInodes(d, it), it) == FlushInodes(d, it)
  {
  }

  /** A device that mksfs(0) accepts as a consistent file system: the inode
      table and the directory it holds are read back from the device itself. */
  ghost predicate Mountable(d: seq<Block>, owner: Owner) {
    && |d| == NUM_BLOCKS
    && var it := LoadInodes(d);
       Consistent(d, it, seq(MAX_OPEN_FILES, _ => Fd(false, 0, 0, 0)), DirFromDisk(d, it[ROOT_DIR_INODE_NUM]), owner)
  }

  lemma ClosedFdsOk(it: seq<Inode>, fs: seq<Fd>)
    requires |it| == NUM_INODES
    requires forall f :: 0 <= f < |fs| ==> !fs[f].valid
    ensures FdsOk(it, fs)
  {
  }

  /** A consistent state whose inode table is on the device survives a
      remount: the device is mountable, and mounting reads back the same
      inode table and directory. */
  lemma FlushedMountable(d: seq<Block>, it: seq<Inode>, fs: seq<Fd>, dir: seq<DirEntry>, owner: Owner)
    requires Consistent(d, it, fs, dir, owner) && d == FlushInodes(d, it)
    ensures LoadInodes(d) == it && DirFromDisk(d, it[ROOT_DIR_INODE_NUM]) == dir
    ensures Mountable(d, owner)
  {
    FlushRoundTrip(d, it);
    ClosedFdsOk(it, seq(MAX_OPEN_FILES, _ => Fd(false, 0, 0, 0)));
  }

  /* ---------------------------------------------------------------- */
  /* Growing a file                                                    */
  /* ---------------------------------------------------------------- */

  /** An inode that stays valid and does not shrink keeps the directory and
      the descriptors sound. */
  lemma MetaKept(it: seq<Inode>, fs: seq<Fd>, dir: seq<DirEntry>, n: int, ino1: Inode)
    requires |it| == NUM_INODES && 0 <= n < NUM_INODES
    requires DirOk(it, dir) && FdsOk(it, fs)
    requires ino1.valid == it[n].valid && ino1.size >= it[n].size
    ensures DirOk(it[n := ino1], dir) && FdsOk(it[n := ino1], fs)
  {
  }

  /** Writing a block the grow does not touch commutes with the grow. */
  lemma GrowCommutes(d0: seq<Block>, ino0: Inode, d1: seq<Block>, ino1: Inode, n: int, owner: Owner, a: int, blk: Block)
    requires |d0| == NUM_BLOCKS && Grown(d0, ino0, d1, ino1)
    requires a != FREEMAP_ADDRESS && a != GrowTarget(d0, ino0)
    ensures Grown(Written(d0, a, blk), ino0, Written(d1, a, blk), ino1)
    ensures GrowTarget(Written(d0, a, blk), ino0) == GrowTarget(d0, ino0)
    ensures GrownOwner(Written(d0, a, blk), ino0, n, owner) == GrownOwner(d0, ino0, n, owner)
  {
    assert Written(d0, a, blk)[FREEMAP_ADDRESS] == d0[FREEMAP_ADDRESS];
    var cur := BlocksInUse(ino0.size);
    if cur < NUM_DIRECT {
      GrowCommutesDirect(d0, ino0, d1, ino1, a, blk);
    } else if cur == NUM_DIRECT {
      GrowCommutesTwelve(d0, ino0, d1, ino1, a, blk);
    } else {
      GrowCommutesPast(d0, ino0, d1, ino1, a, blk);
    }
  }

  /** GrowCommutes below 12 blocks: the grow writes only the bitmap. */
  lemma GrowCommutesDirect(d0: seq<Block>, ino0: Inode, d1: seq<Block>, ino1: Inode, a: int, blk: Block)
    requires |d0| == NUM_BLOCKS && Grown(d0, ino0, d1, ino1) && BlocksInUse(ino0.size) < NUM_DIRECT
    requires a != FREEMAP_ADDRESS
    ensures Grown(Written(d0, a, blk), ino0, Written(d1, a, blk), ino1)
  {
    var e0 := Written(d0, a, blk);
    assert e0[FREEMAP_ADDRESS] == d0[FREEMAP_ADDRESS];
    var bits1 := BitmapView(d0[FREEMAP_ADDRESS])[FirstClear(BitmapView(d0[FREEMAP_ADDRESS])) := true];
    assert e0[FREEMAP_ADDRESS := Bitmap(bits1)] == Written(d0[FREEMAP_ADDRESS := Bitmap(bits1)], a, blk);
  }

  /** GrowCommutes at 12 blocks: the grow also writes the new indirect block. */
  lemma GrowCommutesTwelve(d0: seq<Block>, ino0: Inode, d1: seq<Block>, ino1: Inode, a: int, blk: Block)
    requires |d0| == NUM_BLOCKS && Grown(d0, ino0, d1, ino1) && BlocksInUse(ino0.size) == NUM_DIRECT
    requires a != FREEMAP_ADDRESS && a != GrowTarget(d0, ino0)
    ensures Grown(Written(d0, a, blk), ino0, Written(d1, a, blk), ino1)
  {
    var e0 := Written(d0, a, blk);
    assert e0[FREEMAP_ADDRESS] == d0[FREEMAP_ADDRESS];
    var bits0 := BitmapView(d0[FREEMAP_ADDRESS]);
    var i := FirstClear(bits0);
    var bits1 := bits0[i := true];
    var i2 := FirstClear(bits1);
    var ind := AddressOfBit(i2);
    var dB := d0[FREEMAP_ADDRESS := Bitmap(bits1)][FREEMAP_ADDRESS := Bitmap(bits1[i2 := true])];
    var eB := e0[FREEMAP_ADDRESS := Bitmap(bits1)][FREEMAP_ADDRESS := Bitmap(bits1[i2 := true])];
    assert eB == Written(dB, a, blk);
    assert a != ind;
    var pb := Pointers(PtrView(ReadBlock(dB, ind))[0 := AddressOfBit(i)]);
    WritesSwap(dB, a, blk, ind, pb);
  }

  /** GrowCommutes past 12 blocks: the grow also writes the existing indirect block. */
  lemma GrowCommutesPast(d0: seq<Block>, ino0: Inode, d1: seq<Block>, ino1: Inode, a: int, blk: Block)
    requires |d0| == NUM_BLOCKS && Grown(d0, ino0, d1, ino1) && BlocksInUse(ino0.size) > NUM_DIRECT
    requires a != FREEMAP_ADDRESS && a != GrowTarget(d0, ino0)
    ensures Grown(Written(d0, a, blk), ino0, Written(d1, a, blk), ino1)
  {
    var e0 := Written(d0, a, blk);
    assert e0[FREEMAP_ADDRESS] == d0[FREEMAP_ADDRESS];
    var bits0 := BitmapView(d0[FREEMAP_ADDRESS]);
    var i := FirstClear(bits0);
    var bits1 := bits0[i := true];
    var dA := d0[FREEMAP_ADDRESS := Bitmap(bits1)];
    assert e0[FREEMAP_ADDRESS := Bitmap(bits1)] == Written(dA, a, blk);
    var ind := ino0.indPtr;
    var pb := Pointers(PtrView(ReadBlock(dA, ind))[BlocksInUse(ino0.size) - NUM_DIRECT := AddressOfBit(i)]);
    WritesSwap(dA, a, blk, ind, pb);
  }

  /** Writes to two different blocks commute, and neither disturbs what the other block reads. */
  lemma WritesSwap(d: seq<Block>, a: int, blk: Block, x: int, pb: Block)
    requires a != x
    ensures ReadBlock(Written(d, a, blk), x) == ReadBlock(d, x)
    ensures Written(Written(d, a, blk), x, pb) == Written(Written(d, x, pb), a, blk)
  {
  }

  lemma GrowKeepsOthers(d0: seq<Block>, it: seq<Inode>, owner: Owner, n: int, d1: seq<Block>, ino1: Inode)
    requires GrowPre(d0, it, owner, n, d1, ino1)
    ensures forall m :: 0 <= m < |it| && m != n && it[m].valid ==> FileKept(d0, d1, it[m])
  {
    forall m | 0 <= m < |it| && m != n && it[m].valid
      ensures FileKept(d0, d1, it[m])
    {
      GrowOthers(d0, it, owner, n, d1, ino1, m);
    }
  }

  /** A successful grow of valid inode n at a block boundary: the state stays
      consistent with n owning one block more, the map only gains entries
      for n, only the bitmap and n's blocks change, and no file's bytes or
      directory change. */
  lemma GrowStep(d0: seq<Block>, it: seq<Inode>, fs: seq<Fd>, dir: seq<DirEntry>, owner: Owner, n: int, d1: seq<Block>, ino1: Inode)
    requires Consistent(d0, it, fs, dir, owner)
    requires 0 <= n < NUM_INODES && it[n].valid && it[n].size % BLOCK_SIZE == 0
    requires Grown(d0, it[n], d1, ino1)
    ensures var o1 := GrownOwner(d0, it[n], n, owner);
            && ConsistentAt(d1, it[n := ino1], fs, dir, o1, n, BlocksInUse(it[n].size) + 1)
            && (forall a :: a in owner ==> a in o1 && o1[a] == owner[a])
            && (forall a :: a in o1 && a !in owner ==> o1[a].ino == n)
    ensures Changed(d0, d1, owner, n)
    ensures ino1.size == it[n].size && ino1.valid
    ensures FileData(d1, ino1) == FileData(d0, it[n]) && DirFromDisk(d1, ino1) == DirFromDisk(d0, it[n])
    ensures forall m :: 0 <= m < |it| && m != n && it[m].valid ==> FileKept(d0, d1, it[m])
  {
    assert GrowPre(d0, it, owner, n, d1, ino1);
    GrowParts(d0, it, owner, n, d1, ino1);
    GrowKeeps(d0, it, owner, n, d1, ino1);
    GrowSelfData(d0, it, owner, n, d1, ino1);
    GrowKeepsOthers(d0, it, owner, n, d1, ino1);
    MetaKept(it, fs, dir, n, ino1);
    var it1 := it[n := ino1];
    if n != ROOT_DIR_INODE_NUM {
      GrowOthers(d0, it, owner, n, d1, ino1, ROOT_DIR_INODE_NUM);
    }
    assert RootOk(d1, it1, dir);
  }

  /* ---------------------------------------------------------------- */
  /* Writing a file's bytes                                            */
  /* ---------------------------------------------------------------- */

  /** Reading a data block of inode n into the buffer, in the view of the
      device the buffer stands for: the block reads as bytes, and nothing
      anyone can observe changes. */
  lemma LoadStep(d: seq<Block>, it: seq<Inode>, fs: seq<Fd>, dir: seq<DirEntry>, owner: Owner, n: int, kn: nat, a: int)
    requires ConsistentAt(d, it, fs, dir, owner, n, kn)
    requires 1 <= n < NUM_INODES && it[n].valid
    requires a in owner && owner[a].DataBlock? && owner[a].ino == n
    ensures var d' := Written(d, a, Bytes(ByteView(ReadBlock(d, a))));
            && ConsistentAt(d', it, fs, dir, owner, n, kn)
            && Changed(d, d', owner, n)
            && FileData(d', it[n]) == FileData(d, it[n])
            && forall m :: 0 <= m < |it| && m != n && it[m].valid ==> FileKept(d, d', it[m])
  {
    var blk := Bytes(ByteView(ReadBlock(d, a)));
    var d' := Written(d, a, blk);
    FilesFrame(d, d', it, owner, n, kn, n);
    assert OwnsUpTo(d, it[n], n, kn, owner);
    DataRewrite(d, it[n], n, kn, owner, a, blk);
    forall j | 0 <= j < it[n].size
      ensures ByteAt(d', it[n], j) == ByteAt(d, it[n], j)
    {
      BlocksInUseCovers(it[n].size, j);
    }
    assert FileData(d', it[n]) == FileData(d, it[n]);
    assert FilesOk(d', it, owner, n, kn);
  }

  /** The pending block buffer written over the device it stands for, then
      one byte stored into it: the same as writing the updated buffer. */
  lemma StoreMerge(d: seq<Block>, a: int, buf: ByteTable, p: nat, x: byte)
    requires 0 <= a < |d|
    ensures var dv := Written(d, a, Bytes(buf));
            Written(dv, a, StoreBlock(dv, a, p, x)) == Written(d, a, Bytes(buf[p % BLOCK_SIZE := x]))
  {
  }

  /** A block that is some file's data block is neither the bitmap nor a
      block a grow of valid inode n writes besides the bitmap. */
  lemma TargetNotData(d: seq<Block>, ino: Inode, n: int, owner: Owner, a: int)
    requires |d| == NUM_BLOCKS && OwnerOk(owner, BitmapView(d[FREEMAP_ADDRESS]))
    requires OwnsUpTo(d, ino, n, BlocksInUse(ino.size), owner)
    requires a in owner && owner[a].DataBlock?
    ensures a != FREEMAP_ADDRESS && a != GrowTarget(d, ino)
  {
    var cur := BlocksInUse(ino.size);
    var bits0 := BitmapView(d[FREEMAP_ADDRESS]);
    var i := FirstClear(bits0);
    if cur == NUM_DIRECT && i >= 0 {
      var i2 := FirstClear(bits0[i := true]);
      if i2 >= 0 {
        assert !bits0[i := true][i2];
        assert AddressOfBit(i2) != a;
      }
    }
  }

  /** One byte x stored at the write pointer p of descriptor f on inode n:
      the state stays consistent with n owning the blocks its size needs, the
      file's bytes become Put(bytes, p, x), its size grows when p is its end,
      and only n's block holding byte p changes. */
  lemma StoreStep(d: seq<Block>, it: seq<Inode>, fs: seq<Fd>, dir: seq<DirEntry>, owner: Owner, n: int, kn: nat, f: int, x: byte)
    requires ConsistentAt(d, it, fs, dir, owner, n, kn)
    requires 1 <= n < NUM_INODES && it[n].valid
    requires 0 <= f < MAX_OPEN_FILES && fs[f].valid && fs[f].inodeNum == n
    requires fs[f].wptr / BLOCK_SIZE < kn
    ensures var p := fs[f].wptr;
            var a := InodeIndexToAddress(it[n], d, p / BLOCK_SIZE);
            var d' := Written(d, a, StoreBlock(d, a, p, x));
            && a in owner && owner[a] == DataBlock(n, p / BLOCK_SIZE)
            && Consistent(d', it[n := Stored(it[n], p)], fs[f := fs[f].(wptr := p + 1)], dir, owner)
            && FileData(d', Stored(it[n], p)) == Put(FileData(d, it[n]), p, x)
            && Changed(d, d', owner, n)
            && forall m :: 0 <= m < |it| && m != n && it[m].valid ==> FileKept(d, d', it[m])
  {
    var p := fs[f].wptr;
    var ino := it[n];
    var a := InodeIndexToAddress(ino, d, p / BLOCK_SIZE);
    var d' := Written(d, a, StoreBlock(d, a, p, x));
    var ino' := Stored(ino, p);
    var it' := it[n := ino'];
    var fs' := fs[f := fs[f].(wptr := p + 1)];
    StoreFiles(d, it, owner, n, kn, p, x);
    MetaKept(it, fs, dir, n, ino');
    StoreFds(it', fs, f, p);
  }

  lemma StoreFiles(d: seq<Block>, it: seq<Inode>, owner: Owner, n: int, kn: nat, p: nat, x: byte)
    requires |d| == NUM_BLOCKS && |it| == NUM_INODES && OwnerOk(owner, BitmapView(d[FREEMAP_ADDRESS]))
    requires FilesOk(d, it, owner, n, kn)
    requires 1 <= n < NUM_INODES && it[n].valid
    requires p <= it[n].size && p / BLOCK_SIZE < kn
    ensures var a := InodeIndexToAddress(it[n], d, p / BLOCK_SIZE);
            var d' := Written(d, a, StoreBlock(d, a, p, x));
            && a in owner && owner[a] == DataBlock(n, p / BLOCK_SIZE)
            && FilesOk(d', it[n := Stored(it[n], p)], owner, -1, 0)
            && FileData(d', Stored(it[n], p)) == Put(FileData(d, it[n]), p, x)
            && Changed(d, d', owner, n)
            && forall m :: 0 <= m < |it| && m != n && it[m].valid ==> FileKept(d, d', it[m])
  {
    var ino := it[n];
    var a := InodeIndexToAddress(ino, d, p / BLOCK_SIZE);
    var d' := Written(d, a, StoreBlock(d, a, p, x));
    var it' := it[n := Stored(ino, p)];
    assert OwnsUpTo(d, ino, n, kn, owner);
    WriteByteStep(d, ino, n, kn, owner, p, x);
    FilesFrame(d, d', it, owner, n, kn, n);
    assert FilesOk(d', it', owner, n, kn);
    Settle(d', it', owner, n, kn);
  }

  lemma StoreFds(it: seq<Inode>, fs: seq<Fd>, f: int, p: int)
    requires |it| == NUM_INODES && FdsOk(it, fs)
    requires 0 <= f < |fs| && fs[f].valid && 0 <= fs[f].inodeNum < NUM_INODES
    requires p + 1 <= it[fs[f].inodeNum].size && p >= 0
    ensures FdsOk(it, fs[f := fs[f].(wptr := p + 1)])
  {
  }

  /* ---------------------------------------------------------------- */
  /* Rewriting the directory                                           */
  /* ---------------------------------------------------------------- */

  /** Number of blocks the root owns in a state where inode n owns kn. */
  function RootOwned(it: seq<Inode>, n: int, kn: nat): nat
    requires |it| == NUM_INODES
  {
    if n == ROOT_DIR_INODE_NUM then kn else BlocksInUse(it[ROOT_DIR_INODE_NUM].size)
  }

  lemma BlocksInUseOfEntries(k: nat)
    ensures BlocksInUse(DIR_ENTRY_SIZE * k) <= BlocksWritten(k)
    ensures k > 0 ==> BlocksInUse(DIR_ENTRY_SIZE * k) == BlocksWritten(k)
  {
  }

  lemma InUseGuard(size: int, b: nat)
    requires b < BlocksInUse(size)
    ensures b <= size / BLOCK_SIZE
  {
  }

  /** Block b of the list is the root's block b, in the data area; so the
      blocks are distinct. */
  ghost predicate RootBlocks(addrs: seq<int>, owner: Owner) {
    && (forall b :: 0 <= b < |addrs| ==> addrs[b] in owner && owner[addrs[b]] == DataBlock(ROOT_DIR_INODE_NUM, b))
    && (forall b :: 0 <= b < |addrs| ==> FIRST_DATA_ADDRESS <= addrs[b] < FIRST_DATA_ADDRESS + SCANNED_BITS)
    && (forall b, c :: 0 <= b < c < |addrs| ==> addrs[b] != addrs[c])
  }

  /** The blocks rdc_to_disk fills for `count` entries, when they fit in the
      k0 blocks the root owns, are the root's own, distinct, on the device,
      never -1 and never its indirect block. */
  lemma DirWriteAddrs(d: seq<Block>, root: Inode, k0: nat, owner: Owner, count: nat)
    requires |d| == NUM_BLOCKS && OwnerOk(owner, BitmapView(d[FREEMAP_ADDRESS]))
    requires OwnsUpTo(d, root, ROOT_DIR_INODE_NUM, k0, owner) && BlocksWritten(count) <= k0
    ensures var addrs := RootAddrs(d, root, BlocksWritten(count));
            && NoIndirectHit(d, root, count)
            && RootBlocks(addrs, owner)
            && -1 !in RootAddrs(d, root, BlocksChecked(count))
            && (BlocksWritten(count) > NUM_DIRECT ==> root.indPtr !in addrs)
  {
    OwnsBound(d, root, ROOT_DIR_INODE_NUM, k0, owner, BitmapView(d[FREEMAP_ADDRESS]));
    var all := RootAddrs(d, root, BlocksWritten(count));
    forall b | 0 <= b < |all|
      ensures all[b] in owner && owner[all[b]] == DataBlock(ROOT_DIR_INODE_NUM, b)
    {
    }
    CheckedPrefix(d, root, count, all);
    var checked := BlocksChecked(count);
    assert RootAddrs(d, root, checked) == all[..checked];
    forall b | 0 <= b < checked
      ensures RootAddrs(d, root, checked)[b] != -1
    {
      assert all[b] in owner;
    }
  }

  /** rdc_to_disk changes only the root's data blocks. */
  lemma DirWriteChanged(d: seq<Block>, addrs: seq<int>, entries: seq<DirEntry>, owner: Owner)
    requires |d| == NUM_BLOCKS && RootBlocks(addrs, owner)
    ensures var d' := WriteChunks(d, addrs, entries);
            && Changed(d, d', owner, ROOT_DIR_INODE_NUM)
            && d'[0] == d[0] && d'[FREEMAP_ADDRESS] == d[FREEMAP_ADDRESS]
  {
    var d' := WriteChunks(d, addrs, entries);
    WriteChunksAt(d, addrs, entries);
    forall x | 0 <= x < |d| && d'[x] != d[x]
      ensures x in owner && owner[x].ino == ROOT_DIR_INODE_NUM
    {
      assert x in addrs;
      var b :| 0 <= b < |addrs| && addrs[b] == x;
    }
    assert 0 !in addrs && FREEMAP_ADDRESS !in addrs;
  }

  /** The root after rdc_to_disk owns the blocks its new size needs. */
  lemma DirWriteRoot(d: seq<Block>, root: Inode, k0: nat, owner: Owner, dir': seq<DirEntry>)
    requires |d| == NUM_BLOCKS && OwnerOk(owner, BitmapView(d[FREEMAP_ADDRESS]))
    requires OwnsUpTo(d, root, ROOT_DIR_INODE_NUM, k0, owner) && BlocksWritten(|dir'|) <= k0
    ensures var root' := root.(size := DIR_ENTRY_SIZE * |dir'|);
            var d' := WriteChunks(d, RootAddrs(d, root, BlocksWritten(|dir'|)), dir');
            && BlocksInUse(root'.size) <= BlocksWritten(|dir'|)
            && OwnsUpTo(d', root', ROOT_DIR_INODE_NUM, BlocksInUse(root'.size), owner)
  {
    var root' := root.(size := DIR_ENTRY_SIZE * |dir'|);
    var addrs := RootAddrs(d, root, BlocksWritten(|dir'|));
    var d' := WriteChunks(d, addrs, dir');
    var k := BlocksInUse(root'.size);
    DirWriteAddrs(d, root, k0, owner, |dir'|);
    OwnsBound(d, root, ROOT_DIR_INODE_NUM, k0, owner, BitmapView(d[FREEMAP_ADDRESS]));
    WriteChunksAt(d, addrs, dir');
    BlocksInUseOfEntries(|dir'|);
    forall b | 0 <= b < k
      ensures InodeIndexToAddress(root', d', b) in owner
      ensures owner[InodeIndexToAddress(root', d', b)] == DataBlock(ROOT_DIR_INODE_NUM, b)
    {
      InUseGuard(root'.size, b);
      if b >= NUM_DIRECT {
        assert ReadBlock(d', root.indPtr) == ReadBlock(d, root.indPtr);
        ResolveReadsIndirectOnly(root', d', d, b);
      }
      ResolveSizeGuardOnly(root', root, d, b);
      assert InodeIndexToAddress(root', d', b) == InodeIndexToAddress(root, d, b);
      assert InodeIndexToAddress(root, d, b) in owner;
    }
    if k > NUM_DIRECT {
      assert root.indPtr in owner && owner[root.indPtr] == IndirectBlock(ROOT_DIR_INODE_NUM);
    }
  }

  /** What rdc_to_disk does to the device for directory `dir'` when it fits in
      the root's blocks: the directory read back with size 32 |dir'| is dir',
      the root still owns its blocks, and no other file changes. */
  lemma DirWriteStep(d: seq<Block>, it: seq<Inode>, owner: Owner, n: int, kn: nat, dir': seq<DirEntry>)
    requires |d| == NUM_BLOCKS && |it| == NUM_INODES && OwnerOk(owner, BitmapView(d[FREEMAP_ADDRESS]))
    requires FilesOk(d, it, owner, n, kn) && it[ROOT_DIR_INODE_NUM].valid
    requires BlocksWritten(|dir'|) <= RootOwned(it, n, kn)
    ensures var root := it[ROOT_DIR_INODE_NUM];
            && NoIndirectHit(d, root, |dir'|)
            && -1 !in RootAddrs(d, root, BlocksChecked(|dir'|))
    ensures var root := it[ROOT_DIR_INODE_NUM];
            var root' := root.(size := DIR_ENTRY_SIZE * |dir'|);
            var d' := WriteChunks(d, RootAddrs(d, root, BlocksWritten(|dir'|)), dir');
            && DirFromDisk(d', root') == dir'
            && Changed(d, d', owner, ROOT_DIR_INODE_NUM) && d'[0] == d[0] && d'[FREEMAP_ADDRESS] == d[FREEMAP_ADDRESS]
            && FilesOk(d', it[ROOT_DIR_INODE_NUM := root'], owner, -1, 0)
            && forall m :: 0 <= m < |it| && m != ROOT_DIR_INODE_NUM && it[m].valid ==> FileKept(d, d', it[m])
  {
    var root := it[ROOT_DIR_INODE_NUM];
    var k0 := RootOwned(it, n, kn);
    var root' := root.(size := DIR_ENTRY_SIZE * |dir'|);
    var addrs := RootAddrs(d, root, BlocksWritten(|dir'|));
    var d' := WriteChunks(d, addrs, dir');
    assert OwnsUpTo(d, root, ROOT_DIR_INODE_NUM, k0, owner);
    DirWriteAddrs(d, root, k0, owner, |dir'|);
    DirRoundTrip(d, root, root', dir');
    DirWriteChanged(d, addrs, dir', owner);
    DirWriteRoot(d, root, k0, owner, dir');
    DirWriteFiles(d, d', it, owner, n, kn, root');
  }

  lemma DirWriteFiles(d: seq<Block>, d': seq<Block>, it: seq<Inode>, owner: Owner, n: int, kn: nat, root': Inode)
    requires |it| == NUM_INODES && FilesOk(d, it, owner, n, kn)
    requires Changed(d, d', owner, ROOT_DIR_INODE_NUM)
    requires root'.valid && root'.size >= 0 && BlocksInUse(root'.size) <= MAX_FILE_BLOCKS
    requires OwnsUpTo(d', root', ROOT_DIR_INODE_NUM, BlocksInUse(root'.size), owner)
    ensures FilesOk(d', it[ROOT_DIR_INODE_NUM := root'], owner, -1, 0)
    ensures forall m :: 0 <= m < |it| && m != ROOT_DIR_INODE_NUM && it[m].valid ==> FileKept(d, d', it[m])
  {
    FilesFrame(d, d', it, owner, n, kn, ROOT_DIR_INODE_NUM);
    var it' := it[ROOT_DIR_INODE_NUM := root'];
    forall m | 0 <= m < |it'| && it'[m].valid
      ensures OwnsUpTo(d', it'[m], m, BlocksInUse(it'[m].size), owner)
    {
      if m != ROOT_DIR_INODE_NUM {
        assert OwnsUpTo(d', it[m], m, if m == n then kn else BlocksInUse(it[m].size), owner);
      }
    }
  }

  /* ---------------------------------------------------------------- */
  /* Removing a file                                                   */
  /* ---------------------------------------------------------------- */

  /** Mark data block a free; an address outside the bitmap changes nothing. */
  function ClearBit(bits: BitTable, a: int): (r: BitTable)
    ensures 0 <= BitOfAddress(a) < FREEMAP_BITS ==> !r[BitOfAddress(a)]
    ensures forall j :: 0 <= j < FREEMAP_BITS && j != BitOfAddress(a) ==> r[j] == bits[j]
  {
    var b := BitOfAddress(a);
    if 0 <= b < FREEMAP_BITS then bits[b := false] else bits
  }

  /** Freeing an address the allocator handed out undoes the claim: when
      fm_get_next_address_and_allocate sets the lowest clear bit i and returns
      address AddressOfBit(i), ClearBit of that address clears bit i, and the
      bitmap is again the one before the claim. */
  lemma FreeUndoesClaim(bits: BitTable)
    requires FirstClear(bits) >= 0
    ensures var i := FirstClear(bits);
            && BitOfAddress(AddressOfBit(i)) == i
            && ClearBit(bits[i := true], AddressOfBit(i)) == bits
  {
    var i := FirstClear(bits);
    assert bits[i := true][i := false] == bits;
  }

  /** The bitmap after the first k blocks of the inode are marked free. */
  ghost function FreeBlocks(bits: BitTable, ino: Inode, d: seq<Block>, k: nat): BitTable {
    if k == 0 then bits else ClearBit(FreeBlocks(bits, ino, d, k - 1), InodeIndexToAddress(ino, d, k - 1))
  }

  /** The bitmap after sfs_remove frees a file: its blocks in use and, past
      12 blocks, its indirect block. */
  ghost function FreeFile(bits: BitTable, ino: Inode, d: seq<Block>): BitTable {
    var k := BlocksInUse(ino.size);
    var b1 := FreeBlocks(bits, ino, d, k);
    if k > NUM_DIRECT then ClearBit(b1, ino.indPtr) else b1
  }

  /** Freeing marks each of the first k blocks free ... */
  lemma {:induction false} FreeBlocksClears(bits: BitTable, ino: Inode, d: seq<Block>, k: nat, b: nat)
    requires b < k && 0 <= BitOfAddress(InodeIndexToAddress(ino, d, b)) < FREEMAP_BITS
    ensures !FreeBlocks(bits, ino, d, k)[BitOfAddress(InodeIndexToAddress(ino, d, b))]
  {
    if b < k - 1 {
      FreeBlocksClears(bits, ino, d, k - 1, b);
    }
  }

  /** ... and no other bit changes. */
  lemma {:induction false} FreeBlocksKeeps(bits: BitTable, ino: Inode, d: seq<Block>, k: nat, j: nat)
    requires j < FREEMAP_BITS
    requires forall b :: 0 <= b < k ==> InodeIndexToAddress(ino, d, b) != AddressOfBit(j)
    ensures FreeBlocks(bits, ino, d, k)[j] == bits[j]
  {
    if k > 0 {
      FreeBlocksKeeps(bits, ino, d, k - 1, j);
      assert InodeIndexToAddress(ino, d, k - 1) != AddressOfBit(j);
    }
  }

  /** The map without the blocks of inode n. */
  ghost function Untagged(owner: Owner, n: int): (o: Owner)
    ensures forall a :: a in o <==> a in owner && owner[a].ino != n
    ensures forall a :: a in o ==> o[a] == owner[a]
  {
    map a | a in owner && owner[a].ino != n :: owner[a]
  }

  /** The bits sfs_remove clears are those of the removed file's blocks: every
      block the map keeps for the other files stays marked in use. */
  lemma FreeOwnerOk(d: seq<Block>, ino: Inode, n: int, owner: Owner)
    requires |d| == NUM_BLOCKS && OwnerOk(owner, BitmapView(d[FREEMAP_ADDRESS]))
    requires OwnsUpTo(d, ino, n, BlocksInUse(ino.size), owner)
    ensures OwnerOk(Untagged(owner, n), FreeFile(BitmapView(d[FREEMAP_ADDRESS]), ino, d))
  {
    var bits := BitmapView(d[FREEMAP_ADDRESS]);
    var k := BlocksInUse(ino.size);
    var o := Untagged(owner, n);
    forall a | a in o
      ensures FIRST_DATA_ADDRESS <= a < FIRST_DATA_ADDRESS + SCANNED_BITS && FreeFile(bits, ino, d)[a - FIRST_DATA_ADDRESS]
    {
      var j := a - FIRST_DATA_ADDRESS;
      forall b | 0 <= b < k
        ensures InodeIndexToAddress(ino, d, b) != AddressOfBit(j)
      {
        assert owner[InodeIndexToAddress(ino, d, b)].ino == n;
      }
      FreeBlocksKeeps(bits, ino, d, k, j);
      if k > NUM_DIRECT {
        assert owner[ino.indPtr].ino == n;
      }
    }
  }

  /** sfs_remove frees every block of the file, its indirect block included. */
  lemma FreeFileClears(d: seq<Block>, ino: Inode, n: int, owner: Owner)
    requires |d| == NUM_BLOCKS && OwnerOk(owner, BitmapView(d[FREEMAP_ADDRESS]))
    requires OwnsUpTo(d, ino, n, BlocksInUse(ino.size), owner)
    ensures var freed := FreeFile(BitmapView(d[FREEMAP_ADDRESS]), ino, d);
            && (forall b :: 0 <= b < BlocksInUse(ino.size) ==> !freed[BitOfAddress(InodeIndexToAddress(ino, d, b))])
            && (BlocksInUse(ino.size) > NUM_DIRECT ==> !freed[BitOfAddress(ino.indPtr)])
  {
    var bits := BitmapView(d[FREEMAP_ADDRESS]);
    var k := BlocksInUse(ino.size);
    forall b | 0 <= b < k
      ensures !FreeFile(bits, ino, d)[BitOfAddress(InodeIndexToAddress(ino, d, b))]
    {
      var a := InodeIndexToAddress(ino, d, b);
      assert a in owner;
      FreeBlocksClears(bits, ino, d, k, b);
      if k > NUM_DIRECT {
        assert ino.indPtr in owner && owner[ino.indPtr] != owner[a];
      }
    }
    if k > NUM_DIRECT {
      assert ino.indPtr in owner;
    }
  }
  /** The device after the freed bitmap is written back. */
  ghost function FreedDisk(d: seq<Block>, ino: Inode): seq<Block>
    requires |d| == NUM_BLOCKS
  {
    d[FREEMAP_ADDRESS := Bitmap(FreeFile(BitmapView(d[FREEMAP_ADDRESS]), ino, d))]
  }

  /** Freeing inode n's blocks and marking it invalid keeps every other file
      and leaves a consistent map without n. */
  lemma FreeStep(d: seq<Block>, it: seq<Inode>, owner: Owner, n: int)
    requires |d| == NUM_BLOCKS && |it| == NUM_INODES && OwnerOk(owner, BitmapView(d[FREEMAP_ADDRESS]))
    requires FilesOk(d, it, owner, -1, 0)
    requires 0 <= n < NUM_INODES && it[n].valid
    ensures var d1 := FreedDisk(d, it[n]);
            var it1 := it[n := it[n].(valid := false)];
            var o1 := Untagged(owner, n);
            && OwnerOk(o1, BitmapView(d1[FREEMAP_ADDRESS]))
            && FilesOk(d1, it1, o1, -1, 0)
            && d1[0] == d[0]
            && forall m :: 0 <= m < |it| && m != n && it[m].valid ==> FileKept(d, d1, it[m])
  {
    var d1 := FreedDisk(d, it[n]);
    var it1 := it[n := it[n].(valid := false)];
    var o1 := Untagged(owner, n);
    assert OwnsUpTo(d, it[n], n, BlocksInUse(it[n].size), owner);
    FreeOwnerOk(d, it[n], n, owner);
    assert Changed(d, d1, owner, -1);
    FilesFrame(d, d1, it, owner, -1, 0, -1);
    forall m | 0 <= m < |it1| && it1[m].valid
      ensures OwnsUpTo(d1, it1[m], m, BlocksInUse(it1[m].size), o1)
    {
      assert OwnsUpTo(d1, it[m], m, BlocksInUse(it[m].size), owner);
      OwnerFrame(d1, it[m], m, BlocksInUse(it[m].size), owner, o1);
    }
  }

  /** Unlinking entry k (whose inode is no longer valid) keeps the
      directory sound, and no remaining entry names that inode. */
  lemma RemoveDirOk(it: seq<Inode>, it': seq<Inode>, dir: seq<DirEntry>, k: nat, dir': seq<DirEntry>)
    requires |it| == NUM_INODES && |it'| == NUM_INODES && DirOk(it, dir) && k < |dir|
    requires forall m :: 0 <= m < NUM_INODES && m != dir[k].inodeNum ==> it'[m].valid == it[m].valid
    requires dir' == dir[..k] + dir[k + 1..]
    ensures DirOk(it', dir')
    ensures forall j :: 0 <= j < |dir'| ==> dir'[j].inodeNum != dir[k].inodeNum
  {
    var n := dir[k].inodeNum;
    forall j | 0 <= j < |dir'|
      ensures dir'[j].inodeNum != n
      ensures 1 <= dir'[j].inodeNum < NUM_INODES && it'[dir'[j].inodeNum].valid && |dir'[j].filename| <= MAX_FILENAME
    {
      var i := if j < k then j else j + 1;
      assert dir'[j] == dir[i];
      assert dir[i].inodeNum != n by {
        if i < k {
          assert dir[i].inodeNum != dir[k].inodeNum;
        } else {
          assert dir[k].inodeNum != dir[i].inodeNum;
        }
      }
    }
    forall a, b | 0 <= a < b < |dir'|
      ensures dir'[a].filename != dir'[b].filename && dir'[a].inodeNum != dir'[b].inodeNum
    {
      var ia := if a < k then a else a + 1;
      var ib := if b < k then b else b + 1;
      assert dir'[a] == dir[ia] && dir'[b] == dir[ib] && ia < ib;
    }
  }

  /** The inode table after sfs_remove of inode n: n invalid, the root
      directory one entry shorter. */
  ghost function RemovedInodes(it: seq<Inode>, n: int): seq<Inode>
    requires |it| == NUM_INODES && 1 <= n < NUM_INODES
  {
    it[n := it[n].(valid := false)][ROOT_DIR_INODE_NUM := it[ROOT_DIR_INODE_NUM].(size := it[ROOT_DIR_INODE_NUM].size - DIR_ENTRY_SIZE)]
  }

  /** The device after sfs_remove of inode n once its blocks are freed and
      the bitmap written back. */
  ghost function RemovedBlocks(d: seq<Block>, it: seq<Inode>, n: int): seq<Block>
    requires |d| == NUM_BLOCKS && |it| == NUM_INODES && 1 <= n < NUM_INODES
  {
    FreedDisk(d, it[n])
  }

  /** The directory dir' can be written back through the root's block list
      on that device without meeting an unresolved block. */
  ghost predicate RemoveWritable(d: seq<Block>, it: seq<Inode>, n: int, dir': seq<DirEntry>)
    requires |d| == NUM_BLOCKS && |it| == NUM_INODES && 1 <= n < NUM_INODES
  {
    && NoIndirectHit(RemovedBlocks(d, it, n), it[ROOT_DIR_INODE_NUM], |dir'|)
    && -1 !in RootAddrs(RemovedBlocks(d, it, n), it[ROOT_DIR_INODE_NUM], BlocksChecked(|dir'|))
  }

  /** That device with dir' written through the root's block list. */
  ghost function RemovedDirDisk(d: seq<Block>, it: seq<Inode>, n: int, dir': seq<DirEntry>): seq<Block>
    requires |d| == NUM_BLOCKS && |it| == NUM_INODES && 1 <= n < NUM_INODES
  {
    var d1 := RemovedBlocks(d, it, n);
    WriteChunks(d1, RootAddrs(d1, it[ROOT_DIR_INODE_NUM], BlocksWritten(|dir'|)), dir')
  }

  /** The device after sfs_remove of inode n leaving the directory dir':
      the freed bitmap written back, dir' written through the root's block
      list, then the inode table flushed. */
  ghost function RemovedDisk(d: seq<Block>, it: seq<Inode>, n: int, dir': seq<DirEntry>): seq<Block>
    requires |d| == NUM_BLOCKS && |it| == NUM_INODES && 1 <= n < NUM_INODES
  {
    FlushInodes(RemovedDirDisk(d, it, n, dir'), RemovedInodes(it, n))
  }

  /** sfs_remove of entry k of the directory, naming inode n, which no
      descriptor has open, up to the inode table write: with its blocks freed
      and the bitmap written back, its inode invalid, the directory written
      without the entry and the root one entry shorter, the state is
      consistent without the file, and every other file keeps its bytes. */
  lemma RemoveStep(d: seq<Block>, it: seq<Inode>, fs: seq<Fd>, dir: seq<DirEntry>, owner: Owner, k: nat)
    requires Consistent(d, it, fs, dir, owner) && k < |dir|
    requires forall f :: 0 <= f < |fs| && fs[f].valid ==> fs[f].inodeNum != dir[k].inodeNum
    ensures 1 <= dir[k].inodeNum < NUM_INODES && it[dir[k].inodeNum].valid && it[dir[k].inodeNum].size >= 0
    ensures RemoveWritable(d, it, dir[k].inodeNum, dir[..k] + dir[k + 1..])
    ensures var n := dir[k].inodeNum;
            var dir' := dir[..k] + dir[k + 1..];
            var d2 := RemovedDirDisk(d, it, n, dir');
            && Consistent(d2, RemovedInodes(it, n), fs, dir', Untagged(owner, n))
            && d2[FREEMAP_ADDRESS] == RemovedBlocks(d, it, n)[FREEMAP_ADDRESS]
            && forall m :: 0 <= m < |it| && m != n && m != ROOT_DIR_INODE_NUM && it[m].valid ==> FileKept(d, d2, it[m])
  {
    var n := dir[k].inodeNum;
    assert 1 <= n < NUM_INODES;
    var it1 := it[n := it[n].(valid := false)];
    var dir' := dir[..k] + dir[k + 1..];
    var it2 := RemovedInodes(it, n);
    assert it1[ROOT_DIR_INODE_NUM] == it[ROOT_DIR_INODE_NUM];
    RemoveMeta(it, fs, dir, k, it1, dir', it2);
    RemoveBlocksStep(d, it, owner, n, dir');
    Assemble(RemovedDirDisk(d, it, n, dir'), it2, fs, dir', Untagged(owner, n));
  }

  /** The disk half of RemoveStep: freeing inode n's blocks and writing dir'
      through the root keeps the bitmap and the files in step, and reads
      back as dir'. */
  lemma RemoveBlocksStep(d: seq<Block>, it: seq<Inode>, owner: Owner, n: int, dir': seq<DirEntry>)
    requires |d| == NUM_BLOCKS && |it| == NUM_INODES && OwnerOk(owner, BitmapView(d[FREEMAP_ADDRESS]))
    requires FilesOk(d, it, owner, -1, 0) && d[0] == Super(EXPECTED_SUPER)
    requires 1 <= n < NUM_INODES && it[n].valid && it[ROOT_DIR_INODE_NUM].valid
    requires it[ROOT_DIR_INODE_NUM].size == DIR_ENTRY_SIZE * (|dir'| + 1)
    requires BlocksWritten(|dir'|) <= BlocksInUse(it[ROOT_DIR_INODE_NUM].size)
    ensures RemoveWritable(d, it, n, dir')
    ensures var d2 := RemovedDirDisk(d, it, n, dir');
            var it2 := RemovedInodes(it, n);
            var o1 := Untagged(owner, n);
            && |d2| == NUM_BLOCKS && d2[0] == Super(EXPECTED_SUPER) && OwnerOk(o1, BitmapView(d2[FREEMAP_ADDRESS]))
            && FilesOk(d2, it2, o1, -1, 0) && DirFromDisk(d2, it2[ROOT_DIR_INODE_NUM]) == dir'
            && d2[FREEMAP_ADDRESS] == RemovedBlocks(d, it, n)[FREEMAP_ADDRESS]
            && forall m :: 0 <= m < |it| && m != n && m != ROOT_DIR_INODE_NUM && it[m].valid ==> FileKept(d, d2, it[m])
  {
    var it1 := it[n := it[n].(valid := false)];
    assert it1[ROOT_DIR_INODE_NUM] == it[ROOT_DIR_INODE_NUM];
    var it2 := RemovedInodes(it, n);
    assert it2 == it1[ROOT_DIR_INODE_NUM := it1[ROOT_DIR_INODE_NUM].(size := DIR_ENTRY_SIZE * |dir'|)];
    var o1 := Untagged(owner, n);
    var d1 := RemovedBlocks(d, it, n);
    FreeStep(d, it, owner, n);
    var d2 := RemovedDirDisk(d, it, n, dir');
    RemoveWrite(d1, it1, o1, dir', d2, it2);
    KeptThrough(d, d1, d2, it, it1, n);
  }

  /** sfs_remove of entry k, whole: the directory write it does meets no
      unresolved block, and the state it leaves is consistent and durable. */
  lemma RemoveOutcome(d0: seq<Block>, it0: seq<Inode>, fs: seq<Fd>, dir: seq<DirEntry>, o0: Owner, k: nat)
    requires Consistent(d0, it0, fs, dir, o0) && k < |dir|
    requires forall f :: 0 <= f < |fs| && fs[f].valid ==> fs[f].inodeNum != dir[k].inodeNum
    ensures 1 <= dir[k].inodeNum < NUM_INODES && it0[dir[k].inodeNum].valid && it0[dir[k].inodeNum].size >= 0
    ensures RemoveWritable(d0, it0, dir[k].inodeNum, dir[..k] + dir[k + 1..])
    ensures var n := dir[k].inodeNum;
            var d3 := RemovedDisk(d0, it0, n, dir[..k] + dir[k + 1..]);
            && Consistent(d3, RemovedInodes(it0, n), fs, dir[..k] + dir[k + 1..], Untagged(o0, n))
            && d3 == FlushInodes(d3, RemovedInodes(it0, n))
  {
    var n := dir[k].inodeNum;
    var dir' := dir[..k] + dir[k + 1..];
    var d2 := RemovedDirDisk(d0, it0, n, dir');
    var it2 := RemovedInodes(it0, n);
    RemoveStep(d0, it0, fs, dir, o0, k);
    FlushKeeps(d2, it2, fs, dir', Untagged(o0, n), -1, 0);
    FlushTwice(d2, it2);
  }

  /** What sfs_remove of entry k does to the rest of the device: exactly
      the file's blocks (and its indirect block past 12 blocks) are cleared
      in the bitmap, and every other file keeps its bytes. */
  lemma RemoveKeeps(d0: seq<Block>, it0: seq<Inode>, fs: seq<Fd>, dir: seq<DirEntry>, o0: Owner, k: nat)
    requires Consistent(d0, it0, fs, dir, o0) && k < |dir|
    requires forall f :: 0 <= f < |fs| && fs[f].valid ==> fs[f].inodeNum != dir[k].inodeNum
    ensures 1 <= dir[k].inodeNum < NUM_INODES
    ensures var n := dir[k].inodeNum;
            var d3 := RemovedDisk(d0, it0, n, dir[..k] + dir[k + 1..]);
            var it2 := RemovedInodes(it0, n);
            && BitmapView(d3[FREEMAP_ADDRESS]) == FreeFile(BitmapView(d0[FREEMAP_ADDRESS]), it0[n], d0)
            && forall m :: 0 <= m < |it0| && m != n && m != ROOT_DIR_INODE_NUM && it0[m].valid ==>
                 FileData(d3, it2[m]) == FileData(d0, it0[m])
  {
    var n := dir[k].inodeNum;
    var dir' := dir[..k] + dir[k + 1..];
    var d2 := RemovedDirDisk(d0, it0, n, dir');
    var it2 := RemovedInodes(it0, n);
    RemoveStep(d0, it0, fs, dir, o0, k);
    FlushKeeps(d2, it2, fs, dir', Untagged(o0, n), -1, 0);
    KeptAfterFlush(d0, d2, FlushInodes(d2, it2), it0, it2, n);
  }

  /** The directory and descriptor side of a removal: the entry's inode is a
      valid non-root file, and both invariants survive dropping the entry and
      invalidating the inode. */
  lemma RemoveMeta(it: seq<Inode>, fs: seq<Fd>, dir: seq<DirEntry>, k: nat, it1: seq<Inode>, dir': seq<DirEntry>, it2: seq<Inode>)
    requires |it| == NUM_INODES && |fs| == MAX_OPEN_FILES && k < |dir|
    requires RootMeta(it, dir) && DirOk(it, dir) && FdsOk(it, fs)
    requires forall f :: 0 <= f < |fs| && fs[f].valid ==> fs[f].inodeNum != dir[k].inodeNum
    requires it1 == it[dir[k].inodeNum := it[dir[k].inodeNum].(valid := false)]
    requires dir' == dir[..k] + dir[k + 1..]
    requires it2 == it1[ROOT_DIR_INODE_NUM := it1[ROOT_DIR_INODE_NUM].(size := it1[ROOT_DIR_INODE_NUM].size - DIR_ENTRY_SIZE)]
    ensures 1 <= dir[k].inodeNum < NUM_INODES && it[dir[k].inodeNum].valid
    ensures it1[ROOT_DIR_INODE_NUM] == it[ROOT_DIR_INODE_NUM]
    ensures it2[ROOT_DIR_INODE_NUM] == it1[ROOT_DIR_INODE_NUM].(size := DIR_ENTRY_SIZE * |dir'|)
    ensures it2[ROOT_DIR_INODE_NUM].valid
    ensures BlocksWritten(|dir'|) <= BlocksInUse(it1[ROOT_DIR_INODE_NUM].size)
    ensures DirOk(it2, dir') && FdsOk(it2, fs)
  {
    var n := dir[k].inodeNum;
    BlocksInUseOfEntries(|dir|);
    assert BlocksWritten(|dir'|) <= BlocksWritten(|dir|);
    RemoveDirOk(it, it2, dir, k, dir');
    RemoveFds(it, it2, fs, n);
  }

  /** The root's metadata part of RootOk. */
  ghost predicate RootMeta(it: seq<Inode>, dir: seq<DirEntry>)
    requires |it| == NUM_INODES
  {
    it[ROOT_DIR_INODE_NUM].valid && it[ROOT_DIR_INODE_NUM].size == DIR_ENTRY_SIZE * |dir|
  }

  /** The device side of a removal: rewriting the shortened listing over the
      freed device keeps the files and yields the new listing. */
  lemma RemoveWrite(d1: seq<Block>, it1: seq<Inode>, o1: Owner, dir': seq<DirEntry>, d2: seq<Block>, it2: seq<Inode>)
    requires |d1| == NUM_BLOCKS && |it1| == NUM_INODES && OwnerOk(o1, BitmapView(d1[FREEMAP_ADDRESS]))
    requires FilesOk(d1, it1, o1, -1, 0) && d1[0] == Super(EXPECTED_SUPER) && it1[ROOT_DIR_INODE_NUM].valid
    requires BlocksWritten(|dir'|) <= BlocksInUse(it1[ROOT_DIR_INODE_NUM].size)
    requires d2 == WriteChunks(d1, RootAddrs(d1, it1[ROOT_DIR_INODE_NUM], BlocksWritten(|dir'|)), dir')
    requires it2 == it1[ROOT_DIR_INODE_NUM := it1[ROOT_DIR_INODE_NUM].(size := DIR_ENTRY_SIZE * |dir'|)]
    ensures NoIndirectHit(d1, it1[ROOT_DIR_INODE_NUM], |dir'|)
    ensures -1 !in RootAddrs(d1, it1[ROOT_DIR_INODE_NUM], BlocksChecked(|dir'|))
    ensures |d2| == NUM_BLOCKS && d2[0] == Super(EXPECTED_SUPER) && OwnerOk(o1, BitmapView(d2[FREEMAP_ADDRESS]))
    ensures FilesOk(d2, it2, o1, -1, 0) && DirFromDisk(d2, it2[ROOT_DIR_INODE_NUM]) == dir'
    ensures d2[FREEMAP_ADDRESS] == d1[FREEMAP_ADDRESS]
    ensures forall m :: 0 <= m < |it1| && m != ROOT_DIR_INODE_NUM && it1[m].valid ==> FileKept(d1, d2, it1[m])
  {
    DirWriteStep(d1, it1, o1, -1, 0, dir');
  }

  /** Two steps that each keep the files other than n (and the root) keep them. */
  lemma KeptThrough(d: seq<Block>, d1: seq<Block>, d2: seq<Block>, it: seq<Inode>, it1: seq<Inode>, n: int)
    requires |it1| == |it| && forall m :: 0 <= m < |it| && m != n ==> it1[m] == it[m]
    requires forall m :: 0 <= m < |it| && m != n && it[m].valid ==> FileKept(d, d1, it[m])
    requires forall m :: 0 <= m < |it1| && m != ROOT_DIR_INODE_NUM && it1[m].valid ==> FileKept(d1, d2, it1[m])
    ensures forall m :: 0 <= m < |it| && m != n && m != ROOT_DIR_INODE_NUM && it[m].valid ==> FileKept(d, d2, it[m])
  {
    forall m | 0 <= m < |it| && m != n && m != ROOT_DIR_INODE_NUM && it[m].valid
      ensures FileKept(d, d2, it[m])
    {
      assert FileKept(d, d1, it[m]) && FileKept(d1, d2, it1[m]);
    }
  }

  lemma RemoveFds(it: seq<Inode>, it': seq<Inode>, fs: seq<Fd>, n: int)
    requires |it| == NUM_INODES && |it'| == NUM_INODES && FdsOk(it, fs)
    requires forall f :: 0 <= f < |fs| && fs[f].valid ==> fs[f].inodeNum != n && fs[f].inodeNum != ROOT_DIR_INODE_NUM
    requires forall m :: 0 <= m < NUM_INODES && m != n && m != ROOT_DIR_INODE_NUM ==> it'[m] == it[m]
    ensures FdsOk(it', fs)
  {
  }

  /** Files kept through a step that spares inode n and the root, then
      through a flush of the inode table, are kept. */
  lemma KeptAfterFlush(d0: seq<Block>, d2: seq<Block>, d3: seq<Block>, it0: seq<Inode>, it2: seq<Inode>, n: int)
    requires |it2| == |it0| && forall m :: 0 <= m < |it0| && m != n && m != ROOT_DIR_INODE_NUM ==> it2[m] == it0[m]
    requires forall m :: 0 <= m < |it0| && m != n && m != ROOT_DIR_INODE_NUM && it0[m].valid ==> FileKept(d0, d2, it0[m])
    requires forall m :: 0 <= m < |it2| && it2[m].valid ==> FileKept(d2, d3, it2[m])
    ensures forall m :: 0 <= m < |it0| && m != n && m != ROOT_DIR_INODE_NUM && it0[m].valid ==>
              FileData(d3, it2[m]) == FileData(d0, it0[m])
  {
    forall m | 0 <= m < |it0| && m != n && m != ROOT_DIR_INODE_NUM && it0[m].valid
      ensures FileData(d3, it2[m]) == FileData(d0, it0[m])
    {
      assert FileKept(d0, d2, it0[m]) && FileKept(d2, d3, it2[m]);
    }
  }

  /** The invariant from its parts. */
  lemma Assemble(d: seq<Block>, it: seq<Inode>, fs: seq<Fd>, dir: seq<DirEntry>, owner: Owner)
    requires |d| == NUM_BLOCKS && |it| == NUM_INODES && |fs| == MAX_OPEN_FILES
    requires d[0] == Super(EXPECTED_SUPER)
    requires OwnerOk(owner, BitmapView(d[FREEMAP_ADDRESS]))
    requires FilesOk(d, it, owner, -1, 0)
    requires it[ROOT_DIR_INODE_NUM].valid && it[ROOT_DIR_INODE_NUM].size == DIR_ENTRY_SIZE * |dir|
    requires DirFromDisk(d, it[ROOT_DIR_INODE_NUM]) == dir
    requires DirOk(it, dir) && FdsOk(it, fs)
    ensures Consistent(d, it, fs, dir, owner)
  {
  }

  /* ---------------------------------------------------------------- */
  /* Creating and opening a file                                       */
  /* ---------------------------------------------------------------- */

  /** Without a grow, every inode owns exactly the blocks its size needs. */
  lemma Unsettle(d: seq<Block>, it: seq<Inode>, fs: seq<Fd>, dir: seq<DirEntry>, owner: Owner, n: int)
    requires Consistent(d, it, fs, dir, owner) && 0 <= n < NUM_INODES
    ensures ConsistentAt(d, it, fs, dir, owner, n, BlocksInUse(it[n].size))
  {
    assert FilesOk(d, it, owner, n, BlocksInUse(it[n].size));
  }

  /** Room for one more entry: at a block boundary the grown root owns the
      block the new entry lands in, and otherwise its last block has a free slot. */
  lemma EntriesFit(k: nat, kn: nat)
    requires kn == if (DIR_ENTRY_SIZE * k) % BLOCK_SIZE == 0 then BlocksInUse(DIR_ENTRY_SIZE * k) + 1
                   else BlocksInUse(DIR_ENTRY_SIZE * k)
    ensures BlocksWritten(k + 1) <= kn
  {
    BlocksInUseOfEntries(k);
  }

  /** Claiming an invalid inode i >= 1 for a new file of size 0 keeps the
      files sound, and the new file is empty. */
  lemma ClaimFiles(d: seq<Block>, it: seq<Inode>, owner: Owner, kn: nat, i: int)
    requires |it| == NUM_INODES && FilesOk(d, it, owner, ROOT_DIR_INODE_NUM, kn)
    requires 1 <= i < NUM_INODES
    ensures var it' := it[i := it[i].(valid := true, size := 0)];
            FilesOk(d, it', owner, ROOT_DIR_INODE_NUM, kn) && FileData(d, it'[i]) == []
  {
    var it' := it[i := it[i].(valid := true, size := 0)];
    assert OwnsUpTo(d, it'[i], i, 0, owner);
  }

  /** The directory and descriptor side of creating a file: appending the
      entry of the claimed inode i (invalid before, a name of at most 28
      characters not yet listed) and counting it in the root's size keeps both
      invariants. */
  lemma CreateMeta(it1: seq<Inode>, fs: seq<Fd>, dir: seq<DirEntry>, i: int, name: string,
                   it2: seq<Inode>, dir': seq<DirEntry>, it3: seq<Inode>)
    requires |it1| == NUM_INODES && RootMeta(it1, dir) && DirOk(it1, dir) && FdsOk(it1, fs)
    requires 1 <= i < NUM_INODES && !it1[i].valid && |name| <= MAX_FILENAME && !Listed(dir, name)
    requires it2 == it1[i := it1[i].(valid := true, size := 0)]
    requires dir' == dir + [DirEntry(name, i)]
    requires it3 == it2[ROOT_DIR_INODE_NUM := it2[ROOT_DIR_INODE_NUM].(size := it2[ROOT_DIR_INODE_NUM].size + DIR_ENTRY_SIZE)]
    ensures it2[ROOT_DIR_INODE_NUM] == it1[ROOT_DIR_INODE_NUM] && it3[i] == it2[i]
    ensures it3 == it2[ROOT_DIR_INODE_NUM := it2[ROOT_DIR_INODE_NUM].(size := DIR_ENTRY_SIZE * |dir'|)]
    ensures DirOk(it3, dir') && FdsOk(it3, fs)
  {
    forall k | 0 <= k < |dir'|
      ensures 1 <= dir'[k].inodeNum < NUM_INODES && it3[dir'[k].inodeNum].valid
      ensures |dir'[k].filename| <= MAX_FILENAME
    {
      if k < |dir| {
        assert dir'[k] == dir[k];
      }
    }
    forall k, l | 0 <= k < l < |dir'|
      ensures dir'[k].filename != dir'[l].filename && dir'[k].inodeNum != dir'[l].inodeNum
    {
      assert dir'[k] == dir[k];
      if l == |dir| {
        assert it1[dir[k].inodeNum].valid;
      } else {
        assert dir'[l] == dir[l];
      }
    }
  }

  /** The device side of creating a file: rewriting the extended listing into
      blocks the root owns keeps the files and yields the new listing. */
  lemma CreateWrite(d1: seq<Block>, it2: seq<Inode>, o1: Owner, kn: nat, dir': seq<DirEntry>, d2: seq<Block>, it3: seq<Inode>)
    requires |d1| == NUM_BLOCKS && |it2| == NUM_INODES && OwnerOk(o1, BitmapView(d1[FREEMAP_ADDRESS]))
    requires FilesOk(d1, it2, o1, ROOT_DIR_INODE_NUM, kn) && d1[0] == Super(EXPECTED_SUPER) && it2[ROOT_DIR_INODE_NUM].valid
    requires BlocksWritten(|dir'|) <= kn
    requires d2 == WriteChunks(d1, RootAddrs(d1, it2[ROOT_DIR_INODE_NUM], BlocksWritten(|dir'|)), dir')
    requires it3 == it2[ROOT_DIR_INODE_NUM := it2[ROOT_DIR_INODE_NUM].(size := DIR_ENTRY_SIZE * |dir'|)]
    ensures NoIndirectHit(d1, it2[ROOT_DIR_INODE_NUM], |dir'|)
    ensures -1 !in RootAddrs(d1, it2[ROOT_DIR_INODE_NUM], BlocksChecked(|dir'|))
    ensures |d2| == NUM_BLOCKS && d2[0] == Super(EXPECTED_SUPER) && OwnerOk(o1, BitmapView(d2[FREEMAP_ADDRESS]))
    ensures FilesOk(d2, it3, o1, -1, 0) && DirFromDisk(d2, it3[ROOT_DIR_INODE_NUM]) == dir'
    ensures forall m :: 0 <= m < |it2| && m != ROOT_DIR_INODE_NUM && it2[m].valid ==> FileKept(d1, d2, it2[m])
    ensures Changed(d1, d2, o1, ROOT_DIR_INODE_NUM) && d2[FREEMAP_ADDRESS] == d1[FREEMAP_ADDRESS]
  {
    DirWriteStep(d1, it2, o1, ROOT_DIR_INODE_NUM, kn, dir');
  }

  /** The create path of sfs_fopen after any grow of the root: claim inode i,
      append its entry, rewrite the directory and count the entry in the
      root's size. The state is consistent again, the new file is empty, and
      no other file's bytes change. */
  lemma CreateStep(d1: seq<Block>, it1: seq<Inode>, fs: seq<Fd>, dir: seq<DirEntry>, o1: Owner, kn: nat,
                   i: int, name: string, it2: seq<Inode>, dir': seq<DirEntry>, d2: seq<Block>, it3: seq<Inode>)
    requires ConsistentAt(d1, it1, fs, dir, o1, ROOT_DIR_INODE_NUM, kn)
    requires kn == if it1[ROOT_DIR_INODE_NUM].size % BLOCK_SIZE == 0 then BlocksInUse(it1[ROOT_DIR_INODE_NUM].size) + 1
                   else BlocksInUse(it1[ROOT_DIR_INODE_NUM].size)
    requires 1 <= i < NUM_INODES && !it1[i].valid && |name| <= MAX_FILENAME && !Listed(dir, name)
    requires it2 == it1[i := it1[i].(valid := true, size := 0)]
    requires dir' == dir + [DirEntry(name, i)]
    requires d2 == WriteChunks(d1, RootAddrs(d1, it2[ROOT_DIR_INODE_NUM], BlocksWritten(|dir'|)), dir')
    requires it3 == it2[ROOT_DIR_INODE_NUM := it2[ROOT_DIR_INODE_NUM].(size := it2[ROOT_DIR_INODE_NUM].size + DIR_ENTRY_SIZE)]
    ensures NoIndirectHit(d1, it2[ROOT_DIR_INODE_NUM], |dir'|)
    ensures -1 !in RootAddrs(d1, it2[ROOT_DIR_INODE_NUM], BlocksChecked(|dir'|))
    ensures Consistent(d2, it3, fs, dir', o1) && Changed(d1, d2, o1, ROOT_DIR_INODE_NUM)
    ensures d2[FREEMAP_ADDRESS] == d1[FREEMAP_ADDRESS]
    ensures FileData(d2, it3[i]) == []
    ensures forall m :: 0 <= m < |it1| && m != i && m != ROOT_DIR_INODE_NUM && it1[m].valid ==> FileKept(d1, d2, it1[m])
  {
    ClaimFiles(d1, it1, o1, kn, i);
    CreateMeta(it1, fs, dir, i, name, it2, dir', it3);
    EntriesFit(|dir|, kn);
    CreateWrite(d1, it2, o1, kn, dir', d2, it3);
    Assemble(d2, it3, fs, dir', o1);
    KeptPast(d1, d2, it1, it2, i);
  }

  /** The inode table after the create path of sfs_fopen claims inode i:
      i valid with size 0, the root one entry longer. */
  ghost function CreatedInodes(it: seq<Inode>, i: int): seq<Inode>
    requires |it| == NUM_INODES && 1 <= i < NUM_INODES
  {
    it[i := it[i].(valid := true, size := 0)]
      [ROOT_DIR_INODE_NUM := it[ROOT_DIR_INODE_NUM].(size := it[ROOT_DIR_INODE_NUM].size + DIR_ENTRY_SIZE)]
  }

  /** The device after rdc_to_disk writes the extended listing dir'. */
  ghost function CreatedDirDisk(d: seq<Block>, it: seq<Inode>, dir': seq<DirEntry>): seq<Block>
    requires |d| == NUM_BLOCKS && |it| == NUM_INODES
  {
    WriteChunks(d, RootAddrs(d, it[ROOT_DIR_INODE_NUM], BlocksWritten(|dir'|)), dir')
  }

  /** The device after the create path: the listing written, then the inode table. */
  ghost function CreatedDisk(d: seq<Block>, it: seq<Inode>, i: int, dir': seq<DirEntry>): seq<Block>
    requires |d| == NUM_BLOCKS && |it| == NUM_INODES && 1 <= i < NUM_INODES
  {
    FlushInodes(CreatedDirDisk(d, it, dir'), CreatedInodes(it, i))
  }

  /** The create path of sfs_fopen after any grow of the root, whole: the
      directory write meets no unresolved block, and the state it leaves is
      consistent, durable and differs from the one before only in unowned
      blocks and the root's. */
  lemma CreateOutcome(d1: seq<Block>, it1: seq<Inode>, fs: seq<Fd>, dir: seq<DirEntry>, o1: Owner, kn: nat, i: int, name: string)
    requires ConsistentAt(d1, it1, fs, dir, o1, ROOT_DIR_INODE_NUM, kn)
    requires kn == if it1[ROOT_DIR_INODE_NUM].size % BLOCK_SIZE == 0 then BlocksInUse(it1[ROOT_DIR_INODE_NUM].size) + 1
                   else BlocksInUse(it1[ROOT_DIR_INODE_NUM].size)
    requires 1 <= i < NUM_INODES && !it1[i].valid && |name| <= MAX_FILENAME && !Listed(dir, name)
    ensures NoIndirectHit(d1, it1[ROOT_DIR_INODE_NUM], |dir| + 1)
    ensures -1 !in RootAddrs(d1, it1[ROOT_DIR_INODE_NUM], BlocksChecked(|dir| + 1))
    ensures var dir' := dir + [DirEntry(name, i)];
            var d3 := CreatedDisk(d1, it1, i, dir');
            && Consistent(d3, CreatedInodes(it1, i), fs, dir', o1)
            && d3 == FlushInodes(d3, CreatedInodes(it1, i))
            && Changed(d1, d3, o1, ROOT_DIR_INODE_NUM)
            && d3[FREEMAP_ADDRESS] == d1[FREEMAP_ADDRESS]
  {
    var dir' := dir + [DirEntry(name, i)];
    var it2 := it1[i := it1[i].(valid := true, size := 0)];
    assert it2[ROOT_DIR_INODE_NUM] == it1[ROOT_DIR_INODE_NUM];
    var it3 := CreatedInodes(it1, i);
    var d2 := CreatedDirDisk(d1, it1, dir');
    CreateStep(d1, it1, fs, dir, o1, kn, i, name, it2, dir', d2, it3);
    FlushKeeps(d2, it3, fs, dir', o1, -1, 0);
    FlushTwice(d2, it3);
    FlushSpares(d2, it3, o1, ROOT_DIR_INODE_NUM);
    ChangedTrans(d1, d2, FlushInodes(d2, it3), o1, o1, ROOT_DIR_INODE_NUM);
  }

  /** What the create path does to the files: every file but the new one
      keeps its bytes. */
  lemma CreateKeeps(d1: seq<Block>, it1: seq<Inode>, fs: seq<Fd>, dir: seq<DirEntry>, o1: Owner, kn: nat, i: int, name: string)
    requires ConsistentAt(d1, it1, fs, dir, o1, ROOT_DIR_INODE_NUM, kn)
    requires kn == if it1[ROOT_DIR_INODE_NUM].size % BLOCK_SIZE == 0 then BlocksInUse(it1[ROOT_DIR_INODE_NUM].size) + 1
                   else BlocksInUse(it1[ROOT_DIR_INODE_NUM].size)
    requires 1 <= i < NUM_INODES && !it1[i].valid && |name| <= MAX_FILENAME && !Listed(dir, name)
    ensures var d3 := CreatedDisk(d1, it1, i, dir + [DirEntry(name, i)]);
            var it3 := CreatedInodes(it1, i);
            forall m :: 0 <= m < |it1| && m != i && m != ROOT_DIR_INODE_NUM && it1[m].valid ==>
              FileData(d3, it3[m]) == FileData(d1, it1[m])
  {
    var dir' := dir + [DirEntry(name, i)];
    var d3 := CreatedDisk(d1, it1, i, dir');
    var it3 := CreatedInodes(it1, i);
    CreateOutcome(d1, it1, fs, dir, o1, kn, i, name);
    FilesFrame(d1, d3, it1, o1, ROOT_DIR_INODE_NUM, kn, ROOT_DIR_INODE_NUM);
    forall m | 0 <= m < |it1| && m != i && m != ROOT_DIR_INODE_NUM && it1[m].valid
      ensures FileData(d3, it3[m]) == FileData(d1, it1[m])
    {
      assert it3[m] == it1[m];
    }
  }

  /** The inode the scan of sfs_fopen claims: the lowest invalid one, or -1
      when all are valid. */
  function FirstInvalid(it: seq<Inode>): (r: int)
    ensures -1 <= r < |it|
    ensures r == -1 <==> forall m :: 0 <= m < |it| ==> it[m].valid
    ensures r >= 0 ==> !it[r].valid && forall m :: 0 <= m < r ==> it[m].valid
  {
    if |it| == 0 then -1
    else if !it[0].valid then 0
    else
      var r := FirstInvalid(it[1..]);
      assert forall m :: 1 <= m < |it| ==> it[m] == it[1..][m - 1];
      if r == -1 then -1 else r + 1
  }

  /** Tables that agree on which inodes are valid have the same first invalid inode. */
  lemma FirstInvalidSame(it: seq<Inode>, it': seq<Inode>)
    requires |it'| == |it| && forall m :: 0 <= m < |it| ==> it'[m].valid == it[m].valid
    ensures FirstInvalid(it') == FirstInvalid(it)
  {
  }

  /** Blocks the root owns while a file is being created: one more than its
      size needs when it was grown at a block boundary. */
  function RootKn(size: int): nat {
    if size % BLOCK_SIZE == 0 then BlocksInUse(size) + 1 else BlocksInUse(size)
  }

  /** The inode the create path of sfs_fopen claims from state (d0, it0), or
      -1: when the root is at a block boundary and cannot grow, or when every
      inode is valid. */
  ghost function CreatedInode(d0: seq<Block>, it0: seq<Inode>): int
    requires |d0| == NUM_BLOCKS && |it0| == NUM_INODES
  {
    var root := it0[ROOT_DIR_INODE_NUM];
    if root.size % BLOCK_SIZE == 0 && !CanGrow(BitmapView(d0[FREEMAP_ADDRESS]), root.size) then -1
    else FirstInvalid(it0)
  }

  /** The root's block pointers, the bitmap and the owner map once the create
      path has made room for one more entry. At a block boundary, when the
      root can grow, they are those of the grow from (d0, root0): the lowest
      clear bit claimed, and at 12 blocks the next one for the indirect
      block. Off a boundary, or when the root cannot grow, they are as before. */
  ghost predicate RootRoom(d0: seq<Block>, root0: Inode, o0: Owner, d: seq<Block>, root: Inode, o: Owner)
    requires |d0| == NUM_BLOCKS && |d| == NUM_BLOCKS
  {
    if root0.size % BLOCK_SIZE == 0 && CanGrow(BitmapView(d0[FREEMAP_ADDRESS]), root0.size) then
      && o == GrownOwner(d0, root0, ROOT_DIR_INODE_NUM, o0)
      && d[FREEMAP_ADDRESS] == GrowDisk(d0, root0)[FREEMAP_ADDRESS]
      && root.directPtr == GrowInode(d0, root0).directPtr
      && root.indPtr == GrowInode(d0, root0).indPtr
    else
      && o == o0
      && d[FREEMAP_ADDRESS] == d0[FREEMAP_ADDRESS]
      && root.directPtr == root0.directPtr
      && root.indPtr == root0.indPtr
  }

  /** What the create path of sfs_fopen for `name` leaves, from (d0, it0,
      dir0, o0) to (d, it, dir, o). The map only gains entries and only
      unowned or root blocks change; nothing changes when the root cannot
      grow. The root's pointers, the bitmap and the map are those RootRoom
      gives: grown only at a block boundary. Every file but the claimed inode keeps its inode and its bytes.
      On failure the listing and the root's size are as before; on success
      the listing gains the entry for the claimed inode, which is valid and
      empty, the root's size counts the entry, and the table is on the device. */
  ghost predicate CreateEffect(d0: seq<Block>, it0: seq<Inode>, dir0: seq<DirEntry>, o0: Owner,
                               d: seq<Block>, it: seq<Inode>, dir: seq<DirEntry>, o: Owner, name: string)
    requires |d0| == NUM_BLOCKS && |it0| == NUM_INODES && |it| == NUM_INODES
  {
    var i := CreatedInode(d0, it0);
    var root0 := it0[ROOT_DIR_INODE_NUM];
    && (forall a :: a in o0 ==> a in o && o[a] == o0[a])
    && Changed(d0, d, o0, ROOT_DIR_INODE_NUM)
    && RootRoom(d0, root0, o0, d, it[ROOT_DIR_INODE_NUM], o)
    && (root0.size % BLOCK_SIZE == 0 && !CanGrow(BitmapView(d0[FREEMAP_ADDRESS]), root0.size) ==>
          d == d0 && it == it0 && o == o0)
    && it[ROOT_DIR_INODE_NUM].valid
    && (forall m :: 0 <= m < NUM_INODES && m != i && m != ROOT_DIR_INODE_NUM ==> it[m] == it0[m])
    && (forall m :: 0 <= m < NUM_INODES && m != i && m != ROOT_DIR_INODE_NUM && it0[m].valid ==>
          FileData(d, it[m]) == FileData(d0, it0[m]))
    && (i == -1 ==> dir == dir0 && it[ROOT_DIR_INODE_NUM].size == root0.size)
    && (i != -1 ==>
          && 1 <= i < NUM_INODES && !it0[i].valid
          && dir == dir0 + [DirEntry(name, i)]
          && it[i] == it0[i].(valid := true, size := 0)
          && it[ROOT_DIR_INODE_NUM].size == root0.size + DIR_ENTRY_SIZE
          && d == FlushInodes(d, it))
  }

  /** The state the create path reaches once the root has room for one more
      entry (grown at a block boundary, untouched otherwise), against the
      state (d0, it0, o0) sfs_fopen started from. */
  ghost predicate RootReady(d0: seq<Block>, it0: seq<Inode>, fs: seq<Fd>, dir: seq<DirEntry>, o0: Owner,
                            dG: seq<Block>, itG: seq<Inode>, oG: Owner)
  {
    && |d0| == NUM_BLOCKS && |it0| == NUM_INODES && |itG| == NUM_INODES
    && it0[ROOT_DIR_INODE_NUM].valid
    && (it0[ROOT_DIR_INODE_NUM].size % BLOCK_SIZE != 0 || CanGrow(BitmapView(d0[FREEMAP_ADDRESS]), it0[ROOT_DIR_INODE_NUM].size))
    && ConsistentAt(dG, itG, fs, dir, oG, ROOT_DIR_INODE_NUM, RootKn(it0[ROOT_DIR_INODE_NUM].size))
    && itG[ROOT_DIR_INODE_NUM].size == it0[ROOT_DIR_INODE_NUM].size
    && (forall m :: 0 <= m < NUM_INODES && m != ROOT_DIR_INODE_NUM ==> itG[m] == it0[m])
    && (forall a :: a in o0 ==> a in oG && oG[a] == o0[a])
    && Changed(d0, dG, o0, ROOT_DIR_INODE_NUM)
    && RootRoom(d0, it0[ROOT_DIR_INODE_NUM], o0, dG, itG[ROOT_DIR_INODE_NUM], oG)
    && (forall m :: 0 <= m < NUM_INODES && m != ROOT_DIR_INODE_NUM && it0[m].valid ==> FileKept(d0, dG, it0[m]))
  }

  /** Off a block boundary the root already has room: the state itself is ready. */
  lemma RootStays(d0: seq<Block>, it0: seq<Inode>, fs: seq<Fd>, dir: seq<DirEntry>, o0: Owner)
    requires Consistent(d0, it0, fs, dir, o0) && it0[ROOT_DIR_INODE_NUM].size % BLOCK_SIZE != 0
    ensures RootReady(d0, it0, fs, dir, o0, d0, it0, o0)
  {
    Unsettle(d0, it0, fs, dir, o0, ROOT_DIR_INODE_NUM);
  }

  /** A grow of the root at a block boundary makes the state ready. */
  lemma RootGrown(d0: seq<Block>, it0: seq<Inode>, fs: seq<Fd>, dir: seq<DirEntry>, o0: Owner, d1: seq<Block>, ino1: Inode)
    requires Consistent(d0, it0, fs, dir, o0) && it0[ROOT_DIR_INODE_NUM].size % BLOCK_SIZE == 0
    requires Grown(d0, it0[ROOT_DIR_INODE_NUM], d1, ino1)
    requires CanGrow(BitmapView(d0[FREEMAP_ADDRESS]), it0[ROOT_DIR_INODE_NUM].size)
    ensures RootReady(d0, it0, fs, dir, o0, d1, it0[ROOT_DIR_INODE_NUM := ino1],
                      GrownOwner(d0, it0[ROOT_DIR_INODE_NUM], ROOT_DIR_INODE_NUM, o0))
  {
    GrowStep(d0, it0, fs, dir, o0, ROOT_DIR_INODE_NUM, d1, ino1);
    GrownIsGrow(d0, it0[ROOT_DIR_INODE_NUM], d1, ino1);
  }

  /** The root cannot grow: the create path fails and changes nothing. */
  lemma UnfitEffect(d0: seq<Block>, it0: seq<Inode>, dir0: seq<DirEntry>, o0: Owner, name: string)
    requires |d0| == NUM_BLOCKS && |it0| == NUM_INODES && it0[ROOT_DIR_INODE_NUM].valid
    requires it0[ROOT_DIR_INODE_NUM].size % BLOCK_SIZE == 0 && !CanGrow(BitmapView(d0[FREEMAP_ADDRESS]), it0[ROOT_DIR_INODE_NUM].size)
    ensures CreatedInode(d0, it0) == -1
    ensures CreateEffect(d0, it0, dir0, o0, d0, it0, dir0, o0, name)
  {
  }

  /** Every inode is valid: the create path fails with the root possibly
      grown, which is consistent and keeps every file. */
  lemma NoInodeEffect(d0: seq<Block>, it0: seq<Inode>, fs: seq<Fd>, dir0: seq<DirEntry>, o0: Owner,
                      dG: seq<Block>, itG: seq<Inode>, oG: Owner, name: string)
    requires RootReady(d0, it0, fs, dir0, o0, dG, itG, oG) && FirstInvalid(itG) == -1
    ensures Consistent(dG, itG, fs, dir0, oG)
    ensures CreatedInode(d0, it0) == -1
    ensures CreateEffect(d0, it0, dir0, o0, dG, itG, dir0, oG, name)
  {
    SettleAll(dG, itG, fs, dir0, oG, ROOT_DIR_INODE_NUM, RootKn(it0[ROOT_DIR_INODE_NUM].size));
    assert itG[ROOT_DIR_INODE_NUM].valid;
    FirstInvalidSame(it0, itG);
  }

  /** The create path from a ready state with a free inode: the state it
      leaves is consistent and is the one CreateEffect describes. */
  lemma CreateChain(d0: seq<Block>, it0: seq<Inode>, fs: seq<Fd>, dir0: seq<DirEntry>, o0: Owner,
                    dG: seq<Block>, itG: seq<Inode>, oG: Owner, name: string)
    requires RootReady(d0, it0, fs, dir0, o0, dG, itG, oG)
    requires |name| <= MAX_FILENAME && !Listed(dir0, name) && FirstInvalid(itG) != -1
    ensures var i := FirstInvalid(itG);
            && 1 <= i < NUM_INODES && i == CreatedInode(d0, it0)
            && NoIndirectHit(dG, itG[ROOT_DIR_INODE_NUM], |dir0| + 1)
            && -1 !in RootAddrs(dG, itG[ROOT_DIR_INODE_NUM], BlocksChecked(|dir0| + 1))
    ensures var i := FirstInvalid(itG);
            var dir' := dir0 + [DirEntry(name, i)];
            1 <= i < NUM_INODES ==>
              && Consistent(CreatedDisk(dG, itG, i, dir'), CreatedInodes(itG, i), fs, dir', oG)
              && CreateEffect(d0, it0, dir0, o0, CreatedDisk(dG, itG, i, dir'), CreatedInodes(itG, i), dir', oG, name)
  {
    var i := FirstInvalid(itG);
    var kn := RootKn(it0[ROOT_DIR_INODE_NUM].size);
    assert itG[ROOT_DIR_INODE_NUM].valid;
    FirstInvalidSame(it0, itG);
    var dir' := dir0 + [DirEntry(name, i)];
    var d3 := CreatedDisk(dG, itG, i, dir');
    var it3 := CreatedInodes(itG, i);
    CreateOutcome(dG, itG, fs, dir0, oG, kn, i, name);
    CreateKeeps(dG, itG, fs, dir0, oG, kn, i, name);
    ChangedTrans(d0, dG, d3, o0, oG, ROOT_DIR_INODE_NUM);
    CreateEffectFrom(d0, it0, dir0, o0, dG, itG, oG, d3, it3, name, i);
  }

  /** CreateEffect of a successful create, from what the grow and the
      create steps each keep. */
  lemma CreateEffectFrom(d0: seq<Block>, it0: seq<Inode>, dir0: seq<DirEntry>, o0: Owner,
                         dG: seq<Block>, itG: seq<Inode>, oG: Owner, d3: seq<Block>, it3: seq<Inode>, name: string, i: int)
    requires |d0| == NUM_BLOCKS && |it0| == NUM_INODES && |itG| == NUM_INODES
    requires 1 <= i < NUM_INODES && i == CreatedInode(d0, it0) && !itG[i].valid
    requires it0[ROOT_DIR_INODE_NUM].size % BLOCK_SIZE != 0 || CanGrow(BitmapView(d0[FREEMAP_ADDRESS]), it0[ROOT_DIR_INODE_NUM].size)
    requires itG[ROOT_DIR_INODE_NUM].valid && itG[ROOT_DIR_INODE_NUM].size == it0[ROOT_DIR_INODE_NUM].size
    requires forall m :: 0 <= m < NUM_INODES && m != ROOT_DIR_INODE_NUM ==> itG[m] == it0[m]
    requires it3 == CreatedInodes(itG, i)
    requires forall a :: a in o0 ==> a in oG && oG[a] == o0[a]
    requires |dG| == NUM_BLOCKS && RootRoom(d0, it0[ROOT_DIR_INODE_NUM], o0, dG, itG[ROOT_DIR_INODE_NUM], oG)
    requires Changed(d0, d3, o0, ROOT_DIR_INODE_NUM) && d3 == FlushInodes(d3, it3)
    requires d3[FREEMAP_ADDRESS] == dG[FREEMAP_ADDRESS]
    requires forall m :: 0 <= m < NUM_INODES && m != ROOT_DIR_INODE_NUM && it0[m].valid ==> FileKept(d0, dG, it0[m])
    requires forall m :: 0 <= m < NUM_INODES && m != i && m != ROOT_DIR_INODE_NUM && itG[m].valid ==>
               FileData(d3, it3[m]) == FileData(dG, itG[m])
    ensures CreateEffect(d0, it0, dir0, o0, d3, it3, dir0 + [DirEntry(name, i)], oG, name)
  {
    forall m | 0 <= m < NUM_INODES && m != i && m != ROOT_DIR_INODE_NUM && it0[m].valid
      ensures FileData(d3, it3[m]) == FileData(d0, it0[m])
    {
      assert itG[m] == it0[m];
      assert FileKept(d0, dG, it0[m]);
    }
    assert it3[i] == it0[i].(valid := true, size := 0);
  }

  /** Files kept through a step on a table that differs from `it` only at i. */
  lemma KeptPast(d1: seq<Block>, d2: seq<Block>, it1: seq<Inode>, it2: seq<Inode>, i: int)
    requires |it2| == |it1| && forall m :: 0 <= m < |it1| && m != i ==> it2[m] == it1[m]
    requires forall m :: 0 <= m < |it2| && m != ROOT_DIR_INODE_NUM && it2[m].valid ==> FileKept(d1, d2, it2[m])
    ensures forall m :: 0 <= m < |it1| && m != i && m != ROOT_DIR_INODE_NUM && it1[m].valid ==> FileKept(d1, d2, it1[m])
  {
    forall m | 0 <= m < |it1| && m != i && m != ROOT_DIR_INODE_NUM && it1[m].valid
      ensures FileKept(d1, d2, it1[m])
    {
      assert it2[m] == it1[m];
    }
  }

  /** The descriptor sfs_fopen hands out: valid, on inode `ino`, reading
      from the start and writing at the end. */
  lemma OpenFdStep(it: seq<Inode>, fs: seq<Fd>, f: int, ino: int)
    requires |it| == NUM_INODES && FdsOk(it, fs)
    requires 1 <= ino < NUM_INODES && it[ino].valid && it[ino].size >= 0
    requires 0 <= f < |fs|
    ensures FdsOk(it, fs[f := Fd(true, ino, 0, it[ino].size)])
  {
  }

  /** A descriptor op that keeps the inode and moves a pointer within the file. */
  lemma SeekFdStep(it: seq<Inode>, fs: seq<Fd>, f: int, fd: Fd)
    requires |it| == NUM_INODES && FdsOk(it, fs) && 0 <= f < |fs|
    requires fs[f].valid && fd.valid && fd.inodeNum == fs[f].inodeNum
    requires 0 <= fd.rptr <= it[fd.inodeNum].size && 0 <= fd.wptr <= it[fd.inodeNum].size
    ensures FdsOk(it, fs[f := fd])
  {
  }
}
