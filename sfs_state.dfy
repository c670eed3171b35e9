/** The invariant the file API keeps over its global state (the device, the
    inode table cache, the descriptor table and the directory cache), stated on
    snapshots of that state, with the lemmas that show which steps of the API
    keep it. Ownership of data-area blocks is ghost bookkeeping: a map from
    address to the file block or indirect block stored there. */
module Consistency {
  import opened Common
  import opened Util
  import opened DirList
  import opened DirCache

  /** What a data-area block holds: block `index` of inode `ino`'s file, or
      the indirect block of inode `ino`. */
  datatype Tag = DataBlock(ino: int, index: int) | IndirectBlock(ino: int)

  type Owner = map<int, Tag>

  /* ---------------------------------------------------------------- */
  /* File contents                                                     */
  /* ---------------------------------------------------------------- */

  /** Byte j of a file: byte j % 1024 of the block its block pointer j / 1024 resolves to. */
  ghost function ByteAt(d: seq<Block>, inode: Inode, j: nat): byte {
    ByteView(ReadBlock(d, InodeIndexToAddress(inode, d, j / BLOCK_SIZE)))[j % BLOCK_SIZE]
  }

  /** The bytes of a file, as sfs_fread returns them: its first `size` bytes. */
  ghost function FileData(d: seq<Block>, inode: Inode): (data: seq<byte>)
    ensures |data| == if inode.size < 0 then 0 else inode.size
    ensures forall j :: 0 <= j < |data| ==> data[j] == ByteAt(d, inode, j)
  {
    var n := if inode.size < 0 then 0 else inode.size;
    seq(n, j requires 0 <= j < n => ByteAt(d, inode, j))
  }

  /** `data` with `w` written over it from position p, extending it when `w` runs past its end. */
  function Overlay(data: seq<byte>, p: nat, w: seq<byte>): (r: seq<byte>)
    requires p <= |data|
    ensures |r| == if p + |w| > |data| then p + |w| else |data|
    ensures forall j :: 0 <= j < p ==> r[j] == data[j]
    ensures forall j :: p <= j < p + |w| ==> r[j] == w[j - p]
    ensures forall j :: p + |w| <= j < |data| ==> r[j] == data[j]
  {
    data[..p] + w + (if p + |w| < |data| then data[p + |w|..] else [])
  }

  /** One byte written at position p <= |data|. */
  function Put(data: seq<byte>, p: nat, x: byte): (r: seq<byte>)
    requires p <= |data|
    ensures |r| == if p == |data| then p + 1 else |data|
    ensures r[p] == x && forall j :: 0 <= j < |data| && j != p ==> r[j] == data[j]
  {
    if p < |data| then data[p := x] else data + [x]
  }

  lemma OverlayEmpty(data: seq<byte>, p: nat)
    requires p <= |data|
    ensures Overlay(data, p, []) == data
  {
  }

  /** Writing w one byte at a time builds Overlay(data, p, w). */
  lemma OverlaySnoc(data: seq<byte>, p: nat, w: seq<byte>, x: byte)
    requires p <= |data|
    ensures p + |w| <= |Overlay(data, p, w)|
    ensures Overlay(data, p, w + [x]) == Put(Overlay(data, p, w), p + |w|, x)
  {
    var a := Overlay(data, p, w + [x]);
    var b := Put(Overlay(data, p, w), p + |w|, x);
    assert |a| == |b|;
    forall j | 0 <= j < |a|
      ensures a[j] == b[j]
    {
      if j < p {
      } else if j < p + |w| {
        assert (w + [x])[j - p] == w[j - p];
      } else if j == p + |w| {
        assert (w + [x])[j - p] == x;
      }
    }
  }

  /* ---------------------------------------------------------------- */
  /* Ownership of data-area blocks                                     */
  /* ---------------------------------------------------------------- */

  /** The first k blocks of inode m resolve to blocks the map gives to m,
      block b to DataBlock(m, b); past 12 blocks its indirect block is m's too. */
  ghost predicate OwnsUpTo(d: seq<Block>, inode: Inode, m: int, k: nat, owner: Owner) {
    && (forall b :: 0 <= b < k ==>
          InodeIndexToAddress(inode, d, b) in owner &&
          owner[InodeIndexToAddress(inode, d, b)] == DataBlock(m, b))
    && (k > NUM_DIRECT ==> inode.indPtr in owner && owner[inode.indPtr] == IndirectBlock(m))
  }

  /** Every owned block lies in the scanned data area and is marked in use. */
  ghost predicate OwnerOk(owner: Owner, bits: BitTable) {
    forall a :: a in owner ==>
      FIRST_DATA_ADDRESS <= a < FIRST_DATA_ADDRESS + SCANNED_BITS && bits[a - FIRST_DATA_ADDRESS]
  }

  /** Every valid inode has a sane size and owns the blocks it uses: inode n
      owns kn blocks (one more than its size needs, right after a grow),
      every other inode exactly the blocks its size needs. */
  ghost predicate FilesOk(d: seq<Block>, it: seq<Inode>, owner: Owner, n: int, kn: nat) {
    forall m :: 0 <= m < |it| && it[m].valid ==>
      && it[m].size >= 0
      && BlocksInUse(it[m].size) <= (if m == n then kn else BlocksInUse(it[m].size)) <= MAX_FILE_BLOCKS
      && OwnsUpTo(d, it[m], m, if m == n then kn else BlocksInUse(it[m].size), owner)
  }

  /** The root inode is valid and holds the directory: 32 bytes per entry,
      read back by rdc_init as the cached list. */
  ghost predicate RootOk(d: seq<Block>, it: seq<Inode>, dir: seq<DirEntry>)
    requires |it| == NUM_INODES
  {
    it[ROOT_DIR_INODE_NUM].valid
    && it[ROOT_DIR_INODE_NUM].size == DIR_ENTRY_SIZE * |dir|
    && DirFromDisk(d, it[ROOT_DIR_INODE_NUM]) == dir
  }

  /** Directory entries name valid non-root inodes, with names of at most 28
      characters; names and inode numbers are unique. */
  ghost predicate DirOk(it: seq<Inode>, dir: seq<DirEntry>)
    requires |it| == NUM_INODES
  {
    && (forall k :: 0 <= k < |dir| ==>
          && 1 <= dir[k].inodeNum < NUM_INODES
          && it[dir[k].inodeNum].valid
          && |dir[k].filename| <= MAX_FILENAME)
    && (forall k, l :: 0 <= k < l < |dir| ==>
          dir[k].filename != dir[l].filename && dir[k].inodeNum != dir[l].inodeNum)
  }

  /** An open descriptor refers to a valid non-root inode, with both
      pointers inside the file. */
  ghost predicate FdsOk(it: seq<Inode>, fs: seq<Fd>)
    requires |it| == NUM_INODES
  {
    forall f :: 0 <= f < |fs| && fs[f].valid ==>
      && 1 <= fs[f].inodeNum < NUM_INODES
      && it[fs[f].inodeNum].valid
      && 0 <= fs[f].rptr <= it[fs[f].inodeNum].size
      && 0 <= fs[f].wptr <= it[fs[f].inodeNum].size
  }

  /** The invariant of a mounted file system, with inode n owning kn blocks. */
  ghost predicate ConsistentAt(d: seq<Block>, it: seq<Inode>, fs: seq<Fd>, dir: seq<DirEntry>, owner: Owner, n: int, kn: nat) {
    && |d| == NUM_BLOCKS && |it| == NUM_INODES && |fs| == MAX_OPEN_FILES
    && d[0] == Super(EXPECTED_SUPER)
    && OwnerOk(owner, BitmapView(d[FREEMAP_ADDRESS]))
    && FilesOk(d, it, owner, n, kn)
    && RootOk(d, it, dir)
    && DirOk(it, dir)
    && FdsOk(it, fs)
  }

  /** The invariant of a mounted file system. */
  ghost predicate Consistent(d: seq<Block>, it: seq<Inode>, fs: seq<Fd>, dir: seq<DirEntry>, owner: Owner) {
    ConsistentAt(d, it, fs, dir, owner, -1, 0)
  }

  /* ---------------------------------------------------------------- */
  /* Frames                                                            */
  /* ---------------------------------------------------------------- */

  /** Every block the map gives to inode m reads the same on both devices. */
  ghost predicate SameOwned(d: seq<Block>, d': seq<Block>, owner: Owner, m: int) {
    |d'| == |d| && forall a :: a in owner && owner[a].ino == m ==> ReadBlock(d', a) == ReadBlock(d, a)
  }

  /** Every block that differs between the two devices is unowned or inode n's. */
  ghost predicate Changed(d: seq<Block>, d': seq<Block>, owner: Owner, n: int) {
    |d'| == |d| && forall a :: 0 <= a < |d| && d'[a] != d[a] ==> a !in owner || owner[a].ino == n
  }

  /** The map o' keeps every entry o gives to inode m. */
  ghost predicate KeepsOwned(o: Owner, o': Owner, m: int) {
    forall a :: a in o && o[a].ino == m ==> a in o' && o'[a] == o[a]
  }

  /** The block holding directory entry k lies within the blocks the size needs. */
  lemma EntryBlockInUse(size: int, k: nat)
    requires k < size / DIR_ENTRY_SIZE
    ensures k / ENTRIES_PER_BLOCK < BlocksInUse(size)
    ensures k / ENTRIES_PER_BLOCK <= size / BLOCK_SIZE
  {
    var b := k / ENTRIES_PER_BLOCK;
    assert b * ENTRIES_PER_BLOCK <= k;
    assert b * BLOCK_SIZE <= DIR_ENTRY_SIZE * k;
    assert DIR_ENTRY_SIZE * k < size;
  }

  /** A write that spares inode m's blocks keeps m's block addresses, its
      ownership, its bytes and, for the root, the directory read from it. */
  lemma OwnedFrame(d: seq<Block>, d': seq<Block>, inode: Inode, m: int, k: nat, owner: Owner)
    requires OwnsUpTo(d, inode, m, k, owner) && SameOwned(d, d', owner, m)
    ensures forall b :: 0 <= b < k ==> InodeIndexToAddress(inode, d', b) == InodeIndexToAddress(inode, d, b)
    ensures OwnsUpTo(d', inode, m, k, owner)
    ensures k >= BlocksInUse(inode.size) ==> FileData(d', inode) == FileData(d, inode)
    ensures k >= BlocksInUse(inode.size) ==> DirFromDisk(d', inode) == DirFromDisk(d, inode)
  {
    forall b | 0 <= b < k
      ensures InodeIndexToAddress(inode, d', b) == InodeIndexToAddress(inode, d, b)
    {
      if b < NUM_DIRECT {
        ResolveDirectNoRead(inode, d, d', b);
      } else {
        ResolveReadsIndirectOnly(inode, d, d', b);
      }
    }
    if k >= BlocksInUse(inode.size) {
      forall j | 0 <= j < inode.size
        ensures ByteAt(d', inode, j) == ByteAt(d, inode, j)
      {
        BlocksInUseCovers(inode.size, j);
      }
      var n := if inode.size / DIR_ENTRY_SIZE < 0 then 0 else inode.size / DIR_ENTRY_SIZE;
      forall e | 0 <= e < n
        ensures InodeIndexToAddress(inode, d', e / ENTRIES_PER_BLOCK) == InodeIndexToAddress(inode, d, e / ENTRIES_PER_BLOCK)
        ensures ReadBlock(d', InodeIndexToAddress(inode, d, e / ENTRIES_PER_BLOCK))
                == ReadBlock(d, InodeIndexToAddress(inode, d, e / ENTRIES_PER_BLOCK))
      {
        EntryBlockInUse(inode.size, e);
      }
    }
  }

  /** Ownership survives a change of map that keeps m's entries. */
  lemma OwnerFrame(d: seq<Block>, inode: Inode, m: int, k: nat, o: Owner, o': Owner)
    requires OwnsUpTo(d, inode, m, k, o) && KeepsOwned(o, o', m)
    ensures OwnsUpTo(d, inode, m, k, o')
  {
  }

  lemma ChangedSpares(d: seq<Block>, d': seq<Block>, owner: Owner, n: int, m: int)
    requires Changed(d, d', owner, n) && m != n
    ensures SameOwned(d, d', owner, m)
  {
    forall a | a in owner && owner[a].ino == m
      ensures ReadBlock(d', a) == ReadBlock(d, a)
    {
      if 0 <= a < |d| {
        assert !(d'[a] != d[a]);
      }
    }
  }

  /** Two changes confined to inode n's blocks, the second judged under a map
      that only adds to the first, are one such change. */
  lemma ChangedTrans(d0: seq<Block>, d1: seq<Block>, d2: seq<Block>, o0: Owner, o1: Owner, n: int)
    requires Changed(d0, d1, o0, n) && Changed(d1, d2, o1, n)
    requires forall a :: a in o0 ==> a in o1 && o1[a] == o0[a]
    ensures Changed(d0, d2, o0, n)
  {
    forall a | 0 <= a < |d0| && d2[a] != d0[a]
      ensures a !in o0 || o0[a].ino == n
    {
      if d1[a] == d0[a] {
        assert d2[a] != d1[a];
      }
    }
  }

  /** Flushing the inode table touches no data-area block, nor the superblock or the bitmap. */
  lemma FlushSpares(d: seq<Block>, it: seq<Inode>, owner: Owner, n: int)
    requires |d| == NUM_BLOCKS && |it| == NUM_INODES
    requires OwnerOk(owner, BitmapView(d[FREEMAP_ADDRESS]))
    ensures Changed(d, FlushInodes(d, it), owner, n)
    ensures FlushInodes(d, it)[0] == d[0]
    ensures FlushInodes(d, it)[FREEMAP_ADDRESS] == d[FREEMAP_ADDRESS]
  {
  }

  /* ---------------------------------------------------------------- */
  /* Growing a file by one block                                       */
  /* ---------------------------------------------------------------- */

  /** The map after a grow of inode n: the claimed data block becomes block
      `cur` of n, and at 12 blocks the claimed indirect block becomes n's. */
  ghost function GrownOwner(d0: seq<Block>, ino0: Inode, n: int, owner: Owner): Owner
    requires |d0| == NUM_BLOCKS
  {
    var cur := BlocksInUse(ino0.size);
    var bits0 := BitmapView(d0[FREEMAP_ADDRESS]);
    var i := FirstClear(bits0);
    var o1 := owner[AddressOfBit(i) := DataBlock(n, cur)];
    if cur == NUM_DIRECT && i >= 0 then o1[AddressOfBit(FirstClear(bits0[i := true])) := IndirectBlock(n)] else o1
  }

  /** The one block besides the bitmap that a grow writes: the new indirect
      block at 12 blocks, the existing one past 12, none below. */
  ghost function GrowTarget(d0: seq<Block>, ino0: Inode): int
    requires |d0| == NUM_BLOCKS
  {
    var cur := BlocksInUse(ino0.size);
    var bits0 := BitmapView(d0[FREEMAP_ADDRESS]);
    var i := FirstClear(bits0);
    if cur < NUM_DIRECT || i < 0 then -1
    else if cur == NUM_DIRECT then AddressOfBit(FirstClear(bits0[i := true]))
    else ino0.indPtr
  }

  /** Where a grow writes, and which bits it sets: only the bitmap and the
      grow's target change; bit i (and at 12 blocks a second bit i2) was clear
      and is now set. */
  ghost predicate GrowShape(d0: seq<Block>, ino0: Inode, d1: seq<Block>)
    requires |d0| == NUM_BLOCKS
  {
    && |d1| == |d0|
    && (forall a :: 0 <= a < |d0| && a != FREEMAP_ADDRESS && a != GrowTarget(d0, ino0) ==> d1[a] == d0[a])
    && var bits0 := BitmapView(d0[FREEMAP_ADDRESS]);
       var i := FirstClear(bits0);
       var cur := BlocksInUse(ino0.size);
       && 0 <= i < SCANNED_BITS && !bits0[i]
       && (cur == NUM_DIRECT ==>
             var i2 := FirstClear(bits0[i := true]);
             && 0 <= i2 < SCANNED_BITS && i2 != i && !bits0[i2]
             && BitmapView(d1[FREEMAP_ADDRESS]) == bits0[i := true][i2 := true])
       && (cur != NUM_DIRECT ==> BitmapView(d1[FREEMAP_ADDRESS]) == bits0[i := true])
  }

  lemma GrownWrites(d0: seq<Block>, ino0: Inode, d1: seq<Block>, ino1: Inode)
    requires |d0| == NUM_BLOCKS && Grown(d0, ino0, d1, ino1)
    requires BlocksInUse(ino0.size) > NUM_DIRECT ==> ino0.indPtr != FREEMAP_ADDRESS
    ensures GrowShape(d0, ino0, d1)
    ensures ino1.size == ino0.size && ino1.valid == ino0.valid
    ensures BlocksInUse(ino0.size) == NUM_DIRECT ==> ino1.indPtr == GrowTarget(d0, ino0)
    ensures BlocksInUse(ino0.size) > NUM_DIRECT ==> ino1.indPtr == ino0.indPtr
  {
    var bits0 := BitmapView(d0[FREEMAP_ADDRESS]);
    var i := FirstClear(bits0);
    if BlocksInUse(ino0.size) == NUM_DIRECT {
      var i2 := FirstClear(bits0[i := true]);
      assert AddressOfBit(i2) != FREEMAP_ADDRESS;
    }
  }

  /** The premises shared by the grow lemmas: a consistent map and a
      successful grow of valid inode n at a block boundary. */
  ghost predicate GrowPre(d0: seq<Block>, it: seq<Inode>, owner: Owner, n: int, d1: seq<Block>, ino1: Inode) {
    && |d0| == NUM_BLOCKS && |it| == NUM_INODES && 0 <= n < NUM_INODES && it[n].valid
    && OwnerOk(owner, BitmapView(d0[FREEMAP_ADDRESS])) && FilesOk(d0, it, owner, -1, 0)
    && it[n].size % BLOCK_SIZE == 0
    && Grown(d0, it[n], d1, ino1)
  }

  /** The grown map: old entries kept, the new ones n's, all marked in use on
      the new bitmap. */
  lemma GrowOwner(d0: seq<Block>, ino0: Inode, owner: Owner, n: int, d1: seq<Block>)
    requires |d0| == NUM_BLOCKS && OwnerOk(owner, BitmapView(d0[FREEMAP_ADDRESS]))
    requires GrowShape(d0, ino0, d1)
    ensures var o1 := GrownOwner(d0, ino0, n, owner);
            && OwnerOk(o1, BitmapView(d1[FREEMAP_ADDRESS]))
            && (forall a :: a in owner ==> a in o1 && o1[a] == owner[a])
            && (forall a :: a in o1 && a !in owner ==> o1[a].ino == n)
  {
    var cur := BlocksInUse(ino0.size);
    var bits0 := BitmapView(d0[FREEMAP_ADDRESS]);
    var i := FirstClear(bits0);
    var o := owner[AddressOfBit(i) := DataBlock(n, cur)];
    ClaimBit(owner, bits0, i, DataBlock(n, cur));
    if cur == NUM_DIRECT {
      var i2 := FirstClear(bits0[i := true]);
      ClaimBit(o, bits0[i := true], i2, IndirectBlock(n));
    }
  }

  /** Claiming a clear bit for a fresh owner entry keeps the owner map within the set bits. */
  lemma ClaimBit(owner: Owner, bits: BitTable, i: int, v: Tag)
    requires OwnerOk(owner, bits) && 0 <= i < SCANNED_BITS && !bits[i]
    ensures AddressOfBit(i) !in owner
    ensures OwnerOk(owner[AddressOfBit(i) := v], bits[i := true])
  {
    var o := owner[AddressOfBit(i) := v];
    forall x | x in o
      ensures FIRST_DATA_ADDRESS <= x < FIRST_DATA_ADDRESS + SCANNED_BITS && bits[i := true][x - FIRST_DATA_ADDRESS]
    {
      if x != AddressOfBit(i) {
        assert x in owner;
      }
    }
  }

  /** A grow writes no owned block except n's own indirect block: no data
      block and no block of another inode changes. */
  lemma GrowSpares(d0: seq<Block>, ino0: Inode, owner: Owner, n: int, d1: seq<Block>)
    requires |d0| == NUM_BLOCKS && OwnerOk(owner, BitmapView(d0[FREEMAP_ADDRESS]))
    requires GrowShape(d0, ino0, d1)
    requires BlocksInUse(ino0.size) > NUM_DIRECT ==> ino0.indPtr in owner && owner[ino0.indPtr] == IndirectBlock(n)
    ensures Changed(d0, d1, owner, n) && d1[0] == d0[0]
    ensures forall x :: x in owner && owner[x].DataBlock? ==> ReadBlock(d1, x) == ReadBlock(d0, x)
  {
    var cur := BlocksInUse(ino0.size);
    var bits0 := BitmapView(d0[FREEMAP_ADDRESS]);
    var i := FirstClear(bits0);
    var t := GrowTarget(d0, ino0);
    assert t == -1 || t !in owner || owner[t] == IndirectBlock(n) by {
      if cur > NUM_DIRECT {
        assert t == ino0.indPtr;
      } else if cur == NUM_DIRECT {
        var i2 := FirstClear(bits0[i := true]);
        assert t == AddressOfBit(i2) && t !in owner;
      }
    }
    forall x | x in owner && owner[x].DataBlock?
      ensures ReadBlock(d1, x) == ReadBlock(d0, x)
    {
      assert x != FREEMAP_ADDRESS && x != t;
    }
    forall x | 0 <= x < |d0| && d1[x] != d0[x]
      ensures x !in owner || owner[x].ino == n
    {
      assert x == FREEMAP_ADDRESS || x == t;
    }
  }

  /** GrowOwner and GrownWrites under the shared premises. */
  lemma GrowParts(d0: seq<Block>, it: seq<Inode>, owner: Owner, n: int, d1: seq<Block>, ino1: Inode)
    requires GrowPre(d0, it, owner, n, d1, ino1)
    ensures OwnsUpTo(d0, it[n], n, BlocksInUse(it[n].size), owner)
    ensures GrowShape(d0, it[n], d1)
    ensures ino1.size == it[n].size && ino1.valid
    ensures BlocksInUse(it[n].size) == NUM_DIRECT ==> ino1.indPtr == GrowTarget(d0, it[n])
    ensures BlocksInUse(it[n].size) > NUM_DIRECT ==> ino1.indPtr == it[n].indPtr
    ensures var o1 := GrownOwner(d0, it[n], n, owner);
            && OwnerOk(o1, BitmapView(d1[FREEMAP_ADDRESS]))
            && (forall a :: a in owner ==> a in o1 && o1[a] == owner[a])
            && (forall a :: a in o1 && a !in owner ==> o1[a].ino == n)
    ensures Changed(d0, d1, owner, n) && d1[0] == d0[0]
    ensures forall x :: x in owner && owner[x].DataBlock? ==> ReadBlock(d1, x) == ReadBlock(d0, x)
  {
    assert OwnsUpTo(d0, it[n], n, BlocksInUse(it[n].size), owner);
    GrownWrites(d0, it[n], d1, ino1);
    GrowOwner(d0, it[n], owner, n, d1);
    GrowSpares(d0, it[n], owner, n, d1);
  }

  /** A grow of inode n keeps every other valid inode's blocks. */
  lemma GrowOthers(d0: seq<Block>, it: seq<Inode>, owner: Owner, n: int, d1: seq<Block>, ino1: Inode, m: int)
    requires GrowPre(d0, it, owner, n, d1, ino1)
    requires 0 <= m < NUM_INODES && m != n && it[m].valid
    ensures OwnsUpTo(d1, it[m], m, BlocksInUse(it[m].size), GrownOwner(d0, it[n], n, owner))
    ensures FileData(d1, it[m]) == FileData(d0, it[m])
    ensures DirFromDisk(d1, it[m]) == DirFromDisk(d0, it[m])
  {
    GrowParts(d0, it, owner, n, d1, ino1);
    assert OwnsUpTo(d0, it[m], m, BlocksInUse(it[m].size), owner);
    ChangedSpares(d0, d1, owner, n, m);
    OwnedFrame(d0, d1, it[m], m, BlocksInUse(it[m].size), owner);
    OwnerFrame(d1, it[m], m, BlocksInUse(it[m].size), owner, GrownOwner(d0, it[n], n, owner));
  }

  /** After a grow inode n owns one block more: the earlier blocks resolve as
      before and the new one to the claimed address. */
  lemma GrowSelf(d0: seq<Block>, it: seq<Inode>, owner: Owner, n: int, d1: seq<Block>, ino1: Inode)
    requires GrowPre(d0, it, owner, n, d1, ino1)
    ensures OwnsUpTo(d1, ino1, n, BlocksInUse(it[n].size) + 1, GrownOwner(d0, it[n], n, owner))
    ensures InodeIndexToAddress(ino1, d1, BlocksInUse(it[n].size))
            == AddressOfBit(FirstClear(BitmapView(d0[FREEMAP_ADDRESS])))
    ensures forall b :: 0 <= b < BlocksInUse(it[n].size) ==>
              InodeIndexToAddress(ino1, d1, b) == InodeIndexToAddress(it[n], d0, b)
  {
    var ino0 := it[n];
    GrowParts(d0, it, owner, n, d1, ino1);
    GrownResolves(d0, ino0, d1, ino1);
    GrowSelfOwns(d0, ino0, owner, n, d1, ino1);
  }

  /** The ownership half of GrowSelf, from the shape of the grow alone. */
  lemma GrowSelfOwns(d0: seq<Block>, ino0: Inode, owner: Owner, n: int, d1: seq<Block>, ino1: Inode)
    requires |d0| == NUM_BLOCKS && OwnerOk(owner, BitmapView(d0[FREEMAP_ADDRESS]))
    requires OwnsUpTo(d0, ino0, n, BlocksInUse(ino0.size), owner)
    requires GrowShape(d0, ino0, d1)
    requires BlocksInUse(ino0.size) == NUM_DIRECT ==> ino1.indPtr == GrowTarget(d0, ino0)
    requires BlocksInUse(ino0.size) > NUM_DIRECT ==> ino1.indPtr == ino0.indPtr
    requires var cur := BlocksInUse(ino0.size);
             && InodeIndexToAddress(ino1, d1, cur) == AddressOfBit(FirstClear(BitmapView(d0[FREEMAP_ADDRESS])))
             && forall b :: 0 <= b < cur ==> InodeIndexToAddress(ino1, d1, b) == InodeIndexToAddress(ino0, d0, b)
    ensures OwnsUpTo(d1, ino1, n, BlocksInUse(ino0.size) + 1, GrownOwner(d0, ino0, n, owner))
  {
    var cur := BlocksInUse(ino0.size);
    GrowOwner(d0, ino0, owner, n, d1);
    GrownOwnerNew(d0, ino0, owner, n, d1);
    forall b | 0 <= b < cur
      ensures InodeIndexToAddress(ino1, d1, b) in GrownOwner(d0, ino0, n, owner)
    {
      assert InodeIndexToAddress(ino0, d0, b) in owner;
    }
    if cur > NUM_DIRECT {
      assert ino0.indPtr in owner;
    }
  }

  /** The entries a grow adds to the map: the claimed data block is block
      `cur` of n, and at 12 blocks the grow's target is n's indirect block. */
  lemma GrownOwnerNew(d0: seq<Block>, ino0: Inode, owner: Owner, n: int, d1: seq<Block>)
    requires |d0| == NUM_BLOCKS && GrowShape(d0, ino0, d1)
    ensures var a := AddressOfBit(FirstClear(BitmapView(d0[FREEMAP_ADDRESS])));
            var o1 := GrownOwner(d0, ino0, n, owner);
            a in o1 && o1[a] == DataBlock(n, BlocksInUse(ino0.size))
    ensures BlocksInUse(ino0.size) == NUM_DIRECT ==>
              GrowTarget(d0, ino0) in GrownOwner(d0, ino0, n, owner) &&
              GrownOwner(d0, ino0, n, owner)[GrowTarget(d0, ino0)] == IndirectBlock(n)
  {
    var a := AddressOfBit(FirstClear(BitmapView(d0[FREEMAP_ADDRESS])));
    if BlocksInUse(ino0.size) == NUM_DIRECT {
      assert GrowTarget(d0, ino0) != a;
    }
  }

  /** A grow leaves the bytes of inode n, and the directory it holds, as they were. */
  lemma GrowSelfData(d0: seq<Block>, it: seq<Inode>, owner: Owner, n: int, d1: seq<Block>, ino1: Inode)
    requires GrowPre(d0, it, owner, n, d1, ino1)
    ensures FileData(d1, ino1) == FileData(d0, it[n])
    ensures DirFromDisk(d1, ino1) == DirFromDisk(d0, it[n])
  {
    var ino0 := it[n];
    var cur := BlocksInUse(ino0.size);
    GrowParts(d0, it, owner, n, d1, ino1);
    GrowSelf(d0, it, owner, n, d1, ino1);
    forall b | 0 <= b < cur
      ensures ReadBlock(d1, InodeIndexToAddress(ino0, d0, b)) == ReadBlock(d0, InodeIndexToAddress(ino0, d0, b))
    {
      assert InodeIndexToAddress(ino0, d0, b) in owner;
    }
    forall j | 0 <= j < ino0.size
      ensures ByteAt(d1, ino1, j) == ByteAt(d0, ino0, j)
    {
      BlocksInUseCovers(ino0.size, j);
    }
    var ne := if ino0.size / DIR_ENTRY_SIZE < 0 then 0 else ino0.size / DIR_ENTRY_SIZE;
    forall e | 0 <= e < ne
      ensures DirFromDisk(d1, ino1)[e] == DirFromDisk(d0, ino0)[e]
    {
      EntryBlockInUse(ino0.size, e);
    }
  }

  /** All of the above: the grown state satisfies FilesOk with n one block ahead. */
  lemma GrowKeeps(d0: seq<Block>, it: seq<Inode>, owner: Owner, n: int, d1: seq<Block>, ino1: Inode)
    requires GrowPre(d0, it, owner, n, d1, ino1)
    ensures FilesOk(d1, it[n := ino1], GrownOwner(d0, it[n], n, owner), n, BlocksInUse(it[n].size) + 1)
  {
    GrowKeepsSelf(d0, it, owner, n, d1, ino1);
    GrowOthersOwn(d0, it, owner, n, d1, ino1);
  }

  /** The grown file owns one block more on the new device. */
  lemma GrowKeepsSelf(d0: seq<Block>, it: seq<Inode>, owner: Owner, n: int, d1: seq<Block>, ino1: Inode)
    requires GrowPre(d0, it, owner, n, d1, ino1)
    ensures var kn := BlocksInUse(it[n].size) + 1;
            && ino1.valid && ino1.size == it[n].size >= 0 && kn <= MAX_FILE_BLOCKS
            && OwnsUpTo(d1, ino1, n, kn, GrownOwner(d0, it[n], n, owner))
  {
    GrowSelf(d0, it, owner, n, d1, ino1);
    GrowParts(d0, it, owner, n, d1, ino1);
  }

  /** Every other file still owns its blocks on the new device. */
  lemma GrowOthersOwn(d0: seq<Block>, it: seq<Inode>, owner: Owner, n: int, d1: seq<Block>, ino1: Inode)
    requires GrowPre(d0, it, owner, n, d1, ino1)
    ensures forall m :: 0 <= m < |it| && m != n && it[m].valid ==>
              OwnsUpTo(d1, it[m], m, BlocksInUse(it[m].size), GrownOwner(d0, it[n], n, owner))
  {
    forall m | 0 <= m < |it| && m != n && it[m].valid
      ensures OwnsUpTo(d1, it[m], m, BlocksInUse(it[m].size), GrownOwner(d0, it[n], n, owner))
    {
      GrowOthers(d0, it, owner, n, d1, ino1, m);
    }
  }

  /* ---------------------------------------------------------------- */
  /* Writing data blocks                                               */
  /* ---------------------------------------------------------------- */

  /** Owned blocks lie in the data area, so every block index a file owns
      passes the resolver's size guard. */
  lemma OwnsBound(d: seq<Block>, inode: Inode, m: int, k: nat, owner: Owner, bits: BitTable)
    requires OwnsUpTo(d, inode, m, k, owner) && OwnerOk(owner, bits)
    ensures k == 0 || k - 1 <= inode.size / BLOCK_SIZE
    ensures forall b :: 0 <= b < k ==>
              FIRST_DATA_ADDRESS <= InodeIndexToAddress(inode, d, b) < FIRST_DATA_ADDRESS + SCANNED_BITS
  {
    if k > 0 {
      assert InodeIndexToAddress(inode, d, k - 1) in owner;
    }
    forall b | 0 <= b < k
      ensures FIRST_DATA_ADDRESS <= InodeIndexToAddress(inode, d, b) < FIRST_DATA_ADDRESS + SCANNED_BITS
    {
      assert InodeIndexToAddress(inode, d, b) in owner;
    }
  }

  lemma DivStep(x: int)
    ensures x / BLOCK_SIZE <= (x + 1) / BLOCK_SIZE
  {
  }

  /** Rewriting a data block (never anyone's indirect block) keeps every
      file's block addresses and ownership. */
  lemma DataRewrite(d: seq<Block>, inode: Inode, m: int, k: nat, owner: Owner, a: int, blk: Block)
    requires OwnsUpTo(d, inode, m, k, owner)
    requires a in owner && owner[a].DataBlock?
    ensures forall b :: 0 <= b < k ==> InodeIndexToAddress(inode, Written(d, a, blk), b) == InodeIndexToAddress(inode, d, b)
    ensures OwnsUpTo(Written(d, a, blk), inode, m, k, owner)
  {
    var d' := Written(d, a, blk);
    forall b | 0 <= b < k
      ensures InodeIndexToAddress(inode, d', b) == InodeIndexToAddress(inode, d, b)
    {
      if b < NUM_DIRECT {
        ResolveDirectNoRead(inode, d, d', b);
      } else {
        assert inode.indPtr != a;
        ResolveReadsIndirectOnly(inode, d, d', b);
      }
    }
  }

  /** Every block that differs between the two devices is inode n's data block
      (and so not a block of any other inode, nor an indirect block). */
  ghost predicate OnlyDataOf(d: seq<Block>, d': seq<Block>, owner: Owner, n: int) {
    |d'| == |d| && forall a :: 0 <= a < |d| && d'[a] != d[a] ==> a in owner && owner[a].DataBlock? && owner[a].ino == n
  }

  /** The inode after a byte is stored at position p: one byte longer when p is its end. */
  function Stored(ino: Inode, p: int): (ino': Inode)
    ensures ino'.valid == ino.valid && ino'.directPtr == ino.directPtr && ino'.indPtr == ino.indPtr
    ensures ino'.size == if p == ino.size then p + 1 else ino.size
  {
    ino.(size := if p == ino.size then p + 1 else ino.size)
  }

  /** The block content that stores x at position p of the block at a. */
  ghost function StoreBlock(d: seq<Block>, a: int, p: nat, x: byte): Block {
    Bytes(ByteView(ReadBlock(d, a))[p % BLOCK_SIZE := x])
  }

  /** Storing a byte into one of inode n's data blocks keeps its block
      addresses and ownership, and changes nothing but that block. */
  lemma StoreKeepsOwned(d: seq<Block>, ino: Inode, n: int, k: nat, owner: Owner, p: nat, x: byte)
    requires |d| == NUM_BLOCKS && OwnerOk(owner, BitmapView(d[FREEMAP_ADDRESS]))
    requires OwnsUpTo(d, ino, n, k, owner)
    requires p <= ino.size && p / BLOCK_SIZE < k
    ensures var a := InodeIndexToAddress(ino, d, p / BLOCK_SIZE);
            var d' := Written(d, a, StoreBlock(d, a, p, x));
            && a in owner && owner[a] == DataBlock(n, p / BLOCK_SIZE)
            && FIRST_DATA_ADDRESS <= a < FIRST_DATA_ADDRESS + SCANNED_BITS
            && (forall b :: 0 <= b < k ==> InodeIndexToAddress(Stored(ino, p), d', b) == InodeIndexToAddress(ino, d, b))
            && OwnsUpTo(d', Stored(ino, p), n, k, owner)
            && OnlyDataOf(d, d', owner, n)
  {
    var a := InodeIndexToAddress(ino, d, p / BLOCK_SIZE);
    var blk := StoreBlock(d, a, p, x);
    var d' := Written(d, a, blk);
    var ino' := Stored(ino, p);
    OwnsBound(d, ino, n, k, owner, BitmapView(d[FREEMAP_ADDRESS]));
    DataRewrite(d, ino, n, k, owner, a, blk);
    assert ino.size / BLOCK_SIZE <= ino'.size / BLOCK_SIZE by {
      if p == ino.size {
        DivStep(ino.size);
      }
    }
    forall b | 0 <= b < k
      ensures InodeIndexToAddress(ino', d', b) == InodeIndexToAddress(ino, d, b)
    {
      ResolveSizeGuardOnly(ino', ino, d', b);
    }
  }

  /** One byte stored at position p of inode n, through the block that holds
      it: the file's bytes become Put(old bytes, p, x), its size grows when p
      is its end, and its blocks stay its own. */
  lemma WriteByteStep(d: seq<Block>, ino: Inode, n: int, k: nat, owner: Owner, p: nat, x: byte)
    requires |d| == NUM_BLOCKS && OwnerOk(owner, BitmapView(d[FREEMAP_ADDRESS]))
    requires OwnsUpTo(d, ino, n, k, owner) && BlocksInUse(ino.size) <= k
    requires p <= ino.size && p / BLOCK_SIZE < k
    ensures var a := InodeIndexToAddress(ino, d, p / BLOCK_SIZE);
            var d' := Written(d, a, StoreBlock(d, a, p, x));
            && a in owner && owner[a] == DataBlock(n, p / BLOCK_SIZE)
            && FileData(d', Stored(ino, p)) == Put(FileData(d, ino), p, x)
            && OwnsUpTo(d', Stored(ino, p), n, k, owner) && BlocksInUse(Stored(ino, p).size) <= k
            && OnlyDataOf(d, d', owner, n)
  {
    StoreKeepsOwned(d, ino, n, k, owner, p, x);
    WriteBytePut(d, ino, n, k, owner, p, x);
  }

  /** The bytes half of WriteByteStep: storing x at p changes the file's
      contents at p and nowhere else. */
  lemma WriteBytePut(d: seq<Block>, ino: Inode, n: int, k: nat, owner: Owner, p: nat, x: byte)
    requires |d| == NUM_BLOCKS
    requires OwnsUpTo(d, ino, n, k, owner) && BlocksInUse(ino.size) <= k
    requires p <= ino.size && p / BLOCK_SIZE < k
    requires var a := InodeIndexToAddress(ino, d, p / BLOCK_SIZE);
             var d' := Written(d, a, StoreBlock(d, a, p, x));
             && FIRST_DATA_ADDRESS <= a < FIRST_DATA_ADDRESS + SCANNED_BITS
             && forall b :: 0 <= b < k ==> InodeIndexToAddress(Stored(ino, p), d', b) == InodeIndexToAddress(ino, d, b)
    ensures var a := InodeIndexToAddress(ino, d, p / BLOCK_SIZE);
            FileData(Written(d, a, StoreBlock(d, a, p, x)), Stored(ino, p)) == Put(FileData(d, ino), p, x)
  {
    var bp := p / BLOCK_SIZE;
    var a := InodeIndexToAddress(ino, d, bp);
    var d' := Written(d, a, StoreBlock(d, a, p, x));
    var ino' := Stored(ino, p);
    var got := FileData(d', ino');
    var want := Put(FileData(d, ino), p, x);
    forall j | 0 <= j < |got|
      ensures got[j] == want[j]
    {
      var bj := j / BLOCK_SIZE;
      if j < ino.size {
        BlocksInUseCovers(ino.size, j);
      } else {
        BlocksInUseCovers(ino'.size, j);
      }
      var aj := InodeIndexToAddress(ino, d, bj);
      assert InodeIndexToAddress(ino', d', bj) == aj;
      if aj == a {
        assert owner[aj] == DataBlock(n, bj);
        if j != p {
          assert j % BLOCK_SIZE != p % BLOCK_SIZE;
        }
      }
    }
    assert got == want;
  }

  /* ---------------------------------------------------------------- */
  /* The inode table on the device                                     */
  /* ---------------------------------------------------------------- */

  /** read_blocks(1, 64, inode_table_cache): inode m is slot m % 8 of block 1 + m / 8. */
  ghost function LoadInodes(d: seq<Block>): (it: seq<Inode>)
    ensures |it| == NUM_INODES
  {
    seq(NUM_INODES, m requires 0 <= m < NUM_INODES =>
      InodeView(ReadBlock(d, 1 + m / INODES_PER_BLOCK))[m % INODES_PER_BLOCK])
  }

  /** write_blocks(1, 64, inode_table_cache): blocks 1 .. 64 receive the table, 8 inodes each. */
  ghost function FlushInodes(d: seq<Block>, it: seq<Inode>): (d': seq<Block>)
    requires |it| == NUM_INODES
    ensures |d'| == |d|
    ensures forall a :: 0 <= a < |d| && !(1 <= a <= INODE_TABLE_LENGTH) ==> d'[a] == d[a]
  {
    seq(|d|, a requires 0 <= a < |d| =>
      if 1 <= a <= INODE_TABLE_LENGTH
      then InodeSlice(it[INODES_PER_BLOCK * (a - 1)..INODES_PER_BLOCK * a])
      else d[a])
  }

  /** The table read back after it was written is the table written. */
  lemma FlushRoundTrip(d: seq<Block>, it: seq<Inode>)
    requires |d| == NUM_BLOCKS && |it| == NUM_INODES
    ensures LoadInodes(FlushInodes(d, it)) == it
  {
    var d' := FlushInodes(d, it);
    forall m | 0 <= m < NUM_INODES
      ensures LoadInodes(d')[m] == it[m]
    {
      var a := 1 + m / INODES_PER_BLOCK;
      assert d'[a] == InodeSlice(it[INODES_PER_BLOCK * (a - 1)..INODES_PER_BLOCK * a]);
      assert INODES_PER_BLOCK * (a - 1) + m % INODES_PER_BLOCK == m;
    }
  }
}
