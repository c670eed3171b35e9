/** The steps of the byte loop of sfs_fwrite (sfs_api.c). The loop keeps the
    block it is filling in a buffer and writes it to the device only when it
    moves to the next block, so the device it leaves behind lags the file by
    that one block. The lemmas reason about the device with the buffer
    written over it, the view a reader would have if the buffer were flushed. */
module WriteSteps {
  import opened Common
  import opened Util
  import opened DirList
  import opened DirCache
  import opened Consistency
  import opened Steps

  /** Moving from byte x - 1 to byte x crosses into the next block exactly at a block boundary. */
  lemma NextIndex(x: int)
    requires x >= 1
    ensures x % BLOCK_SIZE == 0 ==> x / BLOCK_SIZE == (x - 1) / BLOCK_SIZE + 1
    ensures x % BLOCK_SIZE != 0 ==> x / BLOCK_SIZE == (x - 1) / BLOCK_SIZE
  {
  }

  /** The buffer holds block curI of inode n, kept at curAddr: the device
      with the buffer written over it, dv, is the real device `disk` with
      curAddr replaced, and curAddr is n's data block curI. */
  ghost predicate Pending(dv: seq<Block>, disk: seq<Block>, ino: Inode, n: int, owner: Owner,
                          curI: nat, curAddr: int, buf: ByteTable) {
    && curAddr in owner && owner[curAddr] == DataBlock(n, curI)
    && curAddr == InodeIndexToAddress(ino, dv, curI)
    && 0 <= curAddr < |disk|
    && dv == Written(disk, curAddr, Bytes(buf))
  }

  /** Block b of a file that owns k blocks is its data block b. */
  lemma OwnedBlock(d: seq<Block>, ino: Inode, n: int, k: nat, owner: Owner, b: nat)
    requires OwnsUpTo(d, ino, n, k, owner) && b < k
    ensures InodeIndexToAddress(ino, d, b) in owner
    ensures owner[InodeIndexToAddress(ino, d, b)] == DataBlock(n, b)
  {
  }

  /** The real device resolves every block a file owns as the buffered view
      does: the pending block is a data block, never an indirect block. */
  lemma PendingResolve(dv: seq<Block>, disk: seq<Block>, ino: Inode, n: int, kn: nat, owner: Owner,
                       curI: nat, curAddr: int, buf: ByteTable, b: nat)
    requires Pending(dv, disk, ino, n, owner, curI, curAddr, buf)
    requires OwnsUpTo(dv, ino, n, kn, owner) && b < kn
    ensures InodeIndexToAddress(ino, disk, b) == InodeIndexToAddress(ino, dv, b)
  {
    if b < NUM_DIRECT {
      ResolveDirectNoRead(ino, disk, dv, b);
    } else {
      assert ino.indPtr in owner && owner[ino.indPtr] == IndirectBlock(n);
      assert ReadBlock(disk, ino.indPtr) == ReadBlock(dv, ino.indPtr);
      ResolveReadsIndirectOnly(ino, disk, dv, b);
    }
  }

  /** A successful allocate_block_to_inode at the end of the file, on the
      real device, seen through the buffer: the view is consistent with n
      owning one block more, the file's bytes and every other file are
      unchanged, and the buffer still stands for the same block. */
  lemma GrowPendingStep(dReal: seq<Block>, dv: seq<Block>, it: seq<Inode>, fs: seq<Fd>, dir: seq<DirEntry>, owner: Owner,
                        n: int, d1: seq<Block>, ino1: Inode, i: nat, curI: nat, curAddr: int, buf: ByteTable,
                        dv1: seq<Block>, o1: Owner)
    requires Consistent(dv, it, fs, dir, owner)
    requires 1 <= n < NUM_INODES && it[n].valid && it[n].size % BLOCK_SIZE == 0
    requires |dReal| == NUM_BLOCKS && Grown(dReal, it[n], d1, ino1)
    requires i == 0 ==> dv == dReal
    requires i > 0 ==> Pending(dv, dReal, it[n], n, owner, curI, curAddr, buf) && curI < BlocksInUse(it[n].size)
    requires dv1 == if i == 0 then d1 else Written(d1, curAddr, Bytes(buf))
    requires o1 == GrownOwner(dv, it[n], n, owner)
    ensures && ConsistentAt(dv1, it[n := ino1], fs, dir, o1, n, BlocksInUse(it[n].size) + 1)
            && ino1.size == it[n].size && ino1.valid
            && FileData(dv1, ino1) == FileData(dv, it[n])
            && Others(dv, dv1, it, n) && Grows(owner, o1) && Changed(dv, dv1, owner, n)
            && (i > 0 ==> Pending(dv1, d1, ino1, n, o1, curI, curAddr, buf))
  {
    var k := BlocksInUse(it[n].size);
    assert OwnsUpTo(dv, it[n], n, k, owner);
    if i > 0 {
      TargetNotData(dv, it[n], n, owner, curAddr);
      assert dv[FREEMAP_ADDRESS] == dReal[FREEMAP_ADDRESS];
      assert GrowTarget(dv, it[n]) == GrowTarget(dReal, it[n]);
      GrowCommutes(dReal, it[n], d1, ino1, n, owner, curAddr, Bytes(buf));
      assert Written(dReal, curAddr, Bytes(buf)) == dv;
    }
    assert Grown(dv, it[n], dv1, ino1);
    GrowStep(dv, it, fs, dir, owner, n, dv1, ino1);
    if i > 0 {
      OwnsBound(dv, it[n], n, k, owner, BitmapView(dv[FREEMAP_ADDRESS]));
      GrownResolves(dv, it[n], dv1, ino1);
      assert dv1 == Written(d1, curAddr, Bytes(buf));
    }
  }

  /** Reading block curI of inode n into the buffer (read_blocks of the
      address the resolver gives): the view with the buffer written over it
      is consistent, shows the same files, and the buffer stands for that block. */
  lemma LoadPendingStep(dv: seq<Block>, it: seq<Inode>, fs: seq<Fd>, dir: seq<DirEntry>, owner: Owner,
                        n: int, kn: nat, curI: nat)
    requires ConsistentAt(dv, it, fs, dir, owner, n, kn)
    requires 1 <= n < NUM_INODES && it[n].valid && curI < kn
    ensures var a := InodeIndexToAddress(it[n], dv, curI);
            var buf := ByteView(ReadBlock(dv, a));
            var dv' := Written(dv, a, Bytes(buf));
            && ConsistentAt(dv', it, fs, dir, owner, n, kn)
            && FileData(dv', it[n]) == FileData(dv, it[n])
            && (forall m :: 0 <= m < |it| && m != n && it[m].valid ==> FileKept(dv, dv', it[m]))
            && Changed(dv, dv', owner, n)
            && Pending(dv', dv, it[n], n, owner, curI, a, buf)
  {
    var a := InodeIndexToAddress(it[n], dv, curI);
    assert OwnsUpTo(dv, it[n], n, kn, owner);
    OwnedBlock(dv, it[n], n, kn, owner, curI);
    LoadStep(dv, it, fs, dir, owner, n, kn, a);
    var blk := Bytes(ByteView(ReadBlock(dv, a)));
    DataRewrite(dv, it[n], n, kn, owner, a, blk);
  }

  /** Storing byte x at the write pointer p of descriptor f into the buffer
      (block_buf[wptr % 1024] = buf[i]), then advancing the pointer and, at
      the end of the file, the size: the view is consistent again, the file's
      bytes become Put(bytes, p, x), no other file changes, and the buffer
      still stands for the same block. */
  lemma StorePendingStep(dv: seq<Block>, disk: seq<Block>, it: seq<Inode>, fs: seq<Fd>, dir: seq<DirEntry>, owner: Owner,
                         n: int, kn: nat, f: int, curI: nat, curAddr: int, buf: ByteTable, x: byte)
    requires ConsistentAt(dv, it, fs, dir, owner, n, kn)
    requires 1 <= n < NUM_INODES && it[n].valid
    requires 0 <= f < MAX_OPEN_FILES && fs[f].valid && fs[f].inodeNum == n
    requires curI == fs[f].wptr / BLOCK_SIZE && curI < kn
    requires Pending(dv, disk, it[n], n, owner, curI, curAddr, buf)
    ensures var p := fs[f].wptr;
            var buf' := buf[p % BLOCK_SIZE := x];
            var dv' := Written(disk, curAddr, Bytes(buf'));
            && Consistent(dv', it[n := Stored(it[n], p)], fs[f := fs[f].(wptr := p + 1)], dir, owner)
            && FileData(dv', Stored(it[n], p)) == Put(FileData(dv, it[n]), p, x)
            && (forall m :: 0 <= m < |it| && m != n && it[m].valid ==> FileKept(dv, dv', it[m]))
            && Changed(dv, dv', owner, n)
            && Pending(dv', disk, Stored(it[n], p), n, owner, curI, curAddr, buf')
  {
    var p := fs[f].wptr;
    StoreStep(dv, it, fs, dir, owner, n, kn, f, x);
    StoreMerge(disk, curAddr, buf, p, x);
    assert OwnsUpTo(dv, it[n], n, kn, owner);
    StoreKeepsOwned(dv, it[n], n, kn, owner, p, x);
  }

  /* ---------------------------------------------------------------- */
  /* The byte loop as a whole                                          */
  /* ---------------------------------------------------------------- */

  /** A call of sfs_fwrite: the state it starts from, descriptor f and the
      caller's bytes w. */
  datatype WriteCall = WriteCall(d0: seq<Block>, it0: seq<Inode>, fs0: seq<Fd>, o0: Owner, dir: seq<DirEntry>,
                                 f: int, w: seq<byte>)

  /** The loop's variables: the view through the buffer, the device, the
      inode table, the descriptors, the map, and cur_inode_i,
      cur_block_addr and block_buf. */
  datatype Loop = Loop(dv: seq<Block>, disk: seq<Block>, it: seq<Inode>, fs: seq<Fd>, owner: Owner,
                       curI: nat, curAddr: int, buf: ByteTable)

  /** The inode the call writes to. */
  function Ino(c: WriteCall): int {
    if 0 <= c.f < |c.fs0| then c.fs0[c.f].inodeNum else -1
  }

  /** The write pointer the call starts at. */
  function Start(c: WriteCall): int {
    if 0 <= c.f < |c.fs0| then c.fs0[c.f].wptr else 0
  }

  /** The call starts from a consistent state on an open descriptor. */
  ghost predicate Started(c: WriteCall) {
    && Consistent(c.d0, c.it0, c.fs0, c.dir, c.o0)
    && 0 <= c.f < MAX_OPEN_FILES && c.fs0[c.f].valid
  }

  /** Every valid inode of `it` but n reads the same file on both devices. */
  ghost predicate Others(d: seq<Block>, d': seq<Block>, it: seq<Inode>, n: int) {
    forall m {:trigger FileKept(d, d', it[m])} :: 0 <= m < |it| && m != n && it[m].valid ==> FileKept(d, d', it[m])
  }

  /** The map o' keeps every entry of o. */
  ghost predicate Grows(o: Owner, o': Owner) {
    forall a :: a in o ==> a in o' && o'[a] == o[a]
  }

  /** What i bytes of the loop have done, seen on device d: the file holds
      its old bytes with w[..i] written over them from the start pointer p,
      the write pointer is p + i, no other inode or descriptor has changed,
      every other file reads as before, the map only grew and only blocks
      that were free or the file's own changed. */
  ghost predicate Progress(c: WriteCall, i: int, d: seq<Block>, it: seq<Inode>, fs: seq<Fd>, owner: Owner) {
    var n := Ino(c);
    var p := Start(c);
    && 0 <= c.f < |c.fs0| && c.fs0[c.f].valid
    && |c.it0| == NUM_INODES && 1 <= n < NUM_INODES && 0 <= p <= c.it0[n].size
    && 0 <= i <= |c.w|
    && |it| == NUM_INODES && it[n].valid
    && fs == c.fs0[c.f := c.fs0[c.f].(wptr := p + i)]
    && it == c.it0[n := it[n]]
    && FileData(d, it[n]) == Overlay(FileData(c.d0, c.it0[n]), p, c.w[..i])
    && Others(c.d0, d, c.it0, n)
    && Grows(c.o0, owner)
    && Changed(c.d0, d, c.o0, n)
  }

  /** Before the first byte nothing is loaded and cur_inode_i is the block
      of the start pointer; afterwards the buffer holds the block of the
      last byte written. */
  ghost predicate Buffer(c: WriteCall, i: int, s: Loop)
    requires Progress(c, i, s.dv, s.it, s.fs, s.owner)
  {
    var n := Ino(c);
    var wp := Start(c) + i;
    && (i == 0 ==> s.dv == s.disk && s.curI == wp / BLOCK_SIZE)
    && (i > 0 ==> s.curI == (wp - 1) / BLOCK_SIZE && Pending(s.dv, s.disk, s.it[n], n, s.owner, s.curI, s.curAddr, s.buf))
  }

  /** The top of an iteration: i bytes written and the view consistent. */
  ghost predicate Writing(c: WriteCall, i: int, s: Loop) {
    && Progress(c, i, s.dv, s.it, s.fs, s.owner)
    && Consistent(s.dv, s.it, s.fs, c.dir, s.owner)
    && Buffer(c, i, s)
  }

  /** After the allocation check: the file owns kn blocks, among them the
      one holding the byte at the write pointer. */
  ghost predicate Placed(c: WriteCall, i: int, s: Loop, kn: nat) {
    && Progress(c, i, s.dv, s.it, s.fs, s.owner)
    && ConsistentAt(s.dv, s.it, s.fs, c.dir, s.owner, Ino(c), kn)
    && (Start(c) + i) / BLOCK_SIZE < kn
    && Buffer(c, i, s)
  }

  /** Ready to store the next byte: the buffer holds the block of the write pointer. */
  ghost predicate Ready(c: WriteCall, i: int, s: Loop, kn: nat) {
    && Progress(c, i, s.dv, s.it, s.fs, s.owner)
    && ConsistentAt(s.dv, s.it, s.fs, c.dir, s.owner, Ino(c), kn)
    && s.curI == (Start(c) + i) / BLOCK_SIZE < kn
    && Pending(s.dv, s.disk, s.it[Ino(c)], Ino(c), s.owner, s.curI, s.curAddr, s.buf)
  }

  /** Why the loop stops early: the write pointer is at the end of the file,
      at a block boundary, and the file cannot grow on the bitmap `fm`. */
  ghost predicate Stopped(c: WriteCall, i: int, fm: Block, it: seq<Inode>)
    requires |it| == NUM_INODES
  {
    var n := Ino(c);
    var wp := Start(c) + i;
    && 0 <= n < NUM_INODES
    && wp % BLOCK_SIZE == 0 && wp == it[n].size
    && !CanGrow(BitmapView(fm), it[n].size)
  }

  /** Nothing is written yet at the start of the call. */
  lemma WriteBegins(c: WriteCall, curI: nat)
    requires Started(c) && curI == Start(c) / BLOCK_SIZE
    ensures Writing(c, 0, Loop(c.d0, c.d0, c.it0, c.fs0, c.o0, curI, -1, seq(BLOCK_SIZE, _ => 0)))
  {
    var n := Ino(c);
    assert c.fs0[c.f].inodeNum == n;
    assert c.fs0[c.f := c.fs0[c.f].(wptr := Start(c) + 0)] == c.fs0;
    assert c.w[..0] == [];
    OverlayEmpty(FileData(c.d0, c.it0[n]), Start(c));
  }

  /** Files kept through two steps are kept. */
  lemma OthersTrans(d0: seq<Block>, d: seq<Block>, d': seq<Block>, it0: seq<Inode>, it: seq<Inode>, n: int)
    requires Others(d0, d, it0, n) && Others(d, d', it, n)
    requires |it| == |it0| && forall m :: 0 <= m < |it0| && m != n ==> it[m] == it0[m]
    ensures Others(d0, d', it0, n)
  {
    forall m | 0 <= m < |it0| && m != n && it0[m].valid
      ensures FileKept(d0, d', it0[m])
    {
      assert FileKept(d0, d, it0[m]) && FileKept(d, d', it[m]);
    }
  }

  /** Progress moves to a new state (and to i' bytes) when the file reads
      as w[..i'] written over its old bytes, the other files are kept, the
      map only grows and only free blocks or the file's change. */
  lemma ProgressMoves(c: WriteCall, i: int, d: seq<Block>, it: seq<Inode>, fs: seq<Fd>, owner: Owner,
                      i': int, d': seq<Block>, it': seq<Inode>, fs': seq<Fd>, owner': Owner)
    requires Progress(c, i, d, it, fs, owner)
    requires i <= i' <= |c.w|
    requires |it'| == NUM_INODES && it' == it[Ino(c) := it'[Ino(c)]] && it'[Ino(c)].valid
    requires fs' == c.fs0[c.f := c.fs0[c.f].(wptr := Start(c) + i')]
    requires FileData(d', it'[Ino(c)]) == Overlay(FileData(c.d0, c.it0[Ino(c)]), Start(c), c.w[..i'])
    requires Others(d, d', it, Ino(c)) && Grows(owner, owner') && Changed(d, d', owner, Ino(c))
    ensures Progress(c, i', d', it', fs', owner')
  {
    OthersTrans(c.d0, d, d', c.it0, it, Ino(c));
    ChangedTrans(c.d0, d, d', c.o0, owner, Ino(c));
  }

  /** No allocation: the write pointer lies inside the blocks the size needs. */
  lemma StayPlaced(c: WriteCall, i: int, s: Loop)
    requires Writing(c, i, s)
    requires !((Start(c) + i) % BLOCK_SIZE == 0 && Start(c) + i == s.it[Ino(c)].size)
    ensures Placed(c, i, s, BlocksInUse(s.it[Ino(c)].size))
  {
    var n := Ino(c);
    var wp := Start(c) + i;
    assert s.fs[c.f].wptr == wp && s.fs[c.f].inodeNum == n && s.fs[c.f].valid;
    Unsettle(s.dv, s.it, s.fs, c.dir, s.owner, n);
    InsideBlocks(s.it[n].size, wp);
  }

  /** A position before the end of the file, or at an end that is not on a
      block boundary, lies in one of the blocks the size needs. */
  lemma InsideBlocks(size: int, wp: int)
    requires 0 <= wp <= size && !(wp % BLOCK_SIZE == 0 && wp == size)
    ensures wp / BLOCK_SIZE < BlocksInUse(size)
  {
    if wp < size {
      BlocksInUseCovers(size, wp);
    }
  }

  /** The file is at a block boundary and allocate_block_to_inode succeeded
      on the device, giving state s2: the view is consistent with the file
      owning one block more, the block of the write pointer among them. */
  lemma GrowPlaced(c: WriteCall, i: int, s: Loop, s2: Loop, kn: nat)
    requires Writing(c, i, s)
    requires (Start(c) + i) % BLOCK_SIZE == 0 && Start(c) + i == s.it[Ino(c)].size
    requires |s.disk| == NUM_BLOCKS && |s2.it| == NUM_INODES && Grown(s.disk, s.it[Ino(c)], s2.disk, s2.it[Ino(c)])
    requires s2.it == s.it[Ino(c) := s2.it[Ino(c)]] && s2.fs == s.fs
    requires s2.owner == GrownOwner(s.dv, s.it[Ino(c)], Ino(c), s.owner)
    requires s2.dv == (if i == 0 then s2.disk else Written(s2.disk, s.curAddr, Bytes(s.buf)))
    requires s2.curI == s.curI && s2.curAddr == s.curAddr && s2.buf == s.buf
    requires kn == BlocksInUse(s.it[Ino(c)].size) + 1
    ensures Placed(c, i, s2, kn)
  {
    var n := Ino(c);
    GrowArgs(c, i, s);
    GrowConsistent(c, i, s, s2.disk, s2.it[n], s2.dv, s2.owner);
    GrowKeepsFiles(c, i, s, s2.disk, s2.it[n], s2.dv, s2.owner);
    GrowProgress(c, i, s.dv, s.it, s.fs, s.owner, s2.dv, s2.it[n], s2.owner);
  }

  /** allocate_block_to_inode failed at the end of the file on a block
      boundary: the loop stops there. */
  lemma StopsAt(c: WriteCall, i: int, s: Loop)
    requires Writing(c, i, s)
    requires (Start(c) + i) % BLOCK_SIZE == 0 && Start(c) + i == s.it[Ino(c)].size
    requires !CanGrow(BitmapView(s.disk[FREEMAP_ADDRESS]), s.it[Ino(c)].size)
    ensures Stopped(c, i, s.disk[FREEMAP_ADDRESS], s.it)
  {
  }

  /** The allocation check at the top of an iteration, given what the code
      did: `grew` says the write pointer was at the end of the file on a
      block boundary, `ok` whether allocate_block_to_inode succeeded there,
      and d1, it1 are the device and table afterwards. When the check
      fails the loop stops with the state as it was; otherwise the file
      owns kn blocks, the one of the write pointer among them. */
  lemma PlaceStep(c: WriteCall, i: int, s: Loop, n: int, wp: int, grew: bool, ok: bool, d1: seq<Block>, it1: seq<Inode>)
    returns (s': Loop, kn: nat)
    requires Writing(c, i, s) && n == Ino(c) && wp == Start(c) + i
    requires grew == (wp % BLOCK_SIZE == 0 && wp == s.it[n].size)
    requires grew ==> ok == CanGrow(BitmapView(s.disk[FREEMAP_ADDRESS]), s.it[n].size)
    requires !grew ==> ok
    requires !(grew && ok) ==> d1 == s.disk && it1 == s.it
    requires grew && ok ==>
               |it1| == NUM_INODES && Grown(s.disk, s.it[n], d1, it1[n]) && it1 == s.it[n := it1[n]]
    ensures s'.disk == d1 && s'.it == it1 && s'.fs == s.fs
    ensures s'.curI == s.curI && s'.curAddr == s.curAddr && s'.buf == s.buf
    ensures !ok ==> s' == s && Stopped(c, i, s.disk[FREEMAP_ADDRESS], s.it)
    ensures ok ==> Placed(c, i, s', kn)
  {
    if !grew {
      StayPlaced(c, i, s);
      s', kn := s, BlocksInUse(s.it[n].size);
    } else if !ok {
      StopsAt(c, i, s);
      s', kn := s, 0;
    } else {
      s' := Loop(if i == 0 then d1 else Written(d1, s.curAddr, Bytes(s.buf)), d1, it1, s.fs,
                 GrownOwner(s.dv, s.it[n], n, s.owner), s.curI, s.curAddr, s.buf);
      kn := BlocksInUse(s.it[n].size) + 1;
      GrowPlaced(c, i, s, s', kn);
    }
  }

  /** The facts about the write pointer the loop's code reads off the descriptor. */
  lemma AtPointer(c: WriteCall, i: int, s: Loop) returns (n: int, wp: int)
    requires Progress(c, i, s.dv, s.it, s.fs, s.owner)
    ensures n == Ino(c) && wp == Start(c) + i
    ensures 0 <= c.f < |s.fs| && s.fs[c.f].valid && s.fs[c.f].inodeNum == n && s.fs[c.f].wptr == wp
    ensures 1 <= n < |s.it| == NUM_INODES
  {
    n, wp := Ino(c), Start(c) + i;
  }

  /** The grow seen through the buffer (GrowPendingStep) in the loop's
      terms: the view stays consistent with the file owning one block more. */
  lemma GrowConsistent(c: WriteCall, i: int, s: Loop, d1: seq<Block>, ino1: Inode, dv1: seq<Block>, o1: Owner)
    requires var n := Ino(c);
            && Consistent(s.dv, s.it, s.fs, c.dir, s.owner)
            && 1 <= n < NUM_INODES && s.it[n].valid && s.it[n].size % BLOCK_SIZE == 0
            && i >= 0 && (i == 0 ==> s.dv == s.disk)
            && (i > 0 ==> Pending(s.dv, s.disk, s.it[n], n, s.owner, s.curI, s.curAddr, s.buf) && s.curI < BlocksInUse(s.it[n].size))
    requires |s.disk| == NUM_BLOCKS && Grown(s.disk, s.it[Ino(c)], d1, ino1)
    requires dv1 == if i == 0 then d1 else Written(d1, s.curAddr, Bytes(s.buf))
    requires o1 == GrownOwner(s.dv, s.it[Ino(c)], Ino(c), s.owner)
    ensures ConsistentAt(dv1, s.it[Ino(c) := ino1], s.fs, c.dir, o1, Ino(c), BlocksInUse(s.it[Ino(c)].size) + 1)
  {
    GrowPendingStep(s.disk, s.dv, s.it, s.fs, c.dir, s.owner, Ino(c), d1, ino1, i, s.curI, s.curAddr, s.buf, dv1, o1);
  }

  /** The grow seen through the buffer: the file's bytes and every other
      file are unchanged, and the buffer still stands for the same block. */
  lemma GrowKeepsFiles(c: WriteCall, i: int, s: Loop, d1: seq<Block>, ino1: Inode, dv1: seq<Block>, o1: Owner)
    requires Writing(c, i, s)
    requires (Start(c) + i) % BLOCK_SIZE == 0 && Start(c) + i == s.it[Ino(c)].size
    requires |s.disk| == NUM_BLOCKS && Grown(s.disk, s.it[Ino(c)], d1, ino1)
    requires dv1 == if i == 0 then d1 else Written(d1, s.curAddr, Bytes(s.buf))
    requires o1 == GrownOwner(s.dv, s.it[Ino(c)], Ino(c), s.owner)
    ensures var n := Ino(c);
            && ino1.valid && FileData(dv1, ino1) == FileData(s.dv, s.it[n])
            && Others(s.dv, dv1, s.it, n) && Grows(s.owner, o1) && Changed(s.dv, dv1, s.owner, n)
            && (i > 0 ==> Pending(dv1, d1, ino1, n, o1, s.curI, s.curAddr, s.buf))
  {
    GrowArgs(c, i, s);
    GrowPendingStep(s.disk, s.dv, s.it, s.fs, c.dir, s.owner, Ino(c), d1, ino1, i, s.curI, s.curAddr, s.buf, dv1, o1);
  }

  /** At the end of the file on a block boundary, the loop's state meets what
      GrowPendingStep asks of the view and of the buffer. */
  lemma GrowArgs(c: WriteCall, i: int, s: Loop)
    requires Writing(c, i, s)
    requires (Start(c) + i) % BLOCK_SIZE == 0 && Start(c) + i == s.it[Ino(c)].size
    ensures var n := Ino(c);
            && Consistent(s.dv, s.it, s.fs, c.dir, s.owner)
            && 1 <= n < NUM_INODES && s.it[n].valid && s.it[n].size % BLOCK_SIZE == 0
            && i >= 0 && (i == 0 ==> s.dv == s.disk)
            && (i > 0 ==> Pending(s.dv, s.disk, s.it[n], n, s.owner, s.curI, s.curAddr, s.buf) && s.curI < BlocksInUse(s.it[n].size))
            && (Start(c) + i) / BLOCK_SIZE < BlocksInUse(s.it[n].size) + 1
  {
    var n := Ino(c);
    var wp := Start(c) + i;
    assert 1 <= n < NUM_INODES && s.it[n].valid && s.it[n].size % BLOCK_SIZE == 0;
    BlocksInUseAtBoundary(wp);
    if i > 0 {
      NextIndex(wp);
    }
  }

  /** The loop's progress carried over a grow that keeps the file's bytes. */
  lemma GrowProgress(c: WriteCall, i: int, d: seq<Block>, it: seq<Inode>, fs: seq<Fd>, owner: Owner,
                     d': seq<Block>, ino1: Inode, owner': Owner)
    requires Progress(c, i, d, it, fs, owner)
    requires ino1.valid && FileData(d', ino1) == FileData(d, it[Ino(c)])
    requires Others(d, d', it, Ino(c)) && Grows(owner, owner') && Changed(d, d', owner, Ino(c))
    ensures Progress(c, i, d', it[Ino(c) := ino1], fs, owner')
  {
    ProgressMoves(c, i, d, it, fs, owner, i, d', it[Ino(c) := ino1], fs, owner');
  }

  /** Where the loop reads a block (at a boundary or at the first byte): the
      buffer, if any, stands for the previous block, and cur_inode_i is the
      block of the write pointer once it has moved on past the buffer. */
  lemma LoadIndex(c: WriteCall, i: int, s: Loop, kn: nat)
    requires Placed(c, i, s, kn)
    requires (Start(c) + i) % BLOCK_SIZE == 0 || i == 0
    ensures var wp := Start(c) + i;
            && wp / BLOCK_SIZE < kn
            && (i == 0 ==> s.dv == s.disk && s.curI == wp / BLOCK_SIZE)
            && (i > 0 ==> s.curI + 1 == wp / BLOCK_SIZE)
  {
    var wp := Start(c) + i;
    if i > 0 {
      NextIndex(wp);
    }
  }

  /** The address the loop gives back the buffer to: the real device
      resolves block cur_inode_i to the buffer's block, so writing the
      buffer there makes the device what the view showed. */
  lemma LoadAddress(c: WriteCall, i: int, s: Loop, kn: nat)
    requires Placed(c, i, s, kn) && i > 0 && (Start(c) + i) % BLOCK_SIZE == 0
    ensures && 0 <= s.curAddr < |s.disk|
            && InodeIndexToAddress(s.it[Ino(c)], s.disk, s.curI) == s.curAddr
            && Written(s.disk, s.curAddr, Bytes(s.buf)) == s.dv
  {
    var n := Ino(c);
    assert s.fs[c.f].inodeNum == n && s.fs[c.f].valid;
    assert OwnsUpTo(s.dv, s.it[n], n, kn, s.owner);
    LoadIndex(c, i, s, kn);
    PendingResolve(s.dv, s.disk, s.it[n], n, kn, s.owner, s.curI, s.curAddr, s.buf, s.curI);
  }

  /** read_blocks of block curI into the buffer, on the device that shows
      what the view showed: the loop is ready to store the next byte. */
  lemma LoadReady(c: WriteCall, i: int, s: Loop, kn: nat, curI: nat)
    requires Placed(c, i, s, kn) && curI == (Start(c) + i) / BLOCK_SIZE < kn
    ensures var n := Ino(c);
            var a := InodeIndexToAddress(s.it[n], s.dv, curI);
            var buf := ByteView(ReadBlock(s.dv, a));
            Ready(c, i, Loop(Written(s.dv, a, Bytes(buf)), s.dv, s.it, s.fs, s.owner, curI, a, buf), kn)
  {
    LoadFacts(c, i, s, kn, curI);
    LoadProgress(c, i, s, kn, curI);
  }

  /** Reading a block into the buffer keeps the loop's progress. */
  lemma LoadProgress(c: WriteCall, i: int, s: Loop, kn: nat, curI: nat)
    requires Placed(c, i, s, kn) && curI < kn
    ensures var a := InodeIndexToAddress(s.it[Ino(c)], s.dv, curI);
            Progress(c, i, Written(s.dv, a, Bytes(ByteView(ReadBlock(s.dv, a)))), s.it, s.fs, s.owner)
  {
    var n := Ino(c);
    var a := InodeIndexToAddress(s.it[n], s.dv, curI);
    LoadFacts(c, i, s, kn, curI);
    ProgressOnDevice(c, i, s.dv, s.it, s.fs, s.owner, Written(s.dv, a, Bytes(ByteView(ReadBlock(s.dv, a)))));
  }

  /** Progress carries over to a device that shows the file and every
      other file as before and differs only in free blocks or the file's. */
  lemma ProgressOnDevice(c: WriteCall, i: int, d: seq<Block>, it: seq<Inode>, fs: seq<Fd>, owner: Owner, d': seq<Block>)
    requires Progress(c, i, d, it, fs, owner)
    requires FileData(d', it[Ino(c)]) == FileData(d, it[Ino(c)])
    requires Others(d, d', it, Ino(c)) && Changed(d, d', owner, Ino(c))
    ensures Progress(c, i, d', it, fs, owner)
  {
    OthersTrans(c.d0, d, d', c.it0, it, Ino(c));
    ChangedTrans(c.d0, d, d', c.o0, owner, Ino(c));
  }

  /** LoadPendingStep in the loop's terms. */
  lemma LoadFacts(c: WriteCall, i: int, s: Loop, kn: nat, curI: nat)
    requires Placed(c, i, s, kn) && curI < kn
    ensures var n := Ino(c);
            var a := InodeIndexToAddress(s.it[n], s.dv, curI);
            var buf := ByteView(ReadBlock(s.dv, a));
            var dv' := Written(s.dv, a, Bytes(buf));
            && ConsistentAt(dv', s.it, s.fs, c.dir, s.owner, n, kn)
            && FileData(dv', s.it[n]) == FileData(s.dv, s.it[n])
            && Others(s.dv, dv', s.it, n)
            && Changed(s.dv, dv', s.owner, n)
            && Pending(dv', s.dv, s.it[n], n, s.owner, curI, a, buf)
  {
    var n := Ino(c);
    assert 1 <= n < NUM_INODES && s.it[n].valid;
    LoadPendingStep(s.dv, s.it, s.fs, c.dir, s.owner, n, kn, curI);
  }

  /** Inside a block after the first byte the buffer already holds the
      block of the write pointer. */
  lemma KeepReady(c: WriteCall, i: int, s: Loop, kn: nat)
    requires Placed(c, i, s, kn) && i > 0 && (Start(c) + i) % BLOCK_SIZE != 0
    ensures Ready(c, i, s, kn)
  {
    NextIndex(Start(c) + i);
  }

  /** The block fetch, given what the code did: at a boundary or at the
      first byte, cur_inode_i moves on past the buffer (which went back to
      the device d1 first when i > 0) and the block it names is read from
      d1 into buf1; elsewhere nothing changes. Afterwards the loop is ready
      to store the next byte. */
  lemma FetchStep(c: WriteCall, i: int, s: Loop, kn: nat, n: int, wp: int, d1: seq<Block>, curI1: nat, addr1: int, buf1: ByteTable)
    returns (s': Loop)
    requires Placed(c, i, s, kn) && n == Ino(c) && wp == Start(c) + i
    requires !(wp % BLOCK_SIZE == 0 || i == 0) ==>
               d1 == s.disk && curI1 == s.curI && addr1 == s.curAddr && buf1 == s.buf
    requires i == 0 ==>
               d1 == s.disk && curI1 == s.curI && addr1 == InodeIndexToAddress(s.it[n], d1, curI1)
               && buf1 == ByteView(ReadBlock(d1, addr1))
    requires wp % BLOCK_SIZE == 0 && i != 0 ==>
               d1 == Written(s.disk, InodeIndexToAddress(s.it[n], s.disk, s.curI), Bytes(s.buf))
               && curI1 == s.curI + 1 && addr1 == InodeIndexToAddress(s.it[n], d1, curI1)
               && buf1 == ByteView(ReadBlock(d1, addr1))
    ensures s'.disk == d1 && s'.it == s.it && s'.fs == s.fs && s'.owner == s.owner
    ensures s'.curI == curI1 && s'.curAddr == addr1 && s'.buf == buf1
    ensures Ready(c, i, s', kn)
  {
    if (Start(c) + i) % BLOCK_SIZE == 0 || i == 0 {
      LoadIndex(c, i, s, kn);
      if i != 0 {
        LoadAddress(c, i, s, kn);
      }
      assert d1 == s.dv;
      LoadReady(c, i, s, kn, curI1);
      s' := Loop(Written(s.dv, addr1, Bytes(buf1)), s.dv, s.it, s.fs, s.owner, curI1, addr1, buf1);
    } else {
      KeepReady(c, i, s, kn);
      s' := s;
    }
  }

  /** What StorePendingStep asks of the loop's state when it is ready. */
  lemma StoreArgs(c: WriteCall, i: int, s: Loop, kn: nat)
    requires Ready(c, i, s, kn)
    ensures var n := Ino(c);
            && ConsistentAt(s.dv, s.it, s.fs, c.dir, s.owner, n, kn)
            && 1 <= n < NUM_INODES && s.it[n].valid
            && 0 <= c.f < MAX_OPEN_FILES && s.fs[c.f].valid && s.fs[c.f].inodeNum == n
            && s.fs[c.f].wptr == Start(c) + i
            && s.curI == s.fs[c.f].wptr / BLOCK_SIZE && s.curI < kn
            && Pending(s.dv, s.disk, s.it[n], n, s.owner, s.curI, s.curAddr, s.buf)
  {
    assert s.fs[c.f].inodeNum == Ino(c);
  }

  /** StorePendingStep in the loop's terms: the view is consistent again. */
  lemma StoreConsistent(c: WriteCall, i: int, s: Loop, kn: nat, p: int, x: byte)
    requires var n := Ino(c);
             && ConsistentAt(s.dv, s.it, s.fs, c.dir, s.owner, n, kn)
             && 1 <= n < NUM_INODES && s.it[n].valid
             && 0 <= c.f < MAX_OPEN_FILES && s.fs[c.f].valid && s.fs[c.f].inodeNum == n
             && s.curI == s.fs[c.f].wptr / BLOCK_SIZE && s.curI < kn
             && Pending(s.dv, s.disk, s.it[n], n, s.owner, s.curI, s.curAddr, s.buf)
    requires p == s.fs[c.f].wptr
    ensures var n := Ino(c);
            var buf' := s.buf[p % BLOCK_SIZE := x];
            Consistent(Written(s.disk, s.curAddr, Bytes(buf')), s.it[n := Stored(s.it[n], p)],
                       s.fs[c.f := s.fs[c.f].(wptr := p + 1)], c.dir, s.owner)
  {
    StorePendingStep(s.dv, s.disk, s.it, s.fs, c.dir, s.owner, Ino(c), kn, c.f, s.curI, s.curAddr, s.buf, x);
  }

  /** StorePendingStep in the loop's terms: the file reads x at p, nothing
      else changes, and the buffer still stands for the same block. */
  lemma StoreKeepsFiles(c: WriteCall, i: int, s: Loop, kn: nat, p: int, x: byte)
    requires var n := Ino(c);
             && ConsistentAt(s.dv, s.it, s.fs, c.dir, s.owner, n, kn)
             && 1 <= n < NUM_INODES && s.it[n].valid
             && 0 <= c.f < MAX_OPEN_FILES && s.fs[c.f].valid && s.fs[c.f].inodeNum == n
             && s.curI == s.fs[c.f].wptr / BLOCK_SIZE && s.curI < kn
             && Pending(s.dv, s.disk, s.it[n], n, s.owner, s.curI, s.curAddr, s.buf)
    requires p == s.fs[c.f].wptr
    ensures var n := Ino(c);
            var buf' := s.buf[p % BLOCK_SIZE := x];
            var dv' := Written(s.disk, s.curAddr, Bytes(buf'));
            && FileData(dv', Stored(s.it[n], p)) == Put(FileData(s.dv, s.it[n]), p, x)
            && Others(s.dv, dv', s.it, n)
            && Changed(s.dv, dv', s.owner, n)
            && Pending(dv', s.disk, Stored(s.it[n], p), n, s.owner, s.curI, s.curAddr, buf')
  {
    StorePendingStep(s.dv, s.disk, s.it, s.fs, c.dir, s.owner, Ino(c), kn, c.f, s.curI, s.curAddr, s.buf, x);
  }

  /** One more byte of w written at the write pointer: the file reads
      w[..i+1] over its old bytes. */
  lemma StoreProgress(c: WriteCall, i: int, d: seq<Block>, it: seq<Inode>, fs: seq<Fd>, owner: Owner,
                      p: int, d': seq<Block>, ino': Inode)
    requires Progress(c, i, d, it, fs, owner) && i < |c.w| && p == Start(c) + i
    requires ino'.valid && FileData(d', ino') == Put(FileData(d, it[Ino(c)]), p, c.w[i])
    requires Others(d, d', it, Ino(c)) && Changed(d, d', owner, Ino(c))
    ensures Progress(c, i + 1, d', it[Ino(c) := ino'], fs[c.f := fs[c.f].(wptr := p + 1)], owner)
  {
    var n := Ino(c);
    var fs' := fs[c.f := fs[c.f].(wptr := Start(c) + i + 1)];
    OverlayStep(FileData(c.d0, c.it0[n]), Start(c), c.w, i, FileData(d, it[n]), FileData(d', ino'));
    assert fs' == c.fs0[c.f := c.fs0[c.f].(wptr := Start(c) + i + 1)];
    ProgressMoves(c, i, d, it, fs, owner, i + 1, d', it[n := ino'], fs', owner);
  }

  /** Storing w[i] at p + i into w[..i] written over data gives w[..i+1] written over it. */
  lemma OverlayStep(data: seq<byte>, p: nat, w: seq<byte>, i: nat, cur: seq<byte>, next: seq<byte>)
    requires p <= |data| && i < |w|
    requires cur == Overlay(data, p, w[..i]) && next == Put(cur, p + i, w[i])
    ensures next == Overlay(data, p, w[..i + 1])
  {
    OverlaySnoc(data, p, w[..i], w[i]);
    assert w[..i] + [w[i]] == w[..i + 1];
  }

  /** The store, given what the code did: buf1, it1 and fs1 are block_buf,
      the inode table and the descriptors after the byte is stored. The
      loop is back at its top with one byte more written. */
  lemma PutStep(c: WriteCall, i: int, s: Loop, kn: nat, n: int, wp: int, buf1: ByteTable, it1: seq<Inode>, fs1: seq<Fd>)
    returns (s': Loop)
    requires Ready(c, i, s, kn) && i < |c.w| && n == Ino(c) && wp == Start(c) + i
    requires buf1 == s.buf[wp % BLOCK_SIZE := c.w[i]]
    requires it1 == s.it[n := Stored(s.it[n], wp)]
    requires fs1 == s.fs[c.f := s.fs[c.f].(wptr := wp + 1)]
    ensures s'.disk == s.disk && s'.it == it1 && s'.fs == fs1 && s'.owner == s.owner
    ensures s'.curI == s.curI && s'.curAddr == s.curAddr && s'.buf == buf1
    ensures Writing(c, i + 1, s')
  {
    var dv' := Written(s.disk, s.curAddr, Bytes(buf1));
    StoreArgs(c, i, s, kn);
    StoreConsistent(c, i, s, kn, wp, c.w[i]);
    StoreKeepsFiles(c, i, s, kn, wp, c.w[i]);
    StoreProgress(c, i, s.dv, s.it, s.fs, s.owner, wp, dv', Stored(s.it[n], wp));
    s' := Loop(dv', s.disk, it1, fs1, s.owner, s.curI, s.curAddr, buf1);
  }

  /** After the loop: writing the buffer back (when a block was loaded)
      makes the device what the view showed, and the bitmap block is the
      one the loop saw. */
  lemma FlushArgs(c: WriteCall, r: int, s: Loop)
    requires Writing(c, r, s)
    ensures r > 0 ==> 0 <= s.curAddr < |s.disk| && Written(s.disk, s.curAddr, Bytes(s.buf)) == s.dv
    ensures r <= 0 ==> s.disk == s.dv
    ensures |s.dv| == |s.disk| == NUM_BLOCKS && s.dv[FREEMAP_ADDRESS] == s.disk[FREEMAP_ADDRESS]
  {
    if r > 0 {
      var n := Ino(c);
      assert s.curAddr in s.owner;
      assert OwnerOk(s.owner, BitmapView(s.dv[FREEMAP_ADDRESS]));
    }
  }

  /** write_blocks(1, 64, inode_table_cache) at the end of sfs_fwrite: the
      device stays consistent, shows every file as before, keeps the bitmap
      and holds the table it was given. */
  lemma FlushConsistent(d: seq<Block>, it: seq<Inode>, fs: seq<Fd>, dir: seq<DirEntry>, owner: Owner, n: int)
    requires Consistent(d, it, fs, dir, owner)
    ensures var d' := FlushInodes(d, it);
            && Consistent(d', it, fs, dir, owner)
            && d' == FlushInodes(d', it)
            && d'[FREEMAP_ADDRESS] == d[FREEMAP_ADDRESS]
            && (forall m :: 0 <= m < |it| && it[m].valid ==> FileKept(d, d', it[m]))
            && Changed(d, d', owner, n)
  {
    FlushKeeps(d, it, fs, dir, owner, -1, 0);
    FlushSpares(d, it, owner, n);
    FlushTwice(d, it);
  }

  /** The loop's progress survives a step that keeps every file's bytes. */
  lemma KeptProgress(c: WriteCall, i: int, d: seq<Block>, it: seq<Inode>, fs: seq<Fd>, owner: Owner, d': seq<Block>)
    requires Progress(c, i, d, it, fs, owner)
    requires forall m :: 0 <= m < |it| && it[m].valid ==> FileKept(d, d', it[m])
    requires Changed(d, d', owner, Ino(c))
    ensures Progress(c, i, d', it, fs, owner)
  {
    var n := Ino(c);
    assert FileKept(d, d', it[n]);
    ProgressMoves(c, i, d, it, fs, owner, i, d', it, fs, owner);
  }

  /** The end of sfs_fwrite: the buffer and then the inode table are
      written. The device is consistent, holds the table, shows the file
      with w[..r] written over it and keeps the bitmap the loop saw. */
  lemma WriteEnds(c: WriteCall, r: int, s: Loop)
    requires Writing(c, r, s)
    ensures r > 0 ==> 0 <= s.curAddr < |s.disk| && Written(s.disk, s.curAddr, Bytes(s.buf)) == s.dv
    ensures r <= 0 ==> s.disk == s.dv
    ensures var d' := FlushInodes(s.dv, s.it);
            && Consistent(d', s.it, s.fs, c.dir, s.owner)
            && Progress(c, r, d', s.it, s.fs, s.owner)
            && d' == FlushInodes(d', s.it)
            && d'[FREEMAP_ADDRESS] == s.disk[FREEMAP_ADDRESS]
  {
    FlushArgs(c, r, s);
    FlushConsistent(s.dv, s.it, s.fs, c.dir, s.owner, Ino(c));
    KeptProgress(c, r, s.dv, s.it, s.fs, s.owner, FlushInodes(s.dv, s.it));
  }

  /** What a write leaves for sfs_fread: reading r bytes from the old write
      pointer p gives back w[..r], the bytes before p are the old ones, and
      the size is the larger of the old size and p + r. */
  lemma ReadsBack(c: WriteCall, r: int, d: seq<Block>, it: seq<Inode>, fs: seq<Fd>, owner: Owner)
    requires Progress(c, r, d, it, fs, owner)
    ensures var p := Start(c);
            var prev := FileData(c.d0, c.it0[Ino(c)]);
            var data := FileData(d, it[Ino(c)]);
            && 0 <= p && p + r <= |data|
            && data[p..p + r] == c.w[..r]
            && data[..p] == prev[..p]
            && |data| == (if p + r > |prev| then p + r else |prev|)
  {
  }
}
