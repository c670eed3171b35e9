/** sfs_util.c: the first-fit free-block bitmap allocator, the open-file
    descriptor table helpers, the block-pointer resolver and the grower that
    adds one block to an inode. */
module Util {
  import opened Common
  import DirList

  /* ---------------------------------------------------------------- */
  /* Free bitmap                                                       */
  /* ---------------------------------------------------------------- */

  /** Number of clear (free) bits among bits 0 .. n-1. */
  function CountClear(bits: seq<bool>, n: nat): nat
    requires n <= |bits|
  {
    if n == 0 then 0 else CountClear(bits, n - 1) + (if bits[n - 1] then 0 else 1)
  }

  lemma {:induction false} CountClearMono(bits: seq<bool>, i: nat, j: nat)
    requires i <= j <= |bits|
    ensures CountClear(bits, i) <= CountClear(bits, j)
    decreases j - i
  {
    if i < j {
      CountClearMono(bits, i, j - 1);
    }
  }

  /** Some bit below n is clear exactly when the count of clear bits below n is positive. */
  lemma {:induction false} CountClearPositive(bits: seq<bool>, n: nat)
    requires n <= |bits|
    ensures CountClear(bits, n) > 0 <==> exists i :: 0 <= i < n && !bits[i]
  {
    if n > 0 {
      CountClearPositive(bits, n - 1);
    }
  }

  /** Claiming a clear bit below n lowers the count below n by one. */
  lemma {:induction false} CountClearClaim(bits: seq<bool>, i: nat, n: nat)
    requires i < n <= |bits| && !bits[i]
    ensures CountClear(bits[i := true], n) == CountClear(bits, n) - 1
  {
    if n - 1 == i {
      CountClearSame(bits, bits[i := true], n - 1);
    } else {
      CountClearClaim(bits, i, n - 1);
    }
  }

  lemma {:induction false} CountClearSame(a: seq<bool>, b: seq<bool>, n: nat)
    requires n <= |a| && n <= |b|
    requires forall i :: 0 <= i < n ==> a[i] == b[i]
    ensures CountClear(a, n) == CountClear(b, n)
  {
    if n > 0 {
      CountClearSame(a, b, n - 1);
    }
  }

  /** Lowest clear bit at or above i among the scanned bits, or -1. */
  function FirstClearFrom(bits: seq<bool>, i: nat): (r: int)
    requires |bits| >= SCANNED_BITS && i <= SCANNED_BITS
    ensures r == -1 || i <= r < SCANNED_BITS
    ensures r == -1 <==> forall j :: i <= j < SCANNED_BITS ==> bits[j]
    ensures r >= 0 ==> !bits[r] && forall j :: i <= j < r ==> bits[j]
    decreases SCANNED_BITS - i
  {
    if i == SCANNED_BITS then -1
    else if !bits[i] then i
    else FirstClearFrom(bits, i + 1)
  }

  /** The bit the allocator claims: the lowest clear one among bits 0 .. 1023. */
  function FirstClear(bits: seq<bool>): (r: int)
    requires |bits| >= SCANNED_BITS
  {
    FirstClearFrom(bits, 0)
  }

  /** The allocator finds a bit exactly when the count of free bits is positive. */
  lemma FirstClearFound(bits: seq<bool>)
    requires |bits| >= SCANNED_BITS
    ensures FirstClear(bits) >= 0 <==> CountClear(bits, SCANNED_BITS) >= 1
  {
    CountClearPositive(bits, SCANNED_BITS);
  }

  /** Address of the data block that bit i of the bitmap stands for. */
  function AddressOfBit(i: int): int {
    FIRST_DATA_ADDRESS + i
  }

  /** Bit of the bitmap that stands for data block address a. */
  function BitOfAddress(a: int): int {
    a - FIRST_DATA_ADDRESS
  }

  /** fm_is_available: counts clear bits, stopping as soon as the count
      equals the request. For a positive request the answer is whether that
      many scanned bits are free; for 0 the loop stops at once exactly when bit 0
      is set; a negative request is never met. The map is only read. */
  method FmIsAvailable(disk: array<Block>, blocksRequested: int) returns (r: bool)
    requires disk.Length == NUM_BLOCKS
    ensures blocksRequested >= 1 ==>
              (r <==> CountClear(BitmapView(disk[FREEMAP_ADDRESS]), SCANNED_BITS) >= blocksRequested)
    ensures blocksRequested == 0 ==> (r <==> BitmapView(disk[FREEMAP_ADDRESS])[0])
    ensures blocksRequested < 0 ==> !r
  {
    var freemap := BitmapView(ReadBlock(disk[..], FREEMAP_ADDRESS));
    var freeBlocksFound := 0;
    var i := 0;
    while i < SCANNED_BITS
      invariant 0 <= i <= SCANNED_BITS
      invariant freeBlocksFound == CountClear(freemap, i)
      invariant blocksRequested >= 1 ==> freeBlocksFound < blocksRequested
      invariant blocksRequested == 0 && i > 0 ==> !freemap[0] && freeBlocksFound >= 1
      invariant blocksRequested < 0 ==> freeBlocksFound >= 0
    {
      if !freemap[i] {
        freeBlocksFound := freeBlocksFound + 1;
      }
      if freeBlocksFound == blocksRequested {
        CountClearMono(freemap, i + 1, SCANNED_BITS);
        break;
      }
      i := i + 1;
    }
    r := freeBlocksFound == blocksRequested;
  }

  /** fm_get_next_address_and_allocate: claims the lowest clear scanned bit,
      writes the map back and returns the matching data-block address; -1
      and no change when every scanned bit is set. */
  method FmGetNextAddressAndAllocate(disk: array<Block>) returns (nextAddress: int)
    requires disk.Length == NUM_BLOCKS
    modifies disk
    ensures var bits := BitmapView(old(disk[FREEMAP_ADDRESS]));
            var i := FirstClear(bits);
            if i >= 0 then
              && nextAddress == AddressOfBit(i)
              && disk[..] == old(disk[..])[FREEMAP_ADDRESS := Bitmap(bits[i := true])]
            else
              nextAddress == -1 && disk[..] == old(disk[..])
  {
    nextAddress := -1;
    var freemap := BitmapView(ReadBlock(disk[..], FREEMAP_ADDRESS));
    var i := 0;
    while i < SCANNED_BITS
      invariant 0 <= i <= SCANNED_BITS
      invariant FirstClear(freemap) == FirstClearFrom(freemap, i)
      invariant disk[..] == old(disk[..]) && nextAddress == -1
    {
      if !freemap[i] {
        freemap := freemap[i := true];
        WriteBlock(disk, FREEMAP_ADDRESS, Bitmap(freemap));
        nextAddress := AddressOfBit(i);
        break;
      }
      i := i + 1;
    }
  }

  /* ---------------------------------------------------------------- */
  /* Open-file descriptor table                                        */
  /* ---------------------------------------------------------------- */

  /** init_open_file_descriptor_table: every entry becomes invalid; the
      other fields of an entry are left as they were. */
  method InitOpenFileDescriptorTable(fds: array<Fd>)
    requires fds.Length == MAX_OPEN_FILES
    modifies fds
    ensures forall i :: 0 <= i < fds.Length ==> fds[i] == old(fds[i]).(valid := false)
  {
    for i := 0 to MAX_OPEN_FILES
      invariant forall j :: 0 <= j < i ==> fds[j] == old(fds[j]).(valid := false)
      invariant forall j :: i <= j < fds.Length ==> fds[j] == old(fds[j])
    {
      fds[i] := fds[i].(valid := false);
    }
  }

  /** get_next_fd: the lowest invalid descriptor index, or -1 when all are valid. */
  method GetNextFd(fds: array<Fd>) returns (nextFd: int)
    requires fds.Length == MAX_OPEN_FILES
    ensures -1 <= nextFd < MAX_OPEN_FILES
    ensures nextFd == -1 <==> forall i :: 0 <= i < MAX_OPEN_FILES ==> fds[i].valid
    ensures nextFd >= 0 ==> !fds[nextFd].valid && forall i :: 0 <= i < nextFd ==> fds[i].valid
  {
    nextFd := -1;
    var i := 0;
    while i < MAX_OPEN_FILES
      invariant 0 <= i <= MAX_OPEN_FILES
      invariant nextFd == -1
      invariant forall j :: 0 <= j < i ==> fds[j].valid
    {
      if !fds[i].valid {
        nextFd := i;
        break;
      }
      i := i + 1;
    }
  }

  /** Whether a valid descriptor holds the inode number the directory
      gives for `name` (-1 when the name is not listed). */
  ghost predicate IsOpen(fs: seq<Fd>, entries: seq<DirEntry>, name: string) {
    exists f :: 0 <= f < |fs| && fs[f].valid && fs[f].inodeNum == DirList.GetInodeNum(entries, name)
  }

  /** is_file_open: scan the whole descriptor table for the inode number the
      directory cache gives for `file`. */
  method IsFileOpen(fds: array<Fd>, entries: seq<DirEntry>, file: string) returns (r: bool)
    requires fds.Length == MAX_OPEN_FILES
    ensures r <==> IsOpen(fds[..], entries, file)
  {
    r := false;
    var inodeNum := DirList.GetInodeNum(entries, file);
    for i := 0 to MAX_OPEN_FILES
      invariant r <==> exists j :: 0 <= j < i && fds[j].valid && fds[j].inodeNum == inodeNum
    {
      var tableEntry := fds[i];
      if tableEntry.valid && tableEntry.inodeNum == inodeNum {
        r := true;
      }
    }
    assert r <==> exists j :: 0 <= j < MAX_OPEN_FILES && fds[..][j].valid && fds[..][j].inodeNum == inodeNum;
  }

  /* ---------------------------------------------------------------- */
  /* Block-pointer resolver and grower                                 */
  /* ---------------------------------------------------------------- */

  /** Blocks a file of `size` bytes occupies: ceil(size / 1024). */
  function BlocksInUse(size: int): nat {
    if size <= 0 then 0 else (size + BLOCK_SIZE - 1) / BLOCK_SIZE
  }

  /** The count is the least number of whole blocks that holds every byte. */
  lemma BlocksInUseCovers(size: int, pos: int)
    requires 0 <= pos < size
    ensures pos / BLOCK_SIZE < BlocksInUse(size)
    ensures (BlocksInUse(size) - 1) * BLOCK_SIZE < size <= BlocksInUse(size) * BLOCK_SIZE
  {
  }

  /** At a block boundary the next block to add is the one holding byte `size`. */
  lemma BlocksInUseAtBoundary(size: int)
    requires size >= 0 && size % BLOCK_SIZE == 0
    ensures BlocksInUse(size) == size / BLOCK_SIZE
    ensures BlocksInUse(size + 1) == BlocksInUse(size) + 1
  {
  }

  /** Bits the grower needs: two when the indirect block must be created as well. */
  function BlocksRequired(size: int): nat {
    if BlocksInUse(size) == NUM_DIRECT then 2 else 1
  }

  /** Whether allocate_block_to_inode succeeds for an inode of `size` bytes over `bits`. */
  ghost predicate CanGrow(bits: seq<bool>, size: int)
    requires |bits| >= SCANNED_BITS
  {
    BlocksInUse(size) + 1 <= MAX_FILE_BLOCKS && CountClear(bits, SCANNED_BITS) >= BlocksRequired(size)
  }

  /** inode_index_to_address: -1 past size / 1024; a direct pointer below
      12; otherwise entry index - 12 of the indirect block (-1 past its 256
      entries, where the C array would be read out of bounds). */
  function InodeIndexToAddress(inode: Inode, d: seq<Block>, index: int): int
    requires index >= 0
  {
    if index > inode.size / BLOCK_SIZE then -1
    else if index < NUM_DIRECT then inode.directPtr[index]
    else if index - NUM_DIRECT < PTRS_PER_BLOCK then PtrView(ReadBlock(d, inode.indPtr))[index - NUM_DIRECT]
    else -1
  }

  /** A direct slot is resolved without looking at the device. */
  lemma ResolveDirectNoRead(inode: Inode, d: seq<Block>, d': seq<Block>, index: int)
    requires 0 <= index < NUM_DIRECT
    ensures InodeIndexToAddress(inode, d, index) == InodeIndexToAddress(inode, d', index)
    ensures index <= inode.size / BLOCK_SIZE ==> InodeIndexToAddress(inode, d, index) == inode.directPtr[index]
  {
  }

  /** The only block the resolver reads is the inode's indirect block. */
  lemma ResolveReadsIndirectOnly(inode: Inode, d: seq<Block>, d': seq<Block>, index: int)
    requires index >= 0
    requires ReadBlock(d, inode.indPtr) == ReadBlock(d', inode.indPtr)
    ensures InodeIndexToAddress(inode, d, index) == InodeIndexToAddress(inode, d', index)
  {
  }

  /** The size only guards the lookup: two inodes with the same pointers agree
      on every index both guards admit. */
  lemma ResolveSizeGuardOnly(a: Inode, b: Inode, d: seq<Block>, index: int)
    requires index >= 0 && a.directPtr == b.directPtr && a.indPtr == b.indPtr
    requires index <= a.size / BLOCK_SIZE && index <= b.size / BLOCK_SIZE
    ensures InodeIndexToAddress(a, d, index) == InodeIndexToAddress(b, d, index)
  {
  }

  /** The whole effect of a successful allocate_block_to_inode on the inode
      and the device: claim the data block; at 12 blocks claim the indirect
      block next and point ind_ptr at it; record the data block in its
      direct slot or in the indirect block. */
  ghost predicate Grown(d0: seq<Block>, ino0: Inode, d1: seq<Block>, ino1: Inode)
    requires |d0| == NUM_BLOCKS
  {
    var cur := BlocksInUse(ino0.size);
    var bits0 := BitmapView(d0[FREEMAP_ADDRESS]);
    var i := FirstClear(bits0);
    && i >= 0
    && cur < MAX_FILE_BLOCKS
    && var a := AddressOfBit(i);
       var bits1 := bits0[i := true];
       var dA := d0[FREEMAP_ADDRESS := Bitmap(bits1)];
       if cur < NUM_DIRECT then
         ino1 == ino0.(directPtr := ino0.directPtr[cur := a]) && d1 == dA
       else if cur == NUM_DIRECT then
         var i2 := FirstClear(bits1);
         && i2 >= 0
         && var ind := AddressOfBit(i2);
            var dB := dA[FREEMAP_ADDRESS := Bitmap(bits1[i2 := true])];
            && ino1 == ino0.(indPtr := ind)
            && d1 == Written(dB, ind, Pointers(PtrView(ReadBlock(dB, ind))[0 := a]))
       else
         && ino1 == ino0
         && d1 == Written(dA, ino0.indPtr, Pointers(PtrView(ReadBlock(dA, ino0.indPtr))[cur - NUM_DIRECT := a]))
  }

  /** The device a grow leaves, as Grown describes it (the device itself
      when no bit is free or the inode is full). */
  ghost function GrowDisk(d0: seq<Block>, ino0: Inode): seq<Block>
    requires |d0| == NUM_BLOCKS
  {
    var cur := BlocksInUse(ino0.size);
    var bits0 := BitmapView(d0[FREEMAP_ADDRESS]);
    var i := FirstClear(bits0);
    if i < 0 || cur >= MAX_FILE_BLOCKS then d0
    else
      var a := AddressOfBit(i);
      var bits1 := bits0[i := true];
      var dA := d0[FREEMAP_ADDRESS := Bitmap(bits1)];
      if cur < NUM_DIRECT then dA
      else if cur == NUM_DIRECT then
        var i2 := FirstClear(bits1);
        if i2 < 0 then d0
        else
          var ind := AddressOfBit(i2);
          var dB := dA[FREEMAP_ADDRESS := Bitmap(bits1[i2 := true])];
          Written(dB, ind, Pointers(PtrView(ReadBlock(dB, ind))[0 := a]))
      else Written(dA, ino0.indPtr, Pointers(PtrView(ReadBlock(dA, ino0.indPtr))[cur - NUM_DIRECT := a]))
  }

  /** The inode a grow leaves, as Grown describes it. */
  ghost function GrowInode(d0: seq<Block>, ino0: Inode): Inode
    requires |d0| == NUM_BLOCKS
  {
    var cur := BlocksInUse(ino0.size);
    var bits0 := BitmapView(d0[FREEMAP_ADDRESS]);
    var i := FirstClear(bits0);
    if i < 0 then ino0
    else if cur < NUM_DIRECT then ino0.(directPtr := ino0.directPtr[cur := AddressOfBit(i)])
    else if cur == NUM_DIRECT then ino0.(indPtr := AddressOfBit(FirstClear(bits0[i := true])))
    else ino0
  }

  /** A grow has one outcome: the device and the inode Grown admits are
      GrowDisk and GrowInode. */
  lemma GrownIsGrow(d0: seq<Block>, ino0: Inode, d1: seq<Block>, ino1: Inode)
    requires |d0| == NUM_BLOCKS && Grown(d0, ino0, d1, ino1)
    ensures d1 == GrowDisk(d0, ino0) && ino1 == GrowInode(d0, ino0)
  {
  }

  /** allocate_block_to_inode with a boolean result: fails, changing nothing,
      when the inode already holds 268 blocks or fewer than the required
      bits are free; otherwise grows the inode by one block as Grown says.
      Only the inode's own table slot changes. */
  method AllocateBlockToInode(disk: array<Block>, inodes: array<Inode>, n: nat) returns (ok: bool)
    requires disk.Length == NUM_BLOCKS && n < inodes.Length
    modifies disk, inodes
    ensures ok == CanGrow(BitmapView(old(disk[FREEMAP_ADDRESS])), old(inodes[n]).size)
    ensures !ok ==> disk[..] == old(disk[..]) && inodes[..] == old(inodes[..])
    ensures ok ==> Grown(old(disk[..]), old(inodes[n]), disk[..], inodes[n])
    ensures inodes[..] == old(inodes[..])[n := inodes[n]]
  {
    var inode := inodes[n];
    var currentBlocks := BlocksInUse(inode.size);
    var blocksRequired := if currentBlocks == NUM_DIRECT then 2 else 1;

    if currentBlocks + 1 > NUM_DIRECT + PTRS_PER_BLOCK {
      return false;
    }
    var available := FmIsAvailable(disk, blocksRequired);
    if !available {
      return false;
    }
    ghost var d0 := disk[..];
    ghost var bits0 := BitmapView(d0[FREEMAP_ADDRESS]);
    FirstClearFound(bits0);
    var newBlockAddress := FmGetNextAddressAndAllocate(disk);
    ghost var i := FirstClear(bits0);

    if currentBlocks == NUM_DIRECT {
      ghost var bits1 := bits0[i := true];
      CountClearClaim(bits0, i, SCANNED_BITS);
      FirstClearFound(bits1);
      var indPtr := FmGetNextAddressAndAllocate(disk);
      inode := inode.(indPtr := indPtr);
    }

    if currentBlocks < NUM_DIRECT {
      inode := inode.(directPtr := inode.directPtr[currentBlocks := newBlockAddress]);
    } else {
      var indirectBlockBuf := PtrView(ReadBlock(disk[..], inode.indPtr));
      indirectBlockBuf := indirectBlockBuf[currentBlocks - NUM_DIRECT := newBlockAddress];
      WriteBlock(disk, inode.indPtr, Pointers(indirectBlockBuf));
    }
    ghost var d1 := disk[..];
    inodes[n] := inode;
    assert disk[..] == d1;
    ok := true;
  }

  /** After a successful grow at a block boundary, the earlier blocks resolve
      as before and the new block index resolves to the claimed address,
      which was free and lies in the data area. */
  lemma GrownResolves(d0: seq<Block>, ino0: Inode, d1: seq<Block>, ino1: Inode)
    requires |d0| == NUM_BLOCKS && ino0.size >= 0 && ino0.size % BLOCK_SIZE == 0
    requires Grown(d0, ino0, d1, ino1)
    requires BlocksInUse(ino0.size) > NUM_DIRECT ==>
               ino0.indPtr != FREEMAP_ADDRESS && 0 <= ino0.indPtr < NUM_BLOCKS
    ensures var cur := BlocksInUse(ino0.size);
            var i := FirstClear(BitmapView(d0[FREEMAP_ADDRESS]));
            && 0 <= i < SCANNED_BITS && !BitmapView(d0[FREEMAP_ADDRESS])[i]
            && InodeIndexToAddress(ino1, d1, cur) == AddressOfBit(i)
            && forall b :: 0 <= b < cur ==> InodeIndexToAddress(ino1, d1, b) == InodeIndexToAddress(ino0, d0, b)
  {
    var cur := BlocksInUse(ino0.size);
    if cur < NUM_DIRECT {
      GrownResolvesDirect(d0, ino0, d1, ino1);
    } else if cur == NUM_DIRECT {
      GrownResolvesTwelve(d0, ino0, d1, ino1);
    } else {
      GrownResolvesPast(d0, ino0, d1, ino1);
    }
  }

  /** GrownResolves below 12 blocks: only a direct slot is set. */
  lemma GrownResolvesDirect(d0: seq<Block>, ino0: Inode, d1: seq<Block>, ino1: Inode)
    requires |d0| == NUM_BLOCKS && ino0.size >= 0 && ino0.size % BLOCK_SIZE == 0
    requires Grown(d0, ino0, d1, ino1)
    requires BlocksInUse(ino0.size) > NUM_DIRECT ==>
               ino0.indPtr != FREEMAP_ADDRESS && 0 <= ino0.indPtr < NUM_BLOCKS
    requires BlocksInUse(ino0.size) < NUM_DIRECT
    ensures var cur := BlocksInUse(ino0.size);
            var i := FirstClear(BitmapView(d0[FREEMAP_ADDRESS]));
            && 0 <= i < SCANNED_BITS && !BitmapView(d0[FREEMAP_ADDRESS])[i]
            && InodeIndexToAddress(ino1, d1, cur) == AddressOfBit(i)
            && forall b :: 0 <= b < cur ==> InodeIndexToAddress(ino1, d1, b) == InodeIndexToAddress(ino0, d0, b)
  {
    BlocksInUseAtBoundary(ino0.size);
  }

  /** GrownResolves at 12 blocks: the new indirect block holds the new address in slot 0. */
  lemma GrownResolvesTwelve(d0: seq<Block>, ino0: Inode, d1: seq<Block>, ino1: Inode)
    requires |d0| == NUM_BLOCKS && ino0.size >= 0 && ino0.size % BLOCK_SIZE == 0
    requires Grown(d0, ino0, d1, ino1)
    requires BlocksInUse(ino0.size) > NUM_DIRECT ==>
               ino0.indPtr != FREEMAP_ADDRESS && 0 <= ino0.indPtr < NUM_BLOCKS
    requires BlocksInUse(ino0.size) == NUM_DIRECT
    ensures var cur := BlocksInUse(ino0.size);
            var i := FirstClear(BitmapView(d0[FREEMAP_ADDRESS]));
            && 0 <= i < SCANNED_BITS && !BitmapView(d0[FREEMAP_ADDRESS])[i]
            && InodeIndexToAddress(ino1, d1, cur) == AddressOfBit(i)
            && forall b :: 0 <= b < cur ==> InodeIndexToAddress(ino1, d1, b) == InodeIndexToAddress(ino0, d0, b)
  {
    BlocksInUseAtBoundary(ino0.size);
    var bits0 := BitmapView(d0[FREEMAP_ADDRESS]);
    var i := FirstClear(bits0);
    var bits1 := bits0[i := true];
    var dA := d0[FREEMAP_ADDRESS := Bitmap(bits1)];
    var i2 := FirstClear(bits1);
    var ind := AddressOfBit(i2);
    assert ReadBlock(d1, ind) == Pointers(PtrView(ReadBlock(dA[FREEMAP_ADDRESS := Bitmap(bits1[i2 := true])], ind))[0 := AddressOfBit(i)]);
  }

  /** GrownResolves past 12 blocks: the indirect block gains the new address. */
  lemma GrownResolvesPast(d0: seq<Block>, ino0: Inode, d1: seq<Block>, ino1: Inode)
    requires |d0| == NUM_BLOCKS && ino0.size >= 0 && ino0.size % BLOCK_SIZE == 0
    requires Grown(d0, ino0, d1, ino1)
    requires BlocksInUse(ino0.size) > NUM_DIRECT ==>
               ino0.indPtr != FREEMAP_ADDRESS && 0 <= ino0.indPtr < NUM_BLOCKS
    requires BlocksInUse(ino0.size) > NUM_DIRECT
    ensures var cur := BlocksInUse(ino0.size);
            var i := FirstClear(BitmapView(d0[FREEMAP_ADDRESS]));
            && 0 <= i < SCANNED_BITS && !BitmapView(d0[FREEMAP_ADDRESS])[i]
            && InodeIndexToAddress(ino1, d1, cur) == AddressOfBit(i)
            && forall b :: 0 <= b < cur ==> InodeIndexToAddress(ino1, d1, b) == InodeIndexToAddress(ino0, d0, b)
  {
    BlocksInUseAtBoundary(ino0.size);
    var bits0 := BitmapView(d0[FREEMAP_ADDRESS]);
    var i := FirstClear(bits0);
    var dA := d0[FREEMAP_ADDRESS := Bitmap(bits0[i := true])];
    assert ReadBlock(dA, ino0.indPtr) == ReadBlock(d0, ino0.indPtr);
  }
}
