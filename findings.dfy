/** Defects of the C code that the model's contracts run into. For each: the
    code as written, a lemma exhibiting an input on which it goes wrong, and
    the corrected definition that the rest of the model uses. */
module Findings {
  import opened Common
  import opened Util
  import opened Steps
  import opened Sfs
  import opened DirList

  /* ---------------------------------------------------------------- */
  /* The result convention of allocate_block_to_inode                  */
  /* ---------------------------------------------------------------- */

  /** What allocate_block_to_inode returns: 0 on success, -1 on failure. */
  function AllocateResultAsWritten(ok: bool): int {
    if ok then 0 else -1
  }

  /** Whether sfs_fwrite and sfs_fopen go on after
      `if (!allocate_block_to_inode(...))`: they give up when the value is 0. */
  function CallerGoesOnAsWritten(ret: int): bool {
    ret != 0
  }

  /** As written the callers go on exactly when the allocation failed: a
      write at the end of a file on a block boundary stops after a block was
      claimed, and writes through an unset pointer when none could be. */
  lemma AllocateConventionInverted(ok: bool)
    ensures CallerGoesOnAsWritten(AllocateResultAsWritten(ok)) <==> !ok
  {
  }

  /* ---------------------------------------------------------------- */
  /* Blocks in use                                                     */
  /* ---------------------------------------------------------------- */

  /** The count of blocks in use that allocate_block_to_inode computes. */
  function BlocksInUseAsWritten(size: int): int {
    if size == 0 then 0 else size / BLOCK_SIZE + 1
  }

  /** The inode after the as-written grower records address a in the direct
      slot its count names. */
  function GrowDirectAsWritten(ino: Inode, a: int): Inode
    requires 0 <= BlocksInUseAsWritten(ino.size) < NUM_DIRECT
  {
    ino.(directPtr := ino.directPtr[BlocksInUseAsWritten(ino.size) := a])
  }

  /** The count is one too many exactly at the positive multiples of 1024,
      and agrees with the ceiling everywhere else. */
  lemma BlocksInUseOffByOne(size: int)
    requires size > 0
    ensures size % BLOCK_SIZE == 0 ==> BlocksInUseAsWritten(size) == BlocksInUse(size) + 1
    ensures size % BLOCK_SIZE != 0 ==> BlocksInUseAsWritten(size) == BlocksInUse(size)
  {
    var q, m := size / BLOCK_SIZE, size % BLOCK_SIZE;
    assert size == q * BLOCK_SIZE + m;
    if m == 0 {
      assert size + BLOCK_SIZE - 1 == q * BLOCK_SIZE + (BLOCK_SIZE - 1);
    } else {
      assert size + BLOCK_SIZE - 1 == (q + 1) * BLOCK_SIZE + (m - 1);
    }
  }

  /** A file of exactly one full block: sfs_fwrite at its end grows it, the
      grower stores the new address in direct slot 2, and the byte at 1024
      then resolves through slot 1, which still holds its old value. */
  lemma GrowSkipsSlot(ino: Inode, d: seq<Block>, a: int)
    requires ino.size == BLOCK_SIZE && a != ino.directPtr[1]
    ensures BlocksInUseAsWritten(ino.size) == 2 && BlocksInUse(ino.size) == 1
    ensures InodeIndexToAddress(GrowDirectAsWritten(ino, a), d, ino.size / BLOCK_SIZE) != a
  {
  }

  /* ---------------------------------------------------------------- */
  /* Freeing in sfs_remove                                             */
  /* ---------------------------------------------------------------- */

  /** The bit sfs_remove clears for block address a: a - 1 - 64. */
  function RemoveBitAsWritten(a: int): int {
    a - 1 - INODE_TABLE_LENGTH
  }

  /** Clearing that bit. */
  function ClearBitAsWritten(bits: BitTable, a: int): BitTable {
    var b := RemoveBitAsWritten(a);
    if 0 <= b < FREEMAP_BITS then bits[b := false] else bits
  }

  /** The allocator hands out bit i as address 66 + i. Freeing that address
      as written leaves bit i set and clears bit i + 1, which may be another
      file's block; the corrected ClearBit clears bit i and only that bit. */
  lemma RemoveClearsNeighbour(bits: BitTable, i: int)
    requires 0 <= i < FREEMAP_BITS - 1 && bits[i] && bits[i + 1]
    ensures ClearBitAsWritten(bits, AddressOfBit(i))[i]
    ensures !ClearBitAsWritten(bits, AddressOfBit(i))[i + 1]
    ensures !ClearBit(bits, AddressOfBit(i))[i] && ClearBit(bits, AddressOfBit(i))[i + 1]
  {
  }

  /** The bitmap block sfs_remove leaves on the device: it clears bits in a
      local copy and never writes that copy back. */
  function RemovedBitmapAsWritten(d: seq<Block>): Block
    requires |d| == NUM_BLOCKS
  {
    d[FREEMAP_ADDRESS]
  }

  /** So on a full device no removal makes room: the allocator still finds
      no free bit, whatever the file freed. */
  lemma RemoveLeaksBlocks(d: seq<Block>)
    requires |d| == NUM_BLOCKS && CountClear(BitmapView(d[FREEMAP_ADDRESS]), SCANNED_BITS) == 0
    ensures CountClear(BitmapView(RemovedBitmapAsWritten(d)), SCANNED_BITS) == 0
    ensures !CanGrow(BitmapView(RemovedBitmapAsWritten(d)), 0)
  {
  }

  /** Corrected, with the freed bitmap written back: removing a file whose
      first block lies in the scanned part of the data area leaves at least
      one bit the allocator can claim. */
  lemma RemoveFreesBlocks(bits: BitTable, ino: Inode, d: seq<Block>)
    requires ino.size > 0
    requires 0 <= BitOfAddress(InodeIndexToAddress(ino, d, 0)) < SCANNED_BITS
    ensures CountClear(FreeFile(bits, ino, d), SCANNED_BITS) > 0
  {
    var b := BitOfAddress(InodeIndexToAddress(ino, d, 0));
    var k := BlocksInUse(ino.size);
    FreeBlocksClears(bits, ino, d, k, 0);
    var b1 := FreeBlocks(bits, ino, d, k);
    var r := FreeFile(bits, ino, d);
    if k > NUM_DIRECT {
      if BitOfAddress(ino.indPtr) == b {
        assert !r[b];
      } else {
        assert r[b] == b1[b];
      }
    }
    assert !r[b];
    CountClearPositive(r, SCANNED_BITS);
  }

  /** The bitmap sfs_remove computes with its own test for the indirect
      block, blocks_to_free >= 12, and otherwise the corrected freeing. */
  ghost function FreeFileAsWritten(bits: BitTable, ino: Inode, d: seq<Block>): BitTable {
    var k := BlocksInUse(ino.size);
    var b1 := FreeBlocks(bits, ino, d, k);
    if k >= NUM_DIRECT then ClearBit(b1, ino.indPtr) else b1
  }

  /** A file of exactly 12 blocks has no indirect block, but its ind_ptr (left
      over from an earlier file in the same inode slot) is freed all the
      same: when it names block j of another file, bit j is cleared as
      written and kept by the corrected FreeFile. */
  lemma IndirectFreedAtTwelve(bits: BitTable, ino: Inode, d: seq<Block>, j: nat)
    requires ino.size == NUM_DIRECT * BLOCK_SIZE
    requires j < FREEMAP_BITS && bits[j] && ino.indPtr == AddressOfBit(j)
    requires forall b :: 0 <= b < NUM_DIRECT ==> ino.directPtr[b] != AddressOfBit(j)
    ensures !FreeFileAsWritten(bits, ino, d)[j]
    ensures FreeFile(bits, ino, d)[j]
  {
    assert BlocksInUse(ino.size) == NUM_DIRECT;
    FreeBlocksKeeps(bits, ino, d, NUM_DIRECT, j);
  }

  /* ---------------------------------------------------------------- */
  /* Seeking                                                           */
  /* ---------------------------------------------------------------- */

  /** The bounds check of sfs_frseek and sfs_fwseek: only loc > size is refused. */
  predicate SeekGuardAsWritten(loc: int, size: int) {
    !(loc > size)
  }

  /** A negative position passes it, and sfs_fread then indexes block_buf
      at rptr % 1024 < 0; the corrected SeekInBounds refuses it and agrees
      with the check on every other position. */
  lemma NegativeSeekAccepted(size: int)
    requires size >= 0
    ensures SeekGuardAsWritten(-1, size) && !SeekInBounds(-1, size)
    ensures forall loc :: 0 <= loc ==> (SeekGuardAsWritten(loc, size) <==> SeekInBounds(loc, size))
  {
  }

  /* ---------------------------------------------------------------- */
  /* The tail pointer of the directory cache                           */
  /* ---------------------------------------------------------------- */

  /** A node of the C list, and the list itself over an arena of nodes:
      indices stand for pointers and -1 for NULL. A freed node stays in the
      arena, unreachable, so that a write through a dangling pointer lands
      somewhere no traversal sees. */
  datatype Node = Node(entry: DirEntry, next: int)
  datatype ListAsWritten = ListAsWritten(nodes: seq<Node>, head: int, tail: int)

  /** The entries reachable from node `at`, following at most `fuel` links. */
  function ChainFrom(nodes: seq<Node>, at: int, fuel: nat): seq<DirEntry>
    decreases fuel
  {
    if fuel == 0 || !(0 <= at < |nodes|) then []
    else [nodes[at].entry] + ChainFrom(nodes, nodes[at].next, fuel - 1)
  }

  /** What a traversal from head (rdc_to_disk, rdc_get_inode_num, the
      listing) sees. */
  function ListedAsWritten(l: ListAsWritten): seq<DirEntry> {
    ChainFrom(l.nodes, l.head, |l.nodes|)
  }

  /** rdc_insert: a fresh node, linked after tail unless the list is empty. */
  function InsertAsWritten(l: ListAsWritten, e: DirEntry): ListAsWritten {
    var n := |l.nodes|;
    var nodes := l.nodes + [Node(e, -1)];
    if l.head == -1 then ListAsWritten(nodes, n, n)
    else if 0 <= l.tail < |l.nodes| then ListAsWritten(nodes[l.tail := nodes[l.tail].(next := n)], l.head, n)
    else ListAsWritten(nodes, l.head, n)
  }

  /** The unlinking in rdc_remove, once the search has stopped at node cur
      with predecessor prev: three cases, none of which moves tail. */
  function UnlinkAsWritten(l: ListAsWritten, prev: int, cur: int): ListAsWritten
    requires 0 <= cur < |l.nodes| && prev < |l.nodes|
  {
    if prev < 0 then l.(head := l.nodes[cur].next)
    else if l.nodes[cur].next == -1 then l.(nodes := l.nodes[prev := l.nodes[prev].(next := -1)])
    else l.(nodes := l.nodes[prev := l.nodes[prev].(next := l.nodes[cur].next)])
  }

  /** Files "a" and "b", remove "b", create "c": as written tail still names
      the freed node of "b", rdc_insert links "c" after it, and "c" is not
      in the list that is listed and written to the device. With tail kept
      right, as the sequence model of RootDirCache keeps it, the list is
      "a", "c". */
  lemma InsertAfterRemoveLost()
    ensures var a, b, c := DirEntry("a", 1), DirEntry("b", 2), DirEntry("c", 3);
            var l0 := ListAsWritten([Node(a, 1), Node(b, -1)], 0, 1);
            var l2 := InsertAsWritten(UnlinkAsWritten(l0, 0, 1), c);
            && ListedAsWritten(l0) == [a, b]
            && ListedAsWritten(l2) == [a]
            && RemoveFirst([a, b], "b") + [c] == [a, c]
  {
    var a, b, c := DirEntry("a", 1), DirEntry("b", 2), DirEntry("c", 3);
    var l0 := ListAsWritten([Node(a, 1), Node(b, -1)], 0, 1);
    var l1 := UnlinkAsWritten(l0, 0, 1);
    assert l1.nodes == [Node(a, -1), Node(b, -1)] && l1.tail == 1;
    var l2 := InsertAsWritten(l1, c);
    assert l2.nodes == [Node(a, -1), Node(b, 2), Node(c, -1)] && l2.head == 0;
    assert ChainFrom(l2.nodes, -1, 2) == [];
    assert ChainFrom(l0.nodes, -1, 0) == [];
    assert FindFirst([a, b], "b") == 1;
  }
}
