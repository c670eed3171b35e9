/** Geometry, on-disk records and the in-memory block device of the file
    system (common.h), together with the whole-block read and write that the
    block-device emulator offers. */
module Common {

  const BLOCK_SIZE: nat := 1024
  const NUM_BLOCKS: nat := 8258
  const INODE_TABLE_LENGTH: nat := 64
  const ROOT_DIR_INODE_NUM: nat := 0
  const MAX_FILENAME: nat := 28
  const MAX_OPEN_FILES: nat := 100
  const MAGIC_NUMBER: int := 0xABCD0005

  /** Records per block: 1024-byte blocks hold 8 padded 128-byte inodes,
      32 directory entries of 32 bytes or 256 four-byte block addresses. */
  const INODES_PER_BLOCK: nat := 8
  const NUM_INODES: nat := 512
  const ENTRIES_PER_BLOCK: nat := 32
  const DIR_ENTRY_SIZE: nat := 32
  const PTRS_PER_BLOCK: nat := 256
  const NUM_DIRECT: nat := 12
  const MAX_FILE_BLOCKS: nat := 268

  /** The free bitmap is the block after the inode table; data blocks follow it. */
  const FREEMAP_ADDRESS: nat := 65
  const FIRST_DATA_ADDRESS: nat := 66
  const FREEMAP_BITS: nat := 8192
  /** The allocator scans only the first BLOCK_SIZE bits of the bitmap. */
  const SCANNED_BITS: nat := 1024

  newtype byte = x: int | 0 <= x < 256

  type ByteTable = s: seq<byte> | |s| == 1024 witness seq(1024, _ => 0)
  type PtrTable = s: seq<int> | |s| == 256 witness seq(256, _ => 0)
  type BitTable = s: seq<bool> | |s| == 8192 witness seq(8192, _ => false)
  type DirectTable = s: seq<int> | |s| == 12 witness seq(12, _ => 0)

  datatype SuperBlock = SuperBlock(
    magicNumber: int,
    blockSize: int,
    fsSize: int,
    inodeTableLength: int,
    rootDirInodeNum: int)

  /** The superblock that format writes and mount insists on. */
  const EXPECTED_SUPER: SuperBlock :=
    SuperBlock(MAGIC_NUMBER, BLOCK_SIZE, NUM_BLOCKS, INODE_TABLE_LENGTH, ROOT_DIR_INODE_NUM)

  datatype Inode = Inode(
    valid: bool,
    linkCount: int,
    size: int,
    directPtr: DirectTable,
    indPtr: int)

  const ZERO_INODE: Inode := Inode(false, 0, 0, seq(12, _ => 0), 0)

  datatype DirEntry = DirEntry(filename: string, inodeNum: int)

  const ZERO_ENTRY: DirEntry := DirEntry("", 0)

  type InodeTable8 = s: seq<Inode> | |s| == 8 witness seq(8, _ => ZERO_INODE)
  type EntryTable = s: seq<DirEntry> | |s| == 32 witness seq(32, _ => ZERO_ENTRY)

  datatype Fd = Fd(valid: bool, inodeNum: int, rptr: int, wptr: int)

  /** One block of the device, in the view the C code last wrote it with.
      Zero is a block of a freshly created device. */
  datatype Block =
    | Zero
    | Super(sb: SuperBlock)
    | InodeSlice(inodes: InodeTable8)
    | Bitmap(bits: BitTable)
    | Pointers(ptrs: PtrTable)
    | Entries(entries: EntryTable)
    | Bytes(data: ByteTable)

  /* Views of a block. A block written through another view reads as zeros. */

  function SuperView(b: Block): SuperBlock {
    if b.Super? then b.sb else SuperBlock(0, 0, 0, 0, 0)
  }

  function InodeView(b: Block): InodeTable8 {
    if b.InodeSlice? then b.inodes else seq(8, _ => ZERO_INODE)
  }

  function BitmapView(b: Block): BitTable {
    if b.Bitmap? then b.bits else seq(8192, _ => false)
  }

  function PtrView(b: Block): PtrTable {
    if b.Pointers? then b.ptrs else seq(256, _ => 0)
  }

  function EntryView(b: Block): EntryTable {
    if b.Entries? then b.entries else seq(32, _ => ZERO_ENTRY)
  }

  function ByteView(b: Block): ByteTable {
    if b.Bytes? then b.data else seq(1024, _ => 0)
  }

  /** read_blocks of one block; an address off the device reads as a zero block. */
  function ReadBlock(d: seq<Block>, a: int): (b: Block)
    ensures 0 <= a < |d| ==> b == d[a]
    ensures !(0 <= a < |d|) ==> b == Zero
  {
    if 0 <= a < |d| then d[a] else Zero
  }

  /** The device after write_blocks of one block; an address off the device is ignored. */
  function Written(d: seq<Block>, a: int, b: Block): (d': seq<Block>)
    ensures |d'| == |d|
    ensures forall x :: 0 <= x < |d| && x != a ==> d'[x] == d[x]
    ensures 0 <= a < |d| ==> d'[a] == b
    ensures !(0 <= a < |d|) ==> d' == d
  {
    if 0 <= a < |d| then d[a := b] else d
  }

  method WriteBlock(disk: array<Block>, a: int, b: Block)
    modifies disk
    ensures disk[..] == Written(old(disk[..]), a, b)
  {
    if 0 <= a < disk.Length {
      disk[a] := b;
    }
  }
}
