/** root_dir_cache.c: the in-memory root-directory cache. The C linked list
    (head, tail, size) is the sequence `entries`; the listing cursor
    cur_listing is an index into it, where |entries| stands for NULL. */
module DirCache {
  import opened Common
  import opened Util
  import opened DirList

  /** The directory rdc_init rebuilds from the root inode: root.size / 32
      entries, read 32 per block from the root's blocks in order. */
  ghost function DirFromDisk(d: seq<Block>, root: Inode): seq<DirEntry> {
    var n := if root.size / DIR_ENTRY_SIZE < 0 then 0 else root.size / DIR_ENTRY_SIZE;
    seq(n, k requires 0 <= k < n =>
      EntryView(ReadBlock(d, InodeIndexToAddress(root, d, k / ENTRIES_PER_BLOCK)))[k % ENTRIES_PER_BLOCK])
  }

  /** Addresses of the first `count` blocks of the root inode. */
  ghost function RootAddrs(d: seq<Block>, root: Inode, count: nat): (addrs: seq<int>)
    ensures |addrs| == count
    ensures forall b :: 0 <= b < count ==> addrs[b] == InodeIndexToAddress(root, d, b)
  {
    seq(count, b requires 0 <= b < count => InodeIndexToAddress(root, d, b))
  }

  /** The device after block b of the serialised directory has been written
      to addrs[b], for every b in order. */
  ghost function WriteChunks(d: seq<Block>, addrs: seq<int>, entries: seq<DirEntry>): (d': seq<Block>)
    ensures |d'| == |d|
    decreases |addrs|
  {
    if |addrs| == 0 then d
    else Written(WriteChunks(d, addrs[..|addrs| - 1], entries), addrs[|addrs| - 1],
                 Entries(Chunk(entries, |addrs| - 1)))
  }

  /** With distinct in-range addresses, each address holds its own block of
      the directory and every other block of the device is untouched. */
  lemma {:induction false} WriteChunksAt(d: seq<Block>, addrs: seq<int>, entries: seq<DirEntry>)
    requires forall b :: 0 <= b < |addrs| ==> 0 <= addrs[b] < |d|
    requires forall b, c :: 0 <= b < c < |addrs| ==> addrs[b] != addrs[c]
    ensures forall b :: 0 <= b < |addrs| ==> WriteChunks(d, addrs, entries)[addrs[b]] == Entries(Chunk(entries, b))
    ensures forall x :: 0 <= x < |d| && x !in addrs ==> WriteChunks(d, addrs, entries)[x] == d[x]
    decreases |addrs|
  {
    if |addrs| > 0 {
      var front := addrs[..|addrs| - 1];
      WriteChunksAt(d, front, entries);
      forall x | 0 <= x < |d| && x !in addrs
        ensures WriteChunks(d, addrs, entries)[x] == d[x]
      {
        assert x !in front;
      }
      forall b | 0 <= b < |addrs|
        ensures WriteChunks(d, addrs, entries)[addrs[b]] == Entries(Chunk(entries, b))
      {
        if b < |addrs| - 1 {
          assert front[b] == addrs[b];
        }
      }
    }
  }

  /** Where rdc_to_disk puts each entry: with distinct in-range block
      addresses, slot j of the block at addrs[b] holds entry 32 * b + j, and
      the slots past the end of the list hold the zero entry. */
  lemma {:induction false} EntryOnDevice(d: seq<Block>, addrs: seq<int>, entries: seq<DirEntry>, b: nat, j: nat)
    requires forall x :: 0 <= x < |addrs| ==> 0 <= addrs[x] < |d|
    requires forall x, y :: 0 <= x < y < |addrs| ==> addrs[x] != addrs[y]
    requires b < |addrs| && j < ENTRIES_PER_BLOCK
    ensures EntryView(ReadBlock(WriteChunks(d, addrs, entries), addrs[b]))[j]
            == if 32 * b + j < |entries| then entries[32 * b + j] else ZERO_ENTRY
  {
    WriteChunksAt(d, addrs, entries);
    var blk := ReadBlock(WriteChunks(d, addrs, entries), addrs[b]);
    assert blk == Entries(Chunk(entries, b));
    ChunkLayout(entries, b, j);
  }

  /** Blocks whose address rdc_to_disk tests against -1 before giving up:
      block 0 at the first entry, then the block in use before each entry. */
  function BlocksChecked(n: nat): nat {
    if n == 0 then 0 else if n == 1 then 1 else (n - 2) / ENTRIES_PER_BLOCK + 1
  }

  /** None of the blocks rdc_to_disk writes is the root's indirect block, so
      the addresses it resolves do not change under it. */
  ghost predicate NoIndirectHit(d: seq<Block>, root: Inode, n: nat) {
    BlocksWritten(n) <= NUM_DIRECT ||
    forall b :: 0 <= b < BlocksWritten(n) ==> InodeIndexToAddress(root, d, b) != root.indPtr
  }

  /** Writing a block other than the root's indirect block leaves the
      addresses of the first `count` root blocks as they were. */
  lemma WriteKeepsRootAddrs(d: seq<Block>, root: Inode, count: nat, a: int, blk: Block)
    requires count <= NUM_DIRECT || a != root.indPtr
    ensures RootAddrs(Written(d, a, blk), root, count) == RootAddrs(d, root, count)
  {
    var d' := Written(d, a, blk);
    forall b | 0 <= b < count
      ensures InodeIndexToAddress(root, d', b) == InodeIndexToAddress(root, d, b)
    {
      if b < NUM_DIRECT {
        ResolveDirectNoRead(root, d, d', b);
      } else {
        ResolveReadsIndirectOnly(root, d, d', b);
      }
    }
  }

  /** rdc_init after rdc_to_disk: when the root's blocks are distinct, on the
      device and not its indirect block, and the root's size is 32 bytes per
      entry, the directory read back is the one written. */
  lemma DirRoundTrip(d: seq<Block>, root: Inode, root': Inode, entries: seq<DirEntry>)
    requires root.size >= 0
    requires root'.directPtr == root.directPtr && root'.indPtr == root.indPtr
    requires root'.size == DIR_ENTRY_SIZE * |entries|
    requires var addrs := RootAddrs(d, root, BlocksWritten(|entries|));
             && (forall b :: 0 <= b < |addrs| ==> 0 <= addrs[b] < |d|)
             && (forall b, c :: 0 <= b < c < |addrs| ==> addrs[b] != addrs[c])
    requires NoIndirectHit(d, root, |entries|)
    ensures DirFromDisk(WriteChunks(d, RootAddrs(d, root, BlocksWritten(|entries|)), entries), root') == entries
  {
    var n := |entries|;
    var addrs := RootAddrs(d, root, BlocksWritten(n));
    var d' := WriteChunks(d, addrs, entries);
    WriteChunksAt(d, addrs, entries);
    var got := DirFromDisk(d', root');
    assert |got| == n;
    forall k | 0 <= k < n
      ensures got[k] == entries[k]
    {
      RoundTripEntry(d, d', root, root', entries, k);
    }
  }

  /** Entry k of a directory of n entries sits in block k / 32, one of the
      blocks written for it and one that the size of n entries admits. */
  lemma EntryBlock(k: nat, n: nat)
    requires k < n
    ensures k / ENTRIES_PER_BLOCK < BlocksWritten(n)
    ensures k / ENTRIES_PER_BLOCK <= (DIR_ENTRY_SIZE * n) / BLOCK_SIZE
    ensures 32 * (k / ENTRIES_PER_BLOCK) + k % ENTRIES_PER_BLOCK == k
  {
  }

  /** One entry of DirRoundTrip: read through the rewritten root, entry k is
      the one written. */
  lemma RoundTripEntry(d: seq<Block>, d': seq<Block>, root: Inode, root': Inode, entries: seq<DirEntry>, k: nat)
    requires root.size >= 0 && k < |entries|
    requires root'.directPtr == root.directPtr && root'.indPtr == root.indPtr
    requires root'.size == DIR_ENTRY_SIZE * |entries|
    requires var addrs := RootAddrs(d, root, BlocksWritten(|entries|));
             && |d'| == |d|
             && (forall b :: 0 <= b < |addrs| ==> 0 <= addrs[b] < |d| && d'[addrs[b]] == Entries(Chunk(entries, b)))
             && (forall x :: 0 <= x < |d| && x !in addrs ==> d'[x] == d[x])
    requires NoIndirectHit(d, root, |entries|)
    ensures EntryView(ReadBlock(d', InodeIndexToAddress(root', d', k / ENTRIES_PER_BLOCK)))[k % ENTRIES_PER_BLOCK] == entries[k]
  {
    var n := |entries|;
    var addrs := RootAddrs(d, root, BlocksWritten(n));
    var b := k / ENTRIES_PER_BLOCK;
    EntryBlock(k, n);
    assert addrs[b] != -1;
    assert b <= root.size / BLOCK_SIZE;
    if b >= NUM_DIRECT {
      var ind := root.indPtr;
      assert ind !in addrs;
      assert ReadBlock(d', ind) == ReadBlock(d, ind);
      ResolveReadsIndirectOnly(root', d', d, b);
    }
    ResolveSizeGuardOnly(root', root, d, b);
    assert InodeIndexToAddress(root', d', b) == addrs[b];
    ChunkLayout(entries, b, k % ENTRIES_PER_BLOCK);
  }

  /** Where entry i falls relative to the block the previous entry fell in. */
  lemma EntryPosition(i: nat)
    ensures 32 * (i / ENTRIES_PER_BLOCK) + i % ENTRIES_PER_BLOCK == i
    ensures i % ENTRIES_PER_BLOCK == 0 && i != 0 ==> (i - 1) / ENTRIES_PER_BLOCK + 1 == i / ENTRIES_PER_BLOCK
    ensures i % ENTRIES_PER_BLOCK != 0 ==> (i - 1) / ENTRIES_PER_BLOCK == i / ENTRIES_PER_BLOCK
    ensures BlocksChecked(i + 1) == (if i == 0 then 0 else (i - 1) / ENTRIES_PER_BLOCK) + 1
    ensures BlocksWritten(i + 1) == i / ENTRIES_PER_BLOCK + 1
  {
  }

  /** The block checked for entry i is the last of the blocks checked up to
      and including entry i. */
  lemma CheckedStep(i: nat, c: nat)
    requires c == if i == 0 then 0 else (i - 1) / ENTRIES_PER_BLOCK
    ensures BlocksChecked(i + 1) == c + 1 && c <= BlocksChecked(i)
  {
  }

  /** rdc_to_disk has tested one more block once the block entry i falls in
      resolved to an address. */
  lemma CheckedExtend(all: seq<int>, i: nat, c: nat)
    requires c == (if i == 0 then 0 else (i - 1) / ENTRIES_PER_BLOCK) && c < |all| && all[c] != -1
    requires forall b :: 0 <= b < BlocksChecked(i) ==> all[b] != -1
    ensures forall b :: 0 <= b < BlocksChecked(i + 1) ==> all[b] != -1
  {
    CheckedStep(i, c);
  }

  /** One more block written extends the fold by one step. */
  lemma WriteChunksSnoc(d0: seq<Block>, all: seq<int>, entries: seq<DirEntry>, c: nat)
    requires c < |all|
    ensures Written(WriteChunks(d0, all[..c], entries), all[c], Entries(Chunk(entries, c)))
            == WriteChunks(d0, all[..c + 1], entries)
  {
    assert all[..c + 1][..c] == all[..c];
  }

  /** Writing block c of the directory to its address keeps the addresses
      of the root's blocks and advances the fold by one block. */
  lemma WriteNextChunk(d0: seq<Block>, root: Inode, all: seq<int>, entries: seq<DirEntry>,
                       c: nat, before: seq<Block>)
    requires NoIndirectHit(d0, root, |entries|)
    requires all == RootAddrs(d0, root, BlocksWritten(|entries|))
    requires c < |all|
    requires RootAddrs(before, root, |all|) == all
    requires before == WriteChunks(d0, all[..c], entries)
    ensures var after := Written(before, all[c], Entries(Chunk(entries, c)));
            && RootAddrs(after, root, |all|) == all
            && after == WriteChunks(d0, all[..c + 1], entries)
  {
    assert all[c] == InodeIndexToAddress(root, d0, c);
    WriteKeepsRootAddrs(before, root, |all|, all[c], Entries(Chunk(entries, c)));
    WriteChunksSnoc(d0, all, entries, c);
  }

  /** The blocks rdc_to_disk tests are a prefix of the blocks it writes. */
  lemma CheckedPrefix(d0: seq<Block>, root: Inode, n: nat, all: seq<int>)
    requires all == RootAddrs(d0, root, BlocksWritten(n))
    ensures BlocksChecked(n) <= |all|
    ensures RootAddrs(d0, root, BlocksChecked(n)) == all[..BlocksChecked(n)]
  {
  }

  /** The buffer of rdc_to_disk while it fills block c: the entries of
      block c below position i, zeros elsewhere. */
  function Partial(entries: seq<DirEntry>, c: nat, i: nat): EntryTable {
    seq(32, j requires 0 <= j < 32 =>
      if 32 * c + j < i && 32 * c + j < |entries| then entries[32 * c + j] else ZERO_ENTRY)
  }

  lemma PartialEmpty(entries: seq<DirEntry>, c: nat, i: nat)
    requires i <= 32 * c
    ensures Partial(entries, c, i) == seq(ENTRIES_PER_BLOCK, _ => ZERO_ENTRY)
  {
  }

  lemma PartialStore(entries: seq<DirEntry>, c: nat, i: nat)
    requires i < |entries| && c == i / ENTRIES_PER_BLOCK
    ensures Partial(entries, c, i)[i % ENTRIES_PER_BLOCK := entries[i]] == Partial(entries, c, i + 1)
  {
    EntryPosition(i);
  }

  lemma PartialFull(entries: seq<DirEntry>, c: nat, i: nat)
    requires i >= |entries| || i >= 32 * c + 32
    ensures Partial(entries, c, i) == Chunk(entries, c)
  {
  }

  class RootDirCache {
    var entries: seq<DirEntry>
    var cursor: nat

    /** The cache before rdc_init: an empty list. */
    constructor ()
      ensures entries == [] && cursor == 0
    {
      entries := [];
      cursor := 0;
    }

    /** rdc_size: the entry count the cache keeps beside the list. */
    function Size(): (n: nat)
      reads this
      ensures n == |entries|
    {
      |entries|
    }

    /** rdc_init: drop the list and rebuild it from the root inode's blocks,
      appending root.size / 32 entries; the cursor ends at the head. */
    method Init(disk: array<Block>, root: Inode)
      modifies this
      ensures entries == DirFromDisk(disk[..], root) && cursor == 0
    {
      entries := [];
      ghost var d := disk[..];
      ghost var want := DirFromDisk(d, root);
      var curIndex := 0;
      var curAddress := InodeIndexToAddress(root, disk[..], curIndex);
      var blockBuf := EntryView(ReadBlock(disk[..], curAddress));
      var i := 0;
      while i < root.size / DIR_ENTRY_SIZE
        invariant 0 <= i <= |want|
        invariant entries == want[..i]
        invariant curIndex == if i == 0 then 0 else (i - 1) / ENTRIES_PER_BLOCK
        invariant blockBuf == EntryView(ReadBlock(d, InodeIndexToAddress(root, d, curIndex)))
      {
        if i % ENTRIES_PER_BLOCK == 0 && i != 0 {
          curIndex := curIndex + 1;
          curAddress := InodeIndexToAddress(root, disk[..], curIndex);
          blockBuf := EntryView(ReadBlock(disk[..], curAddress));
        }
        assert curIndex == i / ENTRIES_PER_BLOCK;
        assert blockBuf[i % ENTRIES_PER_BLOCK] == want[i];
        Insert(blockBuf[i % ENTRIES_PER_BLOCK]);
        assert want[..i + 1] == want[..i] + [want[i]];
        i := i + 1;
      }
      assert want[..i] == want;
      cursor := 0;
    }

    /** rdc_to_disk: write the list into the root inode's blocks, 32 entries
      per block with the rest of the last block zeroed, and return 0; return
      -1 when the address it tests resolves to -1. The test sits at the top of
      the loop, before the advance to the next block, so only the first
      BlocksChecked(n) blocks are tested: the last block of a list of 32j + 1
      entries, and the one block of an empty list, is written untested. When
      the blocks written do not include the root's indirect block, -1 comes
      exactly from one of the tested blocks and a 0 result means every block
      of the directory was written in order. */
    method ToDisk(disk: array<Block>, root: Inode) returns (r: int)
      modifies disk
      ensures r == 0 || r == -1
      ensures var d0 := old(disk[..]);
              var addrs := RootAddrs(d0, root, BlocksChecked(|entries|));
              NoIndirectHit(d0, root, |entries|) ==> (r == -1 <==> -1 in addrs)
      ensures var d0 := old(disk[..]);
              NoIndirectHit(d0, root, |entries|) && r == 0 ==>
                disk[..] == WriteChunks(d0, RootAddrs(d0, root, BlocksWritten(|entries|)), entries)
    {
      ghost var d0 := disk[..];
      var es := entries;
      ghost var n := |es|;
      ghost var hyp := NoIndirectHit(d0, root, n);
      ghost var all := RootAddrs(d0, root, BlocksWritten(n));
      var i := 0;
      var blockBuf: EntryTable := seq(ENTRIES_PER_BLOCK, _ => ZERO_ENTRY);
      var curInodeI := 0;
      var curAddress := InodeIndexToAddress(root, disk[..], curInodeI);
      while i < |es|
        invariant 0 <= i <= n
        invariant curInodeI == if i == 0 then 0 else (i - 1) / ENTRIES_PER_BLOCK
        invariant curInodeI < BlocksWritten(n)
        invariant blockBuf == Partial(es, curInodeI, i)
        invariant hyp ==> RootAddrs(disk[..], root, |all|) == all
        invariant hyp ==> curAddress == all[curInodeI]
        invariant hyp ==> disk[..] == WriteChunks(d0, all[..curInodeI], es)
        invariant hyp ==> forall b :: 0 <= b < BlocksChecked(i) ==> all[b] != -1
      {
        EntryPosition(i);
        if curAddress == -1 {
          if hyp {
            CheckedPrefix(d0, root, n, all);
            assert curInodeI < BlocksChecked(n);
            assert all[..BlocksChecked(n)][curInodeI] == -1;
          }
          return -1;
        }
        if hyp {
          CheckedExtend(all, i, curInodeI);
        }
        if i % ENTRIES_PER_BLOCK == 0 && i != 0 {
          PartialFull(es, curInodeI, i);
          ghost var before := disk[..];
          WriteBlock(disk, curAddress, Entries(blockBuf));
          if hyp {
            WriteNextChunk(d0, root, all, es, curInodeI, before);
          }
          curInodeI := curInodeI + 1;
          curAddress := InodeIndexToAddress(root, disk[..], curInodeI);
          blockBuf := seq(ENTRIES_PER_BLOCK, _ => ZERO_ENTRY);
          PartialEmpty(es, curInodeI, i);
        }
        PartialStore(es, curInodeI, i);
        blockBuf := blockBuf[i % ENTRIES_PER_BLOCK := es[i]];
        i := i + 1;
      }
      PartialFull(es, curInodeI, i);
      ghost var before := disk[..];
      WriteBlock(disk, curAddress, Entries(blockBuf));
      if hyp {
        assert curInodeI + 1 == BlocksWritten(n);
        WriteNextChunk(d0, root, all, es, curInodeI, before);
        assert all[..curInodeI + 1] == all;
        CheckedPrefix(d0, root, n, all);
        assert -1 !in all[..BlocksChecked(n)];
      }
      r := 0;
    }

    /** rdc_insert: append at the tail and restart the listing at the head. */
    method Insert(dirEntry: DirEntry)
      modifies this
      ensures entries == old(entries) + [dirEntry] && cursor == 0
      ensures Size() == old(Size()) + 1
    {
      entries := entries + [dirEntry];
      cursor := 0;
    }

    /** rdc_remove: unlink the first entry carrying `filename`, keep the rest
      in order, restart the listing at the head and return 0; -1 and no
      change when no entry matches. */
    method Remove(filename: string) returns (r: int)
      modifies this
      ensures !Listed(old(entries), filename) ==> r == -1 && entries == old(entries) && cursor == old(cursor)
      ensures Listed(old(entries), filename) ==>
                r == 0 && entries == RemoveFirst(old(entries), filename) && cursor == 0
      ensures Size() == if r == 0 then old(Size()) - 1 else old(Size())
    {
      var k := 0;
      var found := false;
      while k < |entries| && !found
        invariant 0 <= k <= |entries|
        decreases |entries| - k, if found then 0 else 1
        invariant forall j :: 0 <= j < k ==> entries[j].filename != filename
        invariant found ==> k < |entries| && entries[k].filename == filename
      {
        if entries[k].filename == filename {
          found := true;
        } else {
          k := k + 1;
        }
      }
      if !found {
        return -1;
      }
      assert FindFirst(entries, filename) == k;
      entries := entries[..k] + entries[k + 1..];
      cursor := 0;
      r := 0;
    }

    /** rdc_getnextfilename: one step of the listing (see NextListing). */
    method GetNextFilename() returns (r: int, filename: string)
      modifies this
      ensures var l := NextListing(old(entries), old(cursor));
              && r == (if l.more then 1 else 0)
              && filename == l.filename && cursor == l.cursor
      ensures entries == old(entries)
    {
      if cursor >= |entries| {
        cursor := 0;
        return 0, "";
      }
      filename := entries[cursor].filename;
      cursor := cursor + 1;
      r := 1;
    }
  }
}
