/** The ordered list of directory entries kept by the root-directory cache
    (root_dir_cache.c), as values: lookup by name, removal of the first match,
    one step of the listing cursor and the 32-entries-per-block layout used
    when the list is written to the root directory's blocks. */
module DirList {
  import opened Common

  /** Entry k is the last one carrying `name`. */
  ghost predicate IsLastMatch(entries: seq<DirEntry>, name: string, k: int) {
    && 0 <= k < |entries|
    && entries[k].filename == name
    && forall j :: k < j < |entries| ==> entries[j].filename != name
  }

  ghost predicate Listed(entries: seq<DirEntry>, name: string) {
    exists k :: 0 <= k < |entries| && entries[k].filename == name
  }

  /** rdc_get_inode_num: the scan visits every entry and keeps the inode
      number of the last one whose name matches; -1 when none does. */
  function GetInodeNum(entries: seq<DirEntry>, name: string): (r: int)
    ensures !Listed(entries, name) ==> r == -1
    ensures Listed(entries, name) ==>
              exists k :: IsLastMatch(entries, name, k) && r == entries[k].inodeNum
    decreases |entries|
  {
    if |entries| == 0 then -1
    else if entries[|entries| - 1].filename == name then entries[|entries| - 1].inodeNum
    else
      var r := GetInodeNum(entries[..|entries| - 1], name);
      assert Listed(entries, name) ==> Listed(entries[..|entries| - 1], name) by {
        if Listed(entries, name) {
          var k :| 0 <= k < |entries| && entries[k].filename == name;
          assert entries[..|entries| - 1][k] == entries[k];
        }
      }
      assert Listed(entries[..|entries| - 1], name) ==> Listed(entries, name) by {
        if Listed(entries[..|entries| - 1], name) {
          var k :| 0 <= k < |entries| - 1 && entries[..|entries| - 1][k].filename == name;
          assert entries[k] == entries[..|entries| - 1][k];
        }
      }
      assert forall k :: IsLastMatch(entries[..|entries| - 1], name, k) ==> IsLastMatch(entries, name, k);
      r
  }

  /** With names unique, the inode number found is that of the one entry carrying the name. */
  lemma GetInodeNumUnique(entries: seq<DirEntry>, name: string, k: nat)
    requires k < |entries| && entries[k].filename == name
    requires forall i, j :: 0 <= i < j < |entries| ==> entries[i].filename != entries[j].filename
    ensures GetInodeNum(entries, name) == entries[k].inodeNum
  {
    assert Listed(entries, name);
  }

  /** The search loop of rdc_remove: index of the first entry carrying `name`, or -1. */
  function FindFirst(entries: seq<DirEntry>, name: string): (k: int)
    ensures -1 <= k < |entries|
    ensures k == -1 <==> !Listed(entries, name)
    ensures k >= 0 ==> entries[k].filename == name
    ensures k >= 0 ==> forall j :: 0 <= j < k ==> entries[j].filename != name
    decreases |entries|
  {
    if |entries| == 0 then -1
    else if entries[0].filename == name then 0
    else
      var k := FindFirst(entries[1..], name);
      assert forall j :: 0 < j < |entries| ==> entries[j] == entries[1..][j - 1];
      assert Listed(entries[1..], name) ==> Listed(entries, name) by {
        if Listed(entries[1..], name) {
          var j :| 0 <= j < |entries| - 1 && entries[1..][j].filename == name;
          assert entries[j + 1] == entries[1..][j];
        }
      }
      if k == -1 then -1 else k + 1
  }

  /** The list after unlinking the first entry carrying `name` (unchanged when there is none). */
  function RemoveFirst(entries: seq<DirEntry>, name: string): (r: seq<DirEntry>)
    ensures !Listed(entries, name) ==> r == entries
    ensures Listed(entries, name) ==> |r| == |entries| - 1
    ensures Listed(entries, name) ==>
              var k := FindFirst(entries, name);
              && (forall j :: 0 <= j < k ==> r[j] == entries[j])
              && (forall j :: k <= j < |r| ==> r[j] == entries[j + 1])
  {
    var k := FindFirst(entries, name);
    if k < 0 then entries else entries[..k] + entries[k + 1..]
  }

  /** What one call of rdc_getnextfilename reports: whether a name was
      produced, the name, and where the cursor stands afterwards. */
  datatype Listing = Listing(more: bool, filename: string, cursor: nat)

  /** The cursor is an index into the list; |entries| plays the part of the
      NULL cursor, which the next call answers with 0 and resets to the head. */
  function NextListing(entries: seq<DirEntry>, cursor: nat): Listing {
    if cursor < |entries| then Listing(true, entries[cursor].filename, cursor + 1)
    else Listing(false, "", 0)
  }

  function Names(entries: seq<DirEntry>): (names: seq<string>)
    ensures |names| == |entries|
    ensures forall k :: 0 <= k < |entries| ==> names[k] == entries[k].filename
  {
    seq(|entries|, k requires 0 <= k < |entries| => entries[k].filename)
  }

  /** A caller that calls the listing until it reports 0: the names it
      received and the cursor left behind. */
  function Drain(entries: seq<DirEntry>, cursor: nat): (seq<string>, nat)
    decreases |entries| - cursor
  {
    var l := NextListing(entries, cursor);
    if !l.more then ([], l.cursor)
    else
      var (rest, c) := Drain(entries, l.cursor);
      ([l.filename] + rest, c)
  }

  /** Listing from any cursor position yields the remaining names in list
      order, each once, then reports exhaustion and leaves the cursor at the head. */
  lemma {:induction false} DrainFrom(entries: seq<DirEntry>, cursor: nat)
    requires cursor <= |entries|
    ensures Drain(entries, cursor) == (Names(entries)[cursor..], 0)
    decreases |entries| - cursor
  {
    if cursor < |entries| {
      DrainFrom(entries, cursor + 1);
      var l := NextListing(entries, cursor);
      assert l == Listing(true, entries[cursor].filename, cursor + 1);
      assert Drain(entries, cursor) == ([l.filename] + Drain(entries, cursor + 1).0, Drain(entries, cursor + 1).1);
      assert Names(entries)[cursor..] == [entries[cursor].filename] + Names(entries)[cursor + 1..];
    } else {
      assert Names(entries)[cursor..] == [];
    }
  }

  /** A full round of the listing from the head. */
  lemma ListingRound(entries: seq<DirEntry>)
    ensures Drain(entries, 0) == (Names(entries), 0)
    ensures NextListing(entries, Drain(entries, 0).1) == NextListing(entries, 0)
  {
    DrainFrom(entries, 0);
  }

  /** Number of root-directory blocks rdc_to_disk writes for n entries:
      one block even for an empty list. */
  function BlocksWritten(n: nat): (k: nat)
    ensures k >= 1
    ensures k * 32 >= n && (k - 1) * 32 <= if n == 0 then 0 else n - 1
  {
    if n == 0 then 1 else (n - 1) / 32 + 1
  }

  /** Block b of the serialised directory: entries 32b .. 32b+31, with the
      slots past the end of the list zero-filled. */
  function Chunk(entries: seq<DirEntry>, b: nat): EntryTable {
    seq(32, j requires 0 <= j < 32 => if 32 * b + j < |entries| then entries[32 * b + j] else ZERO_ENTRY)
  }

  /** Entry k lands in slot k % 32 of block k / 32, and every slot of a
      written block past the end of the list is the zero entry. */
  lemma ChunkLayout(entries: seq<DirEntry>, b: nat, j: nat)
    requires j < 32
    ensures 32 * b + j < |entries| ==> Chunk(entries, b)[j] == entries[32 * b + j]
    ensures 32 * b + j >= |entries| ==> Chunk(entries, b)[j] == ZERO_ENTRY
    ensures (32 * b + j) / 32 == b && (32 * b + j) % 32 == j
  {
  }
}
