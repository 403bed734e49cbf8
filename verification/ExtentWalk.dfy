/**
  The recursive walk that flattens an inode's extent tree (`walk_extent_node` in
  `src/reader/mod.rs`) over an arbitrary disk, hostile or not.
*/
module ExtentWalk {
  import opened Bytes
  import opened Extent
  import Csum

  const MAX_DEPTH: nat := 5

  /** One logical-to-physical mapping of a file. */
  datatype FileExtent = FileExtent(logical: u32, physical: u64, len: u16, unwritten: bool)

  /** An open filesystem: the bytes it reads, and how checksums are seeded. */
  datatype Fs = Fs(disk: seq<byte>, metadataCsum: bool, fsSeed: bv32)

  /** Reads succeed exactly inside the device. */
  function ReadBlock(fs: Fs, block: nat): (r: Result<seq<byte>>)
    ensures r.Ok? ==> |r.value| == BLOCK_SIZE
  {
    var at := block * BLOCK_SIZE;
    if at + BLOCK_SIZE <= |fs.disk| then Ok(fs.disk[at..at + BLOCK_SIZE]) else Err(Io)
  }

  /** The inode whose tree is walked; its number and generation seed the node checksums. */
  datatype Owner = Owner(ino: u32, generation: u32)

  predicate Stamped(fs: Fs, owner: Owner, block: seq<byte>)
    requires |block| == BLOCK_SIZE
  {
    Csum.ExtentBlock(Csum.InodeSeed(fs.fsSeed, owner.ino, owner.generation), block) as int
      == Le32(block, BLOCK_SIZE - 4)
  }

  predicate ChecksumAccepts(fs: Fs, owner: Owner, block: seq<byte>)
    requires |block| == BLOCK_SIZE
  {
    fs.metadataCsum ==> Stamped(fs, owner, block)
  }

  function Mapping(e: Extent): FileExtent {
    FileExtent(e.logical, e.start, e.Len(), e.Unwritten())
  }

  /** What a walk leaves behind: its status, what it appended, and how many blocks it tried to read. */
  datatype Walk = Walk(status: Outcome, out: seq<FileExtent>, fetched: nat)

  function CheckNode(node: seq<byte>, wanted: Option<nat>): (r: Result<Header>)
    ensures r.Ok? ==> r.value.depth <= MAX_DEPTH && r.value.entries <= r.value.max <= RoomFor(|node|)
    ensures r.Ok? && wanted.Some? ==> r.value.depth == wanted.value
  {
    var h :- DecodeHeader(node);
    if h.depth > MAX_DEPTH then Err(Corrupt)
    else if wanted.Some? && h.depth != wanted.value then Err(Corrupt)
    else if h.entries > h.max || h.max > RoomFor(|node|) then Err(Corrupt)
    else Ok(h)
  }

  function Level(wanted: Option<nat>): nat {
    if wanted.Some? then wanted.value else MAX_DEPTH + 1
  }

  /** The walk of one node, as a function of the disk. */
  function WalkNode(fs: Fs, owner: Owner, node: seq<byte>, wanted: Option<nat>): Walk
    decreases Level(wanted), 1, 0
  {
    match CheckNode(node, wanted)
    case Err(e) => Walk(Fail(e), [], 0)
    case Ok(h) => WalkEntries(fs, owner, node, h, 0)
  }

  function WalkEntries(fs: Fs, owner: Owner, node: seq<byte>, h: Header, i: nat): Walk
    requires i <= h.entries <= RoomFor(|node|)
    decreases h.depth, 0, h.entries - i
  {
    if i == h.entries then Walk(Pass, [], 0)
    else
      var first := WalkEntry(fs, owner, Entry(node, i), h.depth);
      if first.status.Fail? then first
      else
        var rest := WalkEntries(fs, owner, node, h, i + 1);
        Walk(rest.status, first.out + rest.out, first.fetched + rest.fetched)
  }

  function WalkEntry(fs: Fs, owner: Owner, entry: seq<byte>, depth: nat): Walk
    requires |entry| == ENTRY_LEN
    decreases depth, 0, 0
  {
    if depth == 0 then
      var e := DecodeExtent(entry);
      if e.Len() == 0 then Walk(Fail(Corrupt), [], 0) else Walk(Pass, [Mapping(e)], 0)
    else
      match ReadBlock(fs, DecodeIdx(entry).leaf)
      case Err(e) => Walk(Fail(e), [], 1)
      case Ok(child) =>
        if !ChecksumAccepts(fs, owner, child) then Walk(Fail(Corrupt), [], 1)
        else
          var w := WalkNode(fs, owner, child, Some(depth - 1));
          Walk(w.status, w.out, 1 + w.fetched)
  }

  /** The reader's walk, appending to one growing list. */
  class Walker {
    const fs: Fs
    const owner: Owner
    var out: seq<FileExtent>
    ghost var fetched: nat

    constructor (fs: Fs, owner: Owner)
      ensures this.fs == fs && this.owner == owner && out == [] && fetched == 0
    {
      this.fs, this.owner, out, fetched := fs, owner, [], 0;
    }

    method WalkExtentNode(node: seq<byte>, wanted: Option<nat>) returns (r: Outcome)
      modifies this
      ensures var w := WalkNode(fs, owner, node, wanted);
              r == w.status && out == old(out) + w.out && fetched == old(fetched) + w.fetched
      decreases Level(wanted), 1
    {
      var checked := CheckNode(node, wanted);
      if checked.Err? {
        return Fail(checked.error);
      }
      var h := checked.value;
      for i := 0 to h.entries
        invariant var all, rest := WalkEntries(fs, owner, node, h, 0), WalkEntries(fs, owner, node, h, i);
                  && all.status == rest.status
                  && old(out) + all.out == out + rest.out
                  && old(fetched) + all.fetched == fetched + rest.fetched
      {
        AppendAssociates(out, WalkEntry(fs, owner, Entry(node, i), h.depth).out,
          WalkEntries(fs, owner, node, h, i + 1).out);
        r := WalkOneEntry(Entry(node, i), h.depth);
        if r.Fail? {
          return r;
        }
      }
      return Pass;
    }

    /** The body of the entry loop: a leaf run is appended, a child node is fetched, checked and walked. */
    method WalkOneEntry(entry: seq<byte>, depth: nat) returns (r: Outcome)
      requires |entry| == ENTRY_LEN
      modifies this
      ensures var w := WalkEntry(fs, owner, entry, depth);
              r == w.status && out == old(out) + w.out && fetched == old(fetched) + w.fetched
      decreases depth, 0
    {
      if depth == 0 {
        var e := DecodeExtent(entry);
        if e.Len() == 0 {
          return Fail(Corrupt);
        }
        out := out + [Mapping(e)];
        return Pass;
      }
      fetched := fetched + 1;
      var child := ReadBlock(fs, DecodeIdx(entry).leaf);
      if child.Err? {
        return Fail(child.error);
      }
      if !ChecksumAccepts(fs, owner, child.value) {
        return Fail(Corrupt);
      }
      r := WalkExtentNode(child.value, Some(depth - 1));
    }
  }
}
