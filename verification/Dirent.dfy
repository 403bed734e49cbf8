/**
  Directory blocks (`src/spec/dirent.rs`): a chain of records that must tile the block,
  the last of which may be the checksum tail.
*/
module Dirent {
  import opened Bytes

  /** A used entry as the iterator yields it. */
  datatype Entry = Entry(inode: u32, fileType: byte, name: seq<byte>, offset: nat, recLen: u16)

  /** The entries read before the end or the first bad record, and whether the end was reached. */
  datatype Listing = Listing(entries: seq<Entry>, ok: bool)

  predicate BadRecLen(block: seq<byte>, off: nat, recLen: u16) {
    recLen < 8 || recLen % 4 != 0 || off + recLen > |block|
  }

  /** What iterating from `off` yields. */
  function Scan(block: seq<byte>, off: nat): Listing
    decreases |block| - off
  {
    if |block| <= off then Listing([], true)
    else if |block| - off < 8 then Listing([], false)
    else
      var recLen := Le16(block, off + 4);
      if BadRecLen(block, off, recLen) then Listing([], false)
      else if Le32(block, off) == 0 then Scan(block, off + recLen)
      else if 8 + block[off + 6] as int > recLen then Listing([], false)
      else
        var rest := Scan(block, off + recLen);
        Listing([EntryAt(block, off)] + rest.entries, rest.ok)
  }

  function EntryAt(block: seq<byte>, off: nat): Entry
    requires off + 8 <= |block| && off + 8 + block[off + 6] as int <= |block|
  {
    Entry(Le32(block, off), block[off + 7], block[off + 8..off + 8 + block[off + 6] as int], off, Le16(block, off + 4))
  }

  class DirentIter {
    const block: seq<byte>
    var offset: nat
    var failed: bool

    constructor (block: seq<byte>)
      ensures this.block == block && offset == 0 && !failed
    {
      this.block, offset, failed := block, 0, false;
    }

    /** What is still to come; nothing after an error. */
    ghost function Rest(): Listing
      reads this
    {
      if failed then Listing([], true) else Scan(block, offset)
    }

    method Next() returns (r: Option<Result<Entry>>)
      modifies this
      ensures r.None? ==> old(Rest()) == Listing([], true) && Rest() == old(Rest())
      ensures r.Some? && r.value.Ok? ==> old(Rest()) == Listing([r.value.value] + Rest().entries, Rest().ok)
      ensures r.Some? && r.value.Err? ==> old(Rest()) == Listing([], false) && failed
    {
      while !failed && offset < |block|
        invariant failed == old(failed) && Rest() == old(Rest())
        decreases |block| - offset
      {
        var off := offset;
        if |block| - off < 8 {
          failed := true;
          return Some(Err(Corrupt));
        }
        var inode, recLen, nameLen := Le32(block, off), Le16(block, off + 4), block[off + 6];
        if recLen < 8 || recLen % 4 != 0 || off + recLen > |block| {
          failed := true;
          return Some(Err(Corrupt));
        }
        offset := off + recLen;
        if inode == 0 {
          continue;
        }
        if 8 + nameLen as int > recLen {
          failed := true;
          return Some(Err(Corrupt));
        }
        return Some(Ok(Entry(inode, block[off + 7], block[off + 8..off + 8 + nameLen as int], off, recLen)));
      }
      return None;
    }
  }

  /** Runs the iterator to its end or its error. */
  method Collect(block: seq<byte>) returns (entries: seq<Entry>, ok: bool)
    ensures Listing(entries, ok) == Scan(block, 0)
  {
    hide Scan;
    var it := new DirentIter(block);
    entries := [];
    while true
      invariant fresh(it) && it.block == block
      invariant Scan(block, 0) == Listing(entries + it.Rest().entries, it.Rest().ok)
      decreases |it.Rest().entries|
    {
      var e := it.Next();
      if e.None? {
        return entries, true;
      }
      if e.value.Err? {
        return entries, false;
      }
      entries := entries + [e.value.value];
    }
  }

  // ----- records -----

  /** One record: the header fields and everything after the eight header bytes. */
  datatype Record = Record(inode: u32, nameLen: byte, fileType: byte, body: seq<byte>) {
    function Len(): nat { 8 + |body| }

    predicate Valid() {
      Len() < 0x1_0000 && Len() % 4 == 0 && (inode != 0 ==> nameLen <= |body|)
    }

    function Encoded(): seq<byte>
      requires Valid()
    {
      Bytes32(inode) + Bytes16(Len()) + [nameLen, fileType] + body
    }

    function AsEntry(off: nat): Entry
      requires Valid() && inode != 0
    {
      Entry(inode, fileType, body[..nameLen], off, Len())
    }
  }

  predicate AllValid(records: seq<Record>) {
    forall i :: 0 <= i < |records| ==> records[i].Valid()
  }

  function Rendered(records: seq<Record>): seq<byte>
    requires AllValid(records)
  {
    if records == [] then [] else records[0].Encoded() + Rendered(records[1..])
  }

  /** The used records as entries, when the first record starts at `off`. */
  function Used(records: seq<Record>, off: nat): seq<Entry>
    requires AllValid(records)
  {
    if records == [] then []
    else (if records[0].inode != 0 then [records[0].AsEntry(off)] else []) + Used(records[1..], off + records[0].Len())
  }

  lemma RecordFields(r: Record)
    requires r.Valid()
    ensures var w := r.Encoded();
            && |w| == r.Len() && w[0..4] == Bytes32(r.inode) && w[4..6] == Bytes16(r.Len())
            && w[6] == r.nameLen && w[7] == r.fileType && w[8..] == r.body
  {
  }

  lemma RecordDecodes(block: seq<byte>, off: nat, r: Record)
    requires r.Valid() && off + r.Len() <= |block| && block[off..off + r.Len()] == r.Encoded()
    ensures Le32(block, off) == r.inode && Le16(block, off + 4) == r.Len()
    ensures block[off + 6] == r.nameLen && block[off + 7] == r.fileType
    ensures block[off + 8..off + r.Len()] == r.body
  {
    var end := off + r.Len();
    var w := block[off..end];
    RecordFields(r);
    SubSlice(block, off, end, 0, 4);
    SubSlice(block, off, end, 4, 6);
    SubSlice(block, off, end, 8, r.Len());
    Le32Decodes(block, off, r.inode);
    Le16Decodes(block, off + 4, r.Len());
    assert w[6] == block[off + 6] && w[7] == block[off + 7];
  }

  lemma EntryDecodes(block: seq<byte>, off: nat, r: Record)
    requires r.Valid() && r.inode != 0 && off + r.Len() <= |block| && block[off..off + r.Len()] == r.Encoded()
    ensures block[off + 6] <= |r.body| && EntryAt(block, off) == r.AsEntry(off)
  {
    hide Le16, Le32;
    RecordDecodes(block, off, r);
    SubSlice(block, off + 8, off + r.Len(), 0, r.nameLen);
  }

  lemma FirstRecord(block: seq<byte>, off: nat, records: seq<Record>)
    requires AllValid(records) && records != [] && off <= |block| && block[off..] == Rendered(records)
    ensures off + records[0].Len() <= |block|
    ensures block[off..off + records[0].Len()] == records[0].Encoded()
    ensures block[off + records[0].Len()..] == Rendered(records[1..])
  {
  }

  lemma UsedStep(records: seq<Record>, off: nat)
    requires AllValid(records)
    ensures records == [] ==> Used(records, off) == []
    ensures records != [] && records[0].inode == 0 ==> Used(records, off) == Used(records[1..], off + records[0].Len())
    ensures records != [] && records[0].inode != 0
            ==> Used(records, off) == [records[0].AsEntry(off)] + Used(records[1..], off + records[0].Len())
  {
  }

  lemma RenderedNothing()
    ensures Rendered([]) == []
  {
  }

  /** Any block that records tile, the checksum tail included, yields exactly the used records in order. */
  lemma {:induction false} RenderedScans(block: seq<byte>, off: nat, records: seq<Record>)
    requires AllValid(records) && off <= |block| && block[off..] == Rendered(records)
    ensures Scan(block, off) == Listing(Used(records, off), true)
    decreases |records|
  {
    hide Le16, Le32, EntryAt, Rendered, Used;
    UsedStep(records, off);
    if records == [] {
      RenderedNothing();
    } else {
      FirstRecord(block, off, records);
      RecordDecodes(block, off, records[0]);
      if records[0].inode != 0 { EntryDecodes(block, off, records[0]); }
      RenderedScans(block, off + records[0].Len(), records[1..]);
    }
  }

  /** Conversely, iterating to the end without an error means that records tile what was iterated. */
  lemma {:induction false} ScanFindsRecords(block: seq<byte>, off: nat) returns (records: seq<Record>)
    requires off <= |block| && Scan(block, off).ok
    ensures AllValid(records) && block[off..] == Rendered(records) && Scan(block, off).entries == Used(records, off)
    decreases |block| - off
  {
    hide EntryAt, Le16, Le32, BadRecLen;
    if off == |block| {
      records := [];
    } else {
      var r := RecordAt(block, off);
      var rest := ScanFindsRecords(block, off + r.Len());
      records := [r] + rest;
      RenderedCons(r, rest);
      SplitAt(block, off, off + r.Len());
      RenderedScans(block, off, records);
    }
  }

  lemma RenderedCons(r: Record, rest: seq<Record>)
    requires r.Valid() && AllValid(rest)
    ensures AllValid([r] + rest) && Rendered([r] + rest) == r.Encoded() + Rendered(rest)
  {
  }

  lemma SplitAt<T>(s: seq<T>, lo: nat, mid: nat)
    requires lo <= mid <= |s|
    ensures s[lo..] == s[lo..mid] + s[mid..]
  {
  }

  lemma RecordAt(block: seq<byte>, off: nat) returns (r: Record)
    requires off < |block| && Scan(block, off).ok
    ensures r.Valid() && off + r.Len() <= |block| && block[off..off + r.Len()] == r.Encoded()
    ensures Scan(block, off + r.Len()).ok
  {
    var n := Le16(block, off + 4);
    r := Record(Le32(block, off), block[off + 6], block[off + 7], block[off + 8..off + n]);
    Le32Encodes(block, off);
    Le16Encodes(block, off + 4);
    assert block[off..off + n]
      == block[off..off + 4] + block[off + 4..off + 6] + [block[off + 6], block[off + 7]] + block[off + 8..off + n];
  }

  ghost predicate Tiled(block: seq<byte>) {
    exists records: seq<Record> :: AllValid(records) && block == Rendered(records)
  }

  /** The iterator ends without an error exactly on the blocks that records tile. */
  lemma ScanEndsIffTiled(block: seq<byte>)
    ensures Scan(block, 0).ok <==> Tiled(block)
  {
    assert block[0..] == block;
    if Scan(block, 0).ok {
      var records := ScanFindsRecords(block, 0);
    }
    if Tiled(block) {
      var records: seq<Record> :| AllValid(records) && block == Rendered(records);
      RenderedScans(block, 0, records);
    }
  }

  /** Even on a bad block, every entry handed out is used and has its name inside its own record. */
  lemma {:induction false} EntriesInside(block: seq<byte>, off: nat)
    ensures forall i :: 0 <= i < |Scan(block, off).entries| ==>
              var e := Scan(block, off).entries[i];
              && e.inode != 0 && off <= e.offset && 8 + |e.name| <= e.recLen && e.offset + e.recLen <= |block|
              && e.name == block[e.offset + 8..e.offset + 8 + |e.name|]
    decreases |block| - off
  {
    hide Le32;
    if off + 8 <= |block| && !BadRecLen(block, off, Le16(block, off + 4)) {
      EntriesInside(block, off + Le16(block, off + 4));
    }
  }

  // ----- the checksum tail -----

  /** The stored checksum, if the block ends in a tail record. */
  function TailChecksum(block: seq<byte>): Option<u32> {
    if |block| < 12 then None
    else
      var t := |block| - 12;
      if Le32(block, t) == 0 && Le16(block, t + 4) == 12 && block[t + 6] == 0 && block[t + 7] == 0xDE
      then Some(Le32(block, t + 8)) else None
  }

  /** The tail as a record: unused, so iteration passes over it. */
  function Tail(checksum: u32): Record {
    Record(0, 0, 0xDE, Bytes32(checksum))
  }

  lemma TailReads(block: seq<byte>, checksum: u32)
    requires 12 <= |block| && block[|block| - 12..] == Tail(checksum).Encoded()
    ensures TailChecksum(block) == Some(checksum)
  {
    var t := |block| - 12;
    assert block[t..t + 12] == block[t..];
    RecordDecodes(block, t, Tail(checksum));
    Le32Decodes(block, t + 8, checksum);
  }

  /** The on-disk length of a name's record: header and name, rounded up to four. */
  function RecLenFor(nameLen: nat): (r: nat)
    ensures r % 4 == 0 && 8 + nameLen <= r < 8 + nameLen + 4
  {
    (8 + nameLen + 3) / 4 * 4
  }
}
