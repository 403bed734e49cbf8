/**
  The blocks of a directory's hash index (`src/spec/htree.rs`): a root or node header, then
  a table of eight-byte slots whose first slot also holds the table's limit and count.
*/
module Htree {
  import opened Bytes

  datatype DxEntry = DxEntry(hash: u32, block: u32)

  datatype Table = Table(limit: u16, count: u16, entries: seq<DxEntry>, checksum: u32)

  datatype DxInfo = DxInfo(hashVersion: byte, infoLength: byte, indirectLevels: byte, unusedFlags: byte)

  datatype RootView = RootView(info: DxInfo, table: Table)

  const ROOT_COUNT_OFFSET: nat := 0x20
  const NODE_COUNT_OFFSET: nat := 0x8

  /** Slots that fit a block after `offset`, the last of them left to the checksum tail. */
  function Limit(blockSize: nat, offset: nat): u16
    requires offset + 16 <= blockSize
  {
    ((blockSize - offset) / 8 - 1) % 0x1_0000
  }

  function RootLimit(blockSize: nat): u16
    requires 0x30 <= blockSize
  {
    Limit(blockSize, ROOT_COUNT_OFFSET)
  }

  function NodeLimit(blockSize: nat): u16
    requires 0x18 <= blockSize
  {
    Limit(blockSize, NODE_COUNT_OFFSET)
  }

  /** For blocks up to 64 KiB the limit is the largest that leaves the tail slot inside the block. */
  lemma LimitIsLargest(blockSize: nat, offset: nat)
    requires offset + 16 <= blockSize <= 0x1_0000
    ensures offset + 8 * Limit(blockSize, offset) + 8 <= blockSize < offset + 8 * (Limit(blockSize, offset) + 1) + 8
  {
  }

  /** Slot `i` of a table; the first slot's hash is implicitly zero. */
  function SlotAt(b: seq<byte>, countOffset: nat, i: nat): DxEntry
    requires countOffset + 8 * i + 8 <= |b|
  {
    DxEntry(if i == 0 then 0 else Le32(b, countOffset + 8 * i), Le32(b, countOffset + 8 * i + 4))
  }

  function SlotsFrom(b: seq<byte>, countOffset: nat, count: nat): (r: seq<DxEntry>)
    requires countOffset + 8 * count <= |b|
    ensures |r| == count
  {
    seq(count, i requires 0 <= i < count => SlotAt(b, countOffset, i))
  }

  function TableAt(b: seq<byte>, countOffset: nat): (r: Result<Table>)
    requires countOffset + 4 <= |b|
    ensures r.Ok? ==> 1 <= r.value.count <= r.value.limit && |r.value.entries| == r.value.count
                      && countOffset + 8 * r.value.limit + 8 <= |b|
  {
    var limit, count := Le16(b, countOffset), Le16(b, countOffset + 2);
    if count == 0 || count > limit then Err(Corrupt)
    else if countOffset + limit as int * 8 + 8 > |b| then Err(Corrupt)
    else Ok(Table(limit, count, SlotsFrom(b, countOffset, count), Le32(b, countOffset + limit as int * 8 + 4)))
  }

  method ParseTable(b: seq<byte>, countOffset: nat) returns (r: Result<Table>)
    requires countOffset + 4 <= |b|
    ensures r == TableAt(b, countOffset)
  {
    var limit, count := Le16(b, countOffset), Le16(b, countOffset + 2);
    if count == 0 || count > limit { return Err(Corrupt); }
    var end := countOffset + limit as int * 8 + 8;
    if end > |b| { return Err(Corrupt); }
    var entries := [DxEntry(0, Le32(b, countOffset + 4))];
    for i := 1 to count
      invariant entries == SlotsFrom(b, countOffset, i)
    {
      entries := entries + [DxEntry(Le32(b, countOffset + 8 * i), Le32(b, countOffset + 8 * i + 4))];
    }
    var tail := countOffset + limit as int * 8;
    return Ok(Table(limit, count, entries, Le32(b, tail + 4)));
  }

  /** What a root block holds before its table: two dot records and the index's parameters. */
  function RootInfo(block: seq<byte>): (r: Result<DxInfo>)
    ensures r.Ok? ==> 0x30 <= |block| && r.value.indirectLevels <= 1
  {
    if |block| < 0x30 then Err(Corrupt)
    else if Le32(block, 0) == 0 || block[8] != '.' as byte then Err(Corrupt)
    else if Le32(block, 0x0C) == 0 || block[0x14..0x16] != ['.' as byte, '.' as byte] then Err(Corrupt)
    else if Le32(block, 0x18) != 0 then Err(Corrupt)
    else
      var info := DxInfo(block[0x1C], block[0x1D], block[0x1E], block[0x1F]);
      if info.infoLength != 8 then Err(Corrupt)
      else if info.indirectLevels > 1 then Err(Unsupported)
      else Ok(info)
  }

  function RootAt(block: seq<byte>): (r: Result<RootView>)
    ensures r.Ok? ==> var t := r.value.table;
              1 <= t.count <= t.limit && |t.entries| == t.count && ROOT_COUNT_OFFSET + 8 * t.limit + 8 <= |block|
    ensures r.Ok? ==> r.value.info.indirectLevels <= 1
  {
    var info :- RootInfo(block);
    var t :- TableAt(block, ROOT_COUNT_OFFSET);
    Ok(RootView(info, t))
  }

  /** An interior node starts with one unused record that spans the block. */
  predicate SpansBlock(block: seq<byte>) {
    0x18 <= |block| && Le32(block, 0) == 0 && Le16(block, 4) == |block|
  }

  function NodeAt(block: seq<byte>): (r: Result<Table>)
    ensures r.Ok? ==> 1 <= r.value.count <= r.value.limit && |r.value.entries| == r.value.count
                      && NODE_COUNT_OFFSET + 8 * r.value.limit + 8 <= |block|
  {
    if SpansBlock(block) then TableAt(block, NODE_COUNT_OFFSET) else Err(Corrupt)
  }

  /** Which tables are accepted, and where their slots and their checksum are. */
  lemma TableAccepted(b: seq<byte>, at: nat)
    requires at + 4 <= |b|
    ensures var limit, count := Le16(b, at) as nat, Le16(b, at + 2) as nat;
            && (TableAt(b, at).Ok? <==> 1 <= count <= limit && at + 8 * limit + 8 <= |b|)
            && (TableAt(b, at).Ok? ==>
                  var t := TableAt(b, at).value;
                  && t.limit == limit && t.count == count && t.checksum == Le32(b, at + 8 * limit + 4)
                  && t.entries[0] == DxEntry(0, Le32(b, at + 4))
                  && forall i ::
                       1 <= i < count
                       ==> t.entries[i] == DxEntry(Le32(b, at + 8 * i), Le32(b, at + 8 * i + 4)))
            && (TableAt(b, at).Err? ==> TableAt(b, at).error == Corrupt)
  {
    hide Le16, Le32;
  }

  /** What stands in front of the table of an accepted root. */
  predicate RootFront(b: seq<byte>) {
    && 48 <= |b|
    && Le32(b, 0) != 0 && b[8] == '.' as byte
    && Le32(b, 12) != 0 && b[20] == '.' as byte && b[21] == '.' as byte
    && Le32(b, 24) == 0 && b[29] == 8
  }

  /** A root is refused as unsupported for its number of levels alone, and as corrupt for anything else. */
  lemma RootAccepted(b: seq<byte>)
    ensures RootAt(b).Ok? <==> RootFront(b) && b[30] <= 1 && TableAt(b, 32).Ok?
    ensures RootAt(b) == Err(Unsupported) <==> RootFront(b) && 1 < b[30]
    ensures RootAt(b).Err? ==> RootAt(b).error in {Unsupported, Corrupt}
    ensures RootAt(b).Ok? ==> RootAt(b).value == RootView(DxInfo(b[28], 8, b[30], b[31]), TableAt(b, 32).value)
  {
    hide Le32;
    if 48 <= |b| {
      TableAccepted(b, 32);
      assert b[0x14..0x16] == [b[20], b[21]];
    }
    hide TableAt;
  }

  lemma NodeAccepted(b: seq<byte>)
    ensures NodeAt(b).Ok? <==> 24 <= |b| && Le32(b, 0) == 0 && Le16(b, 4) == |b| && TableAt(b, 8).Ok?
    ensures NodeAt(b).Ok? ==> NodeAt(b) == TableAt(b, 8)
    ensures NodeAt(b).Err? ==> NodeAt(b).error == Corrupt
  {
    hide Le16, Le32;
    if 24 <= |b| { TableAccepted(b, 8); }
  }

  /** Both parsers, with the table read by the loop. */
  method ParseRoot(block: seq<byte>) returns (r: Result<RootView>)
    ensures r == RootAt(block)
  {
    var info :- RootInfo(block);
    var t :- ParseTable(block, ROOT_COUNT_OFFSET);
    return Ok(RootView(info, t));
  }

  method ParseNode(block: seq<byte>) returns (r: Result<Table>)
    ensures r == NodeAt(block)
  {
    if !SpansBlock(block) { return Err(Corrupt); }
    r := ParseTable(block, NODE_COUNT_OFFSET);
  }
}
