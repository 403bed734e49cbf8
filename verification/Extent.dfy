/**
  Extent-tree nodes on disk (`src/spec/extent.rs`): a 12-byte header and 12-byte entries,
  which are runs of blocks in a leaf and child pointers in an index node.
*/
module Extent {
  import opened Bytes

  const EXTENT_MAGIC: u16 := 0xF30A
  const HEADER_LEN: nat := 12
  const ENTRY_LEN: nat := 12
  const U48: int := 0x1_0000_0000_0000

  datatype Header = Header(entries: u16, max: u16, depth: u16, generation: u32)

  /** A mapped run; a raw length above 32768 marks an unwritten run of 32768 fewer blocks. */
  datatype Extent = Extent(logical: u32, rawLen: u16, start: u64) {
    function Len(): u16 {
      if rawLen > 32768 then rawLen - 32768 else rawLen
    }

    predicate Unwritten() {
      rawLen > 32768
    }
  }

  /** A child pointer. */
  datatype Idx = Idx(logical: u32, leaf: u64)

  function DecodeHeader(b: seq<byte>): Result<Header> {
    if |b| < HEADER_LEN then Err(Corrupt)
    else if Le16(b, 0) != EXTENT_MAGIC then Err(Corrupt)
    else Ok(Header(Le16(b, 2), Le16(b, 4), Le16(b, 6), Le32(b, 8)))
  }

  function HeaderBytes(h: Header): seq<byte> {
    Bytes16(EXTENT_MAGIC) + Bytes16(h.entries) + Bytes16(h.max) + Bytes16(h.depth) + Bytes32(h.generation)
  }

  function DecodeExtent(b: seq<byte>): Extent
    requires |b| == ENTRY_LEN
  {
    Extent(Le32(b, 0), Le16(b, 4), Le16(b, 6) * 0x1_0000_0000 + Le32(b, 8))
  }

  function ExtentBytes(e: Extent): (r: seq<byte>)
    ensures |r| == ENTRY_LEN
  {
    Bytes32(e.logical) + Bytes16(e.rawLen) + Bytes16(e.start / 0x1_0000_0000 % 0x1_0000)
      + Bytes32(e.start % 0x1_0000_0000)
  }

  function DecodeIdx(b: seq<byte>): Idx
    requires |b| == ENTRY_LEN
  {
    Idx(Le32(b, 0), Le32(b, 4) as int + Le16(b, 8) as int * 0x1_0000_0000)
  }

  function IdxBytes(x: Idx): (r: seq<byte>)
    ensures |r| == ENTRY_LEN
  {
    Bytes32(x.logical) + Bytes32(x.leaf % 0x1_0000_0000) + Bytes16(x.leaf / 0x1_0000_0000 % 0x1_0000) + Bytes16(0)
  }

  /** How many entries fit a node; a block node keeps four more bytes for its checksum. */
  function RoomFor(nodeLen: nat): nat {
    if nodeLen < HEADER_LEN then 0 else (nodeLen - HEADER_LEN) / ENTRY_LEN
  }

  function NodeCapacity(blockSize: nat): nat
    requires HEADER_LEN + 4 <= blockSize
  {
    (blockSize - HEADER_LEN - 4) / ENTRY_LEN
  }

  function Entry(b: seq<byte>, i: nat): (r: seq<byte>)
    requires i < RoomFor(|b|)
    ensures |r| == ENTRY_LEN
  {
    var off := HEADER_LEN + i * ENTRY_LEN;
    b[off..off + ENTRY_LEN]
  }

  // ----- round trips -----

  lemma HeaderRoundTrip(b: seq<byte>, h: Header)
    requires HEADER_LEN <= |b| && b[..HEADER_LEN] == HeaderBytes(h)
    ensures DecodeHeader(b) == Ok(h)
  {
    hide Bytes16, Bytes32, Le16, Le32;
    var p1 := Bytes16(EXTENT_MAGIC);
    var p2 := p1 + Bytes16(h.entries);
    var p3 := p2 + Bytes16(h.max);
    var p4 := p3 + Bytes16(h.depth);
    Peel32(b, p4, h.generation);
    Peel16(b, p3, h.depth);
    Peel16(b, p2, h.max);
    Peel16(b, p1, h.entries);
    assert [] + p1 == p1;
    Peel16(b, [], EXTENT_MAGIC);
  }

  /** The entry keeps 48 bits of the block number: it round-trips exactly when they suffice. */
  lemma ExtentRoundTrip(e: Extent)
    ensures DecodeExtent(ExtentBytes(e)) == e <==> e.start < U48
  {
    hide Bytes16, Bytes32, Le16, Le32;
    var w := ExtentBytes(e);
    var hi, lo := e.start / 0x1_0000_0000 % 0x1_0000, e.start % 0x1_0000_0000;
    var p1 := Bytes32(e.logical);
    var p2 := p1 + Bytes16(e.rawLen);
    var p3 := p2 + Bytes16(hi);
    assert w[..12] == p3 + Bytes32(lo) && [] + p1 == p1;
    Peel32(w, p3, lo);
    Peel16(w, p2, hi);
    Peel16(w, p1, e.rawLen);
    Peel32(w, [], e.logical);
  }

  lemma IdxRoundTrip(x: Idx)
    ensures DecodeIdx(IdxBytes(x)) == x <==> x.leaf < U48
  {
    hide Bytes16, Bytes32, Le16, Le32;
    var w := IdxBytes(x);
    var hi, lo := x.leaf / 0x1_0000_0000 % 0x1_0000, x.leaf % 0x1_0000_0000;
    var p1 := Bytes32(x.logical);
    var p2 := p1 + Bytes32(lo);
    assert w[..10] == p2 + Bytes16(hi) && [] + p1 == p1;
    Peel16(w, p2, hi);
    Peel32(w, p1, lo);
    Peel32(w, [], x.logical);
  }

  /** The last two bytes of an index entry are unused. */
  lemma IdxEnds(x: Idx)
    ensures IdxBytes(x)[10..] == [0, 0]
  {
    hide Bytes32;
  }

  /** A block node has room for as many entries as fit in front of its checksum, and for no more. */
  lemma CapacityIsLargest(blockSize: nat)
    requires 16 <= blockSize
    ensures 12 + 12 * NodeCapacity(blockSize) <= blockSize - 4 < 12 + 12 * (NodeCapacity(blockSize) + 1)
  {
  }

  /** A full block node ends exactly where the checksum tail begins. */
  lemma FullNodeEndsAtTail()
    ensures NodeCapacity(4096) == RoomFor(4096) == 340 && HEADER_LEN + NodeCapacity(4096) * ENTRY_LEN == 4096 - 4
    ensures RoomFor(60) == 4
  {
  }

  method EncodeHeader(h: Header, out: array<byte>, off: nat)
    requires off + HEADER_LEN <= out.Length
    modifies out
    ensures out[..] == Splice(old(out[..]), off, HeaderBytes(h))
  {
    ghost var b, w := out[..], Bytes16(EXTENT_MAGIC);
    PutU16(out, off, EXTENT_MAGIC);
    PutU16(out, off + 2, h.entries);
    SpliceNext(b, off, w, Bytes16(h.entries));
    w := w + Bytes16(h.entries);
    PutU16(out, off + 4, h.max);
    SpliceNext(b, off, w, Bytes16(h.max));
    w := w + Bytes16(h.max);
    PutU16(out, off + 6, h.depth);
    SpliceNext(b, off, w, Bytes16(h.depth));
    w := w + Bytes16(h.depth);
    PutU32(out, off + 8, h.generation);
    SpliceNext(b, off, w, Bytes32(h.generation));
  }

  method EncodeExtent(e: Extent, out: array<byte>, off: nat)
    requires off + ENTRY_LEN <= out.Length
    modifies out
    ensures out[..] == Splice(old(out[..]), off, ExtentBytes(e))
  {
    var hi, lo := e.start / 0x1_0000_0000 % 0x1_0000, e.start % 0x1_0000_0000;
    ghost var b, w := out[..], Bytes32(e.logical);
    PutU32(out, off, e.logical);
    PutU16(out, off + 4, e.rawLen);
    SpliceNext(b, off, w, Bytes16(e.rawLen));
    w := w + Bytes16(e.rawLen);
    PutU16(out, off + 6, hi);
    SpliceNext(b, off, w, Bytes16(hi));
    w := w + Bytes16(hi);
    PutU32(out, off + 8, lo);
    SpliceNext(b, off, w, Bytes32(lo));
  }

  method EncodeIdx(x: Idx, out: array<byte>, off: nat)
    requires off + ENTRY_LEN <= out.Length
    modifies out
    ensures out[..] == Splice(old(out[..]), off, IdxBytes(x))
  {
    var hi, lo := x.leaf / 0x1_0000_0000 % 0x1_0000, x.leaf % 0x1_0000_0000;
    ghost var b, w := out[..], Bytes32(x.logical);
    PutU32(out, off, x.logical);
    PutU32(out, off + 4, lo);
    SpliceNext(b, off, w, Bytes32(lo));
    w := w + Bytes32(lo);
    PutU16(out, off + 8, hi);
    SpliceNext(b, off, w, Bytes16(hi));
    w := w + Bytes16(hi);
    PutU16(out, off + 10, 0);
    SpliceNext(b, off, w, Bytes16(0));
  }
}
