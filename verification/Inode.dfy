/**
  On-disk inodes (`src/spec/inode.rs`): fields split over a 128-byte base and an extra
  area whose size the inode itself declares, with in-inode attributes after it.
*/
module Inode {
  import opened Bytes
  import Crc32c
  import Csum

  const SLOT: nat := 256
  const W32: int := 0x1_0000_0000

  /** Split halves are joined; `ibody` is the raw area after the declared extra fields. */
  datatype Inode = Inode(
    mode: u16, uid: u32, gid: u32, size: u64, atime: u32, ctime: u32, mtime: u32, dtime: u32,
    linksCount: u16, blocks: u64, flags: u32, version: u64, block: seq<byte>, generation: u32,
    fileAcl: u64, extraIsize: u16, checksum: u32, ctimeExtra: u32, mtimeExtra: u32, atimeExtra: u32,
    crtime: u32, crtimeExtra: u32, projid: u32, ibody: seq<byte>)

  /** The slot decoded; extra fields only as far as both the slot and `extraIsize` reach. */
  function Decode(b: seq<byte>): Result<Inode>
    requires |b| <= 128 || 130 <= |b|
  {
    if |b| < 128 then Err(Corrupt)
    else
      var extra := if 0x80 < |b| then Le16(b, 0x80) else 0;
      var version := Le32(b, 0x24) as int + if Has(b, extra, 0x9C) then Le32(b, 0x98) * W32 else 0;
      var checksum := Le16(b, 0x7C) as int + if Has(b, extra, 0x84) then Le16(b, 0x82) * 0x1_0000 else 0;
      Ok(Inode(
        Le16(b, 0x00),
        Le16(b, 0x02) as int + Le16(b, 0x78) as int * 0x1_0000,
        Le16(b, 0x18) as int + Le16(b, 0x7A) as int * 0x1_0000,
        Le32(b, 0x04) as int + Le32(b, 0x6C) as int * W32,
        Le32(b, 0x08), Le32(b, 0x0C), Le32(b, 0x10), Le32(b, 0x14), Le16(b, 0x1A),
        Le32(b, 0x1C) as int + Le16(b, 0x74) as int * W32,
        Le32(b, 0x20), version, b[0x28..0x64], Le32(b, 0x64),
        Le32(b, 0x68) as int + Le16(b, 0x76) as int * W32,
        extra, checksum,
        Field(b, extra, 0x84), Field(b, extra, 0x88), Field(b, extra, 0x8C), Field(b, extra, 0x90),
        Field(b, extra, 0x94), Field(b, extra, 0x9C), Area(b, extra)))
  }

  /** An extra field ending at `end` exists in this slot. */
  predicate Has(b: seq<byte>, extra: u16, end: nat) {
    end <= |b| && end <= 0x80 + extra
  }

  function Field(b: seq<byte>, extra: u16, at: nat): u32 {
    if Has(b, extra, at + 4) then Le32(b, at) else 0
  }

  /** The bytes after the declared extra fields, or nothing when they are all zero. */
  function Area(b: seq<byte>, extra: u16): seq<byte> {
    var start := if 0x80 + extra < |b| then 0x80 + extra else |b|;
    if forall k :: start <= k < |b| ==> b[k] == 0 then [] else b[start..]
  }

  // ----- encoding -----

  // The bytes written so far, after each stretch of the encoder.

  function ToGid(x: Inode): (r: seq<byte>)
    ensures |r| == 0x20
  {
    Bytes16(x.mode) + Bytes16(x.uid % 0x1_0000) + Bytes32(x.size % W32) + Bytes32(x.atime) + Bytes32(x.ctime)
    + Bytes32(x.mtime) + Bytes32(x.dtime) + Bytes16(x.gid % 0x1_0000) + Bytes16(x.linksCount) + Bytes32(x.blocks % W32)
  }

  function ToBlock(x: Inode): (r: seq<byte>)
    requires |x.block| == 60
    ensures |r| == 0x64
  {
    ToGid(x) + Bytes32(x.flags) + Bytes32(x.version % W32) + x.block
  }

  function Base(x: Inode): (r: seq<byte>)
    requires |x.block| == 60
    ensures |r| == 0x80
  {
    ToBlock(x) + Bytes32(x.generation) + Bytes32(x.fileAcl % W32) + Bytes32(x.size / W32) + Zeros(4)
    + Bytes16(x.blocks / W32 % 0x1_0000) + Bytes16(x.fileAcl / W32 % 0x1_0000)
    + Bytes16(x.uid / 0x1_0000) + Bytes16(x.gid / 0x1_0000) + Bytes16(x.checksum % 0x1_0000) + Zeros(2)
  }

  function Gated(on: bool, w: seq<byte>): seq<byte> {
    if on then w else []
  }

  /** The base, the declared size, and the extra fields that it covers. */
  function Front(x: Inode): (r: seq<byte>)
    requires |x.block| == 60
    ensures |r| == FrontLength(x.extraIsize)
  {
    Base(x) + Bytes16(x.extraIsize)
    + Gated(4 <= x.extraIsize, Bytes16(x.checksum / 0x1_0000))
    + Gated(8 <= x.extraIsize, Bytes32(x.ctimeExtra))
    + Gated(12 <= x.extraIsize, Bytes32(x.mtimeExtra))
    + Gated(16 <= x.extraIsize, Bytes32(x.atimeExtra))
    + Gated(20 <= x.extraIsize, Bytes32(x.crtime))
    + Gated(24 <= x.extraIsize, Bytes32(x.crtimeExtra))
    + Gated(28 <= x.extraIsize, Bytes32(x.version / W32))
    + Gated(32 <= x.extraIsize, Bytes32(x.projid))
  }

  function FrontLength(extra: u16): (n: nat)
    ensures n <= 0xA0 && (2 <= extra ==> n <= 0x80 + extra)
  {
    if extra < 4 then 0x82 else if extra < 32 then 0x80 + extra / 4 * 4 else 0xA0
  }

  /** `p` at the front of an otherwise zero buffer. */
  function Filled(p: seq<byte>, n: nat): (r: seq<byte>)
    requires |p| <= n
    ensures |r| == n
  {
    p + Zeros(n - |p|)
  }

  /** What the encoder needs: a 60-byte block field, and room for the attribute area. */
  predicate Encodable(x: Inode) {
    |x.block| == 60 && (x.ibody != [] ==> 0x80 + x.extraIsize as int + |x.ibody| <= SLOT)
  }

  function Encoded(x: Inode): (r: seq<byte>)
    requires Encodable(x)
    ensures |r| == SLOT
  {
    var fixed := Filled(Front(x), SLOT);
    if x.ibody == [] then fixed else Splice(fixed, 0x80 + x.extraIsize as int, x.ibody)
  }

  /** Whether the declared size is still readable once the attribute area is laid over it. */
  predicate SizeSurvives(x: Inode) {
    x.ibody == [] || 2 <= x.extraIsize || forall k ::
      0 <= k < 2 - x.extraIsize as int && k < |x.ibody| ==> x.ibody[k] == 0
  }

  // ----- the encoder -----

  lemma FillNext(p: seq<byte>, w: seq<byte>, n: nat, rest: seq<byte>)
    requires |p| + |w| <= n
    ensures Splice(Filled(p, n) + rest, |p|, w) == Filled(p + w, n) + rest
  {
  }

  lemma FillGap(p: seq<byte>, k: nat, n: nat)
    requires |p| + k <= n
    ensures Filled(p, n) == Filled(p + Zeros(k), n)
  {
  }

  method Clear(out: array<byte>)
    requires SLOT <= out.Length
    modifies out
    ensures out[..] == Filled([], SLOT) + old(out[SLOT..])
  {
    for i := 0 to SLOT
      invariant forall k :: 0 <= k < i ==> out[k] == 0
      invariant out[SLOT..] == old(out[SLOT..])
    {
      out[i] := 0;
    }
    assert out[..] == out[..SLOT] + out[SLOT..];
  }

  method Next16(out: array<byte>, off: nat, v: u16, ghost p: seq<byte>, ghost rest: seq<byte>)
    requires off == |p| && off + 2 <= SLOT && out[..] == Filled(p, SLOT) + rest
    modifies out
    ensures out[..] == Filled(p + Bytes16(v), SLOT) + rest
  {
    PutU16(out, off, v);
    FillNext(p, Bytes16(v), SLOT, rest);
  }

  method Next32(out: array<byte>, off: nat, v: u32, ghost p: seq<byte>, ghost rest: seq<byte>)
    requires off == |p| && off + 4 <= SLOT && out[..] == Filled(p, SLOT) + rest
    modifies out
    ensures out[..] == Filled(p + Bytes32(v), SLOT) + rest
  {
    PutU32(out, off, v);
    FillNext(p, Bytes32(v), SLOT, rest);
  }

  method EncodeToGid(x: Inode, out: array<byte>, ghost rest: seq<byte>)
    requires out[..] == Filled([], SLOT) + rest
    modifies out
    ensures out[..] == Filled(ToGid(x), SLOT) + rest
  {
    hide Bytes16, Bytes32, Filled;
    ghost var p := [];
    Next16(out, 0x00, x.mode, p, rest); p := Bytes16(x.mode);
    assert [] + p == p;
    Next16(out, 0x02, x.uid % 0x1_0000, p, rest); p := p + Bytes16(x.uid % 0x1_0000);
    Next32(out, 0x04, x.size % W32, p, rest); p := p + Bytes32(x.size % W32);
    Next32(out, 0x08, x.atime, p, rest); p := p + Bytes32(x.atime);
    Next32(out, 0x0C, x.ctime, p, rest); p := p + Bytes32(x.ctime);
    Next32(out, 0x10, x.mtime, p, rest); p := p + Bytes32(x.mtime);
    Next32(out, 0x14, x.dtime, p, rest); p := p + Bytes32(x.dtime);
    Next16(out, 0x18, x.gid % 0x1_0000, p, rest); p := p + Bytes16(x.gid % 0x1_0000);
    Next16(out, 0x1A, x.linksCount, p, rest); p := p + Bytes16(x.linksCount);
    Next32(out, 0x1C, x.blocks % W32, p, rest);
  }

  method EncodeToBlock(x: Inode, out: array<byte>, ghost rest: seq<byte>)
    requires |x.block| == 60 && out[..] == Filled(ToGid(x), SLOT) + rest
    modifies out
    ensures out[..] == Filled(ToBlock(x), SLOT) + rest
  {
    hide Bytes16, Bytes32, Filled, ToGid;
    ghost var p := ToGid(x);
    Next32(out, 0x20, x.flags, p, rest); p := p + Bytes32(x.flags);
    Next32(out, 0x24, x.version % W32, p, rest); p := p + Bytes32(x.version % W32);
    CopyIn(out, 0x28, x.block);
    FillNext(p, x.block, SLOT, rest);
  }

  method EncodeBase(x: Inode, out: array<byte>, ghost rest: seq<byte>)
    requires |x.block| == 60 && out[..] == Filled(ToBlock(x), SLOT) + rest
    modifies out
    ensures out[..] == Filled(Base(x), SLOT) + rest
  {
    hide Bytes16, Bytes32, Filled, ToBlock;
    ghost var p := ToBlock(x);
    Next32(out, 0x64, x.generation, p, rest); p := p + Bytes32(x.generation);
    Next32(out, 0x68, x.fileAcl % W32, p, rest); p := p + Bytes32(x.fileAcl % W32);
    Next32(out, 0x6C, x.size / W32, p, rest); p := p + Bytes32(x.size / W32);
    FillGap(p, 4, SLOT); p := p + Zeros(4);
    Next16(out, 0x74, x.blocks / W32 % 0x1_0000, p, rest); p := p + Bytes16(x.blocks / W32 % 0x1_0000);
    Next16(out, 0x76, x.fileAcl / W32 % 0x1_0000, p, rest); p := p + Bytes16(x.fileAcl / W32 % 0x1_0000);
    Next16(out, 0x78, x.uid / 0x1_0000, p, rest); p := p + Bytes16(x.uid / 0x1_0000);
    Next16(out, 0x7A, x.gid / 0x1_0000, p, rest); p := p + Bytes16(x.gid / 0x1_0000);
    Next16(out, 0x7C, x.checksum % 0x1_0000, p, rest); p := p + Bytes16(x.checksum % 0x1_0000);
    FillGap(p, 2, SLOT);
  }

  method Gate16(on: bool, out: array<byte>, off: nat, v: u16, ghost p: seq<byte>, ghost rest: seq<byte>)
                returns (ghost q: seq<byte>)
    requires on ==> off == |p| && off + 2 <= SLOT
    requires |p| <= SLOT && out[..] == Filled(p, SLOT) + rest
    modifies out
    ensures q == p + Gated(on, Bytes16(v)) && |q| <= SLOT && out[..] == Filled(q, SLOT) + rest
  {
    q := p + Gated(on, Bytes16(v));
    if on {
      Next16(out, off, v, p, rest);
    }
  }

  method Gate32(on: bool, out: array<byte>, off: nat, v: u32, ghost p: seq<byte>, ghost rest: seq<byte>)
                returns (ghost q: seq<byte>)
    requires on ==> off == |p| && off + 4 <= SLOT
    requires |p| <= SLOT && out[..] == Filled(p, SLOT) + rest
    modifies out
    ensures q == p + Gated(on, Bytes32(v)) && |q| <= SLOT && out[..] == Filled(q, SLOT) + rest
  {
    q := p + Gated(on, Bytes32(v));
    if on {
      Next32(out, off, v, p, rest);
    }
  }

  method EncodeFront(x: Inode, out: array<byte>, ghost rest: seq<byte>)
    requires |x.block| == 60 && out[..] == Filled(Base(x), SLOT) + rest
    modifies out
    ensures out[..] == Filled(Front(x), SLOT) + rest
  {
    hide Bytes16, Bytes32, Filled, Base;
    var e := x.extraIsize;
    ghost var p := Base(x) + Bytes16(e);
    Next16(out, 0x80, e, Base(x), rest);
    p := Gate16(4 <= e, out, 0x82, x.checksum / 0x1_0000, p, rest);
    p := Gate32(8 <= e, out, 0x84, x.ctimeExtra, p, rest);
    p := Gate32(12 <= e, out, 0x88, x.mtimeExtra, p, rest);
    p := Gate32(16 <= e, out, 0x8C, x.atimeExtra, p, rest);
    p := Gate32(20 <= e, out, 0x90, x.crtime, p, rest);
    p := Gate32(24 <= e, out, 0x94, x.crtimeExtra, p, rest);
    p := Gate32(28 <= e, out, 0x98, x.version / W32, p, rest);
    p := Gate32(32 <= e, out, 0x9C, x.projid, p, rest);
  }

  /** The encoder writes the first 256 bytes of the caller's buffer and nothing after them. */
  method Encode(x: Inode, out: array<byte>)
    requires Encodable(x) && SLOT <= out.Length
    modifies out
    ensures out[..] == Encoded(x) + old(out[SLOT..])
  {
    hide ToGid, ToBlock, Base, Front, Filled;
    ghost var rest := out[SLOT..];
    Clear(out);
    EncodeToGid(x, out, rest);
    EncodeToBlock(x, out, rest);
    EncodeBase(x, out, rest);
    EncodeFront(x, out, rest);
    if x.ibody != [] {
      CopyIn(out, 0x80 + x.extraIsize as int, x.ibody);
      SpliceFront(Filled(Front(x), SLOT), rest, 0x80 + x.extraIsize as int, x.ibody);
    }
  }

  lemma SpliceFront(p: seq<byte>, q: seq<byte>, off: nat, w: seq<byte>)
    requires off + |w| <= |p|
    ensures Splice(p + q, off, w) == Splice(p, off, w) + q
  {
  }

  // ----- decoding what was encoded -----

  lemma GidFields(b: seq<byte>, x: Inode)
    requires 0x20 <= |b| && b[..0x20] == ToGid(x)
    ensures Le16(b, 0x00) == x.mode && Le16(b, 0x02) == x.uid % 0x1_0000 && Le32(b, 0x04) == x.size % W32
    ensures Le32(b, 0x08) == x.atime && Le32(b, 0x0C) == x.ctime && Le32(b, 0x10) == x.mtime && Le32(b, 0x14) == x.dtime
    ensures Le16(b, 0x18) == x.gid % 0x1_0000 && Le16(b, 0x1A) == x.linksCount && Le32(b, 0x1C) == x.blocks % W32
  {
    hide Bytes16, Bytes32, Le16, Le32;
    var p1 := Bytes16(x.mode);
    var p2 := p1 + Bytes16(x.uid % 0x1_0000);
    var p3 := p2 + Bytes32(x.size % W32);
    var p4 := p3 + Bytes32(x.atime);
    var p5 := p4 + Bytes32(x.ctime);
    var p6 := p5 + Bytes32(x.mtime);
    var p7 := p6 + Bytes32(x.dtime);
    var p8 := p7 + Bytes16(x.gid % 0x1_0000);
    var p9 := p8 + Bytes16(x.linksCount);
    Peel32(b, p9, x.blocks % W32);
    Peel16(b, p8, x.linksCount);
    Peel16(b, p7, x.gid % 0x1_0000);
    Peel32(b, p6, x.dtime);
    Peel32(b, p5, x.mtime);
    Peel32(b, p4, x.ctime);
    Peel32(b, p3, x.atime);
    Peel32(b, p2, x.size % W32);
    Peel16(b, p1, x.uid % 0x1_0000);
    assert [] + p1 == p1;
    Peel16(b, [], x.mode);
  }

  lemma BlockFields(b: seq<byte>, x: Inode)
    requires |x.block| == 60 && 0x64 <= |b| && b[..0x64] == ToBlock(x)
    ensures b[..0x20] == ToGid(x) && Le32(b, 0x20) == x.flags && Le32(b, 0x24) == x.version % W32
            && b[0x28..0x64] == x.block
  {
    hide Bytes16, Bytes32, Le16, Le32, ToGid;
    var p1 := ToGid(x) + Bytes32(x.flags);
    Peel(b, p1 + Bytes32(x.version % W32), x.block);
    Peel32(b, p1, x.version % W32);
    Peel32(b, ToGid(x), x.flags);
  }

  lemma BaseFields(b: seq<byte>, x: Inode)
    requires |x.block| == 60 && 0x80 <= |b| && b[..0x80] == Base(x)
    ensures b[..0x64] == ToBlock(x) && Le32(b, 0x64) == x.generation && Le32(b, 0x68) == x.fileAcl % W32
    ensures Le32(b, 0x6C) == x.size / W32 && Le16(b, 0x74) == x.blocks / W32 % 0x1_0000
    ensures Le16(b, 0x76) == x.fileAcl / W32 % 0x1_0000 && Le16(b, 0x78) == x.uid / 0x1_0000
    ensures Le16(b, 0x7A) == x.gid / 0x1_0000 && Le16(b, 0x7C) == x.checksum % 0x1_0000
  {
    hide Bytes16, Bytes32, Le16, Le32, ToBlock;
    var p1 := ToBlock(x) + Bytes32(x.generation);
    var p2 := p1 + Bytes32(x.fileAcl % W32);
    var p3 := p2 + Bytes32(x.size / W32);
    var p4 := p3 + Zeros(4);
    var p5 := p4 + Bytes16(x.blocks / W32 % 0x1_0000);
    var p6 := p5 + Bytes16(x.fileAcl / W32 % 0x1_0000);
    var p7 := p6 + Bytes16(x.uid / 0x1_0000);
    var p8 := p7 + Bytes16(x.gid / 0x1_0000);
    Peel(b, p8 + Bytes16(x.checksum % 0x1_0000), Zeros(2));
    Peel16(b, p8, x.checksum % 0x1_0000);
    Peel16(b, p7, x.gid / 0x1_0000);
    Peel16(b, p6, x.uid / 0x1_0000);
    Peel16(b, p5, x.fileAcl / W32 % 0x1_0000);
    Peel16(b, p4, x.blocks / W32 % 0x1_0000);
    Peel(b, p3, Zeros(4));
    Peel32(b, p2, x.size / W32);
    Peel32(b, p1, x.fileAcl % W32);
    Peel32(b, ToBlock(x), x.generation);
  }

  lemma PeelGate16(on: bool, b: seq<byte>, p: seq<byte>, v: u16)
    requires |p| + 2 <= |b| && b[..|p + Gated(on, Bytes16(v))|] == p + Gated(on, Bytes16(v))
    ensures b[..|p|] == p && (on ==> Le16(b, |p|) == v)
  {
  }

  lemma PeelGate32(on: bool, b: seq<byte>, p: seq<byte>, v: u32)
    requires |p| + 4 <= |b| && b[..|p + Gated(on, Bytes32(v))|] == p + Gated(on, Bytes32(v))
    ensures b[..|p|] == p && (on ==> Le32(b, |p|) == v)
  {
    if on {
      Peel32(b, p, v);
    }
  }

  /** Every extra field that the declared size covers reads back. */
  lemma FrontFields(b: seq<byte>, x: Inode)
    requires |x.block| == 60 && |b| == SLOT && b[..|Front(x)|] == Front(x)
    ensures b[..0x80] == Base(x) && Le16(b, 0x80) == x.extraIsize
    ensures 4 <= x.extraIsize ==> Le16(b, 0x82) == x.checksum / 0x1_0000
    ensures 8 <= x.extraIsize ==> Le32(b, 0x84) == x.ctimeExtra
    ensures 12 <= x.extraIsize ==> Le32(b, 0x88) == x.mtimeExtra
    ensures 16 <= x.extraIsize ==> Le32(b, 0x8C) == x.atimeExtra
    ensures 20 <= x.extraIsize ==> Le32(b, 0x90) == x.crtime
    ensures 24 <= x.extraIsize ==> Le32(b, 0x94) == x.crtimeExtra
    ensures 28 <= x.extraIsize ==> Le32(b, 0x98) == x.version / W32
    ensures 32 <= x.extraIsize ==> Le32(b, 0x9C) == x.projid
  {
    hide Bytes16, Bytes32, Le16, Le32, Base;
    var e := x.extraIsize;
    var p1 := Base(x) + Bytes16(e);
    var p2 := p1 + Gated(4 <= e, Bytes16(x.checksum / 0x1_0000));
    var p3 := p2 + Gated(8 <= e, Bytes32(x.ctimeExtra));
    var p4 := p3 + Gated(12 <= e, Bytes32(x.mtimeExtra));
    var p5 := p4 + Gated(16 <= e, Bytes32(x.atimeExtra));
    var p6 := p5 + Gated(20 <= e, Bytes32(x.crtime));
    var p7 := p6 + Gated(24 <= e, Bytes32(x.crtimeExtra));
    var p8 := p7 + Gated(28 <= e, Bytes32(x.version / W32));
    PeelGate32(32 <= e, b, p8, x.projid);
    PeelGate32(28 <= e, b, p7, x.version / W32);
    PeelGate32(24 <= e, b, p6, x.crtimeExtra);
    PeelGate32(20 <= e, b, p5, x.crtime);
    PeelGate32(16 <= e, b, p4, x.atimeExtra);
    PeelGate32(12 <= e, b, p3, x.mtimeExtra);
    PeelGate32(8 <= e, b, p2, x.ctimeExtra);
    PeelGate16(4 <= e, b, p1, x.checksum / 0x1_0000);
    Peel16(b, Base(x), e);
  }

  /** What the slot holds in front of the attribute area, wherever that area starts. */
  lemma FrontSurvives(x: Inode)
    requires Encodable(x)
    ensures Encoded(x)[..0x80] == Base(x)
    ensures SizeSurvives(x) <==> Le16(Encoded(x), 0x80) == x.extraIsize
    ensures SizeSurvives(x) ==> Encoded(x)[..FrontLength(x.extraIsize)] == Front(x)
  {
    hide Base, Gated;
    var b := Encoded(x);
    var fixed := Filled(Front(x), SLOT);
    var n := FrontLength(x.extraIsize);
    var start := 0x80 + x.extraIsize as int;
    assert fixed[..n] == Front(x);
    FrontPrefix(x);
    assert fixed[..0x80] == fixed[..n][..0x80];
    assert fixed[0x80] == Front(x)[0x80] && fixed[0x81] == Front(x)[0x81];
    if x.ibody != [] {
      assert b[..0x80] == fixed[..0x80];
      if 2 <= x.extraIsize {
        assert b[..n] == fixed[..n];
      } else {
        assert n == 0x82;
        assert x.extraIsize == 0 ==> b[0x80] == x.ibody[0] && b[0x81] == if 1 < |x.ibody| then x.ibody[1] else 0;
        assert x.extraIsize == 1 ==> b[0x80] == 1 && b[0x81] == x.ibody[0];
        if SizeSurvives(x) {
          assert b[0x80] == fixed[0x80] && b[0x81] == fixed[0x81];
          assert b[..n] == fixed[..n];
        }
      }
    }
  }

  lemma FrontPrefix(x: Inode)
    requires |x.block| == 60
    ensures Front(x)[..0x80] == Base(x)
    ensures Front(x)[0x80] == x.extraIsize % 0x100 && Front(x)[0x81] == x.extraIsize / 0x100
  {
  }

  predicate AllZero(w: seq<byte>) {
    forall k :: 0 <= k < |w| ==> w[k] == 0
  }

  /** The attribute area comes back when it is absent, or fills the slot with something in it. */
  predicate AreaKept(x: Inode) {
    x.ibody == [] || (0x80 + x.extraIsize as int + |x.ibody| == SLOT && !AllZero(x.ibody))
  }

  lemma AreaDecodes(x: Inode)
    requires Encodable(x)
    ensures Area(Encoded(x), x.extraIsize) == x.ibody <==> AreaKept(x)
  {
    hide Front, FrontLength;
    var b := Encoded(x);
    var start := if 0x80 + x.extraIsize as int < SLOT then 0x80 + x.extraIsize as int else SLOT;
    if x.ibody == [] {
      ZeroTail(x);
    } else {
      assert b[start..start + |x.ibody|] == x.ibody;
      if start + |x.ibody| == SLOT {
        assert b[start..] == x.ibody;
        assert forall k :: start <= k < SLOT ==> b[k] == x.ibody[k - start];
        assert forall k :: 0 <= k < |x.ibody| ==> x.ibody[k] == b[k + start];
      } else {
        assert |b[start..]| != |x.ibody|;
      }
    }
  }

  lemma ZeroTail(x: Inode)
    requires |x.block| == 60
    ensures forall k :: 0x80 + x.extraIsize as int <= k < SLOT ==> Filled(Front(x), SLOT)[k] == 0
  {
  }

  /** Every field fits the width in which this `extraIsize` stores it. */
  predicate Fits(x: Inode) {
    && x.blocks < 0x1_0000_0000_0000 && x.fileAcl < 0x1_0000_0000_0000
    && (x.extraIsize < 4 ==> x.checksum < 0x1_0000)
    && (x.extraIsize < 8 ==> x.ctimeExtra == 0)
    && (x.extraIsize < 12 ==> x.mtimeExtra == 0)
    && (x.extraIsize < 16 ==> x.atimeExtra == 0)
    && (x.extraIsize < 20 ==> x.crtime == 0)
    && (x.extraIsize < 24 ==> x.crtimeExtra == 0)
    && (x.extraIsize < 28 ==> x.version < W32)
    && (x.extraIsize < 32 ==> x.projid == 0)
    && AreaKept(x) && SizeSurvives(x)
  }

  lemma Join48(v: u64)
    ensures v % W32 + v / W32 % 0x1_0000 * W32 == v <==> v < 0x1_0000_0000_0000
  {
  }

  /** The round trip holds for exactly the inodes that fit. */
  lemma EncodedDecodes(x: Inode)
    requires Encodable(x)
    ensures Decode(Encoded(x)) == Ok(x) <==> Fits(x)
  {
    hide Base, Front, ToBlock, ToGid, Encoded, Le16, Le32, Area, AreaKept, SizeSurvives;
    var b := Encoded(x);
    FrontSurvives(x);
    if SizeSurvives(x) {
      FrontFields(b, x);
      BaseFields(b, x);
      assert b[..0x64] == b[..0x80][..0x64];
      BlockFields(b, x);
      GidFields(b, x);
      AreaDecodes(x);
      Join48(x.blocks);
      Join48(x.fileAcl);
    }
  }

  // ----- encoding what was decoded -----

  lemma Grow16(b: seq<byte>, p: seq<byte>, v: u16)
    requires |p| + 2 <= |b| && b[..|p|] == p && Le16(b, |p|) == v
    ensures b[..|p| + 2] == p + Bytes16(v)
  {
  }

  lemma Grow32(b: seq<byte>, p: seq<byte>, v: u32)
    requires |p| + 4 <= |b| && b[..|p|] == p && Le32(b, |p|) == v
    ensures b[..|p| + 4] == p + Bytes32(v)
  {
    Le32Encodes(b, |p|);
    assert b[..|p| + 4] == b[..|p|] + b[|p|..|p| + 4];
  }

  lemma Grow<T>(b: seq<T>, p: seq<T>, w: seq<T>)
    requires |p| + |w| <= |b| && b[..|p|] == p && b[|p|..|p| + |w|] == w
    ensures b[..|p| + |w|] == p + w
  {
  }

  lemma GidBack(b: seq<byte>, x: Inode)
    requires |b| == SLOT && Decode(b) == Ok(x)
    ensures b[..0x20] == ToGid(x)
  {
    hide Bytes16, Bytes32, Le16, Le32, Area, Field;
    var p1 := Bytes16(x.mode);
    assert [] + p1 == p1;
    Grow16(b, [], x.mode);
    var p2 := p1 + Bytes16(x.uid % 0x1_0000);
    Grow16(b, p1, x.uid % 0x1_0000);
    var p3 := p2 + Bytes32(x.size % W32);
    Grow32(b, p2, x.size % W32);
    var p4 := p3 + Bytes32(x.atime);
    Grow32(b, p3, x.atime);
    var p5 := p4 + Bytes32(x.ctime);
    Grow32(b, p4, x.ctime);
    var p6 := p5 + Bytes32(x.mtime);
    Grow32(b, p5, x.mtime);
    var p7 := p6 + Bytes32(x.dtime);
    Grow32(b, p6, x.dtime);
    var p8 := p7 + Bytes16(x.gid % 0x1_0000);
    Grow16(b, p7, x.gid % 0x1_0000);
    Grow16(b, p8, x.linksCount);
    Grow32(b, p8 + Bytes16(x.linksCount), x.blocks % W32);
  }

  /** The bytes of the base that no field covers. */
  predicate ReservedClear(b: seq<byte>)
    requires 0x80 <= |b|
  {
    b[0x70..0x74] == Zeros(4) && b[0x7E..0x80] == Zeros(2)
  }

  lemma BaseBack(b: seq<byte>, x: Inode)
    requires |b| == SLOT && Decode(b) == Ok(x)
    requires ReservedClear(b)
    ensures b[..0x80] == Base(x)
  {
    hide Bytes16, Bytes32, Le16, Le32, Area, Field, ToGid;
    GidBack(b, x);
    Grow32(b, ToGid(x), x.flags);
    Grow32(b, ToGid(x) + Bytes32(x.flags), x.version % W32);
    Grow(b, ToGid(x) + Bytes32(x.flags) + Bytes32(x.version % W32), x.block);
    var p0 := ToBlock(x);
    var p1 := p0 + Bytes32(x.generation);
    Grow32(b, p0, x.generation);
    var p2 := p1 + Bytes32(x.fileAcl % W32);
    Grow32(b, p1, x.fileAcl % W32);
    var p3 := p2 + Bytes32(x.size / W32);
    Grow32(b, p2, x.size / W32);
    var p4 := p3 + Zeros(4);
    Grow(b, p3, Zeros(4));
    var p5 := p4 + Bytes16(x.blocks / W32 % 0x1_0000);
    Grow16(b, p4, x.blocks / W32 % 0x1_0000);
    var p6 := p5 + Bytes16(x.fileAcl / W32 % 0x1_0000);
    Grow16(b, p5, x.fileAcl / W32 % 0x1_0000);
    var p7 := p6 + Bytes16(x.uid / 0x1_0000);
    Grow16(b, p6, x.uid / 0x1_0000);
    var p8 := p7 + Bytes16(x.gid / 0x1_0000);
    Grow16(b, p7, x.gid / 0x1_0000);
    Grow16(b, p8, x.checksum % 0x1_0000);
    Grow(b, p8 + Bytes16(x.checksum % 0x1_0000), Zeros(2));
  }

  lemma GrowGate32(on: bool, b: seq<byte>, p: seq<byte>, v: u32)
    requires |p| + 4 <= |b| && b[..|p|] == p && (on ==> Le32(b, |p|) == v)
    ensures b[..|p + Gated(on, Bytes32(v))|] == p + Gated(on, Bytes32(v))
  {
    if on {
      Grow32(b, p, v);
    }
  }

  lemma FrontBack(b: seq<byte>, x: Inode)
    requires |b| == SLOT && Decode(b) == Ok(x) && ReservedClear(b)
    ensures b[..FrontLength(x.extraIsize)] == Front(x)
  {
    hide Bytes16, Bytes32, Le16, Le32, Area, Base, ReservedClear;
    var e := x.extraIsize;
    BaseBack(b, x);
    var p1 := Base(x) + Bytes16(e);
    Grow16(b, Base(x), e);
    var p2 := p1 + Gated(4 <= e, Bytes16(x.checksum / 0x1_0000));
    if 4 <= e {
      Grow16(b, p1, x.checksum / 0x1_0000);
    }
    var p3 := p2 + Gated(8 <= e, Bytes32(x.ctimeExtra));
    GrowGate32(8 <= e, b, p2, x.ctimeExtra);
    var p4 := p3 + Gated(12 <= e, Bytes32(x.mtimeExtra));
    GrowGate32(12 <= e, b, p3, x.mtimeExtra);
    var p5 := p4 + Gated(16 <= e, Bytes32(x.atimeExtra));
    GrowGate32(16 <= e, b, p4, x.atimeExtra);
    var p6 := p5 + Gated(20 <= e, Bytes32(x.crtime));
    GrowGate32(20 <= e, b, p5, x.crtime);
    var p7 := p6 + Gated(24 <= e, Bytes32(x.crtimeExtra));
    GrowGate32(24 <= e, b, p6, x.crtimeExtra);
    var p8 := p7 + Gated(28 <= e, Bytes32(x.version / W32));
    GrowGate32(28 <= e, b, p7, x.version / W32);
    GrowGate32(32 <= e, b, p8, x.projid);
  }

  /** Declared extra bytes that this version of the format gives no field to. */
  predicate UnknownClear(b: seq<byte>, extra: u16) {
    forall k :: FrontLength(extra) <= k < |b| && k < 0x80 + extra ==> b[k] == 0
  }

  lemma DecodedIsEncodable(b: seq<byte>)
    requires |b| == SLOT
    ensures Encodable(Decode(b).value)
  {
  }

  /** A decoded slot is encoded to the same bytes exactly when the bytes without a field are zero. */
  lemma DecodedReencodes(b: seq<byte>)
    requires |b| == SLOT
    ensures var x := Decode(b).value;
            Encodable(x) && (Encoded(x) == b <==> ReservedClear(b) && UnknownClear(b, x.extraIsize))
  {
    hide Le16, Le32, Base, Front;
    var x := Decode(b).value;
    var e := x.extraIsize;
    DecodedIsEncodable(b);
    var fixed := Filled(Front(x), SLOT);
    assert forall k :: FrontLength(e) <= k < SLOT ==> fixed[k] == 0;
    if ReservedClear(b) {
      FrontBack(b, x);
      assert fixed[..FrontLength(e)] == b[..FrontLength(e)];
      assert forall k :: 0 <= k < FrontLength(e) ==> fixed[k] == fixed[..FrontLength(e)][k] == b[k];
      if UnknownClear(b, e) {
        assert Encoded(x) == b;
      } else {
        assert Encoded(x) != b;
      }
    } else {
      EncodedReserved(x);
    }
  }

  lemma EncodedReserved(x: Inode)
    requires Encodable(x)
    ensures ReservedClear(Encoded(x))
  {
    hide Encoded, ToBlock, Bytes16, Bytes32, Front;
    FrontSurvives(x);
    var b := Encoded(x);
    var p := ToBlock(x) + Bytes32(x.generation) + Bytes32(x.fileAcl % W32) + Bytes32(x.size / W32);
    assert Base(x)[0x70..0x74] == Zeros(4) && Base(x)[0x7E..0x80] == Zeros(2);
    SubSlice(b, 0, 0x80, 0x70, 0x74);
    SubSlice(b, 0, 0x80, 0x7E, 0x80);
  }

  // ----- checksum acceptance -----

  /** How the reader judges a slot (`Fs::inode`): the full checksum, or its low half when that is all there is. */
  predicate Accepts(fsSeed: bv32, ino: u32, slot: seq<byte>)
    requires 130 <= |slot|
  {
    var x := Decode(slot).value;
    var full := Csum.Inode(fsSeed, ino, x.generation, slot);
    if 4 <= x.extraIsize then full as int == x.checksum
    else Csum.Low16(full) == x.checksum % 0x1_0000
  }

  /** Equal except where the stored checksum sits. */
  predicate Alike(p: seq<byte>, q: seq<byte>, high: bool) {
    |p| == |q| && forall k :: 0 <= k < |p| && !(0x7C <= k < 0x7E) && !(high && 0x82 <= k < 0x84) ==> p[k] == q[k]
  }

  lemma AlikeAppend(p: seq<byte>, q: seq<byte>, high: bool, w: seq<byte>)
    requires Alike(p, q, high)
    ensures Alike(p + w, q + w, high)
  {
  }

  lemma AlikeHigh(p: seq<byte>, q: seq<byte>, high: bool, w: seq<byte>, v: seq<byte>)
    requires |p| == 0x82 && Alike(p, q, high) && |w| == |v| && (if high then |w| == 2 else w == v)
    ensures Alike(p + w, q + v, high)
  {
  }

  lemma BasesAlike(x: Inode, y: Inode, high: bool)
    requires |x.block| == 60 && y == x.(checksum := y.checksum)
    ensures Alike(Base(x), Base(y), high)
  {
  }

  lemma FrontsAlike(x: Inode, y: Inode)
    requires |x.block| == 60 && y == x.(checksum := y.checksum)
    ensures Alike(Front(x), Front(y), 4 <= x.extraIsize)
  {
    hide Base, Bytes16, Bytes32, Alike;
    var e := x.extraIsize;
    var high := 4 <= e;
    BasesAlike(x, y, high);
    AlikeAppend(Base(x), Base(y), high, Bytes16(e));
    var p := Base(x) + Bytes16(e) + Gated(high, Bytes16(x.checksum / 0x1_0000));
    var q := Base(y) + Bytes16(e) + Gated(high, Bytes16(y.checksum / 0x1_0000));
    AlikeHigh(Base(x) + Bytes16(e), Base(y) + Bytes16(e), high,
      Gated(high, Bytes16(x.checksum / 0x1_0000)), Gated(high, Bytes16(y.checksum / 0x1_0000)));
    var w3, w4, w5, w6 := Gated(8 <= e, Bytes32(x.ctimeExtra)), Gated(12 <= e, Bytes32(x.mtimeExtra)),
      Gated(16 <= e, Bytes32(x.atimeExtra)), Gated(20 <= e, Bytes32(x.crtime));
    var w7, w8, w9 := Gated(24 <= e, Bytes32(x.crtimeExtra)), Gated(28 <= e, Bytes32(x.version / W32)),
      Gated(32 <= e, Bytes32(x.projid));
    AlikeAppend(p, q, high, w3);
    AlikeAppend(p + w3, q + w3, high, w4);
    AlikeAppend(p + w3 + w4, q + w3 + w4, high, w5);
    AlikeAppend(p + w3 + w4 + w5, q + w3 + w4 + w5, high, w6);
    AlikeAppend(p + w3 + w4 + w5 + w6, q + w3 + w4 + w5 + w6, high, w7);
    AlikeAppend(p + w3 + w4 + w5 + w6 + w7, q + w3 + w4 + w5 + w6 + w7, high, w8);
    AlikeAppend(p + w3 + w4 + w5 + w6 + w7 + w8, q + w3 + w4 + w5 + w6 + w7 + w8, high, w9);
  }

  lemma EncodedAlike(x: Inode, y: Inode)
    requires Encodable(x) && y == x.(checksum := y.checksum)
    ensures Encodable(y) && Alike(Encoded(x), Encoded(y), 4 <= x.extraIsize)
  {
    hide Front, FrontLength;
    FrontsAlike(x, y);
    AlikeAppend(Front(x), Front(y), 4 <= x.extraIsize, Zeros(SLOT - |Front(x)|));
  }

  /** Changing only the checksum changes only bytes that the checksum does not cover. */
  lemma ChecksumOutsideItself(x: Inode, y: Inode)
    requires Encodable(x) && y == x.(checksum := y.checksum)
    ensures Encodable(y) && Csum.ZeroedInode(Encoded(x)) == Csum.ZeroedInode(Encoded(y))
  {
    EncodedAlike(x, y);
    FrontSurvives(x);
    SmallSizeSurvives(x);
    hide Encoded, SizeSurvives, Front, Base, Csum.ZeroedInode, Alike;
    AlikeZeroed(Encoded(x), Encoded(y), 4 <= x.extraIsize);
  }

  lemma AlikeZeroed(a: seq<byte>, b: seq<byte>, high: bool)
    requires Alike(a, b, high) && |a| == SLOT && (high ==> 4 <= Le16(a, 0x80))
    ensures Csum.ZeroedInode(a) == Csum.ZeroedInode(b)
  {
    assert Csum.HasHigh(a) == Csum.HasHigh(b);
  }

  lemma SmallSizeSurvives(x: Inode)
    ensures 2 <= x.extraIsize ==> SizeSurvives(x)
  {
  }

  /** What the stamped slot holds where the reader looks. */
  lemma StampedFields(x: Inode, y: Inode)
    requires Encodable(x) && y == x.(checksum := y.checksum)
    ensures Encodable(y)
    ensures var a, b := Encoded(x), Encoded(y);
            && Le32(b, 0x64) == x.generation && Le16(b, 0x7C) == y.checksum % 0x1_0000 && Le16(b, 0x80) == Le16(a, 0x80)
            && (SizeSurvives(x) && 4 <= Le16(a, 0x80) ==> Le16(b, 0x82) == y.checksum / 0x1_0000)
            && (!SizeSurvives(x) ==> Le16(b, 0x82) == Le16(a, 0x82))
  {
    EncodedAlike(x, y);
    SmallSizeSurvives(x);
    FrontSurvives(x);
    FrontSurvives(y);
    assert SizeSurvives(x) == SizeSurvives(y);
    hide Front, Base, Encoded, SizeSurvives;
    if SizeSurvives(x) { FrontFields(Encoded(y), y); }
    BaseFields(Encoded(y), y);
  }

  /**
    Storing the checksum of the encoded slot and encoding again gives a slot that the reader accepts,
    unless the attribute area both overlays the declared size with 4 or more and differs from the
    checksum's upper half where the reader then looks for it.
  */
  lemma StampedIsAccepted(fsSeed: bv32, ino: u32, x: Inode)
    requires Encodable(x)
    ensures var c, a := Csum.Inode(fsSeed, ino, x.generation, Encoded(x)) as int, Encoded(x);
            Accepts(fsSeed, ino, Encoded(x.(checksum := c)))
            <==> SizeSurvives(x) || Le16(a, 0x80) < 4 || Le16(a, 0x82) == c / 0x1_0000
  {
    hide Front, Base, ToBlock, Encoded, Le16, Le32, SizeSurvives, Area, Csum.Inode, Csum.InodeSeed, Crc32c.Crc,
      Csum.ZeroedInode;
    var c := Csum.Inode(fsSeed, ino, x.generation, Encoded(x));
    var y := x.(checksum := c as int);
    var b := Encoded(y);
    ChecksumOutsideItself(x, y);
    Csum.InodeIsFoldOfZeroed(fsSeed, ino, x.generation, Encoded(x));
    Csum.InodeIsFoldOfZeroed(fsSeed, ino, x.generation, b);
    StampedFields(x, y);
  }

  /**
    A slot that differs from an accepted one inside a window of four bytes, with the same generation
    and full-width checksums, is rejected when the damage spares the stored checksum or hits only it.
  */
  lemma SlotDamageRejected(fsSeed: bv32, ino: u32, a: seq<byte>, b: seq<byte>)
    requires 130 <= |a| && Crc32c.DifferInWindow(a, b) && Accepts(fsSeed, ino, a)
    requires var x, y := Decode(a).value, Decode(b).value;
             && x.generation == y.generation && 4 <= x.extraIsize && 4 <= y.extraIsize
             && (x.checksum == y.checksum || Csum.ZeroedInode(a) == Csum.ZeroedInode(b))
    ensures !Accepts(fsSeed, ino, b)
  {
    hide Csum.Inode, Csum.InodeSeed, Crc32c.Crc;
    var g := Decode(a).value.generation;
    if Decode(a).value.checksum == Decode(b).value.checksum {
      ZeroedDiffer(a, b);
      Csum.InodeDetects(fsSeed, ino, g, a, b);
      DistinctAsInts(Csum.Inode(fsSeed, ino, g, a), Csum.Inode(fsSeed, ino, g, b));
    } else {
      Csum.InodeIsFoldOfZeroed(fsSeed, ino, g, a);
      Csum.InodeIsFoldOfZeroed(fsSeed, ino, g, b);
    }
  }

  lemma DistinctAsInts(c: bv32, d: bv32)
    requires c != d
    ensures c as int != d as int
  {
    assert (c as int) as bv32 == c && (d as int) as bv32 == d;
  }

  lemma ZeroedDiffer(a: seq<byte>, b: seq<byte>)
    requires 130 <= |a| && Crc32c.DifferInWindow(a, b)
    requires var x, y := Decode(a).value, Decode(b).value;
             x.checksum == y.checksum && 4 <= x.extraIsize && 4 <= y.extraIsize
    ensures Crc32c.DifferInWindow(Csum.ZeroedInode(a), Csum.ZeroedInode(b))
  {
    hide Area, Le32;
    var za, zb := Csum.ZeroedInode(a), Csum.ZeroedInode(b);
    assert Csum.HasHigh(a) == Csum.HasHigh(b) == (0x84 <= |a|);
    assert Le16(a, 0x7C) == Le16(b, 0x7C);
    assert a[0x7C] == b[0x7C] && a[0x7D] == b[0x7D];
    assert 0x84 <= |a| ==> a[0x82] == b[0x82] && a[0x83] == b[0x83];
    var k: nat :| Crc32c.AgreeOutside(a, b, k);
    assert Crc32c.AgreeOutside(za, zb, k);
    var j :| 0 <= j < |a| && a[j] != b[j];
    assert za[j] != zb[j];
  }

  // ----- timestamps -----

  function Signed32(v: u32): int {
    if v < 0x8000_0000 then v else v - W32
  }

  /** Seconds with two more bits of range, and nanoseconds. */
  function Timestamp(secs: u32, extra: u32): (int, u32) {
    (Signed32(secs) + extra % 4 * W32, extra / 4)
  }

  /** The two stored words; the shift of the nanoseconds drops what does not fit. */
  function EncodeTimestamp(secs: int, nsec: u32): (u32, u32)
    requires -0x8000_0000_0000_0000 <= secs && secs + 0x8000_0000 < 0x8000_0000_0000_0000
  {
    (secs % W32, nsec * 4 % W32 + (secs + 0x8000_0000) / W32 % 4)
  }

  /** The seconds come back when the two extra bits hold their range. */
  lemma SecondsBack(secs: int)
    ensures var q := (secs + 0x8000_0000) / W32;
            Signed32(secs % W32) + q % 4 * W32 == secs <==> -0x8000_0000 <= secs < 3 * W32 + 0x8000_0000
  {
    var q := (secs + 0x8000_0000) / W32;
    var r := (secs + 0x8000_0000) % W32;
    assert secs + 0x8000_0000 == q * W32 + r;
    assert secs % W32 == if 0x8000_0000 <= r then r - 0x8000_0000 else r + 0x8000_0000;
    assert q % 4 == q <==> 0 <= q < 4;
  }

  lemma Remainder(h: int, r: int)
    requires 0 <= r < W32
    ensures (h * W32 + r) % W32 == r
  {
  }

  /** The two low bits of the extra word leave the nanoseconds alone. */
  lemma NanosBack(nsec: u32, q: int)
    ensures var e := nsec * 4 % W32 + q % 4; e < W32 && e % 4 == q % 4 && e / 4 == nsec % 0x4000_0000
  {
    var h, m := nsec / 0x4000_0000, nsec % 0x4000_0000;
    assert nsec * 4 == h * W32 + 4 * m;
    Remainder(h, 4 * m);
  }

  lemma TimestampRoundTrips(secs: int, nsec: u32)
    requires -0x8000_0000_0000_0000 <= secs && secs + 0x8000_0000 < 0x8000_0000_0000_0000
    ensures var (s, e) := EncodeTimestamp(secs, nsec);
            Timestamp(s, e) == (secs, nsec) <==> -0x8000_0000 <= secs < 3 * W32 + 0x8000_0000 && nsec < 0x4000_0000
  {
    SecondsBack(secs);
    NanosBack(nsec, (secs + 0x8000_0000) / W32);
  }

  lemma EveryStoredTimestampReencodes(secs: u32, extra: u32)
    ensures var (s, n) := Timestamp(secs, extra);
            EncodeTimestamp(s, n) == (secs, extra)
  {
    var s := Signed32(secs) + extra % 4 * W32;
    assert (s + 0x8000_0000) / W32 == extra % 4;
    assert s % W32 == secs;
    assert extra / 4 * 4 % W32 == extra / 4 * 4;
  }
}
