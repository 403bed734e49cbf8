/**
  ext4's structure checksums (`src/csum.rs`). Each is folded piecewise, with zeros fed
  in place of the stored checksum; each is proved equal to one fold over a copy of the
  structure whose checksum field is zeroed.
*/
module Csum {
  import opened Bytes
  import opened Crc32c

  function Bytes64(v: u64): seq<byte> {
    Bytes32(v % 0x1_0000_0000) + Bytes32(v / 0x1_0000_0000)
  }

  /** A register as the integer that a field stores. */
  function AsU32(c: bv32): u32 {
    c as int
  }

  lemma DistinctSums(a: bv32, b: bv32)
    requires a != b
    ensures AsU32(a) != AsU32(b)
  {
    assert (a as int) as bv32 == a && (b as int) as bv32 == b;
  }

  /** The low 16 bits, which is all that some structures store. */
  function Low16(c: bv32): u16 {
    (c as int) % 0x1_0000
  }

  function InodeSeed(fsSeed: bv32, ino: u32, generation: u32): bv32 {
    Crc(Crc(fsSeed, Bytes32(ino)), Bytes32(generation))
  }

  function Superblock(sb: seq<byte>): bv32
    requires |sb| == 1024
  {
    Crc(0xFFFF_FFFF, sb[..0x3FC])
  }

  function GroupDesc(fsSeed: bv32, group: u32, desc: seq<byte>): u16
    requires 0x20 <= |desc|
  {
    Low16(Crc(Crc(Crc(fsSeed, Bytes32(group)), desc[..0x1E]), Zeros(2)))
  }

  /** Whether the slot stores the high half of its checksum. */
  predicate HasHigh(slot: seq<byte>) {
    0x84 <= |slot| && 4 <= Le16(slot, 0x80)
  }

  function Inode(fsSeed: bv32, ino: u32, generation: u32, slot: seq<byte>): bv32
    requires 128 <= |slot|
  {
    var extraIsize := if 0x82 <= |slot| then Le16(slot, 0x80) else 0;
    var hasHigh := 4 <= extraIsize && 0x84 <= |slot|;
    var c := InodeSeed(fsSeed, ino, generation);
    var c := Crc(c, slot[..0x7C]);
    var c := Crc(c, Zeros(2));
    var c := Crc(c, slot[0x7E..if |slot| < 0x82 then |slot| else 0x82]);
    if hasHigh then
      var c := Crc(c, Zeros(2));
      Crc(c, slot[0x84..])
    else if 0x82 < |slot| then
      Crc(c, slot[0x82..])
    else
      c
  }

  function DirentBlock(inodeSeed: bv32, block: seq<byte>): bv32
    requires 12 <= |block|
  {
    Crc(inodeSeed, block[..|block| - 12])
  }

  function ExtentBlock(inodeSeed: bv32, block: seq<byte>): bv32
    requires 4 <= |block|
  {
    Crc(inodeSeed, block[..|block| - 4])
  }

  function DxBlock(inodeSeed: bv32, block: seq<byte>, countOffset: nat, count: u16, limit: u16): bv32
    requires countOffset + 8 * count <= |block| && countOffset + 8 * limit + 4 <= |block|
  {
    var tail := countOffset + 8 * limit;
    var c := Crc(inodeSeed, block[..countOffset + 8 * count]);
    var c := Crc(c, block[tail..tail + 4]);
    Crc(c, Zeros(4))
  }

  function XattrBlock(fsSeed: bv32, blockNr: u64, block: seq<byte>): bv32
    requires 0x14 <= |block|
  {
    var c := Crc(fsSeed, Bytes64(blockNr));
    var c := Crc(c, block[..0x10]);
    var c := Crc(c, Zeros(4));
    Crc(c, block[0x14..])
  }

  // ----- the same values over a copy with the stored checksum zeroed -----

  /** The slot as it is checksummed: low half always zeroed, high half when it exists. */
  function ZeroedInode(slot: seq<byte>): (r: seq<byte>)
    requires 128 <= |slot|
    ensures |r| == |slot|
  {
    var low := Splice(slot, 0x7C, Zeros(2));
    if HasHigh(slot) then Splice(low, 0x82, Zeros(2)) else low
  }

  lemma GroupDescIsFoldOfZeroed(fsSeed: bv32, group: u32, desc: seq<byte>)
    requires 0x20 <= |desc|
    ensures GroupDesc(fsSeed, group, desc) == Low16(Crc(fsSeed, Bytes32(group) + Splice(desc[..0x20], 0x1E, Zeros(2))))
  {
    var copy := Splice(desc[..0x20], 0x1E, Zeros(2));
    assert copy == desc[..0x1E] + Zeros(2);
    CrcConcat(Crc(fsSeed, Bytes32(group)), desc[..0x1E], Zeros(2));
    CrcConcat(fsSeed, Bytes32(group), copy);
  }

  function MiddleEnd(slot: seq<byte>): nat {
    if |slot| < 0x82 then |slot| else 0x82
  }

  lemma ZeroedInodePieces(slot: seq<byte>)
    requires 128 <= |slot|
    ensures var head := slot[..0x7C] + Zeros(2) + slot[0x7E..MiddleEnd(slot)];
            ZeroedInode(slot) == if HasHigh(slot) then head + Zeros(2) + slot[0x84..]
              else head + slot[MiddleEnd(slot)..]
  {
  }

  lemma InodeIsFoldOfZeroed(fsSeed: bv32, ino: u32, generation: u32, slot: seq<byte>)
    requires 128 <= |slot|
    ensures Inode(fsSeed, ino, generation, slot) == Crc(InodeSeed(fsSeed, ino, generation), ZeroedInode(slot))
  {
    var s := InodeSeed(fsSeed, ino, generation);
    var m := MiddleEnd(slot);
    ZeroedInodePieces(slot);
    CrcConcat(s, slot[..0x7C], Zeros(2));
    CrcConcat(s, slot[..0x7C] + Zeros(2), slot[0x7E..m]);
    var head := slot[..0x7C] + Zeros(2) + slot[0x7E..m];
    if HasHigh(slot) {
      CrcConcat(s, head, Zeros(2));
      CrcConcat(s, head + Zeros(2), slot[0x84..]);
    } else {
      CrcConcat(s, head, slot[m..]);
      if |slot| <= 0x82 { assert slot[m..] == []; }
    }
  }

  /** The bytes a dx checksum covers: the entries in use, then the tail with its checksum zeroed. */
  function DxView(block: seq<byte>, countOffset: nat, count: u16, limit: u16): seq<byte>
    requires countOffset + 8 * count <= |block| && countOffset + 8 * limit + 8 <= |block|
  {
    var tail := countOffset + 8 * limit;
    block[..countOffset + 8 * count] + Splice(block[tail..tail + 8], 4, Zeros(4))
  }

  lemma DxBlockIsFoldOfZeroed(inodeSeed: bv32, block: seq<byte>, countOffset: nat, count: u16, limit: u16)
    requires countOffset + 8 * count <= |block| && countOffset + 8 * limit + 8 <= |block|
    ensures DxBlock(inodeSeed, block, countOffset, count, limit)
            == Crc(inodeSeed, DxView(block, countOffset, count, limit))
  {
    hide Crc;
    var tail := countOffset + 8 * limit;
    var head, reserved := block[..countOffset + 8 * count], block[tail..tail + 4];
    CrcConcat(inodeSeed, head, reserved);
    CrcConcat(inodeSeed, head + reserved, Zeros(4));
    TailZeroed(block, tail);
    AppendAssociates(head, reserved, Zeros(4));
  }

  lemma TailZeroed(block: seq<byte>, tail: nat)
    requires tail + 8 <= |block|
    ensures Splice(block[tail..tail + 8], 4, Zeros(4)) == block[tail..tail + 4] + Zeros(4)
  {
  }

  lemma XattrBlockIsFoldOfZeroed(fsSeed: bv32, blockNr: u64, block: seq<byte>)
    requires 0x14 <= |block|
    ensures XattrBlock(fsSeed, blockNr, block) == Crc(fsSeed, Bytes64(blockNr) + Splice(block, 0x10, Zeros(4)))
  {
    var c := Crc(fsSeed, Bytes64(blockNr));
    CrcConcat(c, block[..0x10], Zeros(4));
    CrcConcat(c, block[..0x10] + Zeros(4), block[0x14..]);
    assert Splice(block, 0x10, Zeros(4)) == block[..0x10] + Zeros(4) + block[0x14..];
    CrcConcat(fsSeed, Bytes64(blockNr), Splice(block, 0x10, Zeros(4)));
  }

  /** Number and generation of the inode come first in the checksums of the blocks that belong to it. */
  lemma BlocksAreOneFold(fsSeed: bv32, ino: u32, generation: u32, block: seq<byte>)
    requires |block| == 4096
    ensures var seed, owner := InodeSeed(fsSeed, ino, generation), Bytes32(ino) + Bytes32(generation);
            && ExtentBlock(seed, block) == Crc(fsSeed, owner + block[..4092])
            && DirentBlock(seed, block) == Crc(fsSeed, owner + block[..4084])
  {
    hide Crc, Bytes32;
    CrcConcat(fsSeed, Bytes32(ino), Bytes32(generation));
    CrcConcat(fsSeed, Bytes32(ino) + Bytes32(generation), block[..4092]);
    CrcConcat(fsSeed, Bytes32(ino) + Bytes32(generation), block[..4084]);
  }

  /** The checksum of a whole slot of 256 bytes that stores both halves of it, as one fold. */
  lemma FullInodeIsOneFold(fsSeed: bv32, ino: u32, generation: u32, slot: seq<byte>)
    requires |slot| == 256 && 4 <= Le16(slot, 0x80)
    ensures Inode(fsSeed, ino, generation, slot)
            == Crc(fsSeed, Bytes32(ino) + Bytes32(generation)
                           + (slot[..0x7C] + [0, 0] + slot[0x7E..0x82] + [0, 0] + slot[0x84..]))
  {
    hide Crc, Bytes32, Inode;
    InodeIsFoldOfZeroed(fsSeed, ino, generation, slot);
    ZeroedInodePieces(slot);
    assert Zeros(2) == [0, 0];
    CrcConcat(fsSeed, Bytes32(ino), Bytes32(generation));
    CrcConcat(fsSeed, Bytes32(ino) + Bytes32(generation), ZeroedInode(slot));
  }

  // ----- a change inside four covered bytes is always noticed -----

  lemma SuperblockDetects(a: seq<byte>, b: seq<byte>)
    requires |a| == 1024 && |b| == 1024 && DifferInWindow(a[..0x3FC], b[..0x3FC])
    ensures Superblock(a) != Superblock(b)
  {
    BurstDetected(0xFFFF_FFFF, a[..0x3FC], b[..0x3FC]);
  }

  lemma InodeDetects(fsSeed: bv32, ino: u32, generation: u32, a: seq<byte>, b: seq<byte>)
    requires 128 <= |a| && 128 <= |b| && DifferInWindow(ZeroedInode(a), ZeroedInode(b))
    ensures Inode(fsSeed, ino, generation, a) != Inode(fsSeed, ino, generation, b)
  {
    InodeIsFoldOfZeroed(fsSeed, ino, generation, a);
    InodeIsFoldOfZeroed(fsSeed, ino, generation, b);
    BurstDetected(InodeSeed(fsSeed, ino, generation), ZeroedInode(a), ZeroedInode(b));
  }

  lemma DirentBlockDetects(inodeSeed: bv32, a: seq<byte>, b: seq<byte>)
    requires 12 <= |a| && 12 <= |b| && DifferInWindow(a[..|a| - 12], b[..|b| - 12])
    ensures DirentBlock(inodeSeed, a) != DirentBlock(inodeSeed, b)
  {
    BurstDetected(inodeSeed, a[..|a| - 12], b[..|b| - 12]);
  }

  lemma ExtentBlockDetects(inodeSeed: bv32, a: seq<byte>, b: seq<byte>)
    requires 4 <= |a| && 4 <= |b| && DifferInWindow(a[..|a| - 4], b[..|b| - 4])
    ensures ExtentBlock(inodeSeed, a) != ExtentBlock(inodeSeed, b)
  {
    BurstDetected(inodeSeed, a[..|a| - 4], b[..|b| - 4]);
  }

  lemma DxBlockDetects(inodeSeed: bv32, a: seq<byte>, b: seq<byte>, countOffset: nat, count: u16, limit: u16)
    requires countOffset + 8 * count <= |a| && countOffset + 8 * limit + 8 <= |a| && |a| == |b|
    requires DifferInWindow(DxView(a, countOffset, count, limit), DxView(b, countOffset, count, limit))
    ensures DxBlock(inodeSeed, a, countOffset, count, limit) != DxBlock(inodeSeed, b, countOffset, count, limit)
  {
    DxBlockIsFoldOfZeroed(inodeSeed, a, countOffset, count, limit);
    DxBlockIsFoldOfZeroed(inodeSeed, b, countOffset, count, limit);
    BurstDetected(inodeSeed, DxView(a, countOffset, count, limit), DxView(b, countOffset, count, limit));
  }

  /** Because the block number is folded in, this covers a block read from a neighbouring address too. */
  lemma XattrBlockDetects(fsSeed: bv32, nr: u64, nr': u64, a: seq<byte>, b: seq<byte>)
    requires 0x14 <= |a| && 0x14 <= |b|
    requires DifferInWindow(Bytes64(nr) + Splice(a, 0x10, Zeros(4)), Bytes64(nr') + Splice(b, 0x10, Zeros(4)))
    ensures XattrBlock(fsSeed, nr, a) != XattrBlock(fsSeed, nr', b)
  {
    XattrBlockIsFoldOfZeroed(fsSeed, nr, a);
    XattrBlockIsFoldOfZeroed(fsSeed, nr', b);
    BurstDetected(fsSeed, Bytes64(nr) + Splice(a, 0x10, Zeros(4)), Bytes64(nr') + Splice(b, 0x10, Zeros(4)));
  }

  // ----- the legacy xattr hashes -----

  function NameStep(h: bv32, b: byte): bv32 {
    (h << 5) ^ (h >> 27) ^ Widen(b)
  }

  function WordStep(h: bv32, w: bv32): bv32 {
    (h << 16) ^ (h >> 16) ^ w
  }

  /** A name step rotates the register left by five bits and a word step by half its width, before folding in. */
  lemma StepsRotate(h: bv32, b: byte, w: bv32)
    ensures NameStep(h, b) == h.RotateLeft(5) ^ Widen(b)
    ensures WordStep(h, w) == h.RotateLeft(16) ^ w
  {
    hide Widen;
    RotatesByFive(h);
    RotatesByHalf(h);
  }

  lemma RotatesByFive(h: bv32)
    ensures (h << 5) ^ (h >> 27) == h.RotateLeft(5)
  {
  }

  lemma RotatesByHalf(h: bv32)
    ensures (h << 16) ^ (h >> 16) == h.RotateLeft(16)
  {
  }

  function NameFold(h: bv32, name: seq<byte>): bv32
    decreases name
  {
    if name == [] then h else NameFold(NameStep(h, name[0]), name[1..])
  }

  function PadTo4(v: seq<byte>): (r: seq<byte>)
    ensures |r| % 4 == 0 && |r| == |v| + (4 - |v| % 4) % 4 && r[..|v|] == v
  {
    v + Zeros((4 - |v| % 4) % 4)
  }

  lemma PadToNext(v: seq<byte>)
    requires 4 <= |v|
    ensures PadTo4(v)[..4] == v[..4] && PadTo4(v)[4..] == PadTo4(v[4..])
  {
  }

  function WordsFold(h: bv32, v: seq<byte>): bv32
    requires |v| % 4 == 0
    decreases v
  {
    if v == [] then h else WordsFold(WordStep(h, Word(v[..4])), v[4..])
  }

  lemma FoldWord(h: bv32, v: seq<byte>)
    requires 4 <= |v|
    ensures WordsFold(h, PadTo4(v)) == WordsFold(WordStep(h, Word(v[..4])), PadTo4(v[4..]))
  {
    PadToNext(v);
  }

  lemma FoldRemainder(h: bv32, v: seq<byte>)
    requires |v| < 4
    ensures WordsFold(h, PadTo4(v)) == if v == [] then h else WordStep(h, Word(v + Zeros(4 - |v|)))
  {
    if v != [] {
      var w := v + Zeros(4 - |v|);
      assert PadTo4(v) == w && w[..4] == w && w[4..] == [];
    }
  }

  function HashesFold(h: bv32, hashes: seq<bv32>): bv32
    decreases hashes
  {
    if hashes == [] then h else HashesFold(WordStep(h, hashes[0]), hashes[1..])
  }

  /** Name bytes, then whole value words, then a zero-padded remainder: the hash of the padded value. */
  method XattrEntryHash(name: seq<byte>, value: seq<byte>) returns (h: bv32)
    ensures h == WordsFold(NameFold(0, name), PadTo4(value))
  {
    h := 0;
    for i := 0 to |name|
      invariant NameFold(0, name) == NameFold(h, name[i..])
    {
      h := NameStep(h, name[i]);
      assert name[i..][1..] == name[i + 1..];
    }
    h := FoldValue(h, value);
  }

  method FoldValue(seed: bv32, value: seq<byte>) returns (h: bv32)
    ensures h == WordsFold(seed, PadTo4(value))
  {
    h := seed;
    var i := 0;
    while i + 4 <= |value|
      invariant 0 <= i <= |value|
      invariant WordsFold(seed, PadTo4(value)) == WordsFold(h, PadTo4(value[i..]))
    {
      FoldWord(h, value[i..]);
      assert value[i..][..4] == value[i..i + 4] && value[i..][4..] == value[i + 4..];
      h := WordStep(h, Word(value[i..i + 4]));
      i := i + 4;
    }
    FoldRemainder(h, value[i..]);
    if i < |value| {
      h := WordStep(h, Word(value[i..] + Zeros(4 - (|value| - i))));
    }
  }

  /** Zero as soon as any entry hash is zero, otherwise the fold of all of them. */
  method XattrBlockHash(hashes: seq<bv32>) returns (h: bv32)
    ensures h == if 0 in hashes then 0 else HashesFold(0, hashes)
  {
    h := 0;
    for i := 0 to |hashes|
      invariant 0 !in hashes[..i]
      invariant HashesFold(0, hashes) == HashesFold(h, hashes[i..])
    {
      if hashes[i] == 0 { return 0; }
      assert hashes[i..][1..] == hashes[i + 1..];
      h := WordStep(h, hashes[i]);
    }
    assert hashes[..|hashes|] == hashes;
  }
}
