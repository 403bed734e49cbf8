/**
  Opening files of a finished image (`Fs::inode` and `Fs::extents` in `src/reader/mod.rs`): the inode comes
  from its table, its root from the inode, its extents from the walk, and its bytes through them.
*/
module ImageFiles {
  import opened Bytes
  import opened Crc32c
  import opened Allocator
  import opened Writer
  import opened FilePlacement
  import opened ReadBack
  import ExtentBuild
  import Extent
  import ExtentWalk
  import FileRead
  import opened Geometry
  import Inode
  import Csum

  /** The inode's block field holds an extent root. */
  const EXTENTS_FLAG: nat := 0x8_0000

  // ----- every slot of a placement -----

  /**
    A layout that sealing made of its file loop: the trees are segments, and other segments stay off the
    loop's blocks.
  */
  ghost predicate SealedOver(l: Layout, p: Placement, used: seq<nat>) {
    && Settled(p, used, l.totalBlocks) && l.files == p.files && l.dataRuns == p.dataRuns
    && (forall b :: b in used ==> b < l.totalBlocks) && l.totalBlocks < 0x1_0000_0000
    && Laid(l) && OthersApart(l, p.trees, used) && SegmentsOnDevice(l) && Carries(l, p.trees)
  }

  /** The disk is the image of such a layout, filled with contents of the declared sizes. */
  ghost predicate Image(fs: ExtentWalk.Fs, l: Layout, contents: seq<seq<byte>>, decls: seq<Declared>, p: Placement,
                        used: seq<nat>) {
    && SealedOver(l, p, used) && SlotsPlaced(decls, p, |decls|, fs.fsSeed)
    && |contents| == |l.files| && fs.disk == ImageOf(l, contents)
    && forall s :: 0 <= s < |decls| && decls[s].ino != 0 ==> |contents[s]| == p.files[s].size
  }

  lemma SealedOverIsSealed(l: Layout, p: Placement, used: seq<nat>)
    requires SealedOver(l, p, used)
    ensures Sealed(l)
  {
    hide Settled, Laid, OthersApart, SegmentsOnDevice, Carries;
    PlacedIsSealed(l, p, used);
  }

  /** Every slot that holds a file can be walked and read, and shows its content where that can be addressed. */
  lemma SlotComesBack(fs: ExtentWalk.Fs, l: Layout, contents: seq<seq<byte>>, decls: seq<Declared>, p: Placement,
                      used: seq<nat>, s: nat, size: nat, offset: nat, n: nat)
    requires Image(fs, l, contents, decls, p, used)
    requires s < |decls| && decls[s].ino != 0 && Aligned(decls[s].segs) && InOrder(decls[s].segs)
    ensures var w := Walked(fs, decls[s], p.plans[s]);
            && w.status == Pass && FileRead.Readable(fs, w.out, size, offset, n)
            && (Addressable(decls[s].segs, p.files[s].runs) ==> Shows(fs, w.out, decls[s].segs, contents[s]))
  {
    SealedOverIsSealed(l, p, used);
    assert SlotPlaced(decls[s], p.files[s], p.plans[s], p.trees, fs.fsSeed);
    SlotCarried(l, p.trees, p.plans[s].plan.segments);
    NotDropped(decls[s], p.files[s], p.plans[s], fs.fsSeed);
    hide Sealed, Settled, Laid, OthersApart, SegmentsOnDevice, Carries, PlacedAs, Walked, Shows, Addressable,
      FileRead.Readable, ImageOf;
    FileComesBack(fs, l, contents, s, decls[s], p.plans[s], size, offset, n);
  }

  lemma SlotCarried(l: Layout, trees: seq<ExtentBuild.Segment>, segments: seq<ExtentBuild.Segment>)
    requires Carries(l, trees) && forall i :: 0 <= i < |segments| ==> segments[i] in trees
    ensures Carries(l, segments)
  {
    forall i | 0 <= i < |segments|
      ensures Writer.Segment(segments[i].block, 1, Whole(segments[i].bytes)) in l.segments
    {
      var j :| 0 <= j < |trees| && trees[j] == segments[i];
    }
  }

  lemma NotDropped(d: Declared, f: File, q: FilePlan, fsSeed: bv32)
    requires PlacedAs(d, f, q, fsSeed)
    ensures !f.dropped
  {
  }

  // ----- the inode table -----

  /** Byte `j` of block `b` of a table that holds `inodes` in order. */
  function TableByte(inodes: seq<seq<byte>>, b: nat, j: nat): byte
    requires forall k :: 0 <= k < |inodes| ==> |inodes[k]| == Inode.SLOT
  {
    var k := b * INODES_PER_BLOCK + j / Inode.SLOT;
    if k < |inodes| then inodes[k][j % Inode.SLOT] else 0
  }

  function TableBlock(inodes: seq<seq<byte>>, b: nat): (r: seq<byte>)
    requires forall k :: 0 <= k < |inodes| ==> |inodes[k]| == Inode.SLOT
    ensures |r| == BLOCK_SIZE
  {
    seq(BLOCK_SIZE, j requires 0 <= j => TableByte(inodes, b, j))
  }

  /** The blocks in use: sixteen inodes each, the last one filled up with zeros. */
  function TableBlocks(inodes: seq<seq<byte>>): (r: seq<seq<byte>>)
    requires forall k :: 0 <= k < |inodes| ==> |inodes[k]| == Inode.SLOT
    ensures forall b :: 0 <= b < |r| ==> |r[b]| == BLOCK_SIZE
  {
    seq((|inodes| + INODES_PER_BLOCK - 1) / INODES_PER_BLOCK, b requires 0 <= b => TableBlock(inodes, b))
  }

  /** One block of the table: the inodes it holds are copied in, the rest is zeroed. */
  method RenderTableBlock(inodes: seq<seq<byte>>, b: nat, buf: array<byte>)
    requires buf.Length == BLOCK_SIZE && forall k :: 0 <= k < |inodes| ==> |inodes[k]| == Inode.SLOT
    modifies buf
    ensures buf[..] == TableBlock(inodes, b)
  {
    var base := b * INODES_PER_BLOCK;
    var avail := Min(Max(|inodes| - base, 0), INODES_PER_BLOCK);
    for i := 0 to avail
      invariant forall j :: 0 <= j < i * Inode.SLOT ==> buf[j] == TableByte(inodes, b, j)
    {
      forall j | 0 <= j < Inode.SLOT {
        buf[i * Inode.SLOT + j] := inodes[base + i][j];
      }
    }
    forall j | avail * Inode.SLOT <= j < BLOCK_SIZE {
      buf[j] := 0;
    }
  }

  lemma {:induction false} JoinedAt(blocks: seq<seq<byte>>, b: nat, j: nat)
    requires (forall k :: 0 <= k < |blocks| ==> |blocks[k]| == BLOCK_SIZE) && b < |blocks| && j < BLOCK_SIZE
    ensures |Joined(blocks)| == |blocks| * BLOCK_SIZE
    ensures Joined(blocks)[b * BLOCK_SIZE + j] == blocks[b][j]
    decreases |blocks|
  {
    var k := |blocks| - 1;
    JoinedLength(blocks[..k]);
    if b < k { JoinedAt(blocks[..k], b, j); }
  }

  /** Where byte `j` of inode `k` is. */
  lemma SlotPlace(k: nat, j: nat)
    requires j < Inode.SLOT
    ensures var b, at := k / INODES_PER_BLOCK, k % INODES_PER_BLOCK * Inode.SLOT + j;
            && at < BLOCK_SIZE && b * BLOCK_SIZE + at == k * Inode.SLOT + j
            && b * INODES_PER_BLOCK + at / Inode.SLOT == k && at % Inode.SLOT == j
  {
  }

  lemma TableLength(n: nat, k: nat)
    requires k < n
    ensures k / INODES_PER_BLOCK < (n + INODES_PER_BLOCK - 1) / INODES_PER_BLOCK
  {
  }

  /** The table takes no more blocks than its inodes need, and is zero behind the last of them. */
  lemma TableEnds(inodes: seq<seq<byte>>, at: nat)
    requires forall i :: 0 <= i < |inodes| ==> |inodes[i]| == Inode.SLOT
    ensures var t := Joined(TableBlocks(inodes));
            && |t| == 4096 * |TableBlocks(inodes)| && 256 * |inodes| <= |t| < 256 * |inodes| + 4096
            && (256 * |inodes| <= at < |t| ==> t[at] == 0)
  {
    var blocks := TableBlocks(inodes);
    JoinedLength(blocks);
    if 256 * |inodes| <= at < 4096 * |blocks| {
      assert at / 4096 * BLOCK_SIZE + at % 4096 == at;
      JoinedAt(blocks, at / 4096, at % 4096);
      assert at / 4096 * INODES_PER_BLOCK + at % 4096 / Inode.SLOT == at / 256;
    }
  }

  /** Inode `k` of a table is at byte `256 * k` of it. */
  lemma InodeInTable(inodes: seq<seq<byte>>, k: nat)
    requires (forall i :: 0 <= i < |inodes| ==> |inodes[i]| == Inode.SLOT) && k < |inodes|
    ensures var t := Joined(TableBlocks(inodes));
            (k + 1) * Inode.SLOT <= |t| && t[k * Inode.SLOT..(k + 1) * Inode.SLOT] == inodes[k]
  {
    var blocks, b := TableBlocks(inodes), k / INODES_PER_BLOCK;
    TableLength(|inodes|, k);
    SlotPlace(k, Inode.SLOT - 1);
    JoinedAt(blocks, b, 0);
    forall j | 0 <= j < Inode.SLOT ensures Joined(blocks)[k * Inode.SLOT + j] == inodes[k][j] {
      SlotPlace(k, j);
      var at := k % INODES_PER_BLOCK * Inode.SLOT + j;
      assert blocks[b][at] == TableByte(inodes, b, at);
      hide Joined, TableBlocks;
      JoinedAt(blocks, b, at);
    }
  }

  // ----- opening a file -----

  /** `Fs::inode`, where the descriptor of the inode's group puts its table at block `table`. */
  function OpenInode(fs: ExtentWalk.Fs, table: nat, k: nat, ino: u32): Result<Inode.Inode> {
    var at := table * BLOCK_SIZE + k * Inode.SLOT;
    if |fs.disk| < at + Inode.SLOT then Err(Io)
    else
      var slot := fs.disk[at..at + Inode.SLOT];
      var x :- Inode.Decode(slot);
      if fs.metadataCsum && !Inode.Accepts(fs.fsSeed, ino, slot) then Err(Corrupt) else Ok(x)
  }

  /**
    The stored checksum of a slot, over the inode's number, the generation in the slot, and the slot with the checksum
    zeroed. A slot that declares no room for the upper half stores the lower half alone.
  */
  predicate SumStored(fsSeed: bv32, ino: u32, slot: seq<byte>)
    requires |slot| == 256
  {
    var front := Bytes32(ino) + slot[0x64..0x68] + (slot[..0x7C] + [0, 0]);
    if 4 <= Le16(slot, 0x80)
    then
      Csum.AsU32(Crc(fsSeed, front + slot[0x7E..0x82] + [0, 0] + slot[0x84..]))
        == Le16(slot, 0x7C) as int + 0x1_0000 * Le16(slot, 0x82) as int
    else Csum.AsU32(Crc(fsSeed, front + slot[0x7E..])) % 0x1_0000 == Le16(slot, 0x7C)
  }

  lemma SlotSum(fsSeed: bv32, ino: u32, slot: seq<byte>)
    requires |slot| == 256
    ensures Csum.Inode(fsSeed, ino, Le32(slot, 0x64), slot)
            == Crc(fsSeed, Bytes32(ino) + slot[0x64..0x68] + Csum.ZeroedInode(slot))
  {
    hide Crc, Csum.Inode, Csum.ZeroedInode, Bytes32, Le32;
    var generation := Bytes32(Le32(slot, 0x64));
    Le32Encodes(slot, 0x64);
    Csum.InodeIsFoldOfZeroed(fsSeed, ino, Le32(slot, 0x64), slot);
    CrcConcat(fsSeed, Bytes32(ino), generation);
    CrcConcat(fsSeed, Bytes32(ino) + generation, Csum.ZeroedInode(slot));
  }

  lemma AcceptsIff(fsSeed: bv32, ino: u32, slot: seq<byte>)
    requires |slot| == 256
    ensures Inode.Accepts(fsSeed, ino, slot) <==> SumStored(fsSeed, ino, slot)
  {
    hide Crc, Csum.ZeroedInode, Bytes32, Le16, Le32, Inode.Decode, Csum.Inode;
    SlotSum(fsSeed, ino, slot);
    SlotPieces(slot, Bytes32(ino) + slot[0x64..0x68]);
    StoredHalves(slot);
  }

  lemma SlotPieces(slot: seq<byte>, owner: seq<byte>)
    requires |slot| == 256
    ensures var front := owner + (slot[..0x7C] + [0, 0]);
            owner + Csum.ZeroedInode(slot) == if 4 <= Le16(slot, 0x80)
              then front + slot[0x7E..0x82] + [0, 0] + slot[0x84..] else front + slot[0x7E..]
  {
    hide Le16, Csum.ZeroedInode;
    Csum.ZeroedInodePieces(slot);
    assert Zeros(2) == [0, 0];
    var a, b := slot[..0x7C] + [0, 0], slot[0x7E..0x82];
    Regrouped(owner, a, b, [0, 0], slot[0x84..]);
    AppendAssociates(owner, a + b, slot[0x82..]);
    AppendAssociates(owner, a, b);
    AppendAssociates(owner + a, b, slot[0x82..]);
    SliceJoins(slot, 0x7E, 0x82);
  }

  lemma SliceJoins<T>(s: seq<T>, lo: nat, hi: nat)
    requires lo <= hi <= |s|
    ensures s[lo..hi] + s[hi..] == s[lo..]
  {
  }

  lemma Regrouped<T>(o: seq<T>, a: seq<T>, b: seq<T>, c: seq<T>, d: seq<T>)
    ensures o + (a + b + c + d) == o + a + b + c + d
  {
    AppendAssociates(o, a + b + c, d);
    AppendAssociates(o, a + b, c);
    AppendAssociates(o, a, b);
  }

  lemma StoredHalves(slot: seq<byte>)
    requires |slot| == 256
    ensures var x := Inode.Decode(slot);
            && x.Ok? && x.value.generation == Le32(slot, 0x64) && x.value.extraIsize == Le16(slot, 0x80)
            && x.value.checksum == Le16(slot, 0x7C) as int
                 + if 4 <= Le16(slot, 0x80) then 0x1_0000 * Le16(slot, 0x82) as int else 0
  {
    hide Le16, Le32, Inode.Area, Inode.Field;
  }

  /** An inode opens exactly when its 256 bytes lie on the device and, with checksums on, hold their checksum. */
  lemma OpenedExactly(fs: ExtentWalk.Fs, table: nat, k: nat, ino: u32)
    ensures var r, at := OpenInode(fs, table, k, ino), 4096 * table + 256 * k;
            if |fs.disk| < at + 256 then r == Err(Io)
            else
              var slot := fs.disk[at..at + 256];
              if fs.metadataCsum && !SumStored(fs.fsSeed, ino, slot) then r == Err(Corrupt)
              else r == Inode.Decode(slot) && r.Ok?
  {
    hide Inode.Decode, SumStored, Inode.Accepts;
    var at := 4096 * table + 256 * k;
    if at + 256 <= |fs.disk| {
      StoredHalves(fs.disk[at..at + 256]);
      AcceptsIff(fs.fsSeed, ino, fs.disk[at..at + 256]);
    }
  }

  /** `Fs::extents`: nothing without an extent root. */
  function Extents(fs: ExtentWalk.Fs, ino: u32, x: Inode.Inode): ExtentWalk.Walk {
    if x.flags / EXTENTS_FLAG % 2 == 1 && 2 <= |x.block| && Le16(x.block, 0) == Extent.EXTENT_MAGIC
    then ExtentWalk.WalkNode(fs, ExtentWalk.Owner(ino, x.generation), x.block, None)
    else ExtentWalk.Walk(Pass, [], 0)
  }

  /** Flag 0x80000 says that the inode holds an extent root; without it, or without its magic, there are no extents. */
  lemma NoExtents(fs: ExtentWalk.Fs, ino: u32, x: Inode.Inode)
    requires x.flags / 0x8_0000 % 2 == 0 || |x.block| < 2 || x.block[0] != 0x0A || x.block[1] != 0xF3
    ensures Extents(fs, ino, x) == ExtentWalk.Walk(Pass, [], 0)
  {
    hide ExtentWalk.WalkNode;
  }

  /** The inode as it is written: with the checksum of its slot. */
  function Stamped(fsSeed: bv32, ino: u32, x: Inode.Inode): Inode.Inode
    requires Inode.Encodable(x)
  {
    x.(checksum := Csum.Inode(fsSeed, ino, x.generation, Inode.Encoded(x)) as int)
  }

  /** Segment `i` is the table of `inodes`. */
  ghost predicate IsTable(l: Layout, i: nat, inodes: seq<seq<byte>>) {
    && i < |l.segments| && (forall j :: 0 <= j < |inodes| ==> |inodes[j]| == Inode.SLOT)
    && l.segments[i].src == Itable(TableBlocks(inodes))
  }

  lemma InodeInSegment(l: Layout, i: nat, inodes: seq<seq<byte>>, k: nat)
    requires IsTable(l, i, inodes) && k < |inodes| && Sound(l.segments[i])
    ensures SegmentHas(l.segments[i], k * Inode.SLOT, inodes[k])
  {
    InodeInTable(inodes, k);
    hide TableBlocks, Joined;
    var t, at := Joined(TableBlocks(inodes)), k * Inode.SLOT;
    FrontSlice(t, SegmentBytes(l.segments[i])[|t|..], at, at + Inode.SLOT);
    assert SegmentBytes(l.segments[i]) == t + SegmentBytes(l.segments[i])[|t|..];
  }

  /** The image holds every inode where the reader looks for it. */
  lemma InodeOnImage(fs: ExtentWalk.Fs, l: Layout, contents: seq<seq<byte>>, i: nat, inodes: seq<seq<byte>>, k: nat)
    requires IsImage(fs, l, contents) && SegmentsOnDevice(l) && IsTable(l, i, inodes) && k < |inodes|
    ensures var at := l.segments[i].block * BLOCK_SIZE + k * Inode.SLOT;
            at + Inode.SLOT <= |fs.disk| && fs.disk[at..at + Inode.SLOT] == inodes[k]
  {
    hide Sealed, ImageOf, SegmentsOnDevice, SegmentHas, AllSound, Sound, TableBlocks;
    assert |inodes[k]| == Inode.SLOT;
    SealedSegment(l, i);
    InodeInSegment(l, i, inodes, k);
    hide IsTable, IsImage;
    StretchOnImage(fs, l, contents, i, k * Inode.SLOT, inodes[k]);
  }

  /** A written inode that fits its fields is opened as it was written. */
  lemma InodeOpens(fs: ExtentWalk.Fs, l: Layout, contents: seq<seq<byte>>, i: nat, inodes: seq<seq<byte>>, k: nat,
                   ino: u32, x: Inode.Inode)
    requires IsImage(fs, l, contents) && SegmentsOnDevice(l)
    requires Inode.Encodable(x) && Inode.Fits(Stamped(fs.fsSeed, ino, x))
    requires IsTable(l, i, inodes) && k < |inodes| && inodes[k] == Inode.Encoded(Stamped(fs.fsSeed, ino, x))
    ensures OpenInode(fs, l.segments[i].block, k, ino) == Ok(Stamped(fs.fsSeed, ino, x))
  {
    hide IsImage, SegmentsOnDevice, Inode.Encoded, Inode.Decode, Inode.Accepts, TableBlocks, Csum.Inode;
    InodeOnImage(fs, l, contents, i, inodes, k);
    Inode.EncodedDecodes(Stamped(fs.fsSeed, ino, x));
    Inode.StampedIsAccepted(fs.fsSeed, ino, x);
  }

  /**
    From the bytes of the image to the bytes of a file: the inode of a placed slot opens, its extents are walked, and
    every read up to the declared size succeeds. Where the data is addressable, a read delivers what was declared.
  */
  lemma FileOpens(fs: ExtentWalk.Fs, l: Layout, contents: seq<seq<byte>>, decls: seq<Declared>, p: Placement,
                  used: seq<nat>,
                  s: nat, i: nat, inodes: seq<seq<byte>>, k: nat, x: Inode.Inode, offset: nat, n: nat)
    requires Image(fs, l, contents, decls, p, used)
    requires s < |decls| && decls[s].ino != 0 && Aligned(decls[s].segs) && InOrder(decls[s].segs)
    requires Inode.Encodable(x) && Inode.Fits(Stamped(fs.fsSeed, decls[s].ino, x))
    requires x.block == p.plans[s].plan.root && x.generation == 0 && x.flags / 0x8_0000 % 2 == 1
    requires IsTable(l, i, inodes) && k < |inodes|
    requires inodes[k] == Inode.Encoded(Stamped(fs.fsSeed, decls[s].ino, x))
    ensures var r := OpenInode(fs, l.segments[i].block, k, decls[s].ino);
            && r.Ok? && r.value.size == x.size
            && var w := Extents(fs, decls[s].ino, r.value);
               && w.status == Pass && FileRead.Readable(fs, w.out, x.size, offset, n)
               && (Addressable(decls[s].segs, p.files[s].runs) ==>
                     var read := FileRead.Window(fs, w.out, x.size, offset, n);
                     forall j :: 0 <= j < |read| ==> read[j] == DeclaredByte(decls[s].segs, contents[s], offset + j))
  {
    ImageFacts(fs, l, contents, decls, p, used);
    hide Image, IsImage, SegmentsOnDevice, ExtentWalk.WalkNode, Shows, Addressable, FileRead.Readable, IsTable,
      Inode.Encoded, Inode.Fits, OpenInode, FileRead.Window, DeclaredByte, Csum.Inode, Aligned, InOrder;
    InodeOpens(fs, l, contents, i, inodes, k, decls[s].ino, x);
    SlotComesBack(fs, l, contents, decls, p, used, s, x.size, offset, n);
    RootHasMagic(fs, decls[s].ino, x.block);
    var w := Extents(fs, decls[s].ino, Stamped(fs.fsSeed, decls[s].ino, x));
    assert w == Walked(fs, decls[s], p.plans[s]);
    if Addressable(decls[s].segs, p.files[s].runs) {
      ShownWindow(fs, w.out, decls[s].segs, contents[s], x.size, offset, n);
    }
  }

  lemma ImageFacts(fs: ExtentWalk.Fs, l: Layout, contents: seq<seq<byte>>, decls: seq<Declared>, p: Placement,
                   used: seq<nat>)
    requires Image(fs, l, contents, decls, p, used)
    ensures IsImage(fs, l, contents) && SegmentsOnDevice(l)
    ensures |decls| == |p.plans| == |p.files| == |contents|
  {
    SealedOverIsSealed(l, p, used);
  }

  lemma ShownWindow(fs: ExtentWalk.Fs, extents: seq<ExtentWalk.FileExtent>, segs: seq<DataSeg>, content: seq<byte>,
                    size: nat, offset: nat, n: nat)
    requires Shows(fs, extents, segs, content)
    ensures var read := FileRead.Window(fs, extents, size, offset, n);
            forall j :: 0 <= j < |read| ==> read[j] == DeclaredByte(segs, content, offset + j)
  {
    hide FileRead.FileByte, DeclaredByte;
  }

  lemma RootHasMagic(fs: ExtentWalk.Fs, ino: u32, root: seq<byte>)
    requires ExtentWalk.WalkNode(fs, ExtentWalk.Owner(ino, 0), root, None).status == Pass
    ensures 2 <= |root| && Le16(root, 0) == Extent.EXTENT_MAGIC
  {
  }
}
