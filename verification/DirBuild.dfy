/**
  Building directories (`src/build/htree.rs` and the linear directories of
  `src/build/seal.rs`), and that what is built raises no issue and lists every entry.
*/
module DirBuild {
  import opened Bytes
  import opened ExtentWalk
  import opened Htree
  import opened DirVerify
  import opened DirRead
  import opened DirBlocks
  import opened IndexChain
  import Dirent
  import Csum

  // ----- linear directories -----

  predicate Used(items: seq<Item>) {
    Nameable(items) && forall i :: 0 <= i < |items| ==> items[i].ino != 0
  }

  lemma {:induction false} LeafOfUsed(leaves: seq<seq<Item>>, k: nat)
    requires Used(Flatten(leaves)) && k < |leaves|
    ensures Used(leaves[k])
    decreases leaves
  {
    var n := |leaves| - 1;
    var before := Flatten(leaves[..n]);
    assert Flatten(leaves) == before + leaves[n];
    if k == n {
      assert forall i :: 0 <= i < |leaves[n]| ==> leaves[n][i] == Flatten(leaves)[|before| + i];
    } else {
      assert forall i :: 0 <= i < |before| ==> before[i] == Flatten(leaves)[i];
      LeafOfUsed(leaves[..n], k);
    }
  }

  lemma PackedLeaf(items: seq<Item>, k: nat)
    requires Used(items) && k < |Packed(items)|
    ensures Renderable(Packed(items)[k])
  {
    PackedKeeps(items);
    LeafOfUsed(Packed(items), k);
  }

  /** The directory's block `k` is `leaf`, rendered and sealed. */
  ghost predicate Holds(d: Dir, k: nat, leaf: seq<Item>) {
    Fits(leaf) && d.Block(k) == Ok(Some(BlockBytes(leaf, Seal(leaf, d.Seed()))))
  }

  ghost predicate HoldsPacked(d: Dir, items: seq<Item>) {
    var leaves := Packed(items);
    d.size / BLOCK_SIZE == |leaves| && forall k :: 0 <= k < |leaves| ==> Holds(d, k, leaves[k])
  }

  lemma NamedAppend(a: seq<Item>, b: seq<Item>)
    ensures NamedItems(a + b) == NamedItems(a) + NamedItems(b)
  {
  }

  /** What reading and checking find in a held block. */
  lemma HeldBlock(d: Dir, k: nat, leaf: seq<Item>)
    requires Holds(d, k, leaf) && Renderable(leaf)
    ensures d.Block(k).Ok? && d.Block(k).value.Some? && Dirent.Scan(d.Block(k).value.value, 0).ok
    ensures AllNamed(Dirent.Scan(d.Block(k).value.value, 0).entries) == NamedItems(leaf)
    ensures forall logical :: BlockIssues(d, d.Block(k).value.value, logical) == []
  {
    hide BlockBytes, Seal, BlockIssues, AllNamed, NamedItems, Dirent.Scan;
    RenderedBlockReads(leaf, Seal(leaf, d.Seed()));
    forall logical: nat ensures BlockIssues(d, BlockBytes(leaf, Seal(leaf, d.Seed())), logical) == [] {
      RenderedBlockIsClean(d, leaf, logical);
    }
  }

  lemma {:induction false} PackedBlocksList(d: Dir, leaves: seq<seq<Item>>, n: nat)
    requires !d.indexed && n <= |leaves|
    requires forall k :: 0 <= k < n ==> Renderable(leaves[k]) && Holds(d, k, leaves[k])
    ensures LinearIssues(d, n) == Ok([]) && NamesUpTo(d, n) == Ok(NamedItems(Flatten(leaves[..n])))
    decreases n
  {
    hide Holds, BlockIssues, Renderable, NamedItems, AllNamed, Dirent.Scan;
    if n == 0 {
      NoNames();
      assert leaves[..0] == [];
    } else {
      PackedBlocksList(d, leaves, n - 1);
      var leaf := leaves[n - 1];
      HeldBlock(d, n - 1, leaf);
      assert leaves[..n] == leaves[..n - 1] + [leaf];
      FlattenStep(leaves[..n - 1], leaf);
      NamedAppend(Flatten(leaves[..n - 1]), leaf);
      assert LinearIssues(d, n).value == [];
    }
  }

  lemma NoNames()
    ensures NamedItems([]) == []
  {
  }

  /** A linear directory as built raises no issue, and listing it gives the entries in declaration order. */
  lemma BuiltLinearReads(d: Dir, items: seq<Item>)
    requires !d.indexed && Used(items) && HoldsPacked(d, items)
    ensures DirIssues(d) == Ok([]) && NamesUpTo(d, d.size / BLOCK_SIZE) == Ok(NamedItems(items))
  {
    hide Holds, Packed, NamedItems, Renderable;
    var leaves := Packed(items);
    PackedKeeps(items);
    forall k | 0 <= k < |leaves| ensures Renderable(leaves[k]) {
      PackedLeaf(items, k);
    }
    PackedBlocksList(d, leaves, |leaves|);
    assert leaves[..|leaves|] == leaves;
  }

  predicate Blocks(blocks: seq<seq<byte>>, leaves: seq<seq<Item>>, inodeSeed: bv32) {
    |blocks| == |leaves| && forall k ::
      0 <= k < |leaves| ==> Fits(leaves[k]) && blocks[k] == BlockBytes(leaves[k], Seal(leaves[k], inodeSeed))
  }

  method RenderLeaves(leaves: seq<seq<Item>>, inodeSeed: bv32) returns (blocks: seq<seq<byte>>)
    requires forall k :: 0 <= k < |leaves| ==> Fits(leaves[k])
    ensures Blocks(blocks, leaves, inodeSeed)
  {
    hide BlockBytes, Seal, Fits;
    blocks := [];
    for k := 0 to |leaves|
      invariant |blocks| == k && forall j ::
                  0 <= j < k ==> blocks[j] == BlockBytes(leaves[j], Seal(leaves[j], inodeSeed))
    {
      var block := RenderBlock(leaves[k], inodeSeed);
      blocks := blocks + [block];
    }
  }

  method BuildLinear(items: seq<Item>, inodeSeed: bv32) returns (blocks: seq<seq<byte>>)
    requires Nameable(items)
    ensures Blocks(blocks, Packed(items), inodeSeed)
  {
    hide Packed, Blocks;
    PackedKeeps(items);
    var leaves := Pack(items);
    blocks := RenderLeaves(leaves, inodeSeed);
  }

  // ----- index tables -----

  function SlotBytes(e: DxEntry): (r: seq<byte>)
    ensures |r| == 8
  {
    Bytes32(e.hash) + Bytes32(e.block)
  }

  /** Limit, count and the first block; then the other slots. */
  function Slots(limit: u16, count: u16, dx: seq<DxEntry>): (r: seq<byte>)
    requires dx != []
    ensures |r| == 8 * |dx|
    decreases dx
  {
    var k := |dx| - 1;
    if k == 0 then Bytes16(limit) + Bytes16(count) + Bytes32(dx[0].block)
    else Slots(limit, count, dx[..k]) + SlotBytes(dx[k])
  }

  function TableBytes(limit: u16, dx: seq<DxEntry>, checksum: u32): (r: seq<byte>)
    requires 1 <= |dx| <= limit
    ensures |r| == 8 * limit + 8
  {
    Slots(limit, |dx|, dx) + Zeros(8 * (limit - |dx|)) + Zeros(4) + Bytes32(checksum)
  }

  /** Slot 0's hash is what the parser takes it to be. */
  function Implicit(dx: seq<DxEntry>): (r: seq<DxEntry>)
    requires dx != []
    ensures |r| == |dx|
  {
    dx[0 := dx[0].(hash := 0)]
  }

  lemma HeadReads(b: seq<byte>, off: nat, limit: u16, count: u16, dx: seq<DxEntry>)
    requires |dx| == 1 && off + 8 <= |b| && b[off..off + 8] == Slots(limit, count, dx)
    ensures SlotAt(b, off, 0) == Implicit(dx)[0] && Le16(b, off) == limit && Le16(b, off + 2) == count
  {
    hide Le16, Le32, Bytes16, Bytes32;
    var whole := b[off..off + 8];
    assert whole[0..2] == Bytes16(limit) && whole[2..4] == Bytes16(count) && whole[4..8] == Bytes32(dx[0].block);
    SubSlice(b, off, off + 8, 0, 2);
    SubSlice(b, off, off + 8, 2, 4);
    SubSlice(b, off, off + 8, 4, 8);
    Le16Decodes(b, off, limit);
    Le16Decodes(b, off + 2, count);
    Le32Decodes(b, off + 4, dx[0].block);
  }

  lemma LastSlotReads(b: seq<byte>, off: nat, limit: u16, count: u16, dx: seq<DxEntry>)
    requires 2 <= |dx| && off + 8 * |dx| <= |b| && b[off..off + 8 * |dx|] == Slots(limit, count, dx)
    ensures SlotAt(b, off, |dx| - 1) == Implicit(dx)[|dx| - 1]
  {
    hide Le16, Le32, Bytes16, Bytes32;
    var k := |dx| - 1;
    var n := 8 * k;
    var whole := b[off..off + 8 * |dx|];
    assert whole[n..n + 4] == Bytes32(dx[k].hash) && whole[n + 4..n + 8] == Bytes32(dx[k].block);
    SubSlice(b, off, off + 8 * |dx|, n, n + 4);
    SubSlice(b, off, off + 8 * |dx|, n + 4, n + 8);
    Le32Decodes(b, off + n, dx[k].hash);
    Le32Decodes(b, off + n + 4, dx[k].block);
  }

  lemma {:induction false} SlotReads(b: seq<byte>, off: nat, limit: u16, count: u16, dx: seq<DxEntry>, i: nat)
    requires i < |dx| && off + 8 * |dx| <= |b| && b[off..off + 8 * |dx|] == Slots(limit, count, dx)
    ensures SlotAt(b, off, i) == Implicit(dx)[i] && Le16(b, off) == limit && Le16(b, off + 2) == count
    decreases dx
  {
    var k := |dx| - 1;
    if k == 0 {
      HeadReads(b, off, limit, count, dx);
    } else {
      LastSlotReads(b, off, limit, count, dx);
      assert Slots(limit, count, dx) == Slots(limit, count, dx[..k]) + SlotBytes(dx[k]);
      assert i < k ==> Implicit(dx[..k])[i] == Implicit(dx)[i];
      hide Le16, Le32, Slots, SlotAt, SlotBytes, Implicit;
      FrontSlice(Slots(limit, count, dx[..k]), SlotBytes(dx[k]), 0, 8 * k);
      SubSlice(b, off, off + 8 * |dx|, 0, 8 * k);
      SlotReads(b, off, limit, count, dx[..k], if i < k then i else 0);
    }
  }

  /** A written table is parsed back, slot 0's hash aside. */
  lemma TableReads(b: seq<byte>, off: nat, limit: u16, dx: seq<DxEntry>, checksum: u32)
    requires 1 <= |dx| <= limit && off + 8 * limit + 8 == |b| && b[off..] == TableBytes(limit, dx, checksum)
    ensures TableAt(b, off) == Ok(Table(limit, |dx|, Implicit(dx), checksum))
  {
    hide Le16, Le32, Bytes16, Bytes32, Slots, SlotAt;
    var n := 8 * |dx|;
    var w := TableBytes(limit, dx, checksum);
    assert w[..n] == Slots(limit, |dx|, dx) && w[8 * limit + 4..] == Bytes32(checksum);
    assert b[off..off + n] == b[off..][..n];
    assert b[off + 8 * limit + 4..off + 8 * limit + 8] == b[off..][8 * limit + 4..];
    Le32Decodes(b, off + 8 * limit + 4, checksum);
    SlotReads(b, off, limit, |dx|, dx, 0);
    forall i | 0 <= i < |dx| ensures SlotAt(b, off, i) == Implicit(dx)[i] {
      SlotReads(b, off, limit, |dx|, dx, i);
    }
    assert SlotsFrom(b, off, |dx|) == Implicit(dx);
  }

  /** The checksum of an index block does not see the field that stores it. */
  lemma TableChecksumUnseen(seed: bv32, head: seq<byte>, limit: u16, dx: seq<DxEntry>, c: u32)
    requires 1 <= |dx| <= limit
    ensures Csum.DxBlock(seed, head + TableBytes(limit, dx, c), |head|, |dx|, limit)
            == Csum.DxBlock(seed, head + TableBytes(limit, dx, 0), |head|, |dx|, limit)
  {
    TableAround(head, limit, dx, c);
  }

  lemma TableAround(head: seq<byte>, limit: u16, dx: seq<DxEntry>, c: u32)
    requires 1 <= |dx| <= limit
    ensures var a, b := head + TableBytes(limit, dx, c), head + TableBytes(limit, dx, 0);
            var tail := |head| + 8 * limit;
            |a| == |b| == tail + 8 && a[..|head| + 8 * |dx|] == b[..|head| + 8 * |dx|]
              && a[tail..tail + 4] == b[tail..tail + 4]
  {
  }

  /** Header and table together, the table's checksum computed over both. */
  function WithTable(seed: bv32, head: seq<byte>, limit: u16, dx: seq<DxEntry>): seq<byte>
    requires 1 <= |dx| <= limit
  {
    head + TableBytes(limit, dx, TableSeal(seed, head, limit, dx))
  }

  function TableSeal(seed: bv32, head: seq<byte>, limit: u16, dx: seq<DxEntry>): u32
    requires 1 <= |dx| <= limit
  {
    Csum.AsU32(Csum.DxBlock(seed, head + TableBytes(limit, dx, 0), |head|, |dx|, limit))
  }

  lemma WithTableReads(seed: bv32, head: seq<byte>, limit: u16, dx: seq<DxEntry>)
    requires 1 <= |dx| <= limit
    ensures var b := WithTable(seed, head, limit, dx);
            && |b| == |head| + 8 * limit + 8 && b[..|head|] == head
            && TableAt(b, |head|) == Ok(Table(limit, |dx|, Implicit(dx), TableSeal(seed, head, limit, dx)))
            && Csum.AsU32(Csum.DxBlock(seed, b, |head|, |dx|, limit)) == TableSeal(seed, head, limit, dx)
  {
    hide TableBytes, TableAt, Csum.DxBlock, Csum.AsU32, Implicit;
    var c := TableSeal(seed, head, limit, dx);
    TableReads(head + TableBytes(limit, dx, c), |head|, limit, dx, c);
    TableChecksumUnseen(seed, head, limit, dx, c);
  }

  /** A block-spanning unused record hides the node from directory scans. */
  function NodeHead(): (r: seq<byte>)
    ensures |r| == NODE_COUNT_OFFSET
  {
    Zeros(4) + Bytes16(BLOCK_SIZE) + Zeros(2)
  }

  /** The two dot records, then `dx_root_info`. */
  function RootHead(self: u32, parent: u32, levels: byte): (r: seq<byte>)
    ensures |r| == ROOT_COUNT_OFFSET
  {
    DotRecord(self) + DotDotRecord(parent) + (Zeros(4) + [1, 8, levels, 0])
  }

  function DotRecord(self: u32): (r: seq<byte>)
    ensures |r| == 12
  {
    Bytes32(self) + Bytes16(12) + [1, 2, '.' as byte, 0, 0, 0]
  }

  /** Its record reaches over the index, so that a scan sees no names there. */
  function DotDotRecord(parent: u32): (r: seq<byte>)
    ensures |r| == 12
  {
    Bytes32(parent) + Bytes16(USABLE) + [2, 2, '.' as byte, '.' as byte, 0, 0]
  }

  const ROOT_LIMIT: u16 := 507
  const NODE_LIMIT: u16 := 510

  lemma LimitsOfABlock()
    ensures RootLimit(BLOCK_SIZE) == ROOT_LIMIT && NodeLimit(BLOCK_SIZE) == NODE_LIMIT
  {
  }

  function NodeBytes(seed: bv32, dx: seq<DxEntry>): seq<byte>
    requires 1 <= |dx| <= NODE_LIMIT
  {
    WithTable(seed, NodeHead(), NODE_LIMIT, dx)
  }

  function RootBytes(seed: bv32, self: u32, parent: u32, levels: byte, dx: seq<DxEntry>): seq<byte>
    requires 1 <= |dx| <= ROOT_LIMIT
  {
    WithTable(seed, RootHead(self, parent, levels), ROOT_LIMIT, dx)
  }

  lemma NodeReads(seed: bv32, dx: seq<DxEntry>)
    requires 1 <= |dx| <= NODE_LIMIT
    ensures var b := NodeBytes(seed, dx);
            && |b| == BLOCK_SIZE && NodeLike(b)
            && NodeAt(b) == Ok(Table(NODE_LIMIT, |dx|, Implicit(dx), TableSeal(seed, NodeHead(), NODE_LIMIT, dx)))
  {
    hide WithTable, TableAt, Csum.DxBlock, TableSeal, Csum.AsU32, Implicit;
    WithTableReads(seed, NodeHead(), NODE_LIMIT, dx);
    NodeHeadReads(NodeBytes(seed, dx));
  }

  lemma NodeHeadReads(b: seq<byte>)
    requires 8 <= |b| && b[..8] == NodeHead()
    ensures Le32(b, 0) == 0 && Le16(b, 4) == BLOCK_SIZE
  {
  }

  lemma RootHeadReads(b: seq<byte>, self: u32, parent: u32, levels: byte)
    requires 0x20 <= |b| && b[..0x20] == RootHead(self, parent, levels)
    ensures Le32(b, 0) == self && b[7] == 2 && b[8] == '.' as byte
    ensures Le32(b, 0x0C) == parent && b[0x13] == 2 && b[0x14] == '.' as byte && b[0x15] == '.' as byte
    ensures Le32(b, 0x18) == 0 && b[0x1C] == 1 && b[0x1D] == 8 && b[0x1E] == levels && b[0x1F] == 0
  {
    assert Bytes32(0) == Zeros(4);
    hide Bytes16, Bytes32, Le32;
    var h := RootHead(self, parent, levels);
    assert h[0..4] == Bytes32(self) && h[0x0C..0x10] == Bytes32(parent) && h[0x18..0x1C] == Zeros(4);
    SubSlice(b, 0, 0x20, 0, 4);
    SubSlice(b, 0, 0x20, 0x0C, 0x10);
    SubSlice(b, 0, 0x20, 0x18, 0x1C);
    Le32Decodes(b, 0, self);
    Le32Decodes(b, 0x0C, parent);
    Le32Decodes(b, 0x18, 0);
    assert forall k :: 0 <= k < 0x20 ==> b[k] == h[k];
  }

  lemma RootReads(seed: bv32, self: u32, parent: u32, levels: byte, dx: seq<DxEntry>)
    requires 1 <= |dx| <= ROOT_LIMIT && self != 0 && parent != 0 && levels <= 1
    ensures var b := RootBytes(seed, self, parent, levels, dx);
            && |b| == BLOCK_SIZE
            && RootAt(b) == Ok(RootView(DxInfo(1, 8, levels, 0),
                 Table(ROOT_LIMIT, |dx|, Implicit(dx),
                   TableSeal(seed, RootHead(self, parent, levels), ROOT_LIMIT, dx))))
            && RootNames(b) == [Named(self, 2, DOT), Named(parent, 2, DOT_DOT)]
  {
    hide WithTable, TableAt, Csum.DxBlock, TableSeal, Csum.AsU32, Implicit, Le32, RootHead;
    WithTableReads(seed, RootHead(self, parent, levels), ROOT_LIMIT, dx);
    RootHeadReads(RootBytes(seed, self, parent, levels, dx), self, parent, levels);
  }

  lemma RootRecords(b: seq<byte>, self: u32, parent: u32, levels: byte)
    requires 0x20 <= |b| && b[..0x20] == RootHead(self, parent, levels)
    ensures Le16(b, 4) == 12 && b[6] == 1 && Le16(b, 0x10) == 4084 && b[0x12] == 2
  {
    hide Bytes32, Le16;
    var h := RootHead(self, parent, levels);
    assert h[4..6] == Bytes16(12) && h[0x10..0x12] == Bytes16(4084) && h[6] == 1 && h[0x12] == 2;
    SubSlice(b, 0, 0x20, 4, 6);
    SubSlice(b, 0, 0x20, 0x10, 0x12);
    Le16Decodes(b, 4, 12);
    Le16Decodes(b, 0x10, 4084);
    assert b[6] == b[..0x20][6] && b[0x12] == b[..0x20][0x12];
  }

  lemma ScanOfTwo(b: seq<byte>, self: u32, parent: u32)
    requires |b| == 4096 && self != 0 && parent != 0
    requires Le32(b, 0) == self && Le16(b, 4) == 12 && b[6] == 1 && b[7] == 2 && b[8] == '.' as byte
    requires Le32(b, 0x0C) == parent && Le16(b, 0x10) == 4084 && b[0x12] == 2 && b[0x13] == 2
    requires b[0x14] == '.' as byte && b[0x15] == '.' as byte
    ensures Dirent.Scan(b, 0) == Dirent.Listing([Dirent.Entry(self, 2, ['.' as byte], 0, 12),
                                                 Dirent.Entry(parent, 2, ['.' as byte, '.' as byte], 12, 4084)], true)
  {
    hide Le16, Le32;
    assert Dirent.Scan(b, 4096) == Dirent.Listing([], true);
    assert Dirent.EntryAt(b, 12) == Dirent.Entry(parent, 2, ['.' as byte, '.' as byte], 12, 4084);
    assert Dirent.Scan(b, 12) == Dirent.Listing([Dirent.EntryAt(b, 12)] + [], true);
    assert Dirent.EntryAt(b, 0) == Dirent.Entry(self, 2, ['.' as byte], 0, 12);
  }

  /** Iterating an index root as a directory block yields the two dot entries and nothing of the index. */
  lemma RootScans(seed: bv32, self: u32, parent: u32, levels: byte, dx: seq<DxEntry>)
    requires 1 <= |dx| <= ROOT_LIMIT && self != 0 && parent != 0
    ensures Dirent.Scan(RootBytes(seed, self, parent, levels, dx), 0)
            == Dirent.Listing([Dirent.Entry(self, 2, ['.' as byte], 0, 12),
                               Dirent.Entry(parent, 2, ['.' as byte, '.' as byte], 12, 4084)], true)
  {
    hide WithTable, TableAt, Csum.DxBlock, TableSeal, Csum.AsU32, Implicit, Le32, Le16, RootHead, Dirent.Scan;
    var b := RootBytes(seed, self, parent, levels, dx);
    WithTableReads(seed, RootHead(self, parent, levels), ROOT_LIMIT, dx);
    RootHeadReads(b, self, parent, levels);
    RootRecords(b, self, parent, levels);
    ScanOfTwo(b, self, parent);
  }

  /** Iterating an interior node yields nothing and ends at the end of the block. */
  lemma NodeScans(seed: bv32, dx: seq<DxEntry>)
    requires 1 <= |dx| <= NODE_LIMIT
    ensures Dirent.Scan(NodeBytes(seed, dx), 0) == Dirent.Listing([], true)
  {
    hide WithTable, TableAt, Csum.DxBlock, TableSeal, Csum.AsU32, Implicit, Le32, Le16;
    var b := NodeBytes(seed, dx);
    WithTableReads(seed, NodeHead(), NODE_LIMIT, dx);
    NodeHeadReads(b);
    assert Dirent.Scan(b, 4096) == Dirent.Listing([], true);
  }

  // ----- rendering index blocks -----

  lemma SlotsGrow(limit: u16, count: u16, dx: seq<DxEntry>, i: nat)
    requires 1 <= i < |dx|
    ensures Slots(limit, count, dx[..i + 1]) == Slots(limit, count, dx[..i]) + SlotBytes(dx[i])
  {
    assert dx[..i + 1][..i] == dx[..i];
  }

  method PutSlot(buf: array<byte>, off: nat, e: DxEntry, ghost p: seq<byte>, ghost n: nat)
    requires buf[..] == p + Zeros(n) + [] && off == |p| && 8 <= n
    modifies buf
    ensures buf[..] == p + SlotBytes(e) + Zeros(n - 8) + []
  {
    hide Bytes32;
    Fill32(buf, off, e.hash, p, n, []);
    Fill32(buf, off + 4, e.block, p + Bytes32(e.hash), n - 4, []);
    AppendAssociates(p, Bytes32(e.hash), Bytes32(e.block));
  }

  /** `write_countlimit_entries`: the first slot holds limit, count and block, the others hash and block. */
  method WriteTable(buf: array<byte>, off: nat, limit: u16, dx: seq<DxEntry>, ghost head: seq<byte>)
    requires 1 <= |dx| <= limit && off == |head| && buf[..] == head + Zeros(8 * limit + 8) + []
    modifies buf
    ensures buf[..] == head + TableBytes(limit, dx, 0)
  {
    hide Bytes16, Bytes32, Slots, SlotBytes;
    ghost var total := 8 * limit + 8;
    Fill16(buf, off, limit, head, total, []);
    Fill16(buf, off + 2, |dx|, head + Bytes16(limit), total - 2, []);
    Fill32(buf, off + 4, dx[0].block, head + Bytes16(limit) + Bytes16(|dx|), total - 4, []);
    FirstSlot(head, limit, dx);
    for i := 1 to |dx|
      invariant buf[..] == head + Slots(limit, |dx|, dx[..i]) + Zeros(total - 8 * i) + []
    {
      PutSlot(buf, off + 8 * i, dx[i], head + Slots(limit, |dx|, dx[..i]), total - 8 * i);
      SlotsGrow(limit, |dx|, dx, i);
      AppendAssociates(head, Slots(limit, |dx|, dx[..i]), SlotBytes(dx[i]));
    }
    assert dx[..|dx|] == dx;
    RestOfTable(head, limit, dx);
  }

  lemma FirstSlot(head: seq<byte>, limit: u16, dx: seq<DxEntry>)
    requires 1 <= |dx| <= limit
    ensures head + Bytes16(limit) + Bytes16(|dx|) + Bytes32(dx[0].block) == head + Slots(limit, |dx|, dx[..1])
  {
  }

  lemma RestOfTable(head: seq<byte>, limit: u16, dx: seq<DxEntry>)
    requires 1 <= |dx| <= limit
    ensures head + Slots(limit, |dx|, dx) + Zeros(8 * limit + 8 - 8 * |dx|) + [] == head + TableBytes(limit, dx, 0)
  {
  }

  /** Computes the table's checksum over the whole block and stores it in the tail. */
  method SealTable(buf: array<byte>, off: nat, limit: u16, dx: seq<DxEntry>, seed: bv32, ghost head: seq<byte>)
    requires 1 <= |dx| <= limit && off == |head| && buf[..] == head + TableBytes(limit, dx, 0)
    modifies buf
    ensures buf[..] == WithTable(seed, head, limit, dx)
  {
    hide Bytes32, Slots, Csum.DxBlock, Csum.AsU32;
    assert buf.Length == off + 8 * limit + 8;
    var c := Csum.AsU32(Csum.DxBlock(seed, buf[..], off, |dx|, limit));
    var tail := off + 8 * limit;
    PutU32(buf, tail + 4, c);
    TailSpliced(head, limit, dx, c);
  }

  lemma TailSpliced(head: seq<byte>, limit: u16, dx: seq<DxEntry>, c: u32)
    requires 1 <= |dx| <= limit
    ensures Splice(head + TableBytes(limit, dx, 0), |head| + 8 * limit + 4, Bytes32(c))
            == head + TableBytes(limit, dx, c)
  {
  }

  method RenderNode(seed: bv32, dx: seq<DxEntry>) returns (block: seq<byte>)
    requires 1 <= |dx| <= NODE_LIMIT
    ensures block == NodeBytes(seed, dx)
  {
    hide TableBytes, WithTable, Bytes16;
    var buf := new byte[BLOCK_SIZE](_ => 0);
    assert buf[..] == Zeros(4) + Zeros(BLOCK_SIZE - 4) + [];
    Fill16(buf, 4, BLOCK_SIZE, Zeros(4), BLOCK_SIZE - 4, []);
    SplitZeros(Zeros(4) + Bytes16(BLOCK_SIZE), BLOCK_SIZE - 6, 2, []);
    WriteTable(buf, NODE_COUNT_OFFSET, NODE_LIMIT, dx, NodeHead());
    SealTable(buf, NODE_COUNT_OFFSET, NODE_LIMIT, dx, seed, NodeHead());
    block := buf[..];
  }

  method PutDot(buf: array<byte>, self: u32)
    requires buf[..] == Zeros(BLOCK_SIZE)
    modifies buf
    ensures buf[..] == DotRecord(self) + Zeros(BLOCK_SIZE - 12)
  {
    hide Bytes16, Bytes32;
    PutU32(buf, 0, self);
    PutU16(buf, 4, 12);
    buf[6] := 1;
    buf[7] := 2;
    buf[8] := '.' as byte;
    assert buf[..] == DotRecord(self) + Zeros(BLOCK_SIZE - 12);
  }

  method PutDotDot(buf: array<byte>, parent: u32, ghost p: seq<byte>)
    requires |p| == 12 && buf[..] == p + Zeros(BLOCK_SIZE - 12)
    modifies buf
    ensures buf[..] == p + DotDotRecord(parent) + Zeros(BLOCK_SIZE - 24)
  {
    hide Bytes16, Bytes32;
    assert buf[..] == p + Zeros(BLOCK_SIZE - 12) + [];
    Fill32(buf, 0x0C, parent, p, BLOCK_SIZE - 12, []);
    Fill16(buf, 0x10, BLOCK_SIZE - 12, p + Bytes32(parent), BLOCK_SIZE - 16, []);
    ghost var q := p + Bytes32(parent) + Bytes16(BLOCK_SIZE - 12);
    assert buf[..] == q + Zeros(BLOCK_SIZE - 18);
    buf[0x12] := 2;
    buf[0x13] := 2;
    buf[0x14] := '.' as byte;
    buf[0x15] := '.' as byte;
    assert buf[..] == q + [2, 2, '.' as byte, '.' as byte, 0, 0] + Zeros(BLOCK_SIZE - 24);
    AppendAssociates(p, Bytes32(parent) + Bytes16(BLOCK_SIZE - 12), [2, 2, '.' as byte, '.' as byte, 0, 0]);
    AppendAssociates(p, Bytes32(parent), Bytes16(BLOCK_SIZE - 12));
  }

  /** The dot records and `dx_root_info`, byte by byte as the builder writes them. */
  method PutRootHead(buf: array<byte>, self: u32, parent: u32, levels: byte)
    requires buf[..] == Zeros(BLOCK_SIZE)
    modifies buf
    ensures buf[..] == RootHead(self, parent, levels) + Zeros(BLOCK_SIZE - ROOT_COUNT_OFFSET) + []
  {
    hide DotRecord, DotDotRecord;
    PutDot(buf, self);
    PutDotDot(buf, parent, DotRecord(self));
    buf[0x1C] := 1;
    buf[0x1D] := 8;
    buf[0x1E] := levels;
    assert buf[..] == RootHead(self, parent, levels) + Zeros(BLOCK_SIZE - ROOT_COUNT_OFFSET) + [];
  }

  method RenderRoot(seed: bv32, self: u32, parent: u32, levels: byte, dx: seq<DxEntry>) returns (block: seq<byte>)
    requires 1 <= |dx| <= ROOT_LIMIT
    ensures block == RootBytes(seed, self, parent, levels, dx)
  {
    hide TableBytes, WithTable, RootHead;
    var buf := new byte[BLOCK_SIZE](_ => 0);
    assert buf[..] == Zeros(BLOCK_SIZE);
    PutRootHead(buf, self, parent, levels);
    ghost var head := RootHead(self, parent, levels);
    WriteTable(buf, ROOT_COUNT_OFFSET, ROOT_LIMIT, dx, head);
    SealTable(buf, ROOT_COUNT_OFFSET, ROOT_LIMIT, dx, seed, head);
    block := buf[..];
  }
}
