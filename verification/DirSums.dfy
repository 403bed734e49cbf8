/**
  What a directory check without issues says of the stored checksums (`verify_dirent_block` and `verify_dir` in
  `src/reader/verify.rs`): every block that it looked at carries the CRC of its own bytes under the inode's seed,
  so that damage to one of them cannot pass.
*/
module DirSums {
  import opened Bytes
  import opened Crc32c
  import opened ExtentWalk
  import opened FileRead
  import opened Htree
  import opened DirVerify
  import opened IndexChain
  import Csum
  import Dirent

  /** The CRC of the inode's number and generation and then of `covered`. */
  function SumUnder(d: Dir, covered: seq<byte>): u32 {
    Csum.AsU32(Crc(d.fs.fsSeed, Bytes32(d.owner.ino) + Bytes32(d.owner.generation) + covered))
  }

  lemma SeedThenBytes(d: Dir, covered: seq<byte>)
    ensures SumUnder(d, covered) == Csum.AsU32(Crc(d.Seed(), covered))
  {
    var ino, generation := Bytes32(d.owner.ino), Bytes32(d.owner.generation);
    CrcConcat(d.fs.fsSeed, ino, generation);
    CrcConcat(d.fs.fsSeed, ino + generation, covered);
  }

  // ----- one block -----

  /** Twelve bytes at the end form the tail, and its last four hold the sum of everything in front of it. */
  predicate Sealed(d: Dir, b: seq<byte>) {
    && |b| == 4096
    && b[4084..4092] == [0, 0, 0, 0, 12, 0, 0, 0xDE]
    && Le32(b, 4092) == SumUnder(d, b[..4084])
  }

  lemma TailBytes(b: seq<byte>)
    requires |b| == 4096
    ensures Dirent.TailChecksum(b) ==
            if b[4084..4092] == [0, 0, 0, 0, 12, 0, 0, 0xDE] then Some(Le32(b, 4092)) else None
  {
    var w := b[4084..4092];
    assert w == [b[4084], b[4085], b[4086], b[4087], b[4088], b[4089], b[4090], b[4091]];
  }

  /** A block raises no issue exactly when records tile it and, with checksums on, it is sealed. */
  lemma BlockCleanIff(d: Dir, b: seq<byte>, logical: nat)
    requires |b| == 4096
    ensures BlockIssues(d, b, logical) == []
            <==> Dirent.Scan(b, 0).ok && (d.fs.metadataCsum ==> Sealed(d, b))
  {
    hide Dirent.Scan, Crc, Le32, Dirent.TailChecksum;
    TailBytes(b);
    SeedThenBytes(d, b[..4084]);
    hide SumUnder;
  }

  /** The one issue of a block that has one. */
  lemma BlockIssueIs(d: Dir, b: seq<byte>, logical: nat)
    requires |b| == 4096 && BlockIssues(d, b, logical) != []
    ensures BlockIssues(d, b, logical) ==
            if !Dirent.Scan(b, 0).ok then [BadBlock(logical)]
            else if b[4084..4092] != [0, 0, 0, 0, 12, 0, 0, 0xDE] then [NoTail(logical)]
            else [BlockChecksum(logical)]
  {
    hide Dirent.Scan, Crc, Le32, Dirent.TailChecksum;
    TailBytes(b);
  }

  /** The block is mapped and readable. */
  predicate Present(d: Dir, logical: nat) {
    d.Block(logical).Ok? && d.Block(logical).value.Some?
  }

  /** Mapped, readable, tiled by records and, with checksums on, sealed. */
  predicate Sound(d: Dir, logical: nat) {
    && Present(d, logical)
    && Dirent.Scan(d.Block(logical).value.value, 0).ok
    && (d.fs.metadataCsum ==> Sealed(d, d.Block(logical).value.value))
  }

  // ----- linear directories -----

  ghost predicate AllSound(d: Dir, blocks: nat) {
    forall logical :: 0 <= logical < blocks ==> Sound(d, logical)
  }

  lemma AllSoundNext(d: Dir, n: nat)
    ensures AllSound(d, n + 1) <==> AllSound(d, n) && Sound(d, n)
    ensures AllSound(d, 0)
  {
    hide Sound;
  }

  lemma {:induction false} LinearCleanIff(d: Dir, blocks: nat)
    ensures LinearIssues(d, blocks) == Ok([]) <==> AllSound(d, blocks)
    decreases blocks
  {
    hide AllSound, Sound;
    if 0 < blocks {
      hide LinearIssues;
      LinearCleanIff(d, blocks - 1);
      LastBlockClean(d, blocks - 1);
      AllSoundNext(d, blocks - 1);
    } else {
      AllSoundNext(d, 0);
    }
  }

  lemma LastBlockClean(d: Dir, before: nat)
    ensures LinearIssues(d, before + 1) == Ok([]) <==> LinearIssues(d, before) == Ok([]) && Sound(d, before)
  {
    hide BlockIssues, Sealed, Dirent.Scan;
    if Present(d, before) {
      var b := d.Block(before).value.value;
      BlockCleanIff(d, b, before);
      if LinearIssues(d, before).Ok? {
        BothEmpty(LinearIssues(d, before).value, BlockIssues(d, b, before));
      }
    }
  }

  lemma BothEmpty<T>(a: seq<T>, b: seq<T>)
    ensures a + b == [] <==> a == [] && b == []
  {
    assert |a + b| == |a| + |b|;
  }

  // ----- the leaves of an index -----

  /** Sound, and all names but the dots hash into the leaf's range. */
  ghost predicate SoundLeaf(d: Dir, leaf: Leaf) {
    && Sound(d, leaf.block)
    && forall e :: e in LeafEntries(d, leaf) ==>
         e.name == ['.' as byte] || e.name == ['.' as byte, '.' as byte] || leaf.lo <= d.Hash(e.name) < leaf.hi
  }

  lemma NamePlaced(d: Dir, leaf: Leaf, name: seq<byte>)
    ensures Dots(name) || InRange(d.Hash(name), leaf)
            <==> name == ['.' as byte] || name == ['.' as byte, '.' as byte] || leaf.lo <= d.Hash(name) < leaf.hi
  {
  }

  lemma LeafCleanIff(d: Dir, leaf: Leaf)
    requires Present(d, leaf.block)
    ensures LeafIssues(d, leaf, d.Block(leaf.block).value.value) == [] <==> SoundLeaf(d, leaf)
  {
    hide BlockIssues, NameIssues, Sealed, Dots, InRange, Dirent.Scan;
    BlockCleanIff(d, d.Block(leaf.block).value.value, leaf.block);
    NamesInRange(d, leaf, LeafEntries(d, leaf));
    forall e: Dirent.Entry
      ensures Dots(e.name) || InRange(d.Hash(e.name), leaf)
              <==> e.name == ['.' as byte] || e.name == ['.' as byte, '.' as byte]
                   || leaf.lo <= d.Hash(e.name) < leaf.hi
    {
      NamePlaced(d, leaf, e.name);
    }
  }

  /** The leaves raise no issue exactly when each is sound and none repeats a block. */
  lemma {:induction false} LeavesCleanIff(d: Dir, leaves: seq<Leaf>)
    ensures LeavesIssues(d, leaves) == Ok([])
            <==> (forall i :: 0 <= i < |leaves| ==> SoundLeaf(d, leaves[i]))
                 && forall i, j :: 0 <= i < j < |leaves| ==> leaves[i].block != leaves[j].block
    decreases |leaves|
  {
    hide LeafIssues, SoundLeaf;
    if leaves != [] {
      var k := |leaves| - 1;
      LeavesCleanIff(d, leaves[..k]);
      LastLeafClean(d, leaves);
      SeenIsRepeated(leaves, k);
      hide LeavesIssues, Seen;
    }
  }

  lemma LastLeafClean(d: Dir, leaves: seq<Leaf>)
    requires leaves != []
    ensures var k := |leaves| - 1;
            LeavesIssues(d, leaves) == Ok([])
            <==> LeavesIssues(d, leaves[..k]) == Ok([]) && SoundLeaf(d, leaves[k])
                 && !Seen(leaves[k].block, leaves[..k])
  {
    hide LeavesIssues, LeafIssues, LeafEntries, Seen, Sealed, Dots, InRange, Dirent.Scan, FileBlock;
    var k := |leaves| - 1;
    LastLeafIssues(d, leaves);
    if Present(d, leaves[k].block) {
      LeafCleanIff(d, leaves[k]);
    }
  }

  lemma SeenIsRepeated(leaves: seq<Leaf>, k: nat)
    requires k < |leaves|
    ensures Seen(leaves[k].block, leaves[..k]) <==> exists i :: 0 <= i < k && leaves[i].block == leaves[k].block
  {
  }

  lemma LastLeafIssues(d: Dir, leaves: seq<Leaf>)
    requires leaves != []
    ensures var k := |leaves| - 1;
            LeavesIssues(d, leaves) == Ok([])
            <==> LeavesIssues(d, leaves[..k]) == Ok([]) && !Seen(leaves[k].block, leaves[..k])
                 && Present(d, leaves[k].block)
                 && LeafIssues(d, leaves[k], d.Block(leaves[k].block).value.value) == []
  {
    hide LeafIssues, Seen, FileBlock;
    var k := |leaves| - 1;
    var block := leaves[k].block;
    if Present(d, block) && LeavesIssues(d, leaves[..k]).Ok? {
      BothEmpty(LeavesIssues(d, leaves[..k]).value, LeafIssues(d, leaves[k], d.Block(block).value.value));
    }
  }

  // ----- the tables of an index -----

  /**
    A table's tail, behind its `limit` slots, stores in its last four bytes the sum of everything up to the end of
    the used slots, the first four bytes of the tail, and four zeros.
  */
  predicate TableSealed(d: Dir, b: seq<byte>, at: nat) {
    && at + 4 <= |b|
    && var limit, count := Le16(b, at) as nat, Le16(b, at + 2) as nat;
       && count <= limit && at + 8 * limit + 8 <= |b|
       && Le32(b, at + 8 * limit + 4)
          == SumUnder(d, b[..at + 8 * count] + b[at + 8 * limit..at + 8 * limit + 4] + [0, 0, 0, 0])
  }

  lemma TableCleanIff(d: Dir, b: seq<byte>, at: nat)
    requires at + 4 <= |b| && TableAt(b, at).Ok? && d.fs.metadataCsum
    ensures TableClean(d, b, at, TableAt(b, at).value) <==> TableSealed(d, b, at)
  {
    hide Crc, Le16, Le32;
    var limit, count := Le16(b, at) as nat, Le16(b, at + 2) as nat;
    var head, reserved := b[..at + 8 * count], b[at + 8 * limit..at + 8 * limit + 4];
    assert Zeros(4) == [0, 0, 0, 0];
    CrcConcat(d.Seed(), head, reserved);
    CrcConcat(d.Seed(), head + reserved, Zeros(4));
    SeedThenBytes(d, head + reserved + Zeros(4));
  }

  /**
    An interior node that can be used: it is there, its table is sealed, and the hashes of its entries lie in the
    range that its parent's entry covers.
  */
  ghost predicate SoundNode(d: Dir, node: Leaf) {
    && Present(d, node.block)
    && var b := d.Block(node.block).value.value;
       && NodeAt(b).Ok?
       && (d.fs.metadataCsum ==> TableSealed(d, b, 8))
       && Within(NodeAt(b).value.entries, node.lo, node.hi)
  }

  predicate Within(entries: seq<DxEntry>, lo: u32, hi: nat) {
    forall i :: 0 < i < |entries| ==> lo <= entries[i].hash - entries[i].hash % 2 && entries[i].hash <= hi
  }

  lemma BoundsAre(hash: u32)
    ensures Even(hash) == hash - hash % 2 && UpperBound(hash) == hash
  {
  }

  lemma NestedIffWithin(entries: seq<DxEntry>, lo: u32, hi: nat)
    ensures Nested(Clamped(Ranges(entries), lo, hi), lo, hi) <==> Within(entries, lo, hi)
  {
    hide Even, UpperBound;
    forall i | 0 <= i < |entries|
      ensures Even(entries[i].hash) == entries[i].hash - entries[i].hash % 2
              && UpperBound(entries[i].hash) == entries[i].hash
    {
      BoundsAre(entries[i].hash);
    }
    var leaves := Clamped(Ranges(entries), lo, hi);
    if Nested(leaves, lo, hi) {
      forall i | 0 < i < |entries| ensures lo <= Even(entries[i].hash) && entries[i].hash <= hi {
        assert lo <= leaves[i].lo && leaves[i - 1].hi <= hi;
      }
    }
    if Within(entries, lo, hi) {
      forall i | 0 <= i < |entries| ensures lo <= leaves[i].lo && leaves[i].hi <= hi { }
    }
  }

  lemma NodeCleanIff(d: Dir, node: Leaf)
    requires Present(d, node.block)
    ensures NodeCollected(d, node, d.Block(node.block).value.value).issues == [] <==> SoundNode(d, node)
  {
    hide Clamped, Ranges, Nested, NodeAt, TableAt, TableSealed, Within;
    var b := d.Block(node.block).value.value;
    if NodeAt(b).Ok? {
      NestedIffWithin(NodeAt(b).value.entries, node.lo, node.hi);
      NodeTableCleanIff(d, b);
    }
  }

  lemma NodeTableCleanIff(d: Dir, b: seq<byte>)
    requires NodeAt(b).Ok?
    ensures TableClean(d, b, 8, NodeAt(b).value) <==> (d.fs.metadataCsum ==> TableSealed(d, b, 8))
  {
    hide TableAt, TableSealed;
    if d.fs.metadataCsum { TableCleanIff(d, b, NODE_COUNT_OFFSET); }
  }

  ghost predicate SoundNodes(d: Dir, nodes: seq<Leaf>) {
    forall i :: 0 <= i < |nodes| ==> SoundNode(d, nodes[i])
  }

  lemma LastNode(d: Dir, nodes: seq<Leaf>)
    requires nodes != []
    ensures SoundNodes(d, nodes) <==> SoundNodes(d, nodes[..|nodes| - 1]) && SoundNode(d, nodes[|nodes| - 1])
  {
    hide SoundNode;
    assert forall i :: 0 <= i < |nodes| - 1 ==> nodes[..|nodes| - 1][i] == nodes[i];
  }

  ghost predicate NodesClean(d: Dir, nodes: seq<Leaf>) {
    NodesCollected(d, nodes).Ok? && NodesCollected(d, nodes).value.issues == []
  }

  /** The interior nodes raise no issue exactly when each is sound. */
  lemma {:induction false} NodesCleanIff(d: Dir, nodes: seq<Leaf>)
    ensures NodesClean(d, nodes) <==> SoundNodes(d, nodes)
    decreases |nodes|
  {
    hide NodesCollected, NodesClean, SoundNode, SoundNodes;
    if nodes == [] {
      NoNodes(d);
    } else {
      NodesCleanIff(d, nodes[..|nodes| - 1]);
      LastNode(d, nodes);
      LastNodeClean(d, nodes);
    }
  }

  lemma NoNodes(d: Dir)
    ensures NodesClean(d, []) && SoundNodes(d, [])
  {
  }

  lemma LastNodeClean(d: Dir, nodes: seq<Leaf>)
    requires nodes != []
    ensures NodesClean(d, nodes) <==> NodesClean(d, nodes[..|nodes| - 1]) && SoundNode(d, nodes[|nodes| - 1])
  {
    hide NodeCollected, FileBlock, TableSealed, NodeAt, Within;
    var k := |nodes| - 1;
    if Present(d, nodes[k].block) {
      NodeCleanIff(d, nodes[k]);
      if NodesCollected(d, nodes[..k]).Ok? {
        BothEmpty(NodesCollected(d, nodes[..k]).value.issues,
          NodeCollected(d, nodes[k], d.Block(nodes[k].block).value.value).issues);
      }
    }
  }

  /** The interior nodes that a root of two levels points at. */
  function IndexNodes(d: Dir): seq<Leaf> {
    if RootBlock(d).Err? || RootAt(RootBlock(d).value).Err? then []
    else
      var root := RootAt(RootBlock(d).value).value;
      if root.info.indirectLevels == 0 then [] else Ranges(root.table.entries)
  }

  // ----- a clean directory -----

  /** The directory blocks whose records the check looks at. */
  ghost predicate Checked(d: Dir, logical: nat) {
    if d.indexed then exists i :: 0 <= i < |IndexLeaves(d)| && IndexLeaves(d)[i].block == logical
    else logical < d.size / 4096
  }

  /** A linear directory raises no issue if and only if every one of its blocks is sound. */
  lemma LinearIsCleanIff(d: Dir)
    requires !d.indexed
    ensures DirIssues(d) == Ok([]) <==> forall logical: nat :: Checked(d, logical) ==> Sound(d, logical)
  {
    hide Sound;
    LinearCleanIff(d, d.size / BLOCK_SIZE);
  }

  ghost predicate SoundLeaves(d: Dir, leaves: seq<Leaf>) {
    && (forall i :: 0 <= i < |leaves| ==> SoundLeaf(d, leaves[i]))
    && forall i, j :: 0 <= i < j < |leaves| ==> leaves[i].block != leaves[j].block
  }

  /** The root block can be read and parsed, its table is sealed, and it names the one supported hash. */
  ghost predicate SoundRoot(d: Dir) {
    && RootBlock(d).Ok?
    && var b := RootBlock(d).value;
       && RootAt(b).Ok?
       && (d.fs.metadataCsum ==> TableSealed(d, b, 0x20))
       && b[0x1C] == 1
  }

  /**
    An indexed directory raises no issue if and only if its root, its interior nodes and its leaves are sound and
    no two leaves are one block.
  */
  lemma IndexIsCleanIff(d: Dir)
    requires d.indexed
    ensures DirIssues(d) == Ok([])
            <==> SoundRoot(d) && SoundNodes(d, IndexNodes(d)) && SoundLeaves(d, IndexLeaves(d))
  {
    hide LeavesIssues, TableClean, RootAt, RootBlock, Ranges, NodesCollected, TableSealed, SoundNodes, SoundLeaves,
      IndexLeaves, LevelIssues, IndexNodes;
    if RootBlock(d).Ok? && RootAt(RootBlock(d).value).Ok? {
      var block := RootBlock(d).value;
      var root := RootAt(block).value;
      RootTableCleanIff(d, block);
      LevelsCleanIff(d);
      if LevelIssues(d, root).Ok? {
        BothEmpty(if TableClean(d, block, ROOT_COUNT_OFFSET, root.table) then [] else [RootChecksum],
          LevelIssues(d, root).value);
      }
    }
  }

  lemma RootTableCleanIff(d: Dir, b: seq<byte>)
    requires RootAt(b).Ok?
    ensures TableClean(d, b, 0x20, RootAt(b).value.table) <==> (d.fs.metadataCsum ==> TableSealed(d, b, 0x20))
    ensures 0x20 <= |b| && RootAt(b).value.info.hashVersion == b[0x1C]
  {
    hide TableAt, TableSealed;
    if d.fs.metadataCsum { TableCleanIff(d, b, ROOT_COUNT_OFFSET); }
  }

  lemma LevelsCleanIff(d: Dir)
    requires RootBlock(d).Ok? && RootAt(RootBlock(d).value).Ok?
    ensures LevelIssues(d, RootAt(RootBlock(d).value).value) == Ok([])
            <==> SoundNodes(d, IndexNodes(d)) && SoundLeaves(d, IndexLeaves(d))
  {
    hide LeavesIssues, RootAt, RootBlock, Ranges, NodesCollected, SoundNode, SoundLeaf;
    var root := RootAt(RootBlock(d).value).value;
    NodesCleanIff(d, IndexNodes(d));
    LeavesCleanIff(d, IndexLeaves(d));
    if Flattened(d, root).Ok? && LeavesIssues(d, IndexLeaves(d)).Ok? {
      BothEmpty(Flattened(d, root).value.issues, LeavesIssues(d, IndexLeaves(d)).value);
    }
  }

  /**
    No issue, with checksums on: every checked block ends in a tail with the sum of the bytes in front of it, and
    the table of the index root and of every interior node is sealed.
  */
  lemma CleanIsSealed(d: Dir)
    requires DirIssues(d) == Ok([]) && d.fs.metadataCsum
    ensures forall logical: nat :: Checked(d, logical) ==>
              Present(d, logical) && Sealed(d, d.Block(logical).value.value)
    ensures d.indexed ==> RootBlock(d).Ok? && TableSealed(d, RootBlock(d).value, 0x20)
    ensures d.indexed ==> forall i :: 0 <= i < |IndexNodes(d)| ==>
              Present(d, IndexNodes(d)[i].block)
              && TableSealed(d, d.Block(IndexNodes(d)[i].block).value.value, 8)
  {
    if d.indexed {
      IndexIsCleanIff(d);
      hide IndexLeaves, IndexNodes, RootBlock, TableSealed, Sealed, DirIssues, LeafEntries, NodeAt, Within, RootAt;
    } else {
      LinearIsCleanIff(d);
      hide Sealed;
    }
  }

  // ----- damage -----

  /** Blocks with one tail between them that differ inside four bytes in front of it are not both sealed. */
  lemma NotBothSealed(d: Dir, e: Dir, x: seq<byte>, y: seq<byte>)
    requires d.fs.fsSeed == e.fs.fsSeed && d.owner == e.owner && |x| == |y| == 4096
    requires DifferInWindow(x[..4084], y[..4084]) && x[4084..] == y[4084..]
    ensures !(Sealed(d, x) && Sealed(e, y))
  {
    hide Crc, DifferInWindow, Le32;
    SameTail(x, y);
    SeedThenBytes(d, x[..4084]);
    SeedThenBytes(e, y[..4084]);
    BurstDetected(d.Seed(), x[..4084], y[..4084]);
    Csum.DistinctSums(Crc(d.Seed(), x[..4084]), Crc(d.Seed(), y[..4084]));
  }

  lemma SameTail(x: seq<byte>, y: seq<byte>)
    requires |x| == |y| == 4096 && x[4084..] == y[4084..]
    ensures Le32(x, 4092) == Le32(y, 4092)
  {
    assert forall k :: 8 <= k < 12 ==> x[4084..][k] == x[4084 + k] && y[4084..][k] == y[4084 + k];
  }

  /**
    If a block that both checks look at differs between two directories inside four consecutive bytes in front of
    its tail, at most one of them raises no issue, whatever else differs between them.
  */
  lemma NotBothClean(d: Dir, e: Dir, logical: nat)
    requires d.fs.metadataCsum && e.fs.metadataCsum && d.fs.fsSeed == e.fs.fsSeed && d.owner == e.owner
    requires Checked(d, logical) && Checked(e, logical) && Present(d, logical) && Present(e, logical)
    requires var x, y := d.Block(logical).value.value, e.Block(logical).value.value;
             DifferInWindow(x[..4084], y[..4084]) && x[4084..] == y[4084..]
    ensures !(DirIssues(d) == Ok([]) && DirIssues(e) == Ok([]))
  {
    var x, y := d.Block(logical).value.value, e.Block(logical).value.value;
    hide DirIssues, Checked, DifferInWindow, Sealed;
    NotBothSealed(d, e, x, y);
    if DirIssues(d) == Ok([]) {
      CleanIsSealed(d);
      assert Sealed(d, x);
    }
    if DirIssues(e) == Ok([]) {
      CleanIsSealed(e);
      assert Sealed(e, y);
    }
  }

  // ----- damage on a disk -----

  lemma {:induction false} SameNodes(d: Dir, e: Dir, nodes: seq<Leaf>)
    requires e == d.(fs := e.fs) && e.fs == d.fs.(disk := e.fs.disk)
    requires forall i :: 0 <= i < |nodes| ==> d.Block(nodes[i].block) == e.Block(nodes[i].block)
    ensures NodesCollected(d, nodes) == NodesCollected(e, nodes)
    decreases |nodes|
  {
    hide NodeCollected;
    if nodes != [] {
      var k := |nodes| - 1;
      forall i | 0 <= i < k ensures d.Block(nodes[..k][i].block) == e.Block(nodes[..k][i].block) {
        assert nodes[..k][i] == nodes[i];
      }
      SameNodes(d, e, nodes[..k]);
      if Present(d, nodes[k].block) {
        SameNode(d, e, nodes[k], d.Block(nodes[k].block).value.value);
      }
    }
  }

  lemma SameNode(d: Dir, e: Dir, parent: Leaf, data: seq<byte>)
    requires e == d.(fs := e.fs) && e.fs == d.fs.(disk := e.fs.disk)
    ensures NodeCollected(d, parent, data) == NodeCollected(e, parent, data)
  {
    hide Clamped, Ranges, Nested, NodeAt, Csum.DxBlock;
  }

  lemma SameLeaves(d: Dir, e: Dir)
    requires e == d.(fs := e.fs) && e.fs == d.fs.(disk := e.fs.disk) && RootBlock(d) == RootBlock(e)
    requires forall i :: 0 <= i < |IndexNodes(d)| ==> d.Block(IndexNodes(d)[i].block) == e.Block(IndexNodes(d)[i].block)
    ensures IndexLeaves(d) == IndexLeaves(e)
  {
    hide Ranges, NodesCollected, RootAt, RootBlock;
    if RootBlock(d).Ok? && RootAt(RootBlock(d).value).Ok? && RootAt(RootBlock(d).value).value.info.indirectLevels != 0 {
      SameNodes(d, e, IndexNodes(d));
    }
  }

  /**
    A directory without issues is damaged on the disk: one checked block changes inside four consecutive bytes in
    front of its tail, the root and the interior nodes of an index do not. Then the check raises an issue.
  */
  lemma DamageIsReported(d: Dir, disk: seq<byte>, logical: nat)
    requires d.fs.metadataCsum && DirIssues(d) == Ok([]) && Checked(d, logical)
    requires var e := d.(fs := d.fs.(disk := disk));
             && Present(d, logical) && Present(e, logical)
             && (var x, y := d.Block(logical).value.value, e.Block(logical).value.value;
                 DifferInWindow(x[..4084], y[..4084]) && x[4084..] == y[4084..])
             && (d.indexed ==>
                   && RootBlock(d) == RootBlock(e)
                   && forall i :: 0 <= i < |IndexNodes(d)| ==>
                        d.Block(IndexNodes(d)[i].block) == e.Block(IndexNodes(d)[i].block))
    ensures DirIssues(d.(fs := d.fs.(disk := disk))) != Ok([])
  {
    var e := d.(fs := d.fs.(disk := disk));
    hide DirIssues, IndexLeaves, IndexNodes, RootBlock, DifferInWindow;
    if d.indexed {
      SameLeaves(d, e);
    }
    assert Checked(e, logical);
    NotBothClean(d, e, logical);
  }
}
