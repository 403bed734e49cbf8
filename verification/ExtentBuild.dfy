/**
  Building a file's extent tree (`plan_extents` in `src/build/seal.rs`), and that walking it
  returns the file's extents in order.
*/
module ExtentBuild {
  import opened Bytes
  import opened Extent
  import opened ExtentWalk
  import opened ExtentTree
  import Allocator
  import Csum

  const ROOT_ROOM: nat := 4
  const PER_NODE: nat := 340

  // ----- one node -----

  /** Entries are all twelve bytes long. */
  predicate Cells(parts: seq<seq<byte>>) {
    forall i :: 0 <= i < |parts| ==> |parts[i]| == ENTRY_LEN
  }

  function Joined(parts: seq<seq<byte>>): (r: seq<byte>)
    requires Cells(parts)
    ensures |r| == ENTRY_LEN * |parts|
  {
    if parts == [] then [] else Joined(parts[..|parts| - 1]) + parts[|parts| - 1]
  }

  lemma {:induction false} JoinedAt(parts: seq<seq<byte>>, i: nat)
    requires Cells(parts) && i < |parts|
    ensures Joined(parts)[ENTRY_LEN * i..ENTRY_LEN * i + ENTRY_LEN] == parts[i]
    decreases parts
  {
    var k := |parts| - 1;
    var init := Joined(parts[..k]);
    if i < k {
      JoinedAt(parts[..k], i);
      assert (init + parts[k])[ENTRY_LEN * i..ENTRY_LEN * i + ENTRY_LEN]
        == init[ENTRY_LEN * i..ENTRY_LEN * i + ENTRY_LEN];
    } else {
      assert (init + parts[k])[|init|..|init| + ENTRY_LEN] == parts[k];
    }
  }

  /** Header and entries, in a node of `len` bytes that ends with `tail`. */
  function NodeBytes(parts: seq<seq<byte>>, max: u16, depth: u16, len: nat, tail: seq<byte>): (r: seq<byte>)
    requires Cells(parts) && |parts| <= max && HEADER_LEN + ENTRY_LEN * |parts| + |tail| <= len
    ensures |r| == len
  {
    HeaderFixed(Header(|parts|, max, depth, 0));
    HeaderBytes(Header(|parts|, max, depth, 0)) + Joined(parts)
      + Zeros(len - HEADER_LEN - ENTRY_LEN * |parts| - |tail|) + tail
  }

  lemma HeaderFixed(h: Header)
    ensures |HeaderBytes(h)| == HEADER_LEN
  {
  }

  lemma NodeParts(parts: seq<seq<byte>>, max: u16, depth: u16, len: nat, tail: seq<byte>, i: nat)
    requires Cells(parts) && |parts| <= max && HEADER_LEN + ENTRY_LEN * |parts| + |tail| <= len && i <= |parts|
    ensures var b := NodeBytes(parts, max, depth, len, tail);
            && b[..HEADER_LEN] == HeaderBytes(Header(|parts|, max, depth, 0))
            && |parts| <= RoomFor(len)
            && (i < |parts| ==> Entry(b, i) == parts[i])
  {
    hide HeaderBytes, Joined;
    var h := Header(|parts|, max, depth, 0);
    HeaderFixed(h);
    var b := NodeBytes(parts, max, depth, len, tail);
    var n := ENTRY_LEN * |parts|;
    InFront(HeaderBytes(h), Joined(parts), Zeros(len - HEADER_LEN - n - |tail|) + tail);
    AppendAssociates(HeaderBytes(h) + Joined(parts), Zeros(len - HEADER_LEN - n - |tail|), tail);
    if i < |parts| {
      JoinedAt(parts, i);
      SubSlice(b, HEADER_LEN, HEADER_LEN + n, ENTRY_LEN * i, ENTRY_LEN * i + ENTRY_LEN);
    }
  }

  lemma InFront<T>(a: seq<T>, b: seq<T>, c: seq<T>)
    ensures var s := a + b + c; s[..|a|] == a && s[|a|..|a| + |b|] == b
  {
  }

  /** A block node carries its checksum in the last four bytes. */
  function BlockNode(parts: seq<seq<byte>>, depth: u16, seed: bv32): (r: seq<byte>)
    requires Cells(parts) && |parts| <= PER_NODE
    ensures |r| == BLOCK_SIZE
  {
    NodeBytes(parts, PER_NODE, depth, BLOCK_SIZE,
      Bytes32(Csum.AsU32(Csum.ExtentBlock(seed, NodeBytes(parts, PER_NODE, depth, BLOCK_SIZE, Zeros(4))))))
  }

  function RootNode(parts: seq<seq<byte>>, depth: u16): (r: seq<byte>)
    requires Cells(parts) && |parts| <= ROOT_ROOM
    ensures |r| == 60
  {
    NodeBytes(parts, ROOT_ROOM, depth, 60, [])
  }

  lemma TailOutside(parts: seq<seq<byte>>, depth: u16, tail: seq<byte>)
    requires Cells(parts) && |parts| <= PER_NODE && |tail| == 4
    ensures NodeBytes(parts, PER_NODE, depth, BLOCK_SIZE, tail)[..BLOCK_SIZE - 4]
            == NodeBytes(parts, PER_NODE, depth, BLOCK_SIZE, Zeros(4))[..BLOCK_SIZE - 4]
    ensures NodeBytes(parts, PER_NODE, depth, BLOCK_SIZE, tail)[BLOCK_SIZE - 4..] == tail
  {
  }

  lemma BlockNodeStamped(fs: Fs, owner: Owner, parts: seq<seq<byte>>, depth: u16)
    requires Cells(parts) && |parts| <= PER_NODE
    ensures Stamped(fs, owner, BlockNode(parts, depth, Csum.InodeSeed(fs.fsSeed, owner.ino, owner.generation)))
  {
    hide NodeBytes, Bytes32, Le32;
    var seed := Csum.InodeSeed(fs.fsSeed, owner.ino, owner.generation);
    var c := Csum.AsU32(Csum.ExtentBlock(seed, NodeBytes(parts, PER_NODE, depth, BLOCK_SIZE, Zeros(4))));
    TailOutside(parts, depth, Bytes32(c));
    var b := BlockNode(parts, depth, seed);
    assert b[BLOCK_SIZE - 4..BLOCK_SIZE] == b[BLOCK_SIZE - 4..];
    Le32Decodes(b, BLOCK_SIZE - 4, c);
  }

  function RunParts(runs: seq<Extent>): (r: seq<seq<byte>>)
    ensures |r| == |runs| && Cells(r)
  {
    seq(|runs|, i requires 0 <= i < |runs| => ExtentBytes(runs[i]))
  }

  function ChildParts(children: seq<Child>): (r: seq<seq<byte>>)
    ensures |r| == |children| && Cells(r)
  {
    seq(|children|, i requires 0 <= i < |children| => IdxBytes(children[i].idx))
  }

  function PartsOf(t: Tree): (r: seq<seq<byte>>)
    ensures |r| == EntryCount(t) && Cells(r)
  {
    match t
    case Leaf(runs) => RunParts(runs)
    case Node(children) => ChildParts(children)
  }

  lemma NodeEncodes(t: Tree, max: u16, depth: u16, len: nat, tail: seq<byte>)
    requires EntryCount(t) <= max <= RoomFor(len) && HEADER_LEN + ENTRY_LEN * EntryCount(t) + |tail| <= len
    ensures EncodesRoot(NodeBytes(PartsOf(t), max, depth, len, tail), t, max, depth)
  {
    hide NodeBytes, HeaderBytes, ExtentBytes, IdxBytes;
    var parts := PartsOf(t);
    var b := NodeBytes(parts, max, depth, len, tail);
    NodeParts(parts, max, depth, len, tail, |parts|);
    assert b[..HEADER_LEN] == HeaderBytes(Header(EntryCount(t), max, depth, 0));
    forall i | 0 <= i < |parts| ensures Entry(b, i) == parts[i] { NodeParts(parts, max, depth, len, tail, i); }
  }

  // ----- the tree -----

  /** Runs as they are laid down: initialized, no longer than an extent, inside 48 bits. */
  predicate Plannable(runs: seq<Extent>) {
    forall i :: 0 <= i < |runs| ==> 0 < runs[i].rawLen <= 32768 && runs[i].start < U48
  }

  function Chunks(n: nat): (r: nat)
    ensures r == 0 <==> n == 0
  {
    (n + (PER_NODE - 1)) / PER_NODE
  }

  function ChunkEnd(n: nat, i: nat): nat {
    if PER_NODE * (i + 1) <= n then PER_NODE * (i + 1) else n
  }

  lemma ChunkBounds(n: nat, i: nat)
    requires i < Chunks(n)
    ensures PER_NODE * i < ChunkEnd(n, i) <= n && ChunkEnd(n, i) - PER_NODE * i <= PER_NODE
    ensures i + 1 < Chunks(n) ==> ChunkEnd(n, i) == PER_NODE * (i + 1)
    ensures i + 1 == Chunks(n) ==> ChunkEnd(n, i) == n
  {
  }

  function Chunk<T>(s: seq<T>, i: nat): (r: seq<T>)
    requires i < Chunks(|s|)
    ensures 1 <= |r| <= PER_NODE
  {
    ChunkBounds(|s|, i);
    s[PER_NODE * i..ChunkEnd(|s|, i)]
  }

  lemma ChunkElements<T>(s: seq<T>, i: nat)
    requires i < Chunks(|s|)
    ensures forall j :: 0 <= j < |Chunk(s, i)| ==> Chunk(s, i)[j] in s
  {
  }

  /** Leaves filled to capacity, each pointed at with its first logical block. */
  function Level1(runs: seq<Extent>, blocks: seq<u64>): (r: seq<Child>)
    requires |blocks| == Chunks(|runs|)
    ensures |r| == |blocks|
  {
    seq(|blocks|, i requires 0 <= i < |blocks| =>
      Child(Idx(Chunk(runs, i)[0].logical, blocks[i]), Leaf(Chunk(runs, i))))
  }

  function Level2(level1: seq<Child>, blocks: seq<u64>): (r: seq<Child>)
    requires |blocks| == Chunks(|level1|)
    ensures |r| == |blocks|
  {
    seq(|blocks|, i requires 0 <= i < |blocks| =>
      Child(Idx(Chunk(level1, i)[0].idx.logical, blocks[i]), Node(Chunk(level1, i))))
  }

  function Depth(n: nat): u16 {
    if n <= ROOT_ROOM then 0 else if Chunks(n) <= ROOT_ROOM then 1 else 2
  }

  /** How many tree blocks each level takes. */
  function LeafCount(n: nat): nat { if n <= ROOT_ROOM then 0 else Chunks(n) }
  function IndexCount(n: nat): nat { if Depth(n) == 2 then Chunks(Chunks(n)) else 0 }

  /** Deeper trees are refused. */
  predicate Shallow(n: nat) {
    IndexCount(n) <= ROOT_ROOM
  }

  function CeilOf340(n: nat): nat {
    n / 340 + if n % 340 == 0 then 0 else 1
  }

  /** Four extents fit the root, 340 a leaf and 340 leaves an index node; more than 4 * 340 * 340 are refused. */
  lemma PlanShape(n: nat)
    ensures Depth(n) == (if n <= 4 then 0 else if n <= 4 * 340 then 1 else 2)
    ensures LeafCount(n) == (if n <= 4 then 0 else CeilOf340(n))
    ensures IndexCount(n) == (if n <= 4 * 340 then 0 else CeilOf340(CeilOf340(n)))
    ensures Shallow(n) <==> n <= 4 * 340 * 340
  {
  }

  function Planned(runs: seq<Extent>, leafBlocks: seq<u64>, indexBlocks: seq<u64>): Tree
    requires |leafBlocks| == LeafCount(|runs|) && |indexBlocks| == IndexCount(|runs|)
  {
    if |runs| <= ROOT_ROOM then Leaf(runs)
    else if Depth(|runs|) == 1 then Node(Level1(runs, leafBlocks))
    else Node(Level2(Level1(runs, leafBlocks), indexBlocks))
  }

  // ----- the runs of a planned tree -----

  lemma {:induction false} RunsOfAppend(a: seq<Child>, b: seq<Child>)
    ensures RunsOf(a + b) == RunsOf(a) + RunsOf(b)
    decreases a
  {
    if a == [] {
      assert a + b == b;
    } else {
      assert (a + b)[1..] == a[1..] + b;
      RunsOfAppend(a[1..], b);
      AppendAssociates(a[0].Runs(), RunsOf(a[1..]), RunsOf(b));
    }
  }

  lemma SplitRuns(runs: seq<Extent>, a: nat, b: nat)
    requires a <= b <= |runs|
    ensures RunsIn(Leaf(runs[a..])) == RunsIn(Leaf(runs[a..b])) + RunsIn(Leaf(runs[b..]))
  {
  }

  lemma NextChunk(n: nat, i: nat)
    requires i < Chunks(n)
    ensures PER_NODE * i <= ChunkEnd(n, i) <= n
    ensures (if i + 1 < Chunks(n) then PER_NODE * (i + 1) else n) == ChunkEnd(n, i)
  {
  }

  function From(n: nat, i: nat): nat {
    if i < Chunks(n) then PER_NODE * i else n
  }

  lemma {:induction false} Level1Runs(runs: seq<Extent>, blocks: seq<u64>, i: nat)
    requires |blocks| == Chunks(|runs|) && i <= |blocks|
    ensures From(|runs|, i) <= |runs| && RunsOf(Level1(runs, blocks)[i..]) == RunsIn(Leaf(runs[From(|runs|, i)..]))
    decreases |blocks| - i
  {
    hide Chunks, ChunkEnd;
    var level := Level1(runs, blocks);
    if i < |blocks| {
      Level1Runs(runs, blocks, i + 1);
      NextChunk(|runs|, i);
      SplitRuns(runs, PER_NODE * i, ChunkEnd(|runs|, i));
      assert level[i..][1..] == level[i + 1..] && level[i..][0] == level[i];
    } else {
      assert level[i..] == [];
    }
  }

  lemma {:induction false} Level2Runs(level1: seq<Child>, blocks: seq<u64>, i: nat)
    requires |blocks| == Chunks(|level1|) && i <= |blocks|
    ensures From(|level1|, i) <= |level1| && RunsOf(Level2(level1, blocks)[i..]) == RunsOf(level1[From(|level1|, i)..])
    decreases |blocks| - i
  {
    hide Chunks, ChunkEnd;
    var level := Level2(level1, blocks);
    if i < |blocks| {
      Level2Runs(level1, blocks, i + 1);
      NextChunk(|level1|, i);
      var a, b := PER_NODE * i, ChunkEnd(|level1|, i);
      assert level1[a..] == level1[a..b] + level1[b..];
      RunsOfAppend(level1[a..b], level1[b..]);
      assert level[i].tree == Node(level1[a..b]) && level[i].Runs() == RunsIn(level[i].tree) == RunsOf(level1[a..b]);
      assert level[i..][1..] == level[i + 1..] && level[i..][0] == level[i];
    } else {
      assert level[i..] == [];
    }
  }

  /** However many levels it takes, the planned tree holds exactly the runs, in order. */
  lemma PlannedRuns(runs: seq<Extent>, leafBlocks: seq<u64>, indexBlocks: seq<u64>)
    requires |leafBlocks| == LeafCount(|runs|) && |indexBlocks| == IndexCount(|runs|)
    ensures RunsIn(Planned(runs, leafBlocks, indexBlocks)) == RunsIn(Leaf(runs))
  {
    hide Chunks, Level1, Level2;
    if ROOT_ROOM < |runs| {
      Level1Runs(runs, leafBlocks, 0);
      FromStart(|runs|);
      assert runs[0..] == runs;
      var level1 := Level1(runs, leafBlocks);
      assert level1[0..] == level1;
      if Depth(|runs|) == 2 {
        Level2Runs(level1, indexBlocks, 0);
        FromStart(|level1|);
        var level2 := Level2(level1, indexBlocks);
        assert level2[0..] == level2;
      }
    }
  }

  lemma {:induction false} BlocksOfAppend(a: seq<Child>, b: seq<Child>)
    ensures BlocksOfAll(a + b) == BlocksOfAll(a) + BlocksOfAll(b)
    decreases a
  {
    if a == [] {
      assert a + b == b;
    } else {
      assert (a + b)[1..] == a[1..] + b;
      BlocksOfAppend(a[1..], b);
    }
  }

  lemma {:induction false} Level1Blocks(level: seq<Child>)
    requires forall i :: 0 <= i < |level| ==> level[i].tree.Leaf?
    ensures BlocksOfAll(level) == |level|
    decreases level
  {
    if level != [] {
      Level1Blocks(level[1..]);
      assert level[0].Blocks() == 1 + BlocksOf(level[0].tree) == 1;
    }
  }

  lemma {:induction false} Level2Blocks(level1: seq<Child>, blocks: seq<u64>, i: nat)
    requires |blocks| == Chunks(|level1|) && i <= |blocks|
    requires forall k :: 0 <= k < |level1| ==> level1[k].tree.Leaf?
    ensures From(|level1|, i) <= |level1|
            && BlocksOfAll(Level2(level1, blocks)[i..]) == |blocks| - i + BlocksOfAll(level1[From(|level1|, i)..])
    decreases |blocks| - i
  {
    hide Chunks, ChunkEnd;
    var level := Level2(level1, blocks);
    if i < |blocks| {
      Level2Blocks(level1, blocks, i + 1);
      NextChunk(|level1|, i);
      var a, b := PER_NODE * i, ChunkEnd(|level1|, i);
      assert level1[a..] == level1[a..b] + level1[b..];
      BlocksOfAppend(level1[a..b], level1[b..]);
      assert level[i].tree == Node(level1[a..b])
        && level[i].Blocks() == 1 + BlocksOf(level[i].tree) == 1 + BlocksOfAll(level1[a..b]);
      assert level[i..][1..] == level[i + 1..] && level[i..][0] == level[i];
    } else {
      assert level[i..] == [];
    }
  }

  lemma PlannedBlocks(runs: seq<Extent>, leafBlocks: seq<u64>, indexBlocks: seq<u64>)
    requires |leafBlocks| == LeafCount(|runs|) && |indexBlocks| == IndexCount(|runs|)
    ensures BlocksOf(Planned(runs, leafBlocks, indexBlocks)) == |leafBlocks| + |indexBlocks|
  {
    hide Chunks, Level2;
    if ROOT_ROOM < |runs| {
      var level1 := Level1(runs, leafBlocks);
      Level1Blocks(level1);
      if Depth(|runs|) == 2 {
        Level2Blocks(level1, indexBlocks, 0);
        FromStart(|level1|);
        var level2 := Level2(level1, indexBlocks);
        assert level2[0..] == level2 && level1[0..] == level1;
        assert BlocksOf(Node(level2)) == BlocksOfAll(level2);
      } else {
        assert BlocksOf(Node(level1)) == BlocksOfAll(level1);
      }
    } else {
      NoIndex(|runs|);
    }
  }

  lemma FromStart(n: nat)
    ensures From(n, 0) == 0
  {
  }

  // ----- what the plan writes -----

  /** A block to be written, with its bytes. */
  datatype Segment = Segment(block: u64, bytes: seq<byte>)

  function Block(t: Tree, depth: u16, seed: bv32): (r: seq<byte>)
    requires EntryCount(t) <= PER_NODE
    ensures |r| == BLOCK_SIZE
  {
    BlockNode(PartsOf(t), depth, seed)
  }

  /** One segment per child, holding the child's root. */
  function Segments(children: seq<Child>, depth: u16, seed: bv32): (r: seq<Segment>)
    requires forall i :: 0 <= i < |children| ==> EntryCount(children[i].tree) <= PER_NODE
    ensures |r| == |children|
  {
    seq(|children|, i requires 0 <= i < |children| =>
      Segment(children[i].idx.leaf, Block(children[i].tree, depth, seed)))
  }

  lemma Level1Counts(runs: seq<Extent>, blocks: seq<u64>)
    requires |blocks| == Chunks(|runs|)
    ensures forall i :: 0 <= i < |blocks| ==> 1 <= EntryCount(Level1(runs, blocks)[i].tree) <= PER_NODE
  {
  }

  lemma Level2Counts(level1: seq<Child>, blocks: seq<u64>)
    requires |blocks| == Chunks(|level1|)
    ensures forall i :: 0 <= i < |blocks| ==> 1 <= EntryCount(Level2(level1, blocks)[i].tree) <= PER_NODE
  {
  }

  /** Everything written below the root, leaves first. */
  function PlannedSegments(runs: seq<Extent>, leafBlocks: seq<u64>, indexBlocks: seq<u64>,
                           seed: bv32): (r: seq<Segment>)
    requires |leafBlocks| == LeafCount(|runs|) && |indexBlocks| == IndexCount(|runs|)
    ensures |r| == |leafBlocks| + |indexBlocks|
  {
    if |runs| <= ROOT_ROOM then []
    else
      Level1Counts(runs, leafBlocks);
      var level1 := Level1(runs, leafBlocks);
      if Depth(|runs|) == 1 then Segments(level1, 0, seed)
      else
        Level2Counts(level1, indexBlocks);
        Segments(level1, 0, seed) + Segments(Level2(level1, indexBlocks), 1, seed)
  }

  ghost predicate OnDisk(fs: Fs, segments: seq<Segment>) {
    forall i :: 0 <= i < |segments| ==> ReadBlock(fs, segments[i].block) == Ok(segments[i].bytes)
  }

  /** The root fits its four entries. */
  lemma RootFits(runs: seq<Extent>, leafBlocks: seq<u64>, indexBlocks: seq<u64>)
    requires |leafBlocks| == LeafCount(|runs|) && |indexBlocks| == IndexCount(|runs|) && Shallow(|runs|)
    ensures EntryCount(Planned(runs, leafBlocks, indexBlocks)) <= ROOT_ROOM
  {
  }

  lemma LeafEncoded(fs: Fs, owner: Owner, c: Child)
    requires c.tree.Leaf? && EntryCount(c.tree) <= PER_NODE && Fits48(c.tree) && c.idx.leaf < U48
    requires ReadBlock(fs, c.idx.leaf) == Ok(Block(c.tree, 0, Csum.InodeSeed(fs.fsSeed, owner.ino, owner.generation)))
    ensures ChildEncoded(fs, owner, c, 1)
  {
    hide NodeBytes, Stamped, PartsOf, EncodesRoot;
    var seed := Csum.InodeSeed(fs.fsSeed, owner.ino, owner.generation);
    var parts := PartsOf(c.tree);
    BlockNodeStamped(fs, owner, parts, 0);
    NodeEncodes(c.tree, PER_NODE, 0, BLOCK_SIZE,
      Bytes32(Csum.AsU32(Csum.ExtentBlock(seed, NodeBytes(parts, PER_NODE, 0, BLOCK_SIZE, Zeros(4))))));
  }

  lemma IndexEncoded(fs: Fs, owner: Owner, c: Child)
    requires c.tree.Node? && EntryCount(c.tree) <= PER_NODE && Fits48(c.tree) && c.idx.leaf < U48
    requires forall i :: 0 <= i < |c.tree.children| ==> ChildEncoded(fs, owner, c.tree.children[i], 1)
    requires ReadBlock(fs, c.idx.leaf) == Ok(Block(c.tree, 1, Csum.InodeSeed(fs.fsSeed, owner.ino, owner.generation)))
    ensures ChildEncoded(fs, owner, c, 2)
  {
    hide NodeBytes, Stamped, PartsOf, EncodesRoot;
    var seed := Csum.InodeSeed(fs.fsSeed, owner.ino, owner.generation);
    var parts := PartsOf(c.tree);
    BlockNodeStamped(fs, owner, parts, 1);
    NodeEncodes(c.tree, PER_NODE, 1, BLOCK_SIZE,
      Bytes32(Csum.AsU32(Csum.ExtentBlock(seed, NodeBytes(parts, PER_NODE, 1, BLOCK_SIZE, Zeros(4))))));
  }

  predicate Numbers48(blocks: seq<u64>) {
    forall i :: 0 <= i < |blocks| ==> blocks[i] < U48
  }

  lemma Level1Encoded(fs: Fs, owner: Owner, runs: seq<Extent>, blocks: seq<u64>)
    requires |blocks| == Chunks(|runs|) && Plannable(runs) && Numbers48(blocks)
    requires forall i :: 0 <= i < |blocks| ==> EntryCount(Level1(runs, blocks)[i].tree) <= PER_NODE
    requires OnDisk(fs, Segments(Level1(runs, blocks), 0, Csum.InodeSeed(fs.fsSeed, owner.ino, owner.generation)))
    ensures forall i :: 0 <= i < |blocks| ==> ChildEncoded(fs, owner, Level1(runs, blocks)[i], 1)
  {
    hide Block, ChildEncoded, ReadBlock, Chunks;
    var seed := Csum.InodeSeed(fs.fsSeed, owner.ino, owner.generation);
    var level := Level1(runs, blocks);
    forall i | 0 <= i < |blocks| ensures ChildEncoded(fs, owner, level[i], 1) {
      assert Segments(level, 0, seed)[i] == Segment(level[i].idx.leaf, Block(level[i].tree, 0, seed));
      ChunkElements(runs, i);
      LeafEncoded(fs, owner, level[i]);
    }
  }

  lemma Level2Encoded(fs: Fs, owner: Owner, level1: seq<Child>, blocks: seq<u64>)
    requires |blocks| == Chunks(|level1|) && Numbers48(blocks)
    requires forall i :: 0 <= i < |level1| ==> level1[i].idx.leaf < U48 && ChildEncoded(fs, owner, level1[i], 1)
    requires forall i :: 0 <= i < |blocks| ==> EntryCount(Level2(level1, blocks)[i].tree) <= PER_NODE
    requires OnDisk(fs, Segments(Level2(level1, blocks), 1, Csum.InodeSeed(fs.fsSeed, owner.ino, owner.generation)))
    ensures forall i :: 0 <= i < |blocks| ==> ChildEncoded(fs, owner, Level2(level1, blocks)[i], 2)
  {
    hide Block, ChildEncoded, ReadBlock, Chunks;
    var seed := Csum.InodeSeed(fs.fsSeed, owner.ino, owner.generation);
    var level := Level2(level1, blocks);
    forall i | 0 <= i < |blocks| ensures ChildEncoded(fs, owner, level[i], 2) {
      assert Segments(level, 1, seed)[i] == Segment(level[i].idx.leaf, Block(level[i].tree, 1, seed));
      ChunkElements(level1, i);
      IndexEncoded(fs, owner, level[i]);
    }
  }

  lemma PlannedEncoded(fs: Fs, owner: Owner, runs: seq<Extent>, leafBlocks: seq<u64>, indexBlocks: seq<u64>)
    requires |leafBlocks| == LeafCount(|runs|) && |indexBlocks| == IndexCount(|runs|) && Shallow(|runs|)
    requires Plannable(runs) && Numbers48(leafBlocks) && Numbers48(indexBlocks)
    requires OnDisk(fs, PlannedSegments(runs, leafBlocks, indexBlocks,
             Csum.InodeSeed(fs.fsSeed, owner.ino, owner.generation)))
    ensures var t := Planned(runs, leafBlocks, indexBlocks);
            EntryCount(t) <= ROOT_ROOM
              && Encoded(fs, owner, RootNode(PartsOf(t), Depth(|runs|)), t, ROOT_ROOM, Depth(|runs|))
  {
    hide NodeBytes, PartsOf, EncodesRoot, ChildEncoded, Segments, Chunks;
    var t := Planned(runs, leafBlocks, indexBlocks);
    RootFits(runs, leafBlocks, indexBlocks);
    NodeEncodes(t, ROOT_ROOM, Depth(|runs|), 60, []);
    if ROOT_ROOM < |runs| {
      var seed := Csum.InodeSeed(fs.fsSeed, owner.ino, owner.generation);
      var level1 := Level1(runs, leafBlocks);
      Level1Counts(runs, leafBlocks);
      if Depth(|runs|) == 1 {
        Level1Encoded(fs, owner, runs, leafBlocks);
      } else {
        Level2Counts(level1, indexBlocks);
        var level2 := Level2(level1, indexBlocks);
        SplitDisk(fs, Segments(level1, 0, seed), Segments(level2, 1, seed));
        Level1Encoded(fs, owner, runs, leafBlocks);
        Level2Encoded(fs, owner, level1, indexBlocks);
      }
    }
  }

  lemma SplitDisk(fs: Fs, a: seq<Segment>, b: seq<Segment>)
    requires OnDisk(fs, a + b)
    ensures OnDisk(fs, a) && OnDisk(fs, b)
  {
    forall i | 0 <= i < |a| ensures ReadBlock(fs, a[i].block) == Ok(a[i].bytes) { assert (a + b)[i] == a[i]; }
    forall i | 0 <= i < |b| ensures ReadBlock(fs, b[i].block) == Ok(b[i].bytes) { assert (a + b)[|a| + i] == b[i]; }
  }

  lemma PlannedTreeIsWalked(fs: Fs, owner: Owner, runs: seq<Extent>, leafBlocks: seq<u64>, indexBlocks: seq<u64>)
    requires |leafBlocks| == LeafCount(|runs|) && |indexBlocks| == IndexCount(|runs|) && Shallow(|runs|)
    requires Plannable(runs) && Numbers48(leafBlocks) && Numbers48(indexBlocks)
    requires OnDisk(fs, PlannedSegments(runs, leafBlocks, indexBlocks,
             Csum.InodeSeed(fs.fsSeed, owner.ino, owner.generation)))
    ensures var t := Planned(runs, leafBlocks, indexBlocks);
            && EntryCount(t) <= ROOT_ROOM
            && WalkNode(fs, owner, RootNode(PartsOf(t), Depth(|runs|)), None)
               == Walk(Pass, RunsIn(Leaf(runs)), |leafBlocks| + |indexBlocks|)
  {
    hide RootNode, Encoded, PartsOf, Planned, OnDisk, PlannedSegments, WalkNode;
    var t := Planned(runs, leafBlocks, indexBlocks);
    PlannedEncoded(fs, owner, runs, leafBlocks, indexBlocks);
    EncodedTreeIsWalked(fs, owner, RootNode(PartsOf(t), Depth(|runs|)), t, ROOT_ROOM, Depth(|runs|));
    PlannedRuns(runs, leafBlocks, indexBlocks);
    PlannedBlocks(runs, leafBlocks, indexBlocks);
  }

  // ----- the planner -----

  /** The inode's root, the blocks to write, and the 512-byte units they add. */
  datatype Plan = Plan(root: seq<byte>, segments: seq<Segment>, treeBlocks: nat)

  lemma JoinedGrows(parts: seq<seq<byte>>, i: nat)
    requires Cells(parts) && i < |parts|
    ensures Cells(parts[..i]) && Cells(parts[..i + 1]) && Joined(parts[..i + 1]) == Joined(parts[..i]) + parts[i]
  {
    assert parts[..i + 1][..i] == parts[..i];
  }

  /** Entry `i` of the node, by the encoder of its kind. */
  method PutEntry(buf: array<byte>, off: nat, t: Tree, i: nat)
    requires i < EntryCount(t) && off + ENTRY_LEN <= buf.Length
    modifies buf
    ensures buf[..] == Splice(old(buf[..]), off, PartsOf(t)[i])
  {
    match t {
      case Leaf(runs) => EncodeExtent(runs[i], buf, off);
      case Node(children) => EncodeIdx(children[i].idx, buf, off);
    }
  }

  /** The entries after the header, in the zeros behind it. */
  method PutEntries(buf: array<byte>, t: Tree, ghost head: seq<byte>, ghost n: nat)
    requires |head| == HEADER_LEN && ENTRY_LEN * EntryCount(t) <= n && buf[..] == head + Zeros(n) + []
    modifies buf
    ensures buf[..] == head + Joined(PartsOf(t)) + Zeros(n - ENTRY_LEN * EntryCount(t)) + []
  {
    hide PartsOf, Joined;
    ghost var parts := PartsOf(t);
    NothingJoined(parts);
    assert head + [] == head;
    for i := 0 to EntryCount(t)
      invariant Cells(parts[..i]) && buf[..] == head + Joined(parts[..i]) + Zeros(n - ENTRY_LEN * i) + []
    {
      JoinedGrows(parts, i);
      PutEntry(buf, HEADER_LEN + ENTRY_LEN * i, t, i);
      IntoZeros(head + Joined(parts[..i]), n - ENTRY_LEN * i, parts[i], []);
      AppendAssociates(head, Joined(parts[..i]), parts[i]);
    }
    assert parts[..EntryCount(t)] == parts;
  }

  method RenderNode(t: Tree, max: u16, depth: u16, len: nat) returns (buf: array<byte>)
    requires EntryCount(t) <= max && HEADER_LEN + ENTRY_LEN * EntryCount(t) <= len
    ensures fresh(buf) && buf[..] == NodeBytes(PartsOf(t), max, depth, len, [])
  {
    hide HeaderBytes, PartsOf, Joined;
    buf := new byte[len](_ => 0);
    var h := Header(EntryCount(t), max, depth, 0);
    ghost var head := HeaderBytes(h);
    HeaderFixed(h);
    assert buf[..] == [] + Zeros(len) + [];
    EncodeHeader(h, buf, 0);
    IntoZeros([], len, head, []);
    assert [] + head == head;
    PutEntries(buf, t, head, len - HEADER_LEN);
  }

  lemma NothingJoined(parts: seq<seq<byte>>)
    ensures parts[..0] == [] && Joined([]) == []
  {
  }

  lemma EmptyTail(parts: seq<seq<byte>>, depth: u16)
    requires Cells(parts) && |parts| <= PER_NODE
    ensures NodeBytes(parts, PER_NODE, depth, BLOCK_SIZE, []) == NodeBytes(parts, PER_NODE, depth, BLOCK_SIZE, Zeros(4))
  {
  }

  method RenderBlock(t: Tree, depth: u16, seed: bv32) returns (block: seq<byte>)
    requires EntryCount(t) <= PER_NODE
    ensures block == Block(t, depth, seed)
  {
    hide NodeBytes, PartsOf, Csum.ExtentBlock, Csum.AsU32, Bytes32;
    var buf := RenderNode(t, PER_NODE, depth, BLOCK_SIZE);
    EmptyTail(PartsOf(t), depth);
    var c := Csum.AsU32(Csum.ExtentBlock(seed, buf[..]));
    ghost var before := buf[..];
    PutU32(buf, BLOCK_SIZE - 4, c);
    TailOutside(PartsOf(t), depth, Bytes32(c));
    EndSpliced(before, Bytes32(c), NodeBytes(PartsOf(t), PER_NODE, depth, BLOCK_SIZE, Bytes32(c)));
    block := buf[..];
  }

  lemma EndSpliced(b: seq<byte>, w: seq<byte>, r: seq<byte>)
    requires |w| <= |b| == |r| && r[..|b| - |w|] == b[..|b| - |w|] && r[|b| - |w|..] == w
    ensures Splice(b, |b| - |w|, w) == r
  {
  }

  method RenderSegments(children: seq<Child>, depth: u16, seed: bv32) returns (r: seq<Segment>)
    requires forall i :: 0 <= i < |children| ==> EntryCount(children[i].tree) <= PER_NODE
    ensures r == Segments(children, depth, seed)
  {
    hide Block;
    r := [];
    for i := 0 to |children|
      invariant |r| == i && forall j ::
                  0 <= j < i ==> r[j] == Segment(children[j].idx.leaf, Block(children[j].tree, depth, seed))
    {
      var block := RenderBlock(children[i].tree, depth, seed);
      r := r + [Segment(children[i].idx.leaf, block)];
    }
  }

  lemma {:induction false} OnesFlatten(runs: seq<Allocator.Run>)
    requires Allocator.RunsCapped(runs, 1)
    ensures |Allocator.Flatten(runs)| == |runs|
            && forall i :: 0 <= i < |runs| ==> Allocator.Flatten(runs)[i] == runs[i].start
    decreases runs
  {
    if runs != [] { OnesFlatten(runs[..|runs| - 1]); }
  }

  /** `count` single blocks, in the allocator's order. */
  method TakeBlocks(alloc: Allocator.Allocator, count: u64) returns (r: Option<seq<u64>>)
    requires alloc.Valid()
    modifies alloc
    ensures alloc.Valid()
    ensures r.Some? <==> count <= |old(alloc.Rest())|
    ensures r.Some? ==> r.value == old(alloc.Rest())[..count] && alloc.Rest() == old(alloc.Rest())[count..]
  {
    var runs := alloc.Take(count, 1);
    if runs.None? { return None; }
    OnesFlatten(runs.value);
    return Some(seq(|runs.value|, i requires 0 <= i < |runs.value| => runs.value[i].start));
  }

  lemma CountsFit(n: nat)
    requires n < 0x1_0000_0000
    ensures LeafCount(n) < 0x1_0000_0000 && IndexCount(n) < 0x1_0000_0000
    ensures ROOT_ROOM < n && Chunks(n) <= ROOT_ROOM ==> Depth(n) == 1 && IndexCount(n) == 0
    ensures ROOT_ROOM < Chunks(n) ==> Depth(n) == 2 && IndexCount(n) == Chunks(Chunks(n))
  {
  }

  /** What a successful plan is, for the block numbers it was given. */
  predicate IsPlan(p: Plan, runs: seq<Extent>, leafBlocks: seq<u64>, indexBlocks: seq<u64>, seed: bv32) {
    && |leafBlocks| == LeafCount(|runs|) && |indexBlocks| == IndexCount(|runs|)
    && p.segments == PlannedSegments(runs, leafBlocks, indexBlocks, seed)
    && p.treeBlocks == 8 * |p.segments|
    && var t := Planned(runs, leafBlocks, indexBlocks);
       EntryCount(t) <= ROOT_ROOM && p.root == RootNode(PartsOf(t), Depth(|runs|))
  }

  method RenderRoot(t: Tree, depth: u16) returns (root: seq<byte>)
    requires EntryCount(t) <= ROOT_ROOM
    ensures root == RootNode(PartsOf(t), depth)
  {
    hide NodeBytes, PartsOf;
    var buf := RenderNode(t, ROOT_ROOM, depth, 60);
    root := buf[..];
  }

  method PlanInRoot(runs: seq<Extent>, ghost seed: bv32) returns (plan: Plan)
    requires |runs| <= ROOT_ROOM
    ensures IsPlan(plan, runs, [], [], seed)
  {
    hide RootNode, PartsOf;
    NoIndex(|runs|);
    var root := RenderRoot(Leaf(runs), 0);
    plan := Plan(root, [], 0);
  }

  /** The leaves' segments, in file order. */
  method PlanLeaves(runs: seq<Extent>, leafBlocks: seq<u64>, seed: bv32)
                    returns (level1: seq<Child>, segments: seq<Segment>)
    requires |leafBlocks| == Chunks(|runs|)
    ensures level1 == Level1(runs, leafBlocks) && |segments| == |leafBlocks|
    ensures (forall i :: 0 <= i < |level1| ==> EntryCount(level1[i].tree) <= PER_NODE)
            && segments == Segments(level1, 0, seed)
  {
    hide Segments, Chunks;
    Level1Counts(runs, leafBlocks);
    level1 := Level1(runs, leafBlocks);
    segments := RenderSegments(level1, 0, seed);
  }

  /** The index nodes when there are any, and the root over the topmost level. */
  method PlanTop(runs: seq<Extent>, ghost leafBlocks: seq<u64>, indexBlocks: seq<u64>, level1: seq<Child>,
                 leaves: seq<Segment>, seed: bv32) returns (plan: Plan)
    requires ROOT_ROOM < |runs| && Shallow(|runs|)
    requires |leafBlocks| == LeafCount(|runs|) && |indexBlocks| == IndexCount(|runs|)
    requires level1 == Level1(runs, leafBlocks)
             && (forall i :: 0 <= i < |level1| ==> EntryCount(level1[i].tree) <= PER_NODE)
    requires leaves == Segments(level1, 0, seed)
    ensures IsPlan(plan, runs, leafBlocks, indexBlocks, seed)
  {
    hide RootNode, PartsOf, Segments, Chunks, Level1, Level2;
    RootFits(runs, leafBlocks, indexBlocks);
    if Depth(|runs|) == 1 {
      var root := RenderRoot(Node(level1), 1);
      plan := Plan(root, leaves, 8 * |leaves|);
    } else {
      var level2 := Level2(level1, indexBlocks);
      Level2Counts(level1, indexBlocks);
      var more := RenderSegments(level2, 1, seed);
      var root := RenderRoot(Node(level2), 2);
      plan := Plan(root, leaves + more, 8 * |leaves + more|);
    }
  }

  /**
    Takes the next free blocks for the leaves, then for the index nodes; refused when the tree would
    be deeper than two levels, or when the device has too few blocks left.
  */
  method PlanExtents(runs: seq<Extent>, ino: u32, fsSeed: bv32, alloc: Allocator.Allocator) returns (r: Result<Plan>)
    requires alloc.Valid() && |runs| < 0x1_0000_0000
    modifies alloc
    ensures alloc.Valid()
    ensures r.Ok? <==> Shallow(|runs|) && LeafCount(|runs|) + IndexCount(|runs|) <= |old(alloc.Rest())|
    ensures r.Err? ==>
              r.error == if LeafCount(|runs|) <= |old(alloc.Rest())| && !Shallow(|runs|) then Unsupported else Invalid
    ensures r.Ok? ==> exists leafBlocks: seq<u64>, indexBlocks: seq<u64> ::
              && leafBlocks + indexBlocks == old(alloc.Rest())[..LeafCount(|runs|) + IndexCount(|runs|)]
              && IsPlan(r.value, runs, leafBlocks, indexBlocks, Csum.InodeSeed(fsSeed, ino, 0))
    ensures r.Ok? ==> alloc.Rest() == old(alloc.Rest())[LeafCount(|runs|) + IndexCount(|runs|)..]
  {
    hide IsPlan, Chunks, Segments, Level1, Csum.InodeSeed, Allocator.Allocator.Valid, Allocator.Allocator.Rest,
      Allocator.FreeFrom;
    var n := |runs|;
    var seed := Csum.InodeSeed(fsSeed, ino, 0);
    CountsFit(n);
    ghost var free := alloc.Rest();
    if n <= ROOT_ROOM {
      NoIndex(n);
      var plan := PlanInRoot(runs, seed);
      assert [] + [] == free[..0] && free[0..] == free;
      return Ok(plan);
    }
    var leafBlocks := TakeBlocks(alloc, Chunks(n));
    if leafBlocks.None? { return Err(Invalid); }
    var level1, leaves := PlanLeaves(runs, leafBlocks.value, seed);
    if Chunks(n) <= ROOT_ROOM {
      var plan := PlanTop(runs, leafBlocks.value, [], level1, leaves, seed);
      assert leafBlocks.value + [] == leafBlocks.value;
      return Ok(plan);
    }
    if Chunks(Chunks(n)) > ROOT_ROOM { return Err(Unsupported); }
    var indexBlocks := TakeBlocks(alloc, Chunks(Chunks(n)));
    if indexBlocks.None? { return Err(Invalid); }
    var plan := PlanTop(runs, leafBlocks.value, indexBlocks.value, level1, leaves, seed);
    Allocator.TakeTwice(free, Chunks(n), Chunks(Chunks(n)));
    return Ok(plan);
  }

  lemma NoIndex(n: nat)
    requires n <= ROOT_ROOM
    ensures LeafCount(n) == 0 && IndexCount(n) == 0 && Depth(n) == 0
  {
  }

  /**
    Walking a planned root, over any disk that holds the plan's segments, returns the file's extents
    in order and reads each segment once.
  */
  lemma PlanIsWalked(fs: Fs, ino: u32, plan: Plan, runs: seq<Extent>, leafBlocks: seq<u64>, indexBlocks: seq<u64>)
    requires IsPlan(plan, runs, leafBlocks, indexBlocks, Csum.InodeSeed(fs.fsSeed, ino, 0)) && Shallow(|runs|)
    requires Plannable(runs) && Numbers48(leafBlocks) && Numbers48(indexBlocks) && OnDisk(fs, plan.segments)
    ensures WalkNode(fs, Owner(ino, 0), plan.root, None) == Walk(Pass, RunsIn(Leaf(runs)), |plan.segments|)
  {
    hide RootNode, PartsOf, Planned, OnDisk, PlannedSegments, WalkNode, Shallow;
    PlannedTreeIsWalked(fs, Owner(ino, 0), runs, leafBlocks, indexBlocks);
  }
}
