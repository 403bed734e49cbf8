/**
  The keys of a planned extent tree (`plan_extents` in `src/build/seal.rs`). The reader's walk never looks at the
  logical number of an index entry, but a search by logical block does: here it is shown that each one is the
  number of the first extent below it, and what a search that goes by them finds.
*/
module ExtentKeys {
  import opened Bytes
  import opened Extent
  import opened ExtentWalk
  import opened ExtentTree
  import opened ExtentBuild
  import opened FileHoles
  import Csum

  // ----- keys and searches, on the bytes -----

  /** The logical number of the first extent below a node, down the first entry of each level. */
  function FirstLogical(fs: Fs, node: seq<byte>, depth: nat): Option<u32>
    decreases depth
  {
    match CheckNode(node, Some(depth))
    case Err(_) => None
    case Ok(h) =>
      if h.entries == 0 then None
      else if depth == 0 then Some(DecodeExtent(Entry(node, 0)).logical)
      else
        match ReadBlock(fs, DecodeIdx(Entry(node, 0)).leaf)
        case Err(_) => None
        case Ok(child) => FirstLogical(fs, child, depth - 1)
  }

  /** Every index entry, here and below, carries the logical number of the first extent it leads to. */
  ghost predicate Keyed(fs: Fs, node: seq<byte>, depth: nat)
    decreases depth
  {
    && CheckNode(node, Some(depth)).Ok?
    && (0 < depth ==>
          forall i :: 0 <= i < CheckNode(node, Some(depth)).value.entries ==>
            KeyedEntry(fs, DecodeIdx(Entry(node, i)), depth))
  }

  ghost predicate KeyedEntry(fs: Fs, x: Idx, depth: nat)
    requires 0 < depth
    decreases depth, 0
  {
    && ReadBlock(fs, x.leaf).Ok?
    && FirstLogical(fs, ReadBlock(fs, x.leaf).value, depth - 1) == Some(x.logical)
    && Keyed(fs, ReadBlock(fs, x.leaf).value, depth - 1)
  }

  /** The keys of every index node strictly rise. */
  ghost predicate KeysRise(fs: Fs, node: seq<byte>, depth: nat)
    decreases depth
  {
    && CheckNode(node, Some(depth)).Ok?
    && (0 < depth ==>
          var n := CheckNode(node, Some(depth)).value.entries;
          && (forall i, j :: 0 <= i < j < n ==> DecodeIdx(Entry(node, i)).logical < DecodeIdx(Entry(node, j)).logical)
          && forall i :: 0 <= i < n ==> RiseBelow(fs, DecodeIdx(Entry(node, i)), depth))
  }

  ghost predicate RiseBelow(fs: Fs, x: Idx, depth: nat)
    requires 0 < depth
    decreases depth, 0
  {
    ReadBlock(fs, x.leaf).Ok? && KeysRise(fs, ReadBlock(fs, x.leaf).value, depth - 1)
  }

  /** Among the entries from `i` on, the last whose logical number is not above `block`. */
  function LastNotAbove(node: seq<byte>, i: nat, n: nat, block: nat): (r: Option<nat>)
    requires i <= n <= RoomFor(|node|)
    ensures r.Some? ==> i <= r.value < n
    decreases n - i
  {
    if i == n then None
    else if LastNotAbove(node, i + 1, n, block).Some? then LastNotAbove(node, i + 1, n, block)
    else if Le32(Entry(node, i), 0) <= block then Some(i)
    else None
  }

  /** The search for a logical block: at each level into the last entry that does not start above it. */
  function Descend(fs: Fs, node: seq<byte>, depth: nat, block: nat): Option<Extent>
    decreases depth
  {
    match CheckNode(node, Some(depth))
    case Err(_) => None
    case Ok(h) =>
      match LastNotAbove(node, 0, h.entries, block)
      case None => None
      case Some(i) =>
        if depth == 0 then Some(DecodeExtent(Entry(node, i)))
        else
          match ReadBlock(fs, DecodeIdx(Entry(node, i)).leaf)
          case Err(_) => None
          case Ok(child) => Descend(fs, child, depth - 1, block)
  }

  // ----- the same on the runs -----

  /** The last run that does not start above `block`. */
  function LastRun(runs: seq<Extent>, block: nat): Option<Extent> {
    if runs == [] then None
    else if LastRun(runs[1..], block).Some? then LastRun(runs[1..], block)
    else if runs[0].logical <= block then Some(runs[0])
    else None
  }

  predicate Holds(run: Extent, block: nat) {
    run.logical <= block < run.logical as int + run.Len() as int
  }

  /** Runs in file order, apart from each other. */
  predicate InOrder(runs: seq<Extent>) {
    forall i, j :: 0 <= i < j < |runs| ==> runs[i].logical as int + runs[i].Len() as int <= runs[j].logical
  }

  predicate Sorted(runs: seq<Extent>) {
    forall i, j :: 0 <= i < j < |runs| ==> runs[i].logical <= runs[j].logical
  }

  lemma {:induction false} LastRunAppend(a: seq<Extent>, b: seq<Extent>, block: nat)
    ensures LastRun(a + b, block) == if LastRun(b, block).Some? then LastRun(b, block) else LastRun(a, block)
    decreases a
  {
    if a == [] {
      assert a + b == b;
    } else {
      assert (a + b)[1..] == a[1..] + b;
      LastRunAppend(a[1..], b, block);
    }
  }

  lemma {:induction false} LastRunExists(runs: seq<Extent>, block: nat)
    requires Sorted(runs)
    ensures LastRun(runs, block).Some? <==> runs != [] && runs[0].logical <= block
    decreases runs
  {
    if runs != [] {
      LastRunExists(runs[1..], block);
      assert 1 < |runs| ==> runs[0].logical <= runs[1].logical;
    }
  }

  /** Of runs in order, the one that holds a block is the last that does not start above it. */
  lemma {:induction false} LastRunHolds(runs: seq<Extent>, block: nat)
    requires InOrder(runs)
    ensures forall run :: run in runs && Holds(run, block) ==> LastRun(runs, block) == Some(run)
    ensures LastRun(runs, block).Some? ==> LastRun(runs, block).value in runs
    decreases runs
  {
    if runs != [] {
      LastRunHolds(runs[1..], block);
      assert runs == [runs[0]] + runs[1..];
      if Holds(runs[0], block) {
        forall j | 0 < j < |runs| ensures block < runs[j].logical { }
        NoneAbove(runs[1..], block);
      }
    }
  }

  lemma {:induction false} NoneAbove(runs: seq<Extent>, block: nat)
    requires forall j :: 0 <= j < |runs| ==> block < runs[j].logical
    ensures LastRun(runs, block).None?
    decreases runs
  {
    if runs != [] { NoneAbove(runs[1..], block); }
  }

  // ----- keyed trees -----

  function FirstOf(t: Tree): Option<u32>
    decreases t, 0
  {
    match t
    case Leaf(runs) => if runs == [] then None else Some(runs[0].logical)
    case Node(children) => if children == [] then None else FirstBelow(children[0])
  }

  function FirstBelow(c: Child): Option<u32>
    decreases c, 0
  {
    FirstOf(c.tree)
  }

  ghost predicate KeyedTree(t: Tree)
    decreases t, 0
  {
    t.Node? ==> forall i :: 0 <= i < |t.children| ==> KeyedChild(t.children[i])
  }

  ghost predicate KeyedChild(c: Child)
    decreases c, 0
  {
    FirstBelow(c) == Some(c.idx.logical) && KeyedTree(c.tree)
  }

  lemma {:induction false} FirstIsStored(fs: Fs, owner: Owner, node: seq<byte>, t: Tree, depth: nat)
    requires Stored(fs, owner, node, t, depth)
    ensures FirstLogical(fs, node, depth) == FirstOf(t)
    decreases t
  {
    hide CheckNode, ReadBlock, ChecksumAccepts, DecodeIdx, DecodeExtent;
    match t {
      case Leaf(runs) =>
      case Node(children) =>
        if children != [] {
          var c := children[0];
          assert ChildStored(fs, owner, Entry(node, 0), c, depth);
          FirstIsStored(fs, owner, ReadBlock(fs, c.idx.leaf).value, c.tree, depth - 1);
        }
    }
  }

  /** A stored tree has the right keys exactly when its bytes have. */
  lemma {:induction false} KeyedAsStored(fs: Fs, owner: Owner, node: seq<byte>, t: Tree, depth: nat)
    requires Stored(fs, owner, node, t, depth)
    ensures Keyed(fs, node, depth) <==> KeyedTree(t)
    decreases t
  {
    hide CheckNode, ReadBlock, ChecksumAccepts, DecodeIdx, DecodeExtent, FirstLogical, FirstOf;
    if t.Node? {
      forall i | 0 <= i < |t.children|
        ensures KeyedEntry(fs, DecodeIdx(Entry(node, i)), depth) <==> KeyedChild(t.children[i])
      {
        var c := t.children[i];
        assert ChildStored(fs, owner, Entry(node, i), c, depth);
        FirstIsStored(fs, owner, ReadBlock(fs, c.idx.leaf).value, c.tree, depth - 1);
        KeyedAsStored(fs, owner, ReadBlock(fs, c.idx.leaf).value, c.tree, depth - 1);
      }
    }
  }

  /** The first extent of a subtree is the first of its runs. */
  lemma {:induction false} FirstIsFirst(t: Tree)
    requires FirstOf(t).Some?
    ensures LeafRuns(t) != [] && LeafRuns(t)[0].logical == FirstOf(t).value
    decreases t
  {
    if t.Node? {
      FirstIsFirst(t.children[0].tree);
      assert LeafRunsBelow(t.children[0]) == LeafRuns(t.children[0].tree);
    }
  }

  lemma SortedParts(a: seq<Extent>, b: seq<Extent>)
    requires Sorted(a + b)
    ensures Sorted(a) && Sorted(b)
    ensures forall x, y :: x in a && y in b ==> x.logical <= y.logical
  {
    forall i, j | 0 <= i < j < |a| ensures a[i].logical <= a[j].logical {
      assert (a + b)[i] == a[i] && (a + b)[j] == a[j];
    }
    forall i, j | 0 <= i < j < |b| ensures b[i].logical <= b[j].logical {
      assert (a + b)[|a| + i] == b[i] && (a + b)[|a| + j] == b[j];
    }
    forall x, y | x in a && y in b ensures x.logical <= y.logical {
      var i :| 0 <= i < |a| && a[i] == x;
      var j :| 0 <= j < |b| && b[j] == y;
      assert (a + b)[i] == x && (a + b)[|a| + j] == y;
    }
  }

  /** From entry `i` on, the runs below the last child that does not start above the block hold the last such run. */
  lemma {:induction false} LastChild(node: seq<byte>, children: seq<Child>, i: nat, block: nat)
    requires i <= |children| <= RoomFor(|node|) && Sorted(LeafRunsOf(children[i..]))
    requires forall k ::
               0 <= k < |children|
               ==> KeyedChild(children[k]) && Le32(Entry(node, k), 0) == children[k].idx.logical
    ensures LastRun(LeafRunsOf(children[i..]), block) ==
            match LastNotAbove(node, i, |children|, block)
            case None => None
            case Some(j) => LastRun(LeafRunsBelow(children[j]), block)
    ensures LastNotAbove(node, i, |children|, block).Some? ==>
              Sorted(LeafRunsBelow(children[LastNotAbove(node, i, |children|, block).value]))
    decreases |children| - i
  {
    hide Le32, Sorted, LeafRuns, FirstOf, KeyedTree, LastRun;
    if i == |children| {
      assert LastRun([], block).None? by { NoneAbove([], block); }
    } else {
      var c := children[i];
      var a, b := LeafRunsBelow(c), LeafRunsOf(children[i + 1..]);
      assert children[i..][0] == c && children[i..][1..] == children[i + 1..];
      SortedParts(a, b);
      LastChild(node, children, i + 1, block);
      LastRunAppend(a, b, block);
      FirstIsFirst(c.tree);
      LastRunExists(a, block);
      var later := LastNotAbove(node, i + 1, |children|, block);
      if later.Some? {
        var d := children[later.value];
        FirstIsFirst(d.tree);
        LastRunExists(LeafRunsBelow(d), block);
        AtOrBelow(node, i + 1, |children|, block);
      }
    }
  }

  lemma {:induction false} AtOrBelow(node: seq<byte>, i: nat, n: nat, block: nat)
    requires i <= n <= RoomFor(|node|) && LastNotAbove(node, i, n, block).Some?
    ensures Le32(Entry(node, LastNotAbove(node, i, n, block).value), 0) <= block
    decreases n - i
  {
    if LastNotAbove(node, i + 1, n, block).Some? { AtOrBelow(node, i + 1, n, block); }
  }

  lemma {:induction false} LastEntry(node: seq<byte>, runs: seq<Extent>, i: nat, block: nat)
    requires i <= |runs| <= RoomFor(|node|)
    requires forall k :: 0 <= k < |runs| ==> Le32(Entry(node, k), 0) == runs[k].logical
    ensures LastRun(runs[i..], block) ==
            match LastNotAbove(node, i, |runs|, block)
            case None => None
            case Some(j) => Some(runs[j])
    decreases |runs| - i
  {
    hide Le32;
    if i < |runs| {
      LastEntry(node, runs, i + 1, block);
      assert runs[i..][1..] == runs[i + 1..] && runs[i..][0] == runs[i];
    }
  }

  lemma FirstField(entry: seq<byte>)
    requires |entry| == ENTRY_LEN
    ensures DecodeIdx(entry).logical == Le32(entry, 0) == DecodeExtent(entry).logical
  {
  }

  /**
    In a stored tree with the right keys over sorted runs, the search ends on the last run that does not start
    above the block, and on nothing when there is none.
  */
  lemma {:induction false} DescendFinds(fs: Fs, owner: Owner, node: seq<byte>, t: Tree, depth: nat, block: nat)
    requires Stored(fs, owner, node, t, depth) && KeyedTree(t) && Sorted(LeafRuns(t))
    ensures Descend(fs, node, depth, block) == LastRun(LeafRuns(t), block)
    decreases t
  {
    hide CheckNode, ReadBlock, ChecksumAccepts, DecodeIdx, DecodeExtent, LastRun, Sorted, Le32;
    match t {
      case Leaf(runs) =>
        forall k | 0 <= k < |runs| ensures Le32(Entry(node, k), 0) == runs[k].logical {
          FirstField(Entry(node, k));
        }
        LastEntry(node, runs, 0, block);
        assert runs[0..] == runs;
      case Node(children) =>
        forall k | 0 <= k < |children|
          ensures KeyedChild(children[k]) && Le32(Entry(node, k), 0) == children[k].idx.logical
        {
          assert ChildStored(fs, owner, Entry(node, k), children[k], depth);
          FirstField(Entry(node, k));
        }
        assert children[0..] == children;
        LastChild(node, children, 0, block);
        var found := LastNotAbove(node, 0, |children|, block);
        if found.Some? {
          var c := children[found.value];
          assert ChildStored(fs, owner, Entry(node, found.value), c, depth);
          DescendFinds(fs, owner, ReadBlock(fs, c.idx.leaf).value, c.tree, depth - 1, block);
        }
    }
  }

  // ----- rising keys -----

  predicate StrictlySorted(runs: seq<Extent>) {
    forall i, j :: 0 <= i < j < |runs| ==> runs[i].logical < runs[j].logical
  }

  lemma StrictParts(a: seq<Extent>, b: seq<Extent>)
    requires StrictlySorted(a + b)
    ensures StrictlySorted(a) && StrictlySorted(b)
    ensures forall x, y :: x in a && y in b ==> x.logical < y.logical
  {
    forall i, j | 0 <= i < j < |a| ensures a[i].logical < a[j].logical {
      assert (a + b)[i] == a[i] && (a + b)[j] == a[j];
    }
    forall i, j | 0 <= i < j < |b| ensures b[i].logical < b[j].logical {
      assert (a + b)[|a| + i] == b[i] && (a + b)[|a| + j] == b[j];
    }
    forall x, y | x in a && y in b ensures x.logical < y.logical {
      var i :| 0 <= i < |a| && a[i] == x;
      var j :| 0 <= j < |b| && b[j] == y;
      assert (a + b)[i] == x && (a + b)[|a| + j] == y;
    }
  }

  /** A run with the number of child `k`'s key is below the children from `i` on. */
  lemma {:induction false} KeyIsThere(children: seq<Child>, i: nat, k: nat) returns (run: Extent)
    requires i <= k < |children| && KeyedChild(children[k])
    ensures run in LeafRunsOf(children[i..]) && run.logical == children[k].idx.logical
    decreases k - i
  {
    assert children[i..][0] == children[i] && children[i..][1..] == children[i + 1..];
    if i == k {
      FirstIsFirst(children[k].tree);
      run := LeafRuns(children[k].tree)[0];
      assert run in LeafRunsBelow(children[k]);
    } else {
      run := KeyIsThere(children, i + 1, k);
    }
  }

  lemma {:induction false} ChildrenRise(children: seq<Child>, i: nat)
    requires i <= |children| && StrictlySorted(LeafRunsOf(children[i..]))
    requires forall k :: 0 <= k < |children| ==> KeyedChild(children[k])
    ensures forall j, k :: i <= j < k < |children| ==> children[j].idx.logical < children[k].idx.logical
    ensures forall k :: i <= k < |children| ==> StrictlySorted(LeafRunsBelow(children[k]))
    decreases |children| - i
  {
    hide KeyedTree, StrictlySorted, LeafRuns, FirstOf;
    if i < |children| {
      var a, b := LeafRunsBelow(children[i]), LeafRunsOf(children[i + 1..]);
      assert children[i..][0] == children[i] && children[i..][1..] == children[i + 1..];
      StrictParts(a, b);
      ChildrenRise(children, i + 1);
      FirstIsFirst(children[i].tree);
      forall k | i < k < |children| ensures children[i].idx.logical < children[k].idx.logical {
        var run := KeyIsThere(children, i + 1, k);
        assert a[0] in a;
      }
    }
  }

  lemma {:induction false} KeysOfStoredRise(fs: Fs, owner: Owner, node: seq<byte>, t: Tree, depth: nat)
    requires Stored(fs, owner, node, t, depth) && KeyedTree(t) && StrictlySorted(LeafRuns(t))
    ensures KeysRise(fs, node, depth)
    decreases t
  {
    hide CheckNode, ReadBlock, ChecksumAccepts, DecodeIdx, DecodeExtent, StrictlySorted;
    if t.Node? {
      assert t.children[0..] == t.children;
      ChildrenRise(t.children, 0);
      forall i | 0 <= i < |t.children|
        ensures DecodeIdx(Entry(node, i)) == t.children[i].idx && RiseBelow(fs, t.children[i].idx, depth)
      {
        var c := t.children[i];
        assert ChildStored(fs, owner, Entry(node, i), c, depth) && KeyedChild(c);
        KeysOfStoredRise(fs, owner, ReadBlock(fs, c.idx.leaf).value, c.tree, depth - 1);
      }
    }
  }

  // ----- planned trees -----

  lemma Level1Keyed(runs: seq<Extent>, blocks: seq<u64>)
    requires |blocks| == Chunks(|runs|)
    ensures forall i :: 0 <= i < |blocks| ==> KeyedChild(Level1(runs, blocks)[i])
  {
    hide Chunks, ChunkEnd;
    forall i | 0 <= i < |blocks| ensures KeyedChild(Level1(runs, blocks)[i]) {
      var c := Level1(runs, blocks)[i];
      assert c.tree == Leaf(Chunk(runs, i)) && FirstBelow(c) == FirstOf(c.tree);
    }
  }

  lemma Level2Keyed(level1: seq<Child>, blocks: seq<u64>)
    requires |blocks| == Chunks(|level1|) && forall i :: 0 <= i < |level1| ==> KeyedChild(level1[i])
    ensures forall i :: 0 <= i < |blocks| ==> KeyedChild(Level2(level1, blocks)[i])
  {
    hide Chunks, ChunkEnd;
    forall i | 0 <= i < |blocks| ensures KeyedChild(Level2(level1, blocks)[i]) {
      var c, part := Level2(level1, blocks)[i], Chunk(level1, i);
      ChunkElements(level1, i);
      assert forall j :: 0 <= j < |part| ==> part[j] in level1;
      assert c.tree == Node(part) && FirstBelow(c) == FirstOf(c.tree) == FirstBelow(part[0]);
      assert part[0] in level1 && KeyedChild(part[0]);
    }
  }

  lemma PlannedKeyed(runs: seq<Extent>, leafBlocks: seq<u64>, indexBlocks: seq<u64>)
    requires |leafBlocks| == LeafCount(|runs|) && |indexBlocks| == IndexCount(|runs|)
    ensures KeyedTree(Planned(runs, leafBlocks, indexBlocks))
  {
    hide Chunks, Level1, Level2, KeyedChild;
    if ROOT_ROOM < |runs| {
      Level1Keyed(runs, leafBlocks);
      if Depth(|runs|) != 1 {
        Level2Keyed(Level1(runs, leafBlocks), indexBlocks);
      }
    }
  }

  lemma MappingInjective(a: Extent, b: Extent)
    requires Mapping(a) == Mapping(b)
    ensures a == b
  {
  }

  lemma MappingsInjective(a: seq<Extent>, b: seq<Extent>)
    requires Mappings(a) == Mappings(b)
    ensures a == b
  {
    assert |a| == |Mappings(a)| == |b|;
    forall i | 0 <= i < |a| ensures a[i] == b[i] {
      assert Mappings(a)[i] == Mapping(a[i]) && Mappings(b)[i] == Mapping(b[i]);
      MappingInjective(a[i], b[i]);
    }
  }

  lemma PlannedLeafRuns(runs: seq<Extent>, leafBlocks: seq<u64>, indexBlocks: seq<u64>)
    requires |leafBlocks| == LeafCount(|runs|) && |indexBlocks| == IndexCount(|runs|)
    ensures LeafRuns(Planned(runs, leafBlocks, indexBlocks)) == runs
  {
    hide Planned, RunsIn, Mappings;
    var t := Planned(runs, leafBlocks, indexBlocks);
    PlannedRuns(runs, leafBlocks, indexBlocks);
    RunsAreMapped(t);
    RunsAreMapped(Leaf(runs));
    MappingsInjective(LeafRuns(t), runs);
  }

  /** What a plan needs of the disk: its blocks are there, and its numbers fit the fields. */
  ghost predicate Laid(fs: Fs, ino: u32, plan: Plan, runs: seq<Extent>, leafBlocks: seq<u64>, indexBlocks: seq<u64>) {
    && IsPlan(plan, runs, leafBlocks, indexBlocks, Csum.InodeSeed(fs.fsSeed, ino, 0)) && Shallow(|runs|)
    && Plannable(runs) && Numbers48(leafBlocks) && Numbers48(indexBlocks) && OnDisk(fs, plan.segments)
  }

  lemma PlanIsStored(fs: Fs, ino: u32, plan: Plan, runs: seq<Extent>, leafBlocks: seq<u64>, indexBlocks: seq<u64>)
                     returns (t: Tree)
    requires Laid(fs, ino, plan, runs, leafBlocks, indexBlocks)
    ensures Stored(fs, Owner(ino, 0), plan.root, t, Depth(|runs|)) && KeyedTree(t) && LeafRuns(t) == runs
  {
    hide RootNode, PartsOf, Planned, OnDisk, PlannedSegments, Shallow, Encoded, Stored, KeyedTree;
    t := Planned(runs, leafBlocks, indexBlocks);
    PlannedEncoded(fs, Owner(ino, 0), runs, leafBlocks, indexBlocks);
    EncodedIsStored(fs, Owner(ino, 0), plan.root, t, ROOT_ROOM, Depth(|runs|));
    PlannedKeyed(runs, leafBlocks, indexBlocks);
    PlannedLeafRuns(runs, leafBlocks, indexBlocks);
  }

  /**
    Every index entry in the root and in the index blocks of a plan carries the logical number of the first extent
    in the subtree it points to; when no two runs start at one block, the keys of every node strictly rise.
  */
  lemma PlanIsKeyed(fs: Fs, ino: u32, plan: Plan, runs: seq<Extent>, leafBlocks: seq<u64>, indexBlocks: seq<u64>)
    requires Laid(fs, ino, plan, runs, leafBlocks, indexBlocks)
    ensures Keyed(fs, plan.root, Depth(|runs|))
    ensures StrictlySorted(runs) ==> KeysRise(fs, plan.root, Depth(|runs|))
  {
    hide Laid, Keyed, KeysRise, KeyedTree, Stored, StrictlySorted;
    var t := PlanIsStored(fs, ino, plan, runs, leafBlocks, indexBlocks);
    KeyedAsStored(fs, Owner(ino, 0), plan.root, t, Depth(|runs|));
    if StrictlySorted(runs) {
      KeysOfStoredRise(fs, Owner(ino, 0), plan.root, t, Depth(|runs|));
    }
  }

  lemma InOrderSorted(runs: seq<Extent>)
    requires InOrder(runs)
    ensures Sorted(runs)
  {
  }

  /**
    Going by the keys of a plan over runs in order, the search for a logical block ends on the run that holds it if
    there is one; in any case on the last run that does not start above it.
  */
  lemma PlanFoundByKey(fs: Fs, ino: u32, plan: Plan, runs: seq<Extent>, leafBlocks: seq<u64>, indexBlocks: seq<u64>,
                       block: nat)
    requires Laid(fs, ino, plan, runs, leafBlocks, indexBlocks) && InOrder(runs)
    ensures Descend(fs, plan.root, Depth(|runs|), block) == LastRun(runs, block)
    ensures forall run :: run in runs && Holds(run, block) ==>
                            Descend(fs, plan.root, Depth(|runs|), block) == Some(run)
  {
    hide Laid, Descend, KeyedTree, Stored, InOrder, Sorted, LastRun, Holds;
    var t := PlanIsStored(fs, ino, plan, runs, leafBlocks, indexBlocks);
    InOrderSorted(runs);
    DescendFinds(fs, Owner(ino, 0), plan.root, t, Depth(|runs|), block);
    LastRunHolds(runs, block);
  }

  // ----- the shape of a plan -----

  /** The counts and the depth that the header of a plan's root stores, and the 512-byte units that its blocks take. */
  lemma PlanHeader(fs: Fs, ino: u32, plan: Plan, runs: seq<Extent>, leafBlocks: seq<u64>, indexBlocks: seq<u64>)
    requires Laid(fs, ino, plan, runs, leafBlocks, indexBlocks)
    ensures |plan.root| == 60 && plan.root[0] == 0x0A && plan.root[1] == 0xF3
    ensures Le16(plan.root, 2)
            == (if |runs| <= 4 then |runs| else if |runs| <= 4 * 340 then |leafBlocks| else |indexBlocks|)
    ensures plan.treeBlocks == 8 * (|leafBlocks| + |indexBlocks|)
    ensures Le16(plan.root, 4) == 4 && Le16(plan.root, 6) == Depth(|runs|) && Le32(plan.root, 8) == 0
  {
    hide NodeBytes, PlannedSegments, OnDisk, HeaderBytes, PartsOf, Chunks;
    var t := Planned(runs, leafBlocks, indexBlocks);
    PlanShape(|runs|);
    var h := Header(EntryCount(t), 4, Depth(|runs|), 0);
    NodeParts(PartsOf(t), 4, Depth(|runs|), 60, [], |PartsOf(t)|);
    HeaderRoundTrip(plan.root, h);
    NodeAccepted(plan.root, None);
  }
}
