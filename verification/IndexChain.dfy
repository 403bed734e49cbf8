/**
  What a directory that raises no issue guarantees: its leaf ranges cover every hash, and
  looking only where a name's hash points finds what a scan of all leaves finds.
*/
module IndexChain {
  import opened Bytes
  import opened Htree
  import opened DirVerify
  import Dirent

  /** The upper bound of one range is the next lower bound, or exceeds it by the collision bit. */
  predicate Meets(hi: nat, lo: nat) {
    hi == lo || hi == lo + 1
  }

  ghost predicate Chain(leaves: seq<Leaf>, lo: nat, hi: nat) {
    && leaves != []
    && leaves[0].lo == lo && leaves[|leaves| - 1].hi == hi
    && forall i, j :: 0 <= i && j == i + 1 < |leaves| ==> Meets(leaves[i].hi, leaves[j].lo)
  }

  // ----- one level -----

  lemma BoundMeets(hash: u32)
    ensures Meets(UpperBound(hash), Even(hash)) && (UpperBound(hash) == Even(hash) + 1 <==> hash % 2 == 1)
    ensures UpperBound(hash) < HASHES
  {
  }

  /** A parsed table covers the whole hash space whatever its hashes are. */
  lemma RangesChain(entries: seq<DxEntry>)
    requires entries != [] && entries[0].hash == 0
    ensures Chain(Ranges(entries), 0, 0x1_0000_0000)
    ensures forall i :: 0 <= i < |entries| ==> Ranges(entries)[i].hi <= HASHES
  {
    hide Even, UpperBound;
    assert Even(0) == 0 by { BoundZero(); }
    forall i | 0 < i < |entries|
      ensures Meets(UpperBound(entries[i].hash), Even(entries[i].hash)) && UpperBound(entries[i].hash) <= HASHES
    {
      BoundMeets(entries[i].hash);
    }
  }

  lemma BoundZero()
    ensures Even(0) == 0
  {
  }

  /** A node's ranges cover exactly what its parent's entry covers. */
  lemma ClampedChain(entries: seq<DxEntry>, lo: u32, hi: nat)
    requires entries != [] && entries[0].hash == 0 && hi <= HASHES
    ensures Chain(Clamped(Ranges(entries), lo, hi), lo, hi)
  {
    hide Ranges;
    RangesChain(entries);
    ClampKeepsChain(Ranges(entries), lo, hi);
  }

  lemma ClampKeepsChain(leaves: seq<Leaf>, lo: u32, hi: nat)
    requires Chain(leaves, 0, HASHES) && hi <= HASHES
    ensures Chain(Clamped(leaves, lo, hi), lo, hi)
  {
  }

  lemma AppendChain(a: seq<Leaf>, b: seq<Leaf>, lo: nat, m: nat, n: nat, hi: nat)
    requires Chain(a, lo, m) && Chain(b, n, hi) && Meets(m, n)
    ensures Chain(a + b, lo, hi)
  {
  }

  lemma ChainInit(leaves: seq<Leaf>, lo: nat, hi: nat)
    requires Chain(leaves, lo, hi) && 2 <= |leaves|
    ensures var k := |leaves| - 1;
            Chain(leaves[..k], lo, leaves[k - 1].hi) && Meets(leaves[k - 1].hi, leaves[k].lo)
  {
  }

  // ----- both levels -----

  lemma NodeChain(d: Dir, parent: Leaf, data: seq<byte>)
    requires parent.hi <= HASHES && NodeCollected(d, parent, data).issues == []
    ensures Chain(NodeCollected(d, parent, data).leaves, parent.lo, parent.hi)
  {
    hide Clamped, Ranges, Nested, TableClean;
    assert NodeAt(data).Ok?;
    TableStartsAtZero(data, NODE_COUNT_OFFSET);
    ClampedChain(NodeAt(data).value.entries, parent.lo, parent.hi);
  }

  lemma TableStartsAtZero(b: seq<byte>, countOffset: nat)
    requires countOffset + 4 <= |b| && TableAt(b, countOffset).Ok?
    ensures var es := TableAt(b, countOffset).value.entries;
            es != [] && es[0].hash == 0
  {
  }

  /** Without an issue, every node has contributed, and the leaves below cover what the nodes cover. */
  lemma {:induction false} NodesChain(d: Dir, nodes: seq<Leaf>, lo: nat, hi: nat)
    requires Chain(nodes, lo, hi) && forall i :: 0 <= i < |nodes| ==> nodes[i].hi <= HASHES
    requires NodesCollected(d, nodes).Ok? && NodesCollected(d, nodes).value.issues == []
    ensures Chain(NodesCollected(d, nodes).value.leaves, lo, hi)
    decreases |nodes|
  {
    hide NodeCollected;
    var k := |nodes| - 1;
    var data := d.Block(nodes[k].block).value;
    NodeChain(d, nodes[k], data.value);
    var own := NodeCollected(d, nodes[k], data.value).leaves;
    if k == 0 {
      assert nodes[..0] == [];
      assert [] + own == own;
    } else {
      ChainInit(nodes, lo, hi);
      NodesChain(d, nodes[..k], lo, nodes[k - 1].hi);
      AppendChain(NodesCollected(d, nodes[..k]).value.leaves, own, lo, nodes[k - 1].hi, nodes[k].lo, hi);
    }
  }

  // ----- a clean index -----

  /** The flattened leaf ranges of an indexed directory, where its root can be used. */
  function IndexLeaves(d: Dir): seq<Leaf> {
    if RootBlock(d).Err? || RootAt(RootBlock(d).value).Err? then []
    else
      match Flattened(d, RootAt(RootBlock(d).value).value)
      case Ok(c) => c.leaves
      case Err(_) => []
  }

  function LeafEntries(d: Dir, leaf: Leaf): seq<Dirent.Entry> {
    match d.Block(leaf.block)
    case Ok(Some(data)) => Dirent.Scan(data, 0).entries
    case _ => []
  }

  /** The leaf is mapped, its records tile it, and all its names belong in its range. */
  ghost predicate Placed(d: Dir, leaf: Leaf) {
    && d.Block(leaf.block).Ok? && d.Block(leaf.block).value.Some?
    && Dirent.Scan(d.Block(leaf.block).value.value, 0).ok
    && forall e :: e in LeafEntries(d, leaf) ==> Dots(e.name) || InRange(d.Hash(e.name), leaf)
  }

  lemma {:induction false} NamesInRange(d: Dir, leaf: Leaf, entries: seq<Dirent.Entry>)
    ensures NameIssues(d, leaf, entries) == []
            <==> forall e :: e in entries ==> Dots(e.name) || InRange(d.Hash(e.name), leaf)
    decreases entries
  {
    hide Dots, InRange;
    if entries != [] {
      var k := |entries| - 1;
      NamesInRange(d, leaf, entries[..k]);
      assert entries == entries[..k] + [entries[k]];
    }
  }

  lemma {:induction false} LeavesPlaced(d: Dir, leaves: seq<Leaf>, i: nat)
    requires LeavesIssues(d, leaves) == Ok([]) && i < |leaves|
    ensures Placed(d, leaves[i]) && !Seen(leaves[i].block, leaves[..i])
    decreases |leaves|
  {
    hide LeavesIssues, Placed, Seen;
    LastLeafPlaced(d, leaves);
    var k := |leaves| - 1;
    if i < k {
      LeavesPlaced(d, leaves[..k], i);
      assert leaves[..k][..i] == leaves[..i];
    }
  }

  lemma LastLeafPlaced(d: Dir, leaves: seq<Leaf>)
    requires LeavesIssues(d, leaves) == Ok([]) && leaves != []
    ensures var k := |leaves| - 1;
            LeavesIssues(d, leaves[..k]) == Ok([]) && Placed(d, leaves[k]) && !Seen(leaves[k].block, leaves[..k])
  {
    hide NameIssues, BlockIssues, Seen;
    var leaf := leaves[|leaves| - 1];
    NamesInRange(d, leaf, LeafEntries(d, leaf));
  }

  /** No issue: the ranges chain from 0 to 2^32, blocks are distinct, and every leaf is in place. */
  lemma CleanIndex(d: Dir)
    requires d.indexed && DirIssues(d) == Ok([])
    ensures Chain(IndexLeaves(d), 0, 0x1_0000_0000)
    ensures forall i :: 0 <= i < |IndexLeaves(d)| ==> Placed(d, IndexLeaves(d)[i])
    ensures forall i, j :: 0 <= i < j < |IndexLeaves(d)| ==> IndexLeaves(d)[i].block != IndexLeaves(d)[j].block
  {
    hide Ranges, NodesCollected, LeavesIssues, TableClean, Placed;
    var block := RootBlock(d).value;
    var root := RootAt(block).value;
    TableStartsAtZero(block, ROOT_COUNT_OFFSET);
    RangesChain(root.table.entries);
    var leaves := IndexLeaves(d);
    assert Flattened(d, root).value.issues == [] && LeavesIssues(d, leaves) == Ok([]);
    if root.info.indirectLevels != 0 {
      NodesChain(d, Ranges(root.table.entries), 0, HASHES);
    }
    forall i | 0 <= i < |leaves| ensures Placed(d, leaves[i]) && !Seen(leaves[i].block, leaves[..i]) {
      LeavesPlaced(d, leaves, i);
    }
    forall i, j | 0 <= i < j < |leaves| ensures leaves[i].block != leaves[j].block {
      assert leaves[..j][i].block == leaves[i].block;
    }
  }

  // ----- covering -----

  /** Every hash below the end of a chain lies in some range, in whatever order the ranges come. */
  lemma {:induction false} Covered(leaves: seq<Leaf>, lo: nat, hi: nat, h: u32) returns (i: nat)
    requires Chain(leaves, lo, hi) && lo <= h < hi
    ensures i < |leaves| && InRange(h, leaves[i])
    decreases |leaves|
  {
    var k := |leaves| - 1;
    if leaves[k].lo <= h {
      i := k;
    } else {
      ChainInit(leaves, lo, hi);
      i := Covered(leaves[..k], lo, leaves[k - 1].hi, h);
    }
  }

  lemma EveryHashHasALeaf(d: Dir, h: u32)
    requires d.indexed && DirIssues(d) == Ok([])
    ensures exists i :: 0 <= i < |IndexLeaves(d)| && InRange(h, IndexLeaves(d)[i])
  {
    CleanIndex(d);
    var i := Covered(IndexLeaves(d), 0, HASHES, h);
  }

  // ----- ascending ranges -----

  ghost predicate Ascending(leaves: seq<Leaf>) {
    forall i, j :: 0 <= i < j < |leaves| ==> leaves[i].lo < leaves[j].lo
  }

  /** Two ranges share a hash exactly when they are neighbours with the collision bit between them. */
  lemma SharedIffCollision(leaves: seq<Leaf>, lo: nat, i: nat, j: nat, h: u32)
    requires Chain(leaves, lo, HASHES) && Ascending(leaves) && i < j < |leaves|
    ensures InRange(h, leaves[i]) && InRange(h, leaves[j]) <==> j == i + 1 && h == leaves[j].lo && leaves[i].hi == h + 1
  {
    assert Meets(leaves[i].hi, leaves[i + 1].lo);
    assert leaves[i + 1].lo <= leaves[j].lo;
    if j + 1 < |leaves| {
      assert Meets(leaves[j].hi, leaves[j + 1].lo);
    }
  }

  /** So an indexed lookup visits at most two leaves. */
  lemma AtMostTwoLeaves(leaves: seq<Leaf>, lo: nat, h: u32) returns (i: nat)
    requires Chain(leaves, lo, HASHES) && Ascending(leaves)
    ensures forall j :: 0 <= j < |leaves| && InRange(h, leaves[j]) ==> j == i || j == i + 1
  {
    i := 0;
    if j: nat :| j < |leaves| && InRange(h, leaves[j]) {
      LeastInRange(leaves, h, j);
      var first: nat :| first < |leaves| && InRange(h, leaves[first])
        && forall k :: 0 <= k < first ==> !InRange(h, leaves[k]);
      i := first;
      forall j | 0 <= j < |leaves| && InRange(h, leaves[j]) ensures j == i || j == i + 1 {
        if i < j { SharedIffCollision(leaves, lo, i, j, h); }
      }
    }
  }

  lemma {:induction false} LeastInRange(leaves: seq<Leaf>, h: u32, j: nat)
    requires j < |leaves| && InRange(h, leaves[j])
    ensures exists first: nat ::
              first < |leaves| && InRange(h, leaves[first]) && forall k :: 0 <= k < first ==> !InRange(h, leaves[k])
    decreases j
  {
    if k :| 0 <= k < j && InRange(h, leaves[k]) {
      LeastInRange(leaves, h, k);
    }
  }

  // ----- lookups -----

  function Find(entries: seq<Dirent.Entry>, name: seq<byte>): Option<Dirent.Entry> {
    if entries == [] then None
    else if entries[0].name == name then Some(entries[0])
    else Find(entries[1..], name)
  }

  /** The linear lookup: leaf after leaf, first match. */
  function Scanned(d: Dir, leaves: seq<Leaf>, name: seq<byte>): Option<Dirent.Entry> {
    if leaves == [] then None
    else
      match Find(LeafEntries(d, leaves[0]), name)
      case Some(e) => Some(e)
      case None => Scanned(d, leaves[1..], name)
  }

  /** The leaves whose range contains a hash, in the given order. */
  function Candidates(leaves: seq<Leaf>, h: u32): seq<Leaf> {
    if leaves == [] then []
    else (if InRange(h, leaves[0]) then [leaves[0]] else []) + Candidates(leaves[1..], h)
  }

  lemma {:induction false} FoundIsThere(entries: seq<Dirent.Entry>, name: seq<byte>)
    ensures match Find(entries, name)
            case Some(e) => e in entries && e.name == name
            case None => forall e :: e in entries ==> e.name != name
    decreases entries
  {
    if entries != [] && entries[0].name != name {
      FoundIsThere(entries[1..], name);
      assert entries == [entries[0]] + entries[1..];
    }
  }

  /**
    Visiting only the leaves whose range holds the name's hash finds the very entry that scanning
    all of them finds, whichever leaves are scanned and in whichever order.
  */
  lemma {:induction false} IndexedLookupAgrees(d: Dir, leaves: seq<Leaf>, name: seq<byte>)
    requires !Dots(name) && forall i :: 0 <= i < |leaves| ==> Placed(d, leaves[i])
    ensures Scanned(d, Candidates(leaves, d.Hash(name)), name) == Scanned(d, leaves, name)
    decreases leaves
  {
    hide LeafEntries, InRange, Dots;
    if leaves != [] {
      var leaf, rest := leaves[0], leaves[1..];
      IndexedLookupAgrees(d, rest, name);
      FoundIsThere(LeafEntries(d, leaf), name);
      var h := d.Hash(name);
      if InRange(h, leaf) {
        assert Candidates(leaves, h) == [leaf] + Candidates(rest, h);
        assert Candidates(leaves, h)[1..] == Candidates(rest, h);
      } else {
        assert Candidates(leaves, h) == Candidates(rest, h);
        assert Placed(d, leaf);
      }
    }
  }

  /** For a directory without issues: any scan over its leaves may be narrowed to the candidates. */
  lemma CleanLookup(d: Dir, order: seq<Leaf>, name: seq<byte>)
    requires d.indexed && DirIssues(d) == Ok([]) && !Dots(name)
    requires forall leaf :: leaf in order ==> leaf in IndexLeaves(d)
    ensures Scanned(d, Candidates(order, d.Hash(name)), name) == Scanned(d, order, name)
  {
    hide IndexLeaves, Placed, DirIssues, Dots;
    CleanIndex(d);
    forall i | 0 <= i < |order| ensures Placed(d, order[i]) {
      assert order[i] in order;
    }
    IndexedLookupAgrees(d, order, name);
  }
}
