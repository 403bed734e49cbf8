/**
  Checking a directory (`verify_dir`, `verify_dirent_block` in `src/reader/verify.rs`): the
  hash index is flattened into leaf ranges, and every name must hash into its leaf's range.
*/
module DirVerify {
  import opened Bytes
  import opened ExtentWalk
  import opened FileRead
  import opened Htree
  import Dirent
  import DirHash
  import Csum

  /** A leaf block and the hashes that belong in it; the collision bit is folded into the upper bound. */
  datatype Leaf = Leaf(block: u32, lo: u32, hi: nat)

  datatype Issue =
    | Hole(logical: nat)
    | BadRoot
    | RootChecksum
    | HashVersion
    | NodeUnmapped(node: u32)
    | BadNode(node: u32)
    | NodeChecksum(node: u32)
    | NodeEscapes(node: u32)
    | LeafTwice(leaf: u32)
    | LeafUnmapped(leaf: u32)
    | BadBlock(logical: nat)
    | BlockChecksum(logical: nat)
    | NoTail(logical: nat)
    | BadChain(leaf: u32)
    | OutsideRange(leaf: u32, name: seq<byte>)

  /** The directory as the check is given it: its inode, its extents, and how names are hashed. */
  datatype Dir = Dir(fs: Fs, owner: Owner, extents: seq<FileExtent>, size: u64, indexed: bool,
                     hashSeed: DirHash.HashSeed, signedness: DirHash.Signedness)
  {
    function Seed(): bv32 {
      Csum.InodeSeed(fs.fsSeed, owner.ino, owner.generation)
    }

    function Hash(name: seq<byte>): u32 {
      DirHash.NameHash(hashSeed, signedness, name)
    }

    /** The block at `logical`, if the extents map it and the device holds it. */
    function Block(logical: nat): Result<Option<seq<byte>>> {
      match FileBlock(extents, logical)
      case None => Ok(None)
      case Some(phys) =>
        var data :- ReadBlock(fs, phys);
        Ok(Some(data))
    }
  }

  const HASHES: nat := 0x1_0000_0000

  // ----- one directory block -----

  function BlockIssues(d: Dir, data: seq<byte>, logical: nat): seq<Issue>
    requires |data| == BLOCK_SIZE
  {
    if !Dirent.Scan(data, 0).ok then [BadBlock(logical)]
    else if !d.fs.metadataCsum then []
    else
      match Dirent.TailChecksum(data)
      case None => [NoTail(logical)]
      case Some(stored) => if Csum.AsU32(Csum.DirentBlock(d.Seed(), data)) != stored then [BlockChecksum(logical)]
        else []
  }

  // ----- ranges -----

  function Even(hash: u32): u32 {
    hash - hash % 2
  }

  /** The upper bound that the next entry puts on this one. */
  function UpperBound(next: u32): nat {
    if next % 2 != 0 then Even(next) + 1 else Even(next)
  }

  function Ranges(entries: seq<DxEntry>): (r: seq<Leaf>)
    ensures |r| == |entries|
  {
    seq(|entries|, i requires 0 <= i < |entries| =>
      Leaf(entries[i].block, Even(entries[i].hash), if i + 1 < |entries| then UpperBound(entries[i + 1].hash)
        else HASHES))
  }

  /** A node's first lower bound and last upper bound come from its parent. */
  function Clamped(leaves: seq<Leaf>, lo: u32, hi: nat): (r: seq<Leaf>)
    ensures |r| == |leaves|
  {
    if leaves == [] then []
    else
      var first := leaves[0 := leaves[0].(lo := lo)];
      var k := |first| - 1;
      if first[k].hi > hi then first[k := first[k].(hi := hi)] else first
  }

  predicate Nested(leaves: seq<Leaf>, lo: u32, hi: nat) {
    forall i :: 0 <= i < |leaves| ==> lo <= leaves[i].lo && leaves[i].hi <= hi
  }

  // ----- the index levels -----

  datatype Collected = Collected(leaves: seq<Leaf>, issues: seq<Issue>)

  predicate TableClean(d: Dir, block: seq<byte>, countOffset: nat, t: Table)
    requires t.count <= t.limit && countOffset + 8 * t.limit + 8 <= |block|
  {
    d.fs.metadataCsum ==> Csum.AsU32(Csum.DxBlock(d.Seed(), block, countOffset, t.count, t.limit)) == t.checksum
  }

  /** What one interior node contributes, `data` being its block. */
  function NodeCollected(d: Dir, parent: Leaf, data: seq<byte>): Collected {
    match NodeAt(data)
    case Err(_) => Collected([], [BadNode(parent.block)])
    case Ok(node) =>
      var leaves := Clamped(Ranges(node.entries), parent.lo, parent.hi);
      Collected(leaves,
        (if TableClean(d, data, NODE_COUNT_OFFSET, node) then [] else [NodeChecksum(parent.block)])
        + if Nested(leaves, parent.lo, parent.hi) then [] else [NodeEscapes(parent.block)])
  }

  /** The leaves below the given nodes, in order; nodes that cannot be used are issues. */
  function NodesCollected(d: Dir, nodes: seq<Leaf>): Result<Collected>
    decreases nodes
  {
    if nodes == [] then Ok(Collected([], []))
    else
      var last := nodes[|nodes| - 1];
      var before :- NodesCollected(d, nodes[..|nodes| - 1]);
      var data :- d.Block(last.block);
      match data
      case None => Ok(Collected(before.leaves, before.issues + [NodeUnmapped(last.block)]))
      case Some(b) =>
        var c := NodeCollected(d, last, b);
        Ok(Collected(before.leaves + c.leaves, before.issues + c.issues))
  }

  // ----- the leaves -----

  predicate Dots(name: seq<byte>) {
    name == ['.' as byte] || name == ['.' as byte, '.' as byte]
  }

  predicate InRange(hash: u32, leaf: Leaf) {
    leaf.lo <= hash < leaf.hi
  }

  function NameIssues(d: Dir, leaf: Leaf, entries: seq<Dirent.Entry>): seq<Issue>
    decreases entries
  {
    if entries == [] then []
    else
      var last := entries[|entries| - 1];
      NameIssues(d, leaf, entries[..|entries| - 1])
      + if Dots(last.name) || InRange(d.Hash(last.name), leaf) then [] else [OutsideRange(leaf.block, last.name)]
  }

  function LeafIssues(d: Dir, leaf: Leaf, data: seq<byte>): seq<Issue>
    requires |data| == BLOCK_SIZE
  {
    BlockIssues(d, data, leaf.block)
    + NameIssues(d, leaf, Dirent.Scan(data, 0).entries)
    + if Dirent.Scan(data, 0).ok then [] else [BadChain(leaf.block)]
  }

  predicate Seen(block: nat, leaves: seq<Leaf>) {
    exists i :: 0 <= i < |leaves| && leaves[i].block == block
  }

  function LeavesIssues(d: Dir, leaves: seq<Leaf>): Result<seq<Issue>>
    decreases leaves
  {
    if leaves == [] then Ok([])
    else
      var last := leaves[|leaves| - 1];
      var before :- LeavesIssues(d, leaves[..|leaves| - 1]);
      if Seen(last.block, leaves[..|leaves| - 1]) then Ok(before + [LeafTwice(last.block)])
      else
        var data :- d.Block(last.block);
        match data
        case None => Ok(before + [LeafUnmapped(last.block)])
        case Some(b) => Ok(before + LeafIssues(d, last, b))
  }

  // ----- the whole check -----

  function LinearIssues(d: Dir, blocks: nat): Result<seq<Issue>> {
    if blocks == 0 then Ok([])
    else
      var before :- LinearIssues(d, blocks - 1);
      var data :- d.Block(blocks - 1);
      match data
      case None => Ok(before + [Hole(blocks - 1)])
      case Some(b) => Ok(before + BlockIssues(d, b, blocks - 1))
  }

  function RootBlock(d: Dir): (r: Result<seq<byte>>)
    ensures r.Ok? ==> |r.value| == BLOCK_SIZE
  {
    ReadBlock(d.fs, match FileBlock(d.extents, 0) case None => 0 case Some(phys) => phys)
  }

  /** The leaf ranges under a parsed root, and the issues found on the way down to them. */
  function Flattened(d: Dir, root: RootView): Result<Collected> {
    if root.info.indirectLevels == 0 then Ok(Collected(Ranges(root.table.entries), []))
    else NodesCollected(d, Ranges(root.table.entries))
  }

  function IndexIssues(d: Dir): Result<seq<Issue>> {
    var block :- RootBlock(d);
    match RootAt(block)
    case Err(_) => Ok([BadRoot])
    case Ok(root) =>
      var first := if TableClean(d, block, ROOT_COUNT_OFFSET, root.table) then [] else [RootChecksum];
      if root.info.hashVersion != 1 then Ok(first + [HashVersion])
      else
        var more :- LevelIssues(d, root);
        Ok(first + more)
  }

  function LevelIssues(d: Dir, root: RootView): Result<seq<Issue>> {
    var c :- Flattened(d, root);
    var more :- LeavesIssues(d, c.leaves);
    Ok(c.issues + more)
  }

  function DirIssues(d: Dir): Result<seq<Issue>> {
    if d.indexed then IndexIssues(d) else LinearIssues(d, d.size / BLOCK_SIZE)
  }

  // ----- the verifier -----

  class Verifier {
    var issues: seq<Issue>

    constructor ()
      ensures issues == []
    {
      issues := [];
    }

    method VerifyDirentBlock(d: Dir, data: seq<byte>, logical: nat)
      requires |data| == BLOCK_SIZE
      modifies this
      ensures issues == old(issues) + BlockIssues(d, data, logical)
    {
      var _, ok := Dirent.Collect(data);
      if !ok {
        issues := issues + [BadBlock(logical)];
        return;
      }
      if d.fs.metadataCsum {
        match Dirent.TailChecksum(data) {
          case Some(stored) =>
            if Csum.AsU32(Csum.DirentBlock(d.Seed(), data)) != stored {
              issues := issues + [BlockChecksum(logical)];
            }
          case None => issues := issues + [NoTail(logical)];
        }
      }
    }

    method CollectRanges(entries: seq<DxEntry>) returns (v: seq<Leaf>)
      ensures v == Ranges(entries)
    {
      v := [];
      for i := 0 to |entries|
        invariant |v| == i && forall k :: 0 <= k < i ==> v[k] == Ranges(entries)[k]
      {
        var hi := HASHES;
        if i + 1 < |entries| {
          var next := entries[i + 1].hash;
          var base := next - next % 2;
          hi := if next % 2 != 0 then base + 1 else base;
        }
        v := v + [Leaf(entries[i].block, entries[i].hash - entries[i].hash % 2, hi)];
      }
    }

    /** Patches the ends of a node's ranges, and reports the first range that leaves its parent's. */
    method ClampNode(parent: Leaf, ranges: seq<Leaf>) returns (leaves: seq<Leaf>)
      modifies this
      ensures leaves == Clamped(ranges, parent.lo, parent.hi)
      ensures issues == old(issues) + if Nested(leaves, parent.lo, parent.hi) then [] else [NodeEscapes(parent.block)]
    {
      leaves := ranges;
      if leaves != [] {
        leaves := leaves[0 := leaves[0].(lo := parent.lo)];
        var k := |leaves| - 1;
        if leaves[k].hi > parent.hi {
          leaves := leaves[k := leaves[k].(hi := parent.hi)];
        }
      }
      ghost var before := issues;
      for i := 0 to |leaves|
        invariant issues == before
        invariant forall k :: 0 <= k < i ==> parent.lo <= leaves[k].lo && leaves[k].hi <= parent.hi
      {
        if leaves[i].lo < parent.lo || leaves[i].hi > parent.hi {
          issues := issues + [NodeEscapes(parent.block)];
          return;
        }
      }
    }

    method CheckTable(d: Dir, block: seq<byte>, countOffset: nat, t: Table, issue: Issue)
      requires t.count <= t.limit && countOffset + 8 * t.limit + 8 <= |block|
      modifies this
      ensures issues == old(issues) + if TableClean(d, block, countOffset, t) then [] else [issue]
    {
      if d.fs.metadataCsum {
        if Csum.AsU32(Csum.DxBlock(d.Seed(), block, countOffset, t.count, t.limit)) != t.checksum {
          issues := issues + [issue];
        }
      }
    }

    method VisitNode(d: Dir, parent: Leaf, data: seq<byte>) returns (leaves: seq<Leaf>)
      modifies this
      ensures Collected(leaves, issues)
              == Collected(NodeCollected(d, parent, data).leaves, old(issues) + NodeCollected(d, parent, data).issues)
    {
      hide Clamped, Nested, NodeAt, TableClean, Ranges;
      var parsed := ParseNode(data);
      if parsed.Err? {
        issues := issues + [BadNode(parent.block)];
        return [];
      }
      var node := parsed.value;
      CheckTable(d, data, NODE_COUNT_OFFSET, node, NodeChecksum(parent.block));
      var ranges := CollectRanges(node.entries);
      leaves := ClampNode(parent, ranges);
    }

    method CollectNodes(d: Dir, nodes: seq<Leaf>) returns (r: Result<seq<Leaf>>)
      modifies this
      ensures match NodesCollected(d, nodes)
              case Ok(c) => r == Ok(c.leaves) && issues == old(issues) + c.issues
              case Err(e) => r == Err(e)
    {
      hide NodeCollected;
      var leaves: seq<Leaf> := [];
      for i := 0 to |nodes|
        invariant NodesCollected(d, nodes[..i]).Ok?
        invariant leaves == NodesCollected(d, nodes[..i]).value.leaves
        invariant issues == old(issues) + NodesCollected(d, nodes[..i]).value.issues
      {
        PrefixStep(nodes, i);
        match FileBlock(d.extents, nodes[i].block) {
          case None =>
            issues := issues + [NodeUnmapped(nodes[i].block)];
          case Some(phys) =>
            var data := ReadBlock(d.fs, phys);
            if data.Err? {
              NodesFail(d, nodes, i);
              return Err(data.error);
            }
            var more := VisitNode(d, nodes[i], data.value);
            leaves := leaves + more;
        }
      }
      assert nodes[..|nodes|] == nodes;
      return Ok(leaves);
    }

    /** Every name of a leaf is hashed; the first bad record ends the walk. */
    method CheckNames(d: Dir, leaf: Leaf, data: seq<byte>)
      modifies this
      ensures issues == old(issues) + NameIssues(d, leaf, Dirent.Scan(data, 0).entries)
                        + if Dirent.Scan(data, 0).ok then [] else [BadChain(leaf.block)]
    {
      var it := new Dirent.DirentIter(data);
      ghost var seen: seq<Dirent.Entry> := [];
      ghost var before := issues;
      assert issues == before + NameIssues(d, leaf, []);
      while true
        invariant fresh(it) && it.block == data
        invariant Dirent.Scan(data, 0) == Dirent.Listing(seen + it.Rest().entries, it.Rest().ok)
        invariant issues == before + NameIssues(d, leaf, seen)
        decreases |it.Rest().entries|
      {
        var next := it.Next();
        if next.None? {
          assert seen + [] == seen;
          return;
        }
        if next.value.Err? {
          assert seen + [] == seen;
          issues := issues + [BadChain(leaf.block)];
          return;
        }
        var e := next.value.value;
        NamesStep(d, leaf, seen, e);
        AppendAssociates(seen, [e], it.Rest().entries);
        seen := seen + [e];
        if Dots(e.name) {
          continue;
        }
        var h := d.Hash(e.name);
        if h < leaf.lo || h >= leaf.hi {
          issues := issues + [OutsideRange(leaf.block, e.name)];
        }
      }
    }

    method CheckLeaves(d: Dir, leaves: seq<Leaf>) returns (r: Outcome)
      modifies this
      ensures match LeavesIssues(d, leaves)
              case Ok(more) => r == Pass && issues == old(issues) + more
              case Err(e) => r == Fail(e)
    {
      hide LeafIssues, BlockIssues, NameIssues;
      var seen: set<u32> := {};
      for i := 0 to |leaves|
        invariant forall b: u32 :: b in seen <==> Seen(b, leaves[..i])
        invariant LeavesIssues(d, leaves[..i]).Ok? && issues == old(issues) + LeavesIssues(d, leaves[..i]).value
      {
        PrefixStep(leaves, i);
        var leaf := leaves[i];
        SeenStep(leaves, i);
        if leaf.block in seen {
          issues := issues + [LeafTwice(leaf.block)];
        } else {
          seen := seen + {leaf.block};
          match FileBlock(d.extents, leaf.block) {
            case None =>
              issues := issues + [LeafUnmapped(leaf.block)];
            case Some(phys) =>
              var data := ReadBlock(d.fs, phys);
              if data.Err? {
                LeavesFail(d, leaves, i);
                return Fail(data.error);
              }
              CheckLeaf(d, leaf, data.value);
          }
        }
      }
      assert leaves[..|leaves|] == leaves;
      return Pass;
    }

    method CheckLeaf(d: Dir, leaf: Leaf, data: seq<byte>)
      requires |data| == BLOCK_SIZE
      modifies this
      ensures issues == old(issues) + LeafIssues(d, leaf, data)
    {
      hide BlockIssues, NameIssues;
      VerifyDirentBlock(d, data, leaf.block);
      CheckNames(d, leaf, data);
    }

    method VerifyLinear(d: Dir) returns (r: Outcome)
      modifies this
      ensures match LinearIssues(d, d.size / BLOCK_SIZE)
              case Ok(more) => r == Pass && issues == old(issues) + more
              case Err(e) => r == Fail(e)
    {
      hide BlockIssues;
      var total := d.size / BLOCK_SIZE;
      for logical := 0 to total
        invariant LinearIssues(d, logical).Ok? && issues == old(issues) + LinearIssues(d, logical).value
      {
        match FileBlock(d.extents, logical) {
          case None =>
            issues := issues + [Hole(logical)];
          case Some(phys) =>
            var data := ReadBlock(d.fs, phys);
            if data.Err? {
              LinearFails(d, logical, total);
              return Fail(data.error);
            }
            VerifyDirentBlock(d, data.value, logical);
        }
      }
      return Pass;
    }

    /** Passes with exactly the listed issues added, or fails when a block cannot be read. */
    method VerifyDir(d: Dir) returns (r: Outcome)
      modifies this
      ensures match DirIssues(d)
              case Ok(more) => r == Pass && issues == old(issues) + more
              case Err(e) => r == Fail(e)
    {
      hide RootAt, TableClean, LevelIssues, LinearIssues;
      if !d.indexed {
        r := VerifyLinear(d);
        return;
      }
      var at := match FileBlock(d.extents, 0) case None => 0 case Some(phys) => phys;
      var block := ReadBlock(d.fs, at);
      if block.Err? { return Fail(block.error); }
      var parsed := ParseRoot(block.value);
      if parsed.Err? {
        issues := issues + [BadRoot];
        return Pass;
      }
      var root := parsed.value;
      CheckTable(d, block.value, ROOT_COUNT_OFFSET, root.table, RootChecksum);
      if root.info.hashVersion != 1 {
        issues := issues + [HashVersion];
        return Pass;
      }
      r := VerifyLevels(d, root);
    }

    method VerifyLevels(d: Dir, root: RootView) returns (r: Outcome)
      modifies this
      ensures match LevelIssues(d, root)
              case Ok(more) => r == Pass && issues == old(issues) + more
              case Err(e) => r == Fail(e)
    {
      hide Ranges, NodesCollected, LeavesIssues;
      var leaves := CollectRanges(root.table.entries);
      if root.info.indirectLevels != 0 {
        var c := CollectNodes(d, leaves);
        if c.Err? { return Fail(c.error); }
        leaves := c.value;
      }
      r := CheckLeaves(d, leaves);
    }
  }

  lemma NamesStep(d: Dir, leaf: Leaf, seen: seq<Dirent.Entry>, e: Dirent.Entry)
    ensures NameIssues(d, leaf, seen + [e])
            == NameIssues(d, leaf, seen)
              + if Dots(e.name) || InRange(d.Hash(e.name), leaf) then [] else [OutsideRange(leaf.block, e.name)]
  {
  }

  lemma SeenStep(leaves: seq<Leaf>, i: nat)
    requires i < |leaves|
    ensures forall b: nat :: Seen(b, leaves[..i + 1]) <==> Seen(b, leaves[..i]) || b == leaves[i].block
  {
  }

  lemma {:induction false} LeavesFail(d: Dir, leaves: seq<Leaf>, i: nat)
    requires i < |leaves| && LeavesIssues(d, leaves[..i]).Ok? && !Seen(leaves[i].block, leaves[..i])
             && d.Block(leaves[i].block).Err?
    ensures LeavesIssues(d, leaves) == Err(d.Block(leaves[i].block).error)
    decreases |leaves|
  {
    hide LeafIssues, Seen;
    if i + 1 < |leaves| {
      var init := leaves[..|leaves| - 1];
      assert init[..i] == leaves[..i];
      LeavesFail(d, init, i);
    }
  }

  lemma {:induction false} LinearFails(d: Dir, i: nat, blocks: nat)
    requires i < blocks && LinearIssues(d, i).Ok? && d.Block(i).Err?
    ensures LinearIssues(d, blocks) == Err(d.Block(i).error)
    decreases blocks
  {
    hide BlockIssues;
    if i + 1 < blocks {
      LinearFails(d, i, blocks - 1);
    }
  }

  lemma PrefixStep<T>(s: seq<T>, i: nat)
    requires i < |s|
    ensures s[..i + 1][..i] == s[..i] && s[..i + 1][i] == s[i] && |s[..i + 1]| == i + 1
  {
  }

  /** A read that fails ends the whole collection with its error. */
  lemma {:induction false} NodesFail(d: Dir, nodes: seq<Leaf>, i: nat)
    requires i < |nodes| && NodesCollected(d, nodes[..i]).Ok? && d.Block(nodes[i].block).Err?
    ensures NodesCollected(d, nodes) == Err(d.Block(nodes[i].block).error)
    decreases |nodes|
  {
    hide NodeCollected;
    if i + 1 < |nodes| {
      var init := nodes[..|nodes| - 1];
      assert init[..i] == nodes[..i];
      NodesFail(d, init, i);
    }
  }
}
