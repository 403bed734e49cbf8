/**
  The bulk-built hash index (`build` in `src/build/htree.rs`): entries in hash order are packed
  into leaves, and every leaf's slot carries its first hash, with the collision bit when the
  leaf before ends on that hash.
*/
module IndexBuild {
  import opened Bytes
  import opened ExtentWalk
  import opened Htree
  import opened DirVerify
  import opened DirRead
  import opened DirBlocks
  import opened DirBuild
  import opened IndexChain
  import Dirent
  import Csum

  /** How names are hashed; everything up to the final theorem holds for any hash without a low bit. */
  type Hasher = seq<byte> -> u32

  ghost predicate LowBitsClear(hash: Hasher) {
    forall name :: hash(name) % 2 == 0
  }

  function H(hash: Hasher, it: Item): u32 {
    hash(it.name)
  }

  /** The order in which entries are packed. */
  predicate InHashOrder(hash: Hasher, items: seq<Item>) {
    forall i, j :: 0 <= i < j < |items| ==> H(hash, items[i]) <= H(hash, items[j])
  }

  function FirstHash(hash: Hasher, leaf: seq<Item>): u32
    requires leaf != []
  {
    H(hash, leaf[0])
  }

  function LastHash(hash: Hasher, leaf: seq<Item>): u32
    requires leaf != []
  {
    H(hash, leaf[|leaf| - 1])
  }

  predicate NoneEmpty(leaves: seq<seq<Item>>) {
    forall k :: 0 <= k < |leaves| ==> leaves[k] != []
  }

  /** Setting the low bit of an even hash. */
  function OrOne(h: u32): u32 {
    if h % 2 == 0 then h + 1 else h
  }

  /** Slot `k`: the leaf's first hash, odd when the leaf before ends with the same hash. */
  function DxAt(hash: Hasher, leaves: seq<seq<Item>>, k: nat): DxEntry
    requires NoneEmpty(leaves) && k < |leaves| < 0x1_0000_0000
  {
    var first := FirstHash(hash, leaves[k]);
    DxEntry(if 0 < k && LastHash(hash, leaves[k - 1]) == first then OrOne(first) else first, k + 1)
  }

  function LeafDx(hash: Hasher, leaves: seq<seq<Item>>): (r: seq<DxEntry>)
    requires NoneEmpty(leaves) && |leaves| < 0x1_0000_0000
    ensures |r| == |leaves|
  {
    seq(|leaves|, k requires 0 <= k < |leaves| => DxAt(hash, leaves, k))
  }

  /** The loop walks the sorted entries beside the leaves, and remembers the last hash of the leaf before. */
  method BuildLeafDx(hash: Hasher, items: seq<Item>, leaves: seq<seq<Item>>) returns (dx: seq<DxEntry>)
    requires NoneEmpty(leaves) && |leaves| < 0x1_0000_0000 && Flatten(leaves) == items
    ensures dx == LeafDx(hash, leaves)
  {
    hide H, Flatten;
    dx := [];
    FlattenNone();
    var prevLast: Option<u32> := None;
    var base := 0;
    assert leaves[..0] == [];
    for k := 0 to |leaves|
      invariant base == |Flatten(leaves[..k])|
      invariant prevLast == if k == 0 then None else Some(LastHash(hash, leaves[k - 1]))
      invariant |dx| == k && forall j :: 0 <= j < k ==> dx[j] == DxAt(hash, leaves, j)
    {
      LeafEnds(leaves, k);
      var first := H(hash, items[base]);
      var bound := if 0 < k && prevLast == Some(first) then OrOne(first) else first;
      dx := dx + [DxEntry(bound, k + 1)];
      prevLast := Some(H(hash, items[base + |leaves[k]| - 1]));
      base := base + |leaves[k]|;
    }
  }

  lemma {:induction false} LeafInItems(leaves: seq<seq<Item>>, k: nat)
    requires k < |leaves|
    ensures var base := |Flatten(leaves[..k])|;
            && |Flatten(leaves[..k + 1])| == base + |leaves[k]| <= |Flatten(leaves)|
            && forall i :: 0 <= i < |leaves[k]| ==> Flatten(leaves)[base + i] == leaves[k][i]
    decreases leaves
  {
    var n := |leaves| - 1;
    if k == n {
      assert leaves[..n + 1] == leaves;
    } else {
      LeafInItems(leaves[..n], k);
      assert leaves[..n][..k] == leaves[..k] && leaves[..n][..k + 1] == leaves[..k + 1];
    }
  }

  lemma FlattenNone()
    ensures Flatten([]) == []
  {
  }

  lemma LeafEnds(leaves: seq<seq<Item>>, k: nat)
    requires k < |leaves| && leaves[k] != []
    ensures var base := |Flatten(leaves[..k])|;
            && |Flatten(leaves[..k + 1])| == base + |leaves[k]| <= |Flatten(leaves)|
            && Flatten(leaves)[base] == leaves[k][0]
               && Flatten(leaves)[base + |leaves[k]| - 1] == leaves[k][|leaves[k]| - 1]
  {
    hide Flatten;
    LeafInItems(leaves, k);
    assert Flatten(leaves)[|Flatten(leaves[..k])| + 0] == leaves[k][0];
  }

  // ----- order within and between leaves -----

  lemma LeavesInOrder(leaves: seq<seq<Item>>, a: nat, i: nat, b: nat, j: nat) returns (p: nat, q: nat)
    requires a <= b < |leaves| && i < |leaves[a]| && j < |leaves[b]| && (a == b ==> i < j)
    ensures p < q < |Flatten(leaves)| && Flatten(leaves)[p] == leaves[a][i] && Flatten(leaves)[q] == leaves[b][j]
  {
    hide Flatten;
    p := InItems(leaves, a, i);
    q := InItems(leaves, b, j);
    PrefixLengths(leaves, a, b);
  }

  lemma InItems(leaves: seq<seq<Item>>, a: nat, i: nat) returns (p: nat)
    requires a < |leaves| && i < |leaves[a]|
    ensures p == |Flatten(leaves[..a])| + i < |Flatten(leaves)| && Flatten(leaves)[p] == leaves[a][i]
  {
    hide Flatten;
    LeafInItems(leaves, a);
    p := |Flatten(leaves[..a])| + i;
  }

  lemma {:induction false} PrefixLengths(leaves: seq<seq<Item>>, a: nat, b: nat)
    requires a <= b < |leaves|
    ensures a < b ==> |Flatten(leaves[..a])| + |leaves[a]| <= |Flatten(leaves[..b])|
    decreases b
  {
    if a < b {
      LeafInItems(leaves, b - 1);
      PrefixLengths(leaves, a, b - 1);
    }
  }

  /** Hashes never fall along the leaves. */
  lemma HashesRise(hash: Hasher, leaves: seq<seq<Item>>, a: nat, i: nat, b: nat, j: nat)
    requires InHashOrder(hash, Flatten(leaves))
    requires a <= b < |leaves| && i < |leaves[a]| && j < |leaves[b]| && (a == b ==> i <= j)
    ensures H(hash, leaves[a][i]) <= H(hash, leaves[b][j])
  {
    hide H;
    if a != b || i != j {
      var p, q := LeavesInOrder(leaves, a, i, b, j);
    }
  }

  lemma DxIs(hash: Hasher, leaves: seq<seq<Item>>, k: nat)
    requires NoneEmpty(leaves) && k < |leaves| < 0x1_0000_0000
    ensures LeafDx(hash, leaves)[k] == DxAt(hash, leaves, k)
  {
  }

  /** Slots never fall either, collision bits included. */
  lemma DxRises(hash: Hasher, leaves: seq<seq<Item>>, a: nat, b: nat)
    requires LowBitsClear(hash) && NoneEmpty(leaves) && |leaves| < 0x1_0000_0000 && InHashOrder(hash, Flatten(leaves))
             && a <= b < |leaves|
    ensures LeafDx(hash, leaves)[a].hash <= LeafDx(hash, leaves)[b].hash
  {
    hide H, InHashOrder, LeafDx;
    DxIs(hash, leaves, a);
    DxIs(hash, leaves, b);
    if a < b {
      HashesRise(hash, leaves, a, 0, b, 0);
      HashesRise(hash, leaves, a, 0, b - 1, 0);
      HashesRise(hash, leaves, b - 1, 0, b - 1, |leaves[b - 1]| - 1);
      HashesRise(hash, leaves, b - 1, |leaves[b - 1]| - 1, b, 0);
    }
  }

  // ----- every name in its range -----

  lemma RangeIs(dx: seq<DxEntry>, k: nat)
    requires k < |dx|
    ensures Ranges(Implicit(dx))[k]
            == Leaf(dx[k].block, if k == 0 then 0
              else Even(dx[k].hash), if k + 1 < |dx| then UpperBound(dx[k + 1].hash) else HASHES)
  {
    hide Even, UpperBound;
    BoundZero();
  }

  lemma SlotBounds(hash: Hasher, leaves: seq<seq<Item>>, k: nat)
    requires LowBitsClear(hash) && NoneEmpty(leaves) && k < |leaves| < 0x1_0000_0000
    ensures var first, slot := FirstHash(hash, leaves[k]), LeafDx(hash, leaves)[k];
            && slot.block == k + 1
            && Even(slot.hash) == first
            && UpperBound(slot.hash) == first + if 0 < k && LastHash(hash, leaves[k - 1]) == first then 1 else 0
  {
    DxIs(hash, leaves, k);
    hide LeafDx;
    assert hash(leaves[k][0].name) % 2 == 0;
  }

  lemma RangeAt(hash: Hasher, leaves: seq<seq<Item>>, k: nat)
    requires LowBitsClear(hash) && NoneEmpty(leaves) && |leaves| < 0x1_0000_0000 && k < |leaves|
    ensures var r := Ranges(Implicit(LeafDx(hash, leaves)))[k];
            && r.block == k + 1
            && r.lo == (if k == 0 then 0 else FirstHash(hash, leaves[k]))
            && r.hi == (if k + 1 < |leaves|
                        then FirstHash(hash, leaves[k + 1])
                          + if LastHash(hash, leaves[k]) == FirstHash(hash, leaves[k + 1]) then 1 else 0
                        else HASHES)
  {
    hide LowBitsClear, NoneEmpty, LeafDx, Ranges, Implicit, Even, UpperBound, FirstHash, LastHash;
    RangeIs(LeafDx(hash, leaves), k);
    SlotBounds(hash, leaves, k);
    if k + 1 < |leaves| { SlotBounds(hash, leaves, k + 1); }
  }

  /** Every entry hashes into the range of the leaf it was packed into. */
  lemma PackedInRange(hash: Hasher, leaves: seq<seq<Item>>, k: nat, i: nat)
    requires LowBitsClear(hash) && NoneEmpty(leaves) && |leaves| < 0x1_0000_0000 && InHashOrder(hash, Flatten(leaves))
    requires k < |leaves| && i < |leaves[k]|
    ensures InRange(H(hash, leaves[k][i]), Ranges(Implicit(LeafDx(hash, leaves)))[k])
  {
    RangeAt(hash, leaves, k);
    hide H, InHashOrder, Ranges, Implicit, LeafDx;
    HashesRise(hash, leaves, k, 0, k, i);
    HashesRise(hash, leaves, k, i, k, |leaves[k]| - 1);
    if k + 1 < |leaves| {
      HashesRise(hash, leaves, k, |leaves[k]| - 1, k + 1, 0);
    }
  }

  // ----- the second level -----

  predicate Rising(dx: seq<DxEntry>) {
    forall a, b :: 0 <= a <= b < |dx| ==> dx[a].hash <= dx[b].hash
  }

  function ParentLo(dx: seq<DxEntry>, a: nat): u32
    requires a < |dx|
  {
    if a == 0 then 0 else Even(dx[a].hash)
  }

  function ParentHi(dx: seq<DxEntry>, b: nat): nat {
    if b < |dx| then UpperBound(dx[b].hash) else HASHES
  }

  /** A group of slots, clamped to what its parent's slot covers, has the ranges it has in the whole table. */
  lemma GroupRanges(dx: seq<DxEntry>, a: nat, b: nat)
    requires a < b <= |dx|
    ensures Clamped(Ranges(Implicit(dx[a..b])), ParentLo(dx, a), ParentHi(dx, b)) == Ranges(Implicit(dx))[a..b]
  {
    hide Even, UpperBound, Ranges, Implicit;
    var own := Ranges(Implicit(dx[a..b]));
    var c := Clamped(own, ParentLo(dx, a), ParentHi(dx, b));
    if b < |dx| { BoundMeets(dx[b].hash); }
    forall i | 0 <= i < b - a ensures c[i] == Ranges(Implicit(dx))[a..b][i] {
      RangeIs(dx[a..b], i);
      RangeIs(dx, a + i);
      if i + 1 < b - a { assert dx[a..b][i + 1] == dx[a + i + 1]; }
    }
  }

  lemma BoundIsHash(hash: u32)
    ensures UpperBound(hash) == hash && Even(hash) <= hash <= Even(hash) + 1
  {
  }

  lemma EvenRises(x: u32, y: u32)
    requires x <= y
    ensures Even(x) <= Even(y)
  {
  }

  lemma GroupNested(dx: seq<DxEntry>, a: nat, b: nat)
    requires a < b <= |dx| && Rising(dx)
    ensures Nested(Ranges(Implicit(dx))[a..b], ParentLo(dx, a), ParentHi(dx, b))
  {
    hide Even, UpperBound, Ranges, Implicit;
    forall i | a <= i < b
      ensures ParentLo(dx, a) <= Ranges(Implicit(dx))[i].lo && Ranges(Implicit(dx))[i].hi <= ParentHi(dx, b)
    {
      RangeIs(dx, i);
      if 0 < a { EvenRises(dx[a].hash, dx[i].hash); }
      if i + 1 < |dx| {
        BoundIsHash(dx[i + 1].hash);
        if b < |dx| {
          BoundIsHash(dx[b].hash);
          assert dx[i + 1].hash <= dx[b].hash;
        }
      }
    }
  }

  function Groups(n: nat): (r: nat)
    ensures r == 0 <==> n == 0
  {
    (n + (NODE_LIMIT - 1)) / NODE_LIMIT
  }

  function GroupEnd(n: nat, g: nat): nat {
    if NODE_LIMIT * (g + 1) <= n then NODE_LIMIT * (g + 1) else n
  }

  lemma GroupBounds(n: nat, g: nat)
    requires g < Groups(n)
    ensures NODE_LIMIT * g < GroupEnd(n, g) <= n && GroupEnd(n, g) - NODE_LIMIT * g <= NODE_LIMIT
    ensures g + 1 < Groups(n) ==> GroupEnd(n, g) == NODE_LIMIT * (g + 1) < n
    ensures g + 1 == Groups(n) ==> GroupEnd(n, g) == n
  {
  }

  function Group(dx: seq<DxEntry>, g: nat): (r: seq<DxEntry>)
    requires g < Groups(|dx|)
    ensures 1 <= |r| <= NODE_LIMIT
  {
    GroupBounds(|dx|, g);
    dx[NODE_LIMIT * g..GroupEnd(|dx|, g)]
  }

  /** The root's slot for a node keeps the node's first hash, collision bit included. */
  function RootDx(dx: seq<DxEntry>): (r: seq<DxEntry>)
    requires 1 + |dx| + Groups(|dx|) < 0x1_0000_0000
    ensures |r| == Groups(|dx|)
  {
    seq(Groups(|dx|), g requires 0 <= g < Groups(|dx|) => DxEntry(Group(dx, g)[0].hash, 1 + |dx| + g))
  }

  lemma ParentRange(dx: seq<DxEntry>, g: nat)
    requires 1 + |dx| + Groups(|dx|) < 0x1_0000_0000 && g < Groups(|dx|)
    ensures NODE_LIMIT * g < GroupEnd(|dx|, g) <= |dx|
    ensures Ranges(Implicit(RootDx(dx)))[g]
            == Leaf(1 + |dx| + g, ParentLo(dx, NODE_LIMIT * g), ParentHi(dx, GroupEnd(|dx|, g)))
  {
  }

  ghost predicate HoldsNodes(d: Dir, dx: seq<DxEntry>) {
    forall g: nat :: g < Groups(|dx|) ==> d.Block(1 + |dx| + g) == Ok(Some(NodeBytes(d.Seed(), Group(dx, g))))
  }

  lemma NodeContributes(d: Dir, dx: seq<DxEntry>, g: nat)
    requires 1 + |dx| + Groups(|dx|) < 0x1_0000_0000 && g < Groups(|dx|) && Rising(dx)
    ensures NODE_LIMIT * g < GroupEnd(|dx|, g) <= |dx|
    ensures NodeCollected(d, Ranges(Implicit(RootDx(dx)))[g], NodeBytes(d.Seed(), Group(dx, g)))
            == Collected(Ranges(Implicit(dx))[NODE_LIMIT * g..GroupEnd(|dx|, g)], [])
  {
    hide NodeBytes, NodeAt, Ranges, Implicit, RootDx, ParentLo, ParentHi, Clamped, Nested, Rising, GroupEnd,
      Csum.DxBlock, Csum.AsU32, TableSeal;
    var own := Group(dx, g);
    NodeReads(d.Seed(), own);
    NodeClean(d, own);
    ParentRange(dx, g);
    GroupRanges(dx, NODE_LIMIT * g, GroupEnd(|dx|, g));
    GroupNested(dx, NODE_LIMIT * g, GroupEnd(|dx|, g));
  }

  lemma NodeClean(d: Dir, dx: seq<DxEntry>)
    requires 1 <= |dx| <= NODE_LIMIT
    ensures |NodeBytes(d.Seed(), dx)| == BLOCK_SIZE
    ensures forall t: Table ::
              t.count == |dx| && t.limit == NODE_LIMIT && t.checksum == TableSeal(d.Seed(), NodeHead(), NODE_LIMIT, dx)
              ==> TableClean(d, NodeBytes(d.Seed(), dx), NODE_COUNT_OFFSET, t)
  {
    hide WithTable, TableAt, TableSeal, Csum.DxBlock, Csum.AsU32, Implicit;
    WithTableReads(d.Seed(), NodeHead(), NODE_LIMIT, dx);
  }

  /** Two levels flatten to the ranges that one table of all the slots would have. */
  lemma {:induction false} LevelsFlatten(d: Dir, dx: seq<DxEntry>, m: nat)
    requires 1 + |dx| + Groups(|dx|) < 0x1_0000_0000 && dx != [] && Rising(dx) && HoldsNodes(d, dx) && m <= Groups(|dx|)
    ensures m == 0 || GroupEnd(|dx|, m - 1) <= |dx|
    ensures NodesCollected(d, Ranges(Implicit(RootDx(dx)))[..m])
            == Ok(Collected(Ranges(Implicit(dx))[..if m == 0 then 0 else GroupEnd(|dx|, m - 1)], []))
    decreases m
  {
    hide NodeBytes, Ranges, Implicit, Group, RootDx, Rising, GroupEnd, NodeCollected, Groups, ParentLo, ParentHi;
    var nodes := Ranges(Implicit(RootDx(dx)));
    if m == 0 {
      assert nodes[..0] == [] && Ranges(Implicit(dx))[..0] == [];
    } else {
      var g := m - 1;
      LevelsFlatten(d, dx, g);
      NodeContributes(d, dx, g);
      ParentRange(dx, g);
      EndsMeet(|dx|, g);
      NodesStep(d, nodes, g);
      Rejoin(Ranges(Implicit(dx)), NODE_LIMIT * g, GroupEnd(|dx|, g));
    }
  }

  lemma Rejoin<T>(s: seq<T>, a: nat, b: nat)
    requires a <= b <= |s|
    ensures s[..b] == s[..a] + s[a..b]
  {
  }

  /** One more node that raises no issue. */
  lemma NodesStep(d: Dir, nodes: seq<Leaf>, g: nat)
    requires g < |nodes| && NodesCollected(d, nodes[..g]).Ok? && NodesCollected(d, nodes[..g]).value.issues == []
    requires d.Block(nodes[g].block).Ok? && d.Block(nodes[g].block).value.Some?
    requires NodeCollected(d, nodes[g], d.Block(nodes[g].block).value.value).issues == []
    ensures NodesCollected(d, nodes[..g + 1])
            == Ok(Collected(NodesCollected(d, nodes[..g]).value.leaves
              + NodeCollected(d, nodes[g], d.Block(nodes[g].block).value.value).leaves, []))
  {
    hide NodeCollected;
    PrefixStep(nodes, g);
    assert NodesCollected(d, nodes[..g + 1]).value.issues == [];
  }

  lemma EndsMeet(n: nat, g: nat)
    requires g < Groups(n)
    ensures (if g == 0 then 0 else GroupEnd(n, g - 1)) == NODE_LIMIT * g
    ensures g + 1 == Groups(n) ==> GroupEnd(n, g) == n
  {
  }

  // ----- the whole index -----

  /** What `build` produces: the root, the leaves, and the nodes when one level is not enough. */
  function RootOf(seed: bv32, self: u32, parent: u32, dx: seq<DxEntry>): seq<byte>
    requires Indexable(dx)
  {
    if |dx| <= ROOT_LIMIT then RootBytes(seed, self, parent, 0, dx) else RootBytes(seed, self, parent, 1, RootDx(dx))
  }

  /** Two levels are enough; `build` refuses the rest. */
  predicate Indexable(dx: seq<DxEntry>) {
    dx != [] && Groups(|dx|) <= ROOT_LIMIT
  }

  function NodeCount(dx: seq<DxEntry>): nat {
    if |dx| <= ROOT_LIMIT then 0 else Groups(|dx|)
  }

  /** The directory's blocks are those that `build` makes from packed leaves. */
  ghost predicate HoldsIndex(d: Dir, self: u32, parent: u32, leaves: seq<seq<Item>>, dx: seq<DxEntry>) {
    && Indexable(dx) && |dx| == |leaves|
    && d.Block(0) == Ok(Some(RootOf(d.Seed(), self, parent, dx)))
    && (forall k :: 0 <= k < |leaves| ==> Holds(d, k + 1, leaves[k]))
    && (ROOT_LIMIT < |dx| ==> HoldsNodes(d, dx))
    && d.size / BLOCK_SIZE == 1 + |leaves| + NodeCount(dx)
  }

  lemma FewBlocks(dx: seq<DxEntry>)
    requires Indexable(dx)
    ensures 1 + |dx| + Groups(|dx|) < 0x1_0000_0000
  {
  }

  lemma RootOfReads(d: Dir, self: u32, parent: u32, dx: seq<DxEntry>)
    requires Indexable(dx) && self != 0 && parent != 0
    ensures |RootOf(d.Seed(), self, parent, dx)| == BLOCK_SIZE && RootAt(RootOf(d.Seed(), self, parent, dx)).Ok?
    ensures var b := RootOf(d.Seed(), self, parent, dx);
            var v := RootAt(b).value;
            && v.info.hashVersion == 1 && v.info.indirectLevels == (if |dx| <= ROOT_LIMIT then 0 else 1)
            && v.table.entries == Implicit(if |dx| <= ROOT_LIMIT then dx else RootDx(dx))
            && TableClean(d, b, ROOT_COUNT_OFFSET, v.table)
            && RootNames(b) == [Named(self, 2, DOT), Named(parent, 2, DOT_DOT)]
  {
    hide RootAt, RootNames, Implicit, RootDx, TableSeal, WithTable, Csum.DxBlock, Csum.AsU32, RootHead;
    FewBlocks(dx);
    var levels: byte := if |dx| <= ROOT_LIMIT then 0 else 1;
    var slots := if |dx| <= ROOT_LIMIT then dx else RootDx(dx);
    RootReads(d.Seed(), self, parent, levels, slots);
    WithTableReads(d.Seed(), RootHead(self, parent, levels), ROOT_LIMIT, slots);
  }

  /** Flattening the built index gives one range per leaf, whichever number of levels it took. */
  lemma BuiltFlattens(d: Dir, self: u32, parent: u32, leaves: seq<seq<Item>>, dx: seq<DxEntry>)
    requires self != 0 && parent != 0 && HoldsIndex(d, self, parent, leaves, dx) && Rising(dx)
    ensures RootBlock(d) == Ok(RootOf(d.Seed(), self, parent, dx)) && RootAt(RootOf(d.Seed(), self, parent, dx)).Ok?
    ensures Flattened(d, RootAt(RootOf(d.Seed(), self, parent, dx)).value) == Ok(Collected(Ranges(Implicit(dx)), []))
  {
    hide RootOf, RootAt, RootNames, Ranges, Implicit, RootDx, TableClean, NodesCollected, Rising, Holds, HoldsNodes,
      Groups;
    RootOfReads(d, self, parent, dx);
    if ROOT_LIMIT < |dx| {
      FewBlocks(dx);
      var m := Groups(|dx|);
      LevelsFlatten(d, dx, m);
      EndsMeet(|dx|, m - 1);
      var nodes, all := Ranges(Implicit(RootDx(dx))), Ranges(Implicit(dx));
      assert nodes[..m] == nodes && all[..|dx|] == all;
    }
  }

  // ----- the built directory, checked and listed -----

  lemma EntriesAreItems(entries: seq<Dirent.Entry>, items: seq<Item>, e: Dirent.Entry) returns (i: nat)
    requires AllNamed(entries) == NamedItems(items) && e in entries
    ensures i < |items| && items[i].name == e.name
  {
    i :| 0 <= i < |entries| && entries[i] == e;
    assert |AllNamed(entries)| == |NamedItems(items)|;
    assert AllNamed(entries)[i] == NamedItems(items)[i];
  }

  /** A held leaf whose entries all hash into its range adds no issue. */
  lemma HeldLeafIsClean(d: Dir, leaf: Leaf, items: seq<Item>)
    requires Holds(d, leaf.block, items) && Renderable(items)
    requires forall i :: 0 <= i < |items| ==> InRange(d.Hash(items[i].name), leaf)
    ensures LeafIssues(d, leaf, d.Block(leaf.block).value.value) == []
  {
    hide Holds, BlockIssues, Renderable, NamedItems, AllNamed, Dirent.Scan, NameIssues, InRange, Dots;
    HeldBlock(d, leaf.block, items);
    var entries := Dirent.Scan(d.Block(leaf.block).value.value, 0).entries;
    forall e | e in entries ensures InRange(d.Hash(e.name), leaf) {
      var i := EntriesAreItems(entries, items, e);
    }
    NamesInRange(d, leaf, entries);
  }

  lemma {:induction false} HeldLeavesAreClean(d: Dir, ranges: seq<Leaf>, leaves: seq<seq<Item>>, n: nat)
    requires n <= |ranges| == |leaves| && forall k :: 0 <= k < |leaves| ==> ranges[k].block == k + 1
    requires forall k :: 0 <= k < |leaves| ==> Holds(d, k + 1, leaves[k]) && Renderable(leaves[k])
    requires forall k, i :: 0 <= k < |leaves| && 0 <= i < |leaves[k]| ==> InRange(d.Hash(leaves[k][i].name), ranges[k])
    ensures LeavesIssues(d, ranges[..n]) == Ok([])
    decreases n
  {
    hide Holds, Renderable, LeafIssues, InRange;
    if n == 0 {
      assert ranges[..0] == [];
    } else {
      HeldLeavesAreClean(d, ranges, leaves, n - 1);
      PrefixStep(ranges, n - 1);
      HeldMapped(d, n, leaves[n - 1]);
      assert Holds(d, ranges[n - 1].block, leaves[n - 1]);
      HeldLeafIsClean(d, ranges[n - 1], leaves[n - 1]);
      assert LeavesIssues(d, ranges[..n]).value == [];
    }
  }

  lemma HeldMapped(d: Dir, k: nat, leaf: seq<Item>)
    requires Holds(d, k, leaf)
    ensures d.Block(k).Ok? && d.Block(k).value.Some?
  {
  }

  /** The first record of a leaf is in use, so the leaf is not taken for a node. */
  lemma LeafIsNoNode(d: Dir, k: nat, leaf: seq<Item>)
    requires Holds(d, k, leaf) && Renderable(leaf) && leaf != []
    ensures d.Block(k).Ok? && d.Block(k).value.Some? && !NodeLike(d.Block(k).value.value)
  {
    hide Bytes32, Bytes16, Le16;
    var b := BlockBytes(leaf, Seal(leaf, d.Seed()));
    RecordsCarry(leaf);
    var all := Records(leaf) + [Dirent.Tail(Seal(leaf, d.Seed()))];
    assert all[0] == Records(leaf)[0];
    assert b[0..] == b;
    Dirent.FirstRecord(b, 0, all);
    Dirent.RecordDecodes(b, 0, all[0]);
  }

  lemma HeldLeafNames(d: Dir, k: nat, leaf: seq<Item>)
    requires d.indexed && 0 < k && Holds(d, k, leaf) && Renderable(leaf) && leaf != []
    ensures d.Block(k).Ok? && d.Block(k).value.Some?
    ensures BlockNames(d, k, d.Block(k).value.value) == Ok(NamedItems(leaf))
  {
    hide Holds, Renderable, NamedItems, AllNamed, Dirent.Scan, NodeLike, BlockIssues;
    HeldBlock(d, k, leaf);
    LeafIsNoNode(d, k, leaf);
  }

  lemma {:induction false} LeavesList(d: Dir, leaves: seq<seq<Item>>, dots: seq<Named>, n: nat)
    requires d.indexed && n <= |leaves| && NoneEmpty(leaves) && NamesUpTo(d, 1) == Ok(dots)
    requires forall k :: 0 <= k < |leaves| ==> Holds(d, k + 1, leaves[k]) && Renderable(leaves[k])
    ensures NamesUpTo(d, 1 + n) == Ok(dots + NamedItems(Flatten(leaves[..n])))
    decreases n
  {
    hide Holds, Renderable, NamedItems, BlockNames;
    if n == 0 {
      assert leaves[..0] == [];
      NoNames();
      assert dots + [] == dots;
    } else {
      var leaf := leaves[n - 1];
      LeavesList(d, leaves, dots, n - 1);
      HeldLeafNames(d, n, leaf);
      assert leaves[..n] == leaves[..n - 1] + [leaf];
      FlattenStep(leaves[..n - 1], leaf);
      NamedAppend(Flatten(leaves[..n - 1]), leaf);
      AppendAssociates(dots, NamedItems(Flatten(leaves[..n - 1])), NamedItems(leaf));
    }
  }

  lemma NodeNames(d: Dir, k: nat, dx: seq<DxEntry>)
    requires d.indexed && 0 < k && 1 <= |dx| <= NODE_LIMIT && d.Block(k) == Ok(Some(NodeBytes(d.Seed(), dx)))
    ensures |NodeBytes(d.Seed(), dx)| == BLOCK_SIZE && BlockNames(d, k, NodeBytes(d.Seed(), dx)) == Ok([])
  {
    hide NodeBytes, NodeLike, NodeAt, Implicit, TableSeal;
    NodeReads(d.Seed(), dx);
  }

  lemma {:induction false} NodesListNothing(d: Dir, dx: seq<DxEntry>, m: nat)
    requires d.indexed && HoldsNodes(d, dx) && m <= Groups(|dx|) && NamesUpTo(d, 1 + |dx|).Ok?
    ensures NamesUpTo(d, 1 + |dx| + m) == NamesUpTo(d, 1 + |dx|)
    decreases m
  {
    hide NodeBytes, Group, BlockNames, Groups;
    if 0 < m {
      NodesListNothing(d, dx, m - 1);
      NodeNames(d, 1 + |dx| + (m - 1), Group(dx, m - 1));
      var before := NamesUpTo(d, 1 + |dx| + (m - 1)).value;
      assert before + [] == before;
    }
  }

  lemma RootLists(d: Dir, self: u32, parent: u32, dx: seq<DxEntry>)
    requires d.indexed && Indexable(dx) && self != 0 && parent != 0
             && d.Block(0) == Ok(Some(RootOf(d.Seed(), self, parent, dx)))
    ensures NamesUpTo(d, 1) == Ok([Named(self, 2, DOT), Named(parent, 2, DOT_DOT)])
  {
    hide RootOf, RootAt, RootNames, TableClean, Implicit, RootDx;
    RootOfReads(d, self, parent, dx);
    var names := [Named(self, 2, DOT), Named(parent, 2, DOT_DOT)];
    assert [] + names == names;
    assert NamesUpTo(d, 0) == Ok([]);
  }

  lemma HasherIsEven(d: Dir, hash: Hasher)
    requires forall name :: hash(name) == d.Hash(name)
    ensures LowBitsClear(hash)
  {
  }

  lemma DxIsRising(hash: Hasher, leaves: seq<seq<Item>>)
    requires LowBitsClear(hash) && NoneEmpty(leaves) && |leaves| < 0x1_0000_0000 && InHashOrder(hash, Flatten(leaves))
    ensures Rising(LeafDx(hash, leaves))
  {
    hide LowBitsClear, InHashOrder, LeafDx;
    var dx := LeafDx(hash, leaves);
    forall a, b | 0 <= a <= b < |dx| ensures dx[a].hash <= dx[b].hash { DxRises(hash, leaves, a, b); }
  }

  lemma ItemsInRanges(d: Dir, hash: Hasher, leaves: seq<seq<Item>>, ranges: seq<Leaf>)
    requires LowBitsClear(hash) && (forall name :: hash(name) == d.Hash(name))
    requires NoneEmpty(leaves) && |leaves| < 0x1_0000_0000 && InHashOrder(hash, Flatten(leaves))
    requires leaves != [] && ranges == Ranges(Implicit(LeafDx(hash, leaves)))
    ensures forall k :: 0 <= k < |leaves| ==> ranges[k].block == k + 1
    ensures forall k, i :: 0 <= k < |leaves| && 0 <= i < |leaves[k]| ==> InRange(d.Hash(leaves[k][i].name), ranges[k])
  {
    hide LowBitsClear, InHashOrder, LeafDx, Ranges, Implicit, InRange;
    forall k | 0 <= k < |leaves| ensures ranges[k].block == k + 1 { RangeAt(hash, leaves, k); }
    forall k, i | 0 <= k < |leaves| && 0 <= i < |leaves[k]| ensures InRange(d.Hash(leaves[k][i].name), ranges[k]) {
      PackedInRange(hash, leaves, k, i);
      assert H(hash, leaves[k][i]) == hash(leaves[k][i].name) == d.Hash(leaves[k][i].name);
    }
  }

  /** The check as a whole is clean once its parts are. */
  lemma CleanParts(d: Dir, block: seq<byte>, ranges: seq<Leaf>)
    requires d.indexed && RootBlock(d) == Ok(block) && RootAt(block).Ok? && RootAt(block).value.info.hashVersion == 1
    requires TableClean(d, block, ROOT_COUNT_OFFSET, RootAt(block).value.table)
    requires Flattened(d, RootAt(block).value) == Ok(Collected(ranges, [])) && LeavesIssues(d, ranges) == Ok([])
    ensures DirIssues(d) == Ok([])
  {
    hide RootAt, TableClean, Flattened, LeavesIssues;
    assert LevelIssues(d, RootAt(block).value).value == [];
    assert IndexIssues(d).value == [];
  }

  lemma IndexIsClean(d: Dir, self: u32, parent: u32, leaves: seq<seq<Item>>, dx: seq<DxEntry>, ranges: seq<Leaf>)
    requires d.indexed && self != 0 && parent != 0 && HoldsIndex(d, self, parent, leaves, dx) && Rising(dx)
    requires ranges == Ranges(Implicit(dx))
             && forall k :: 0 <= k < |leaves| ==> Renderable(leaves[k]) && ranges[k].block == k + 1
    requires forall k, i :: 0 <= k < |leaves| && 0 <= i < |leaves[k]| ==> InRange(d.Hash(leaves[k][i].name), ranges[k])
    ensures DirIssues(d) == Ok([])
  {
    hide RootOf, RootAt, RootNames, TableClean, Implicit, RootDx, Ranges, LeavesIssues, Holds, HoldsNodes, Renderable,
      Rising, Flattened, InRange, RootBlock, DirIssues, Indexable;
    BuiltFlattens(d, self, parent, leaves, dx);
    RootOfReads(d, self, parent, dx);
    HeldLeavesAreClean(d, ranges, leaves, |leaves|);
    assert ranges[..|leaves|] == ranges;
    CleanParts(d, RootOf(d.Seed(), self, parent, dx), ranges);
  }

  lemma BuiltIndexLists(d: Dir, self: u32, parent: u32, leaves: seq<seq<Item>>, dx: seq<DxEntry>)
    requires d.indexed && self != 0 && parent != 0 && NoneEmpty(leaves) && HoldsIndex(d, self, parent, leaves, dx)
    requires forall k :: 0 <= k < |leaves| ==> Renderable(leaves[k])
    ensures NamesUpTo(d, d.size / BLOCK_SIZE)
            == Ok([Named(self, 2, DOT), Named(parent, 2, DOT_DOT)] + NamedItems(Flatten(leaves)))
  {
    hide RootOf, Holds, HoldsNodes, Renderable, NamedItems, NamesUpTo, Groups, NoneEmpty, Indexable;
    RootLists(d, self, parent, dx);
    LeavesList(d, leaves, [Named(self, 2, DOT), Named(parent, 2, DOT_DOT)], |leaves|);
    assert leaves[..|leaves|] == leaves;
    if ROOT_LIMIT < |dx| { NodesListNothing(d, dx, Groups(|dx|)); }
  }

  lemma HoldsLeaves(d: Dir, self: u32, parent: u32, leaves: seq<seq<Item>>, dx: seq<DxEntry>)
    requires HoldsIndex(d, self, parent, leaves, dx)
    ensures leaves != [] && |dx| == |leaves|
  {
  }

  /**
    An indexed directory as built raises no issue, and listing it gives the dot entries and then
    every entry, in hash order.
  */
  lemma BuiltIndexReads(d: Dir, hash: Hasher, self: u32, parent: u32, items: seq<Item>)
    requires d.indexed && self != 0 && parent != 0 && (forall name :: hash(name) == d.Hash(name))
    requires Used(items) && InHashOrder(hash, items)
    requires NoneEmpty(Packed(items)) && |Packed(items)| < 0x1_0000_0000
    requires HoldsIndex(d, self, parent, Packed(items), LeafDx(hash, Packed(items)))
    ensures DirIssues(d) == Ok([])
    ensures NamesUpTo(d, d.size / BLOCK_SIZE)
            == Ok([Named(self, 2, DOT), Named(parent, 2, DOT_DOT)] + NamedItems(items))
  {
    hide HoldsIndex, Renderable, LeafDx, NamedItems, NamesUpTo, DirIssues, Packed, Implicit, Ranges, InHashOrder,
      InRange, LowBitsClear, Rising;
    var leaves, dx := Packed(items), LeafDx(hash, Packed(items));
    PackedKeeps(items);
    forall k | 0 <= k < |leaves| ensures Renderable(leaves[k]) { PackedLeaf(items, k); }
    HasherIsEven(d, hash);
    DxIsRising(hash, leaves);
    HoldsLeaves(d, self, parent, leaves, dx);
    ItemsInRanges(d, hash, leaves, Ranges(Implicit(dx)));
    IndexIsClean(d, self, parent, leaves, dx, Ranges(Implicit(dx)));
    BuiltIndexLists(d, self, parent, leaves, dx);
  }

  // ----- the builder -----

  /** The blocks of a built index, in block order: root, leaves, nodes. */
  ghost predicate IsIndex(blocks: seq<seq<byte>>, seed: bv32, self: u32, parent: u32, leaves: seq<seq<Item>>,
                          dx: seq<DxEntry>) {
    && Indexable(dx) && |dx| == |leaves| && |blocks| == 1 + |leaves| + NodeCount(dx)
    && blocks[0] == RootOf(seed, self, parent, dx)
    && (forall k ::
         0 <= k < |leaves| ==> Fits(leaves[k]) && blocks[k + 1] == BlockBytes(leaves[k], Seal(leaves[k], seed)))
    && (forall g: nat :: g < NodeCount(dx) ==> blocks[1 + |dx| + g] == NodeBytes(seed, Group(dx, g)))
  }

  method BuildRootDx(dx: seq<DxEntry>) returns (r: seq<DxEntry>)
    requires 1 + |dx| + Groups(|dx|) < 0x1_0000_0000
    ensures r == RootDx(dx)
  {
    hide Group, Groups;
    r := [];
    for g := 0 to Groups(|dx|)
      invariant |r| == g && forall j :: 0 <= j < g ==> r[j] == DxEntry(Group(dx, j)[0].hash, 1 + |dx| + j)
    {
      r := r + [DxEntry(Group(dx, g)[0].hash, 1 + |dx| + g)];
    }
  }

  method RenderNodes(seed: bv32, dx: seq<DxEntry>) returns (blocks: seq<seq<byte>>)
    ensures |blocks| == Groups(|dx|) && forall g: nat :: g < Groups(|dx|) ==> blocks[g] == NodeBytes(seed, Group(dx, g))
  {
    hide Group, Groups, NodeBytes;
    blocks := [];
    for g := 0 to Groups(|dx|)
      invariant |blocks| == g && forall j: nat :: j < g ==> blocks[j] == NodeBytes(seed, Group(dx, j))
    {
      var block := RenderNode(seed, Group(dx, g));
      blocks := blocks + [block];
    }
  }

  /** `build`, from entries already in hash order: refused exactly when two levels cannot hold the leaves. */
  method Build(hash: Hasher, self: u32, parent: u32, items: seq<Item>, inodeSeed: bv32)
               returns (r: Result<seq<seq<byte>>>)
    requires items != [] && Nameable(items) && |items| < 0x1_0000_0000
    ensures NoneEmpty(Packed(items)) && |Packed(items)| < 0x1_0000_0000
    ensures r.Ok? <==> Indexable(LeafDx(hash, Packed(items)))
    ensures r.Ok? ==> IsIndex(r.value, inodeSeed, self, parent, Packed(items), LeafDx(hash, Packed(items)))
    ensures r.Err? ==> r.error == Unsupported
  {
    hide Packed, LeafDx, RootBytes, RootDx, NodeBytes, BlockBytes, Seal, Group, Groups, Fits;
    PackedKeeps(items);
    var leaves := Pack(items);
    LeavesAreFew(leaves);
    var dx := BuildLeafDx(hash, items, leaves);
    var nodes: seq<seq<byte>> := [];
    var levels: byte := 0;
    var rootDx := dx;
    if |dx| > ROOT_LIMIT {
      if Groups(|dx|) > ROOT_LIMIT { return Err(Unsupported); }
      FewBlocks(dx);
      levels := 1;
      nodes := RenderNodes(inodeSeed, dx);
      rootDx := BuildRootDx(dx);
    } else {
      FewGroups(|dx|);
    }
    var leafBlocks := RenderLeaves(leaves, inodeSeed);
    var root := RenderRoot(inodeSeed, self, parent, levels, rootDx);
    return Ok([root] + leafBlocks + nodes);
  }

  lemma FewGroups(n: nat)
    requires 0 < n <= ROOT_LIMIT
    ensures Groups(n) == 1
  {
  }

  lemma {:induction false} LeavesAreFew(leaves: seq<seq<Item>>)
    requires NoneEmpty(leaves)
    ensures |leaves| <= |Flatten(leaves)|
    decreases leaves
  {
    if leaves != [] { LeavesAreFew(leaves[..|leaves| - 1]); }
  }

  /** A directory whose logical blocks are the built ones holds the index. */
  lemma WrittenIndexIsHeld(d: Dir, blocks: seq<seq<byte>>, self: u32, parent: u32, leaves: seq<seq<Item>>,
                           dx: seq<DxEntry>)
    requires IsIndex(blocks, d.Seed(), self, parent, leaves, dx)
    requires d.size / BLOCK_SIZE == |blocks| && forall k :: 0 <= k < |blocks| ==> d.Block(k) == Ok(Some(blocks[k]))
    ensures HoldsIndex(d, self, parent, leaves, dx)
  {
    hide RootOf, BlockBytes, Seal, NodeBytes, Group, Groups, Fits;
    forall k | 0 <= k < |leaves| ensures Holds(d, k + 1, leaves[k]) {
      assert d.Block(k + 1) == Ok(Some(blocks[k + 1]));
    }
    if ROOT_LIMIT < |dx| {
      forall g: nat | g < Groups(|dx|) ensures d.Block(1 + |dx| + g) == Ok(Some(NodeBytes(d.Seed(), Group(dx, g)))) {
        assert d.Block(1 + |dx| + g) == Ok(Some(blocks[1 + |dx| + g]));
      }
    }
  }
}
