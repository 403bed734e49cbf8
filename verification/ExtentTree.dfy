/**
  What the extent walk means: it succeeds exactly when a well-formed tree is stored under
  the root, and then it returns that tree's leaf runs in order. On any disk, even one
  whose child pointers form cycles, its output and its block reads are bounded.
*/
module ExtentTree {
  import opened Bytes
  import opened Extent
  import opened ExtentWalk

  datatype Tree = Leaf(runs: seq<Extent>) | Node(children: seq<Child>)

  /** A child subtree with the pointer that leads to it. */
  datatype Child = Child(idx: Idx, tree: Tree) {
    function Runs(): seq<FileExtent>
      decreases this, 0
    {
      RunsIn(tree)
    }

    /** The child's own block and those below it. */
    function Blocks(): nat
      decreases this, 0
    {
      1 + BlocksOf(tree)
    }
  }

  /** The leaf runs, left to right. */
  function RunsIn(t: Tree): seq<FileExtent>
    decreases t, 0
  {
    match t
    case Leaf(runs) => seq(|runs|, i requires 0 <= i < |runs| => Mapping(runs[i]))
    case Node(children) => RunsOf(children)
  }

  function RunsOf(children: seq<Child>): seq<FileExtent>
    decreases children, 0
  {
    if children == [] then [] else children[0].Runs() + RunsOf(children[1..])
  }

  /** How many blocks hold the tree below its root. */
  function BlocksOf(t: Tree): nat
    decreases t, 0
  {
    match t
    case Leaf(_) => 0
    case Node(children) => BlocksOfAll(children)
  }

  function BlocksOfAll(children: seq<Child>): nat
    decreases children, 0
  {
    if children == [] then 0 else children[0].Blocks() + BlocksOfAll(children[1..])
  }

  function EntryCount(t: Tree): nat {
    match t
    case Leaf(runs) => |runs|
    case Node(children) => |children|
  }

  /** `node` holds the root of `t`, `depth` levels above the leaves, and the disk holds the rest. */
  ghost predicate Stored(fs: Fs, owner: Owner, node: seq<byte>, t: Tree, depth: nat)
    decreases t, 1
  {
    && CheckNode(node, Some(depth)).Ok?
    && CheckNode(node, Some(depth)).value.entries == EntryCount(t)
    && (match t
        case Leaf(runs) =>
          && depth == 0
          && forall i :: 0 <= i < |runs| ==> DecodeExtent(Entry(node, i)) == runs[i] && runs[i].Len() != 0
        case Node(children) =>
          && 0 < depth
          && forall i :: 0 <= i < |children| ==> ChildStored(fs, owner, Entry(node, i), children[i], depth))
  }

  ghost predicate ChildStored(fs: Fs, owner: Owner, entry: seq<byte>, c: Child, depth: nat)
    requires |entry| == ENTRY_LEN && 0 < depth
    decreases c, 0
  {
    && DecodeIdx(entry) == c.idx
    && ReadBlock(fs, c.idx.leaf).Ok?
    && ChecksumAccepts(fs, owner, ReadBlock(fs, c.idx.leaf).value)
    && Stored(fs, owner, ReadBlock(fs, c.idx.leaf).value, c.tree, depth - 1)
  }

  // ----- a stored tree is walked completely -----

  lemma {:induction false} WalkReturnsTree(fs: Fs, owner: Owner, node: seq<byte>, t: Tree, depth: nat,
                                           wanted: Option<nat>)
    requires Stored(fs, owner, node, t, depth) && (wanted.Some? ==> wanted.value == depth)
    ensures WalkNode(fs, owner, node, wanted) == Walk(Pass, RunsIn(t), BlocksOf(t))
    decreases t, 2
  {
    hide ChecksumAccepts, DecodeHeader, DecodeExtent, DecodeIdx;
    var h := CheckNode(node, Some(depth)).value;
    match t {
      case Leaf(runs) =>
        WalkReturnsRuns(fs, owner, node, runs, h, 0);
        assert runs[0..] == runs;
      case Node(children) =>
        WalkReturnsChildren(fs, owner, node, t, h, 0);
        assert children[0..] == children;
    }
  }

  lemma {:induction false} WalkReturnsRuns(fs: Fs, owner: Owner, node: seq<byte>, runs: seq<Extent>, h: Header, i: nat)
    requires i <= |runs| == h.entries <= RoomFor(|node|) && h.depth == 0
    requires forall k :: 0 <= k < |runs| ==> DecodeExtent(Entry(node, k)) == runs[k] && runs[k].Len() != 0
    ensures WalkEntries(fs, owner, node, h, i) == Walk(Pass, RunsIn(Leaf(runs[i..])), 0)
    decreases |runs| - i
  {
    hide DecodeExtent, DecodeIdx, ReadBlock, ChecksumAccepts, WalkNode;
    if i < |runs| {
      WalkReturnsRuns(fs, owner, node, runs, h, i + 1);
      assert RunsIn(Leaf(runs[i..])) == [Mapping(runs[i])] + RunsIn(Leaf(runs[i + 1..]));
    }
  }

  lemma {:induction false} WalkReturnsChildren(fs: Fs, owner: Owner, node: seq<byte>, t: Tree, h: Header, i: nat)
    requires t.Node? && i <= |t.children| == h.entries <= RoomFor(|node|) && 0 < h.depth
    requires forall k :: 0 <= k < |t.children| ==> ChildStored(fs, owner, Entry(node, k), t.children[k], h.depth)
    ensures WalkEntries(fs, owner, node, h, i) == Walk(Pass, RunsOf(t.children[i..]), BlocksOfAll(t.children[i..]))
    decreases t, 1, |t.children| - i
  {
    hide CheckNode, Stored, ReadBlock, ChecksumAccepts, DecodeIdx, DecodeExtent, WalkNode;
    if i < |t.children| {
      var c := t.children[i];
      assert ChildStored(fs, owner, Entry(node, i), c, h.depth);
      WalkReturnsTree(fs, owner, ReadBlock(fs, c.idx.leaf).value, c.tree, h.depth - 1, Some(h.depth - 1));
      WalkReturnsChildren(fs, owner, node, t, h, i + 1);
      assert t.children[i..][1..] == t.children[i + 1..];
    }
  }

  // ----- nothing else is walked successfully -----

  /** A successful walk has found a stored tree, so what it returned is that tree's runs in order. */
  lemma {:induction false} WalkFindsTree(fs: Fs, owner: Owner, node: seq<byte>, wanted: Option<nat>)
                                         returns (t: Tree, depth: nat)
    requires WalkNode(fs, owner, node, wanted).status.Pass?
    ensures Stored(fs, owner, node, t, depth) && (wanted.Some? ==> wanted.value == depth)
    ensures WalkNode(fs, owner, node, wanted) == Walk(Pass, RunsIn(t), BlocksOf(t))
    decreases Level(wanted), 1, 0
  {
    var h := CheckNode(node, wanted).value;
    depth := h.depth;
    if depth == 0 {
      WalkFindsRuns(fs, owner, node, h, 0);
      t := Leaf(seq(h.entries, k requires 0 <= k < h.entries => DecodeExtent(Entry(node, k))));
    } else {
      var children := WalkFindsChildren(fs, owner, node, h, 0);
      t := Node(children);
    }
    WalkReturnsTree(fs, owner, node, t, depth, wanted);
  }

  lemma {:induction false} WalkFindsRuns(fs: Fs, owner: Owner, node: seq<byte>, h: Header, i: nat)
    requires i <= h.entries <= RoomFor(|node|) && h.depth == 0
    requires WalkEntries(fs, owner, node, h, i).status.Pass?
    ensures forall k :: i <= k < h.entries ==> DecodeExtent(Entry(node, k)).Len() != 0
    decreases h.entries - i
  {
    if i < h.entries { WalkFindsRuns(fs, owner, node, h, i + 1); }
  }

  lemma {:induction false} WalkFindsChildren(fs: Fs, owner: Owner, node: seq<byte>, h: Header, i: nat)
                                             returns (children: seq<Child>)
    requires i <= h.entries <= RoomFor(|node|) && 0 < h.depth
    requires WalkEntries(fs, owner, node, h, i).status.Pass?
    ensures i + |children| == h.entries && AllStored(fs, owner, node, children, i, h.depth)
    decreases h.depth, 0, h.entries - i
  {
    hide CheckNode, Stored, ChildStored, ReadBlock;
    if i == h.entries {
      children := [];
    } else {
      var c := WalkFindsChild(fs, owner, Entry(node, i), h.depth);
      var rest := WalkFindsChildren(fs, owner, node, h, i + 1);
      ConsStored(fs, owner, node, c, rest, i, h.depth);
      children := [c] + rest;
    }
  }

  lemma {:induction false} WalkFindsChild(fs: Fs, owner: Owner, entry: seq<byte>, depth: nat) returns (c: Child)
    requires |entry| == ENTRY_LEN && 0 < depth && WalkEntry(fs, owner, entry, depth).status.Pass?
    ensures ChildStored(fs, owner, entry, c, depth)
    decreases depth, 0, 0
  {
    hide CheckNode, Stamped, DecodeIdx, DecodeHeader;
    var idx := DecodeIdx(entry);
    var t, d := WalkFindsTree(fs, owner, ReadBlock(fs, idx.leaf).value, Some(depth - 1));
    c := Child(idx, t);
  }

  /** The entries from `i` on lead to these children. */
  ghost predicate AllStored(fs: Fs, owner: Owner, node: seq<byte>, children: seq<Child>, i: nat, depth: nat)
    requires i + |children| <= RoomFor(|node|) && 0 < depth
  {
    forall k :: 0 <= k < |children| ==> ChildStored(fs, owner, Entry(node, i + k), children[k], depth)
  }

  lemma ConsStored(fs: Fs, owner: Owner, node: seq<byte>, c: Child, rest: seq<Child>, i: nat, depth: nat)
    requires i + 1 + |rest| <= RoomFor(|node|) && 0 < depth
    requires ChildStored(fs, owner, Entry(node, i), c, depth) && AllStored(fs, owner, node, rest, i + 1, depth)
    ensures AllStored(fs, owner, node, [c] + rest, i, depth)
  {
    forall k | 0 <= k < |rest| + 1 ensures ChildStored(fs, owner, Entry(node, i + k), ([c] + rest)[k], depth) {
      if 0 < k {
        assert i + k == i + 1 + (k - 1);
        assert ([c] + rest)[k] == rest[k - 1];
      }
    }
  }

  ghost predicate HoldsTree(fs: Fs, owner: Owner, root: seq<byte>) {
    exists t: Tree, depth: nat :: Stored(fs, owner, root, t, depth)
  }

  /** The walk of a root succeeds if and only if a tree is stored under it. */
  lemma WalkSucceedsIffStored(fs: Fs, owner: Owner, root: seq<byte>)
    ensures WalkNode(fs, owner, root, None).status.Pass? <==> HoldsTree(fs, owner, root)
  {
    if WalkNode(fs, owner, root, None).status.Pass? {
      var t, depth := WalkFindsTree(fs, owner, root, None);
    }
    if HoldsTree(fs, owner, root) {
      var t: Tree, depth: nat :| Stored(fs, owner, root, t, depth);
      WalkReturnsTree(fs, owner, root, t, depth, None);
    }
  }

  // ----- bounds on any disk -----

  function Pow340(d: nat): nat {
    if d == 0 then 1 else 340 * Pow340(d - 1)
  }

  /** The most blocks one subtree of height `d` makes the walk read, its own not counted. */
  function ReadsBelow(d: nat): nat {
    if d == 0 then 0 else 1 + 340 * ReadsBelow(d - 1)
  }

  lemma {:induction false} ReadsBelowClosed(d: nat)
    ensures 339 * ReadsBelow(d) == Pow340(d) - 1
    decreases d
  {
    if d > 0 { ReadsBelowClosed(d - 1); }
  }

  /** `n` summands of `p`. */
  function Copies(n: nat, p: nat): nat {
    if n == 0 then 0 else p + Copies(n - 1, p)
  }

  lemma {:induction false} CopiesIsProduct(n: nat, p: nat)
    ensures Copies(n, p) == n * p
    decreases n
  {
    if n > 0 { CopiesIsProduct(n - 1, p); }
  }

  lemma {:induction false} CopiesGrow(m: nat, n: nat, p: nat)
    requires m <= n
    ensures Copies(m, p) <= Copies(n, p)
    decreases n
  {
    if m < n { CopiesGrow(m, n - 1, p); }
  }

  /** The output and the reads of `n` entries, `depth` levels above the leaves. */
  ghost predicate SmallWalk(w: Walk, n: nat, depth: nat) {
    && |w.out| <= Copies(n, Pow340(depth))
    && w.fetched <= Copies(n, ReadsBelow(depth))
  }

  /** One entry's walk followed by the rest's. */
  function Then(first: Walk, rest: Walk): Walk {
    if first.status.Fail? then first else Walk(rest.status, first.out + rest.out, first.fetched + rest.fetched)
  }

  lemma JoinBounded(first: Walk, rest: Walk, n: nat, depth: nat)
    requires |first.out| <= Pow340(depth) && first.fetched <= ReadsBelow(depth) && SmallWalk(rest, n, depth)
    ensures SmallWalk(Then(first, rest), n + 1, depth)
  {
  }

  lemma {:induction false} EntriesBounded(fs: Fs, owner: Owner, node: seq<byte>, h: Header, i: nat)
    requires i <= h.entries <= RoomFor(|node|)
    ensures SmallWalk(WalkEntries(fs, owner, node, h, i), h.entries - i, h.depth)
    decreases h.depth, 0, h.entries - i
  {
    hide WalkEntry;
    if i < h.entries {
      EntryBounded(fs, owner, Entry(node, i), h.depth);
      EntriesBounded(fs, owner, node, h, i + 1);
      JoinBounded(WalkEntry(fs, owner, Entry(node, i), h.depth), WalkEntries(fs, owner, node, h, i + 1),
        h.entries - i - 1, h.depth);
    }
  }

  lemma {:induction false} EntryBounded(fs: Fs, owner: Owner, entry: seq<byte>, depth: nat)
    requires |entry| == ENTRY_LEN
    ensures var w := WalkEntry(fs, owner, entry, depth);
            |w.out| <= Pow340(depth) && w.fetched <= ReadsBelow(depth)
    decreases depth, 0, 0
  {
    hide CheckNode, WalkNode, DecodeIdx, DecodeHeader;
    if 0 < depth && ReadBlock(fs, DecodeIdx(entry).leaf).Ok? {
      BlockBounded(fs, owner, ReadBlock(fs, DecodeIdx(entry).leaf).value, depth - 1);
    }
  }

  lemma {:induction false} BlockBounded(fs: Fs, owner: Owner, block: seq<byte>, depth: nat)
    requires |block| == BLOCK_SIZE
    ensures var w := WalkNode(fs, owner, block, Some(depth));
            |w.out| <= 340 * Pow340(depth) && w.fetched <= 340 * ReadsBelow(depth)
    decreases depth, 1, 0
  {
    if CheckNode(block, Some(depth)).Ok? {
      NodeBounded(fs, owner, block, CheckNode(block, Some(depth)).value, 340);
    }
  }

  lemma NodeBounded(fs: Fs, owner: Owner, node: seq<byte>, h: Header, n: nat)
    requires h.entries <= RoomFor(|node|) <= n
    ensures var w := WalkEntries(fs, owner, node, h, 0);
            |w.out| <= n * Pow340(h.depth) && w.fetched <= n * ReadsBelow(h.depth)
    decreases h.depth, 0, h.entries + 1
  {
    EntriesBounded(fs, owner, node, h, 0);
    CopiesGrow(h.entries, n, Pow340(h.depth));
    CopiesGrow(h.entries, n, ReadsBelow(h.depth));
    CopiesIsProduct(n, Pow340(h.depth));
    CopiesIsProduct(n, ReadsBelow(h.depth));
  }

  /**
    Whatever the disk holds, a 60-byte root of depth `d` yields at most 4 * 340^d runs and
    costs at most 4 * (340^d - 1) / 339 block reads, whether or not the walk succeeds.
  */
  lemma RootBounded(fs: Fs, owner: Owner, root: seq<byte>)
    requires |root| == 60 && CheckNode(root, None).Ok?
    ensures var w, d := WalkNode(fs, owner, root, None), CheckNode(root, None).value.depth;
            |w.out| <= 4 * Pow340(d) && 339 * w.fetched <= 4 * (Pow340(d) - 1)
  {
    NodeBounded(fs, owner, root, CheckNode(root, None).value, 4);
    ReadsBelowClosed(CheckNode(root, None).value.depth);
  }

  // ----- what a walk hands to the file reader -----

  predicate ValidRun(e: FileExtent) {
    1 <= e.len <= 32768 && e.physical < U48
  }

  lemma {:induction false} RunsValid(fs: Fs, owner: Owner, node: seq<byte>, wanted: Option<nat>)
    ensures forall e :: e in WalkNode(fs, owner, node, wanted).out ==> ValidRun(e)
    decreases Level(wanted), 1, 0
  {
    if CheckNode(node, wanted).Ok? { EntriesValid(fs, owner, node, CheckNode(node, wanted).value, 0); }
  }

  lemma {:induction false} EntriesValid(fs: Fs, owner: Owner, node: seq<byte>, h: Header, i: nat)
    requires i <= h.entries <= RoomFor(|node|)
    ensures forall e :: e in WalkEntries(fs, owner, node, h, i).out ==> ValidRun(e)
    decreases h.depth, 0, h.entries - i
  {
    hide CheckNode, WalkNode, DecodeIdx, DecodeHeader;
    if i < h.entries {
      var entry := Entry(node, i);
      if 0 < h.depth && ReadBlock(fs, DecodeIdx(entry).leaf).Ok? {
        RunsValid(fs, owner, ReadBlock(fs, DecodeIdx(entry).leaf).value, Some(h.depth - 1));
      }
      EntriesValid(fs, owner, node, h, i + 1);
    }
  }

  // ----- trees written by the encoders -----

  predicate Fits48(t: Tree) {
    match t
    case Leaf(runs) => forall i :: 0 <= i < |runs| ==> runs[i].start < U48 && runs[i].Len() != 0
    case Node(children) => forall i :: 0 <= i < |children| ==> children[i].idx.leaf < U48
  }

  /** The node holds the encodings of the root's header and entries, wherever else its bytes differ. */
  ghost predicate EncodesRoot(node: seq<byte>, t: Tree, max: u16, depth: u16) {
    && EntryCount(t) <= max <= RoomFor(|node|)
    && HEADER_LEN <= |node|
    && (exists generation :: node[..HEADER_LEN] == HeaderBytes(Header(EntryCount(t), max, depth, generation)))
    && (match t
        case Leaf(runs) => forall i :: 0 <= i < |runs| ==> Entry(node, i) == ExtentBytes(runs[i])
        case Node(children) => forall i :: 0 <= i < |children| ==> Entry(node, i) == IdxBytes(children[i].idx))
  }

  /** Every node of the tree is encoded, and every block below the root is on the disk and stamped. */
  ghost predicate Encoded(fs: Fs, owner: Owner, node: seq<byte>, t: Tree, max: u16, depth: nat)
    decreases t
  {
    && depth <= MAX_DEPTH && Fits48(t) && EncodesRoot(node, t, max, depth)
    && (match t
        case Leaf(_) => depth == 0
        case Node(children) =>
          0 < depth && forall i :: 0 <= i < |children| ==> ChildEncoded(fs, owner, children[i], depth))
  }

  ghost predicate ChildEncoded(fs: Fs, owner: Owner, c: Child, depth: nat)
    requires 0 < depth
    decreases c
  {
    && ReadBlock(fs, c.idx.leaf).Ok?
    && Stamped(fs, owner, ReadBlock(fs, c.idx.leaf).value)
    && Encoded(fs, owner, ReadBlock(fs, c.idx.leaf).value, c.tree, 340, depth - 1)
  }

  lemma RootDecodes(node: seq<byte>, t: Tree, max: u16, depth: u16)
    requires EncodesRoot(node, t, max, depth) && depth <= MAX_DEPTH
    ensures CheckNode(node, Some(depth)).Ok? && CheckNode(node, Some(depth)).value.entries == EntryCount(t)
  {
    hide HeaderBytes, DecodeHeader;
    var generation :| node[..HEADER_LEN] == HeaderBytes(Header(EntryCount(t), max, depth, generation));
    HeaderRoundTrip(node, Header(EntryCount(t), max, depth, generation));
  }

  /** Wherever the child blocks sit, an encoded tree is a stored tree. */
  lemma {:induction false} EncodedIsStored(fs: Fs, owner: Owner, node: seq<byte>, t: Tree, max: u16, depth: nat)
    requires Encoded(fs, owner, node, t, max, depth)
    ensures Stored(fs, owner, node, t, depth)
    decreases t
  {
    hide HeaderBytes, DecodeHeader, CheckNode, ExtentBytes, DecodeExtent, IdxBytes, DecodeIdx, Stamped;
    RootDecodes(node, t, max, depth);
    match t {
      case Leaf(runs) =>
        forall i | 0 <= i < |runs| ensures DecodeExtent(Entry(node, i)) == runs[i] { ExtentRoundTrip(runs[i]); }
      case Node(children) =>
        forall i | 0 <= i < |children| ensures ChildStored(fs, owner, Entry(node, i), children[i], depth) {
          var c := children[i];
          IdxRoundTrip(c.idx);
          assert ChildEncoded(fs, owner, c, depth);
          EncodedIsStored(fs, owner, ReadBlock(fs, c.idx.leaf).value, c.tree, 340, depth - 1);
        }
    }
  }

  /** Round trip: walking what the encoders wrote returns the tree's runs in order. */
  lemma EncodedTreeIsWalked(fs: Fs, owner: Owner, root: seq<byte>, t: Tree, max: u16, depth: nat)
    requires Encoded(fs, owner, root, t, max, depth)
    ensures WalkNode(fs, owner, root, None) == Walk(Pass, RunsIn(t), BlocksOf(t))
  {
    EncodedIsStored(fs, owner, root, t, max, depth);
    WalkReturnsTree(fs, owner, root, t, depth, None);
  }
}
