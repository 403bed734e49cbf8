/**
  Listing a directory and looking a name up in it (`read_dir`, `lookup` in
  `src/reader/mod.rs`): a linear scan that works on linear and indexed directories alike.
*/
module DirRead {
  import opened Bytes
  import opened ExtentWalk
  import opened FileRead
  import opened Htree
  import opened DirVerify
  import opened IndexChain
  import Dirent

  datatype Named = Named(inode: u32, fileType: byte, name: seq<byte>)

  function AsNamed(e: Dirent.Entry): Named {
    Named(e.inode, e.fileType, e.name)
  }

  function AllNamed(entries: seq<Dirent.Entry>): (r: seq<Named>)
    ensures |r| == |entries|
  {
    seq(|entries|, i requires 0 <= i < |entries| => AsNamed(entries[i]))
  }

  const DOT: seq<byte> := ['.' as byte]
  const DOT_DOT: seq<byte> := ['.' as byte, '.' as byte]

  /** An interior node shows itself by an unused record that spans its block. */
  predicate NodeLike(data: seq<byte>)
    requires |data| == BLOCK_SIZE
  {
    Le32(data, 0) == 0 && Le16(data, 4) == |data|
  }

  function RootNames(data: seq<byte>): seq<Named>
    requires |data| == BLOCK_SIZE
  {
    [Named(Le32(data, 0), data[7], DOT), Named(Le32(data, 0x0C), data[0x13], DOT_DOT)]
  }

  /** What one block of the directory contributes. */
  function BlockNames(d: Dir, logical: nat, data: seq<byte>): Result<seq<Named>>
    requires |data| == BLOCK_SIZE
  {
    if d.indexed && logical == 0 then
      match RootAt(data)
      case Err(e) => Err(e)
      case Ok(_) => Ok(RootNames(data))
    else if d.indexed && NodeLike(data) then Ok([])
    else if Dirent.Scan(data, 0).ok then Ok(AllNamed(Dirent.Scan(data, 0).entries))
    else Err(Corrupt)
  }

  function NamesUpTo(d: Dir, blocks: nat): Result<seq<Named>> {
    if blocks == 0 then Ok([])
    else
      var before :- NamesUpTo(d, blocks - 1);
      var data :- d.Block(blocks - 1);
      match data
      case None => Err(Corrupt)
      case Some(b) =>
        var own :- BlockNames(d, blocks - 1, b);
        Ok(before + own)
  }

  lemma AllNamedStep(entries: seq<Dirent.Entry>, e: Dirent.Entry)
    ensures AllNamed(entries + [e]) == AllNamed(entries) + [AsNamed(e)]
  {
  }

  /** Pushes a block's used records, or stops at its first bad one. */
  method PushEntries(data: seq<byte>, out: seq<Named>) returns (r: Result<seq<Named>>)
    ensures r == if Dirent.Scan(data, 0).ok then Ok(out + AllNamed(Dirent.Scan(data, 0).entries)) else Err(Corrupt)
  {
    var it := new Dirent.DirentIter(data);
    var all := out;
    ghost var seen: seq<Dirent.Entry> := [];
    while true
      invariant fresh(it) && it.block == data
      invariant Dirent.Scan(data, 0) == Dirent.Listing(seen + it.Rest().entries, it.Rest().ok)
      invariant all == out + AllNamed(seen)
      decreases |it.Rest().entries|
    {
      var next := it.Next();
      if next.None? {
        assert seen + [] == seen;
        return Ok(all);
      }
      if next.value.Err? {
        return Err(Corrupt);
      }
      var e := next.value.value;
      AllNamedStep(seen, e);
      AppendAssociates(seen, [e], it.Rest().entries);
      AppendAssociates(out, AllNamed(seen), [AsNamed(e)]);
      seen := seen + [e];
      all := all + [AsNamed(e)];
    }
  }

  /** One block of the listing: the root's two names, nothing for a node, or its used records. */
  method ReadBlockNames(d: Dir, logical: nat, data: seq<byte>, out: seq<Named>) returns (r: Result<seq<Named>>)
    requires |data| == BLOCK_SIZE
    ensures match BlockNames(d, logical, data) case Ok(own) => r == Ok(out + own) case Err(e) => r == Err(e)
  {
    hide AllNamed, RootNames, RootAt;
    if d.indexed {
      if logical == 0 {
        var root := ParseRoot(data);
        if root.Err? { return Err(root.error); }
        return Ok(out + RootNames(data));
      }
      if Le32(data, 0) == 0 && Le16(data, 4) == |data| {
        assert out + [] == out;
        return Ok(out);
      }
    }
    r := PushEntries(data, out);
  }

  method ReadDir(d: Dir) returns (r: Result<seq<Named>>)
    ensures r == NamesUpTo(d, d.size / BLOCK_SIZE)
  {
    hide BlockNames;
    var out: seq<Named> := [];
    var total := d.size / BLOCK_SIZE;
    for logical := 0 to total
      invariant NamesUpTo(d, logical) == Ok(out)
    {
      if NamesUpTo(d, logical + 1).Err? {
        NamesFail(d, logical + 1, total);
      }
      var phys := FileBlock(d.extents, logical);
      if phys.None? { return Err(Corrupt); }
      var data := ReadBlock(d.fs, phys.value);
      if data.Err? { return Err(data.error); }
      var more := ReadBlockNames(d, logical, data.value, out);
      if more.Err? { return more; }
      out := more.value;
    }
    return Ok(out);
  }

  /** The first error ends the listing. */
  lemma {:induction false} NamesFail(d: Dir, n: nat, blocks: nat)
    requires n <= blocks && NamesUpTo(d, n).Err?
    ensures NamesUpTo(d, blocks) == NamesUpTo(d, n)
    decreases blocks
  {
    hide BlockNames;
    if n < blocks { NamesFail(d, n, blocks - 1); }
  }

  // ----- when a directory can be listed, and what is in the listing -----

  /** The first block of an index must parse, interior nodes are passed over, and any other block must be tiled. */
  ghost predicate Listable(d: Dir, logical: nat) {
    match d.Block(logical)
    case Ok(Some(b)) =>
      if d.indexed && logical == 0 then RootAt(b).Ok?
      else (d.indexed && Le32(b, 0) == 0 && Le16(b, 4) == 4096) || Dirent.Scan(b, 0).ok
    case _ => false
  }

  ghost predicate Contributes(d: Dir, logical: nat, m: Named) {
    match d.Block(logical)
    case Ok(Some(b)) =>
      if d.indexed && logical == 0 then
        m == Named(Le32(b, 0), b[7], ['.' as byte]) || m == Named(Le32(b, 12), b[19], ['.' as byte, '.' as byte])
      else
        && !(d.indexed && Le32(b, 0) == 0 && Le16(b, 4) == 4096)
        && exists e :: e in Dirent.Scan(b, 0).entries && m == Named(e.inode, e.fileType, e.name)
    case _ => false
  }

  lemma NamedMembers(entries: seq<Dirent.Entry>, m: Named)
    ensures m in AllNamed(entries) <==> exists e :: e in entries && m == Named(e.inode, e.fileType, e.name)
  {
    if m in AllNamed(entries) {
      var i :| 0 <= i < |entries| && AllNamed(entries)[i] == m;
      assert entries[i] in entries;
    }
    if e :| e in entries && m == Named(e.inode, e.fileType, e.name) {
      var i :| 0 <= i < |entries| && entries[i] == e;
      assert AllNamed(entries)[i] == m;
    }
  }

  lemma BlockLists(d: Dir, logical: nat, b: seq<byte>)
    requires d.Block(logical) == Ok(Some(b))
    ensures BlockNames(d, logical, b).Ok? <==> Listable(d, logical)
    ensures BlockNames(d, logical, b).Ok? ==>
              forall m :: m in BlockNames(d, logical, b).value <==> Contributes(d, logical, m)
  {
    hide Dirent.Scan, RootAt, AllNamed, Le16, Le32, FileBlock;
    if BlockNames(d, logical, b).Ok? {
      forall m ensures m in BlockNames(d, logical, b).value <==> Contributes(d, logical, m) {
        NamedMembers(Dirent.Scan(b, 0).entries, m);
      }
    }
  }

  ghost predicate InListing(d: Dir, blocks: nat, m: Named) {
    exists logical :: 0 <= logical < blocks && Contributes(d, logical, m)
  }

  /** A directory can be listed exactly when each of its blocks can, and the listing holds what each contributes. */
  lemma {:induction false} ListsExactly(d: Dir, blocks: nat)
    ensures NamesUpTo(d, blocks).Ok? <==> forall logical :: 0 <= logical < blocks ==> Listable(d, logical)
    ensures NamesUpTo(d, blocks).Ok? ==> forall m :: m in NamesUpTo(d, blocks).value <==> InListing(d, blocks, m)
    decreases blocks
  {
    hide BlockNames, Listable, Contributes;
    if 0 < blocks {
      ListsExactly(d, blocks - 1);
      NextIsListable(d, blocks - 1);
      if NamesUpTo(d, blocks).Ok? {
        var own := BlockNames(d, blocks - 1, d.Block(blocks - 1).value.value);
        BlockLists(d, blocks - 1, d.Block(blocks - 1).value.value);
        forall m ensures m in NamesUpTo(d, blocks).value <==> InListing(d, blocks, m) {
          assert m in NamesUpTo(d, blocks).value <==> m in NamesUpTo(d, blocks - 1).value || m in own.value;
          assert InListing(d, blocks, m) <==> InListing(d, blocks - 1, m) || Contributes(d, blocks - 1, m);
        }
      }
    }
  }

  lemma NextIsListable(d: Dir, n: nat)
    ensures NamesUpTo(d, n + 1).Ok? <==> NamesUpTo(d, n).Ok? && Listable(d, n)
  {
    if d.Block(n).Ok? && d.Block(n).value.Some? {
      BlockLists(d, n, d.Block(n).value.value);
    }
    hide BlockNames, Dirent.Scan, RootAt, FileBlock;
  }

  function Lookup(names: seq<Named>, name: seq<byte>): Option<u32> {
    if names == [] then None
    else if names[0].name == name then Some(names[0].inode)
    else Lookup(names[1..], name)
  }

  // ----- agreement with the index -----

  lemma {:induction false} LookupAppend(a: seq<Named>, b: seq<Named>, name: seq<byte>)
    ensures Lookup(a + b, name) == if Lookup(a, name).Some? then Lookup(a, name) else Lookup(b, name)
    decreases a
  {
    if a == [] {
      assert a + b == b;
    } else {
      assert (a + b)[1..] == a[1..] + b;
      LookupAppend(a[1..], b, name);
    }
  }

  function InodeOf(e: Option<Dirent.Entry>): Option<u32> {
    match e
    case None => None
    case Some(found) => Some(found.inode)
  }

  lemma {:induction false} LookupIsFind(entries: seq<Dirent.Entry>, name: seq<byte>)
    ensures Lookup(AllNamed(entries), name) == InodeOf(Find(entries, name))
    decreases entries
  {
    if entries != [] {
      assert AllNamed(entries)[1..] == AllNamed(entries[1..]);
      LookupIsFind(entries[1..], name);
    }
  }

  lemma {:induction false} ScannedAppend(d: Dir, leaves: seq<Leaf>, leaf: Leaf, name: seq<byte>)
    ensures Scanned(d, leaves + [leaf], name)
            == if Scanned(d, leaves, name).Some? then Scanned(d, leaves, name) else Find(LeafEntries(d, leaf), name)
    decreases leaves
  {
    hide LeafEntries, Find;
    if leaves == [] {
      assert leaves + [leaf] == [leaf];
    } else {
      assert (leaves + [leaf])[1..] == leaves[1..] + [leaf];
      ScannedAppend(d, leaves[1..], leaf, name);
    }
  }

  /** The block holds records and is not the root: the index should lead to it. */
  predicate HoldsNames(d: Dir, logical: nat) {
    0 < logical && match d.Block(logical) case Ok(Some(b)) => !NodeLike(b) case _ => false
  }

  /** Every block that holds names is some leaf of the index. */
  predicate Referenced(d: Dir) {
    forall logical: nat :: logical < d.size / BLOCK_SIZE && HoldsNames(d, logical) ==> Seen(logical, IndexLeaves(d))
  }

  /** `order` lists the leaves of the name-holding blocks below `blocks`, in block order. */
  ghost predicate InBlockOrder(d: Dir, blocks: nat, order: seq<Leaf>)
    decreases blocks
  {
    if blocks == 0 then order == []
    else if !HoldsNames(d, blocks - 1) then InBlockOrder(d, blocks - 1, order)
    else
      && order != [] && order[|order| - 1] in IndexLeaves(d) && order[|order| - 1].block == blocks - 1
      && InBlockOrder(d, blocks - 1, order[..|order| - 1])
  }

  lemma {:induction false} OrderExists(d: Dir, blocks: nat) returns (order: seq<Leaf>)
    requires Referenced(d) && blocks <= d.size / BLOCK_SIZE
    ensures InBlockOrder(d, blocks, order)
    decreases blocks
  {
    hide IndexLeaves, HoldsNames;
    if blocks == 0 {
      order := [];
    } else {
      order := OrderExists(d, blocks - 1);
      if HoldsNames(d, blocks - 1) {
        assert Seen(blocks - 1, IndexLeaves(d));
        var i :| 0 <= i < |IndexLeaves(d)| && IndexLeaves(d)[i].block == blocks - 1;
        var longer := order + [IndexLeaves(d)[i]];
        assert longer[..|longer| - 1] == order;
        order := longer;
      }
    }
  }

  lemma {:induction false} OrderIsIndexed(d: Dir, blocks: nat, order: seq<Leaf>)
    requires InBlockOrder(d, blocks, order)
    ensures forall leaf :: leaf in order ==> leaf in IndexLeaves(d)
    decreases blocks
  {
    hide IndexLeaves, HoldsNames;
    if 0 < blocks {
      if HoldsNames(d, blocks - 1) {
        var k := |order| - 1;
        OrderIsIndexed(d, blocks - 1, order[..k]);
        forall leaf | leaf in order ensures leaf in IndexLeaves(d) {
          assert order == order[..k] + [order[k]];
          assert leaf in order[..k] || leaf == order[k];
        }
      } else {
        OrderIsIndexed(d, blocks - 1, order);
      }
    }
  }

  lemma RootSkipped(data: seq<byte>, name: seq<byte>)
    requires |data| == BLOCK_SIZE && !Dots(name)
    ensures Lookup(RootNames(data), name) == None
  {
    hide Le32;
    var names := RootNames(data);
    var rest := names[1..];
    assert names[0].name != name && rest[0].name != name;
    assert Lookup(rest[1..], name) == None;
    assert Lookup(rest, name) == None;
  }

  /** What a block adds to the listing answers as its leaf does, or not at all when it holds no names. */
  lemma BlockLookup(d: Dir, logical: nat, name: seq<byte>)
    requires d.indexed && !Dots(name) && d.Block(logical).Ok? && d.Block(logical).value.Some?
    requires BlockNames(d, logical, d.Block(logical).value.value).Ok?
    ensures var found := Lookup(BlockNames(d, logical, d.Block(logical).value.value).value, name);
            if HoldsNames(d, logical) then forall leaf: Leaf ::
              leaf.block == logical ==> found == InodeOf(Find(LeafEntries(d, leaf), name))
            else found == None
  {
    hide RootAt, NodeLike, RootNames, AllNamed, Find, Dots;
    var b := d.Block(logical).value.value;
    if HoldsNames(d, logical) {
      LookupIsFind(Dirent.Scan(b, 0).entries, name);
    } else if logical == 0 {
      RootSkipped(b, name);
    }
  }

  /** The listing, one block from the end. */
  lemma NamesInit(d: Dir, blocks: nat)
    requires NamesUpTo(d, blocks).Ok?
    ensures blocks == 0 ==> NamesUpTo(d, blocks).value == []
    ensures 0 < blocks ==>
              && NamesUpTo(d, blocks - 1).Ok?
              && d.Block(blocks - 1).Ok? && d.Block(blocks - 1).value.Some?
              && BlockNames(d, blocks - 1, d.Block(blocks - 1).value.value).Ok?
              && NamesUpTo(d, blocks).value ==
                   NamesUpTo(d, blocks - 1).value + BlockNames(d, blocks - 1, d.Block(blocks - 1).value.value).value
  {
    hide BlockNames;
  }

  lemma OrderInit(d: Dir, blocks: nat, order: seq<Leaf>)
    requires InBlockOrder(d, blocks, order)
    ensures blocks == 0 ==> order == []
    ensures 0 < blocks && !HoldsNames(d, blocks - 1) ==> InBlockOrder(d, blocks - 1, order)
    ensures 0 < blocks && HoldsNames(d, blocks - 1) ==>
              && order != [] && order[|order| - 1].block == blocks - 1
              && InBlockOrder(d, blocks - 1, order[..|order| - 1])
  {
    hide HoldsNames;
  }

  /** One more block with names adds what its leaf adds to the scan. */
  lemma NamesNext(d: Dir, last: nat, before: seq<Named>, order: seq<Leaf>, leaf: Leaf, name: seq<byte>)
    requires d.indexed && !Dots(name) && d.Block(last).Ok? && d.Block(last).value.Some?
    requires BlockNames(d, last, d.Block(last).value.value).Ok? && HoldsNames(d, last) && leaf.block == last
    requires Lookup(before, name) == InodeOf(Scanned(d, order, name))
    ensures Lookup(before + BlockNames(d, last, d.Block(last).value.value).value, name)
            == InodeOf(Scanned(d, order + [leaf], name))
  {
    hide BlockNames, HoldsNames, Find, Dots, LeafEntries, Scanned, Lookup;
    LookupAppend(before, BlockNames(d, last, d.Block(last).value.value).value, name);
    BlockLookup(d, last, name);
    ScannedAppend(d, order, leaf, name);
  }

  /** And a block without names adds nothing. */
  lemma NamelessNext(d: Dir, last: nat, before: seq<Named>, name: seq<byte>)
    requires d.indexed && !Dots(name) && d.Block(last).Ok? && d.Block(last).value.Some?
    requires BlockNames(d, last, d.Block(last).value.value).Ok? && !HoldsNames(d, last)
    ensures Lookup(before + BlockNames(d, last, d.Block(last).value.value).value, name) == Lookup(before, name)
  {
    hide BlockNames, HoldsNames, Find, Dots, LeafEntries, Scanned, Lookup;
    LookupAppend(before, BlockNames(d, last, d.Block(last).value.value).value, name);
    BlockLookup(d, last, name);
  }

  /** The listing finds a name as a scan of the leaves in block order does. */
  lemma {:induction false} ListingScansLeaves(d: Dir, blocks: nat, order: seq<Leaf>, name: seq<byte>)
    requires d.indexed && !Dots(name) && InBlockOrder(d, blocks, order) && NamesUpTo(d, blocks).Ok?
    ensures Lookup(NamesUpTo(d, blocks).value, name) == InodeOf(Scanned(d, order, name))
    decreases blocks
  {
    NamesInit(d, blocks);
    OrderInit(d, blocks, order);
    if 0 < blocks {
      hide NamesUpTo, InBlockOrder, BlockNames, HoldsNames, Find, Dots, LeafEntries, Scanned, Lookup;
      var last := blocks - 1;
      if HoldsNames(d, last) {
        var k := |order| - 1;
        ListingScansLeaves(d, last, order[..k], name);
        LastApart(order);
        NamesNext(d, last, NamesUpTo(d, last).value, order[..k], order[k], name);
      } else {
        ListingScansLeaves(d, last, order, name);
        NamelessNext(d, last, NamesUpTo(d, last).value, name);
      }
    }
  }

  /**
    In an indexed directory without issues whose name-holding blocks are all leaves, the linear
    lookup answers what visiting only the leaves that the name's hash points at answers.
  */
  lemma LookupFollowsIndex(d: Dir, name: seq<byte>)
    requires d.indexed && DirIssues(d) == Ok([]) && !Dots(name) && Referenced(d)
    requires NamesUpTo(d, d.size / BLOCK_SIZE).Ok?
    ensures exists order :: InBlockOrder(d, d.size / BLOCK_SIZE, order)
              && Lookup(NamesUpTo(d, d.size / BLOCK_SIZE).value, name)
                 == InodeOf(Scanned(d, Candidates(order, d.Hash(name)), name))
  {
    hide DirIssues, Referenced, IndexLeaves, Dots, InBlockOrder, NamesUpTo;
    var n := d.size / BLOCK_SIZE;
    var order := OrderExists(d, n);
    OrderIsIndexed(d, n, order);
    ListingScansLeaves(d, n, order, name);
    CleanLookup(d, order, name);
  }

  /** A directory that raises no issue can be listed. */
  lemma {:induction false} CleanLinearLists(d: Dir, blocks: nat)
    requires !d.indexed && LinearIssues(d, blocks) == Ok([])
    ensures NamesUpTo(d, blocks).Ok?
    decreases blocks
  {
    hide AllNamed;
    if 0 < blocks { CleanLinearLists(d, blocks - 1); }
  }
}
