/**
  Dividing an inode's attributes between the inode and a block (`src/build/xattr_build.rs`),
  rendering the block, and the reader's check of it (`verify_xattr_block`).
*/
module XattrPlan {
  import opened Bytes
  import opened Xattr
  import opened XattrBuild
  import opened Crc32c
  import Csum
  import Inode

  // ----- the canonical order -----

  predicate NameLe(x: seq<byte>, y: seq<byte>)
    requires |x| == |y|
    decreases x
  {
    x == [] || x[0] < y[0] || (x[0] == y[0] && NameLe(x[1..], y[1..]))
  }

  /** Namespace index first, then name length, then the name's bytes. */
  predicate KeyLe(i: byte, x: seq<byte>, j: byte, y: seq<byte>) {
    i < j || (i == j && (|x| < |y| || (|x| == |y| && NameLe(x, y))))
  }

  ghost predicate FirstLess(x: seq<byte>, y: seq<byte>, k: nat) {
    k < |x| == |y| && x[..k] == y[..k] && x[k] < y[k]
  }

  /** Of two names of one length, the one with the smaller byte where they first differ comes first. */
  lemma {:induction false} NameOrder(x: seq<byte>, y: seq<byte>)
    requires |x| == |y|
    ensures NameLe(x, y) <==> x == y || exists k: nat :: FirstLess(x, y, k)
    decreases x
  {
    if x != [] {
      assert x == [x[0]] + x[1..] && y == [y[0]] + y[1..];
      NameOrder(x[1..], y[1..]);
      if k: nat :| FirstLess(x, y, k) {
        if 0 < k {
          assert x[0] == x[..k][0] == y[..k][0] == y[0];
          assert x[1..][..k - 1] == x[..k][1..] && y[1..][..k - 1] == y[..k][1..];
          assert FirstLess(x[1..], y[1..], k - 1);
        }
      }
      if x[0] < y[0] {
        assert FirstLess(x, y, 0);
      } else if x[0] == y[0] {
        if k: nat :| FirstLess(x[1..], y[1..], k) {
          assert x[..k + 1] == [x[0]] + x[1..][..k] && y[..k + 1] == [y[0]] + y[1..][..k];
          assert FirstLess(x, y, k + 1);
        }
      }
    }
  }

  /** The canonical order looks at the index, then at the length of the name, then at its bytes. */
  lemma KeyOrder(i: byte, x: seq<byte>, j: byte, y: seq<byte>)
    ensures i != j ==> (KeyLe(i, x, j, y) <==> i < j)
    ensures i == j && |x| != |y| ==> (KeyLe(i, x, j, y) <==> |x| < |y|)
    ensures i == j && |x| == |y| ==> (KeyLe(i, x, j, y) <==> x == y || exists k: nat :: FirstLess(x, y, k))
  {
    if |x| == |y| { NameOrder(x, y); }
  }

  predicate Le(a: Attr, b: Attr) {
    KeyLe(a.nameIndex, a.name, b.nameIndex, b.name)
  }

  lemma {:induction false} NameTotal(x: seq<byte>, y: seq<byte>)
    requires |x| == |y|
    ensures NameLe(x, y) || NameLe(y, x)
    decreases x
  {
    if x != [] { NameTotal(x[1..], y[1..]); }
  }

  lemma {:induction false} NameTransitive(x: seq<byte>, y: seq<byte>, z: seq<byte>)
    requires |x| == |y| == |z| && NameLe(x, y) && NameLe(y, z)
    ensures NameLe(x, z)
    decreases x
  {
    if x != [] && x[0] == y[0] == z[0] { NameTransitive(x[1..], y[1..], z[1..]); }
  }

  lemma LeTotal(a: Attr, b: Attr)
    ensures Le(a, b) || Le(b, a)
  {
    if |a.name| == |b.name| { NameTotal(a.name, b.name); }
  }

  lemma LeTransitive(a: Attr, b: Attr, c: Attr)
    requires Le(a, b) && Le(b, c)
    ensures Le(a, c)
  {
    if |a.name| == |b.name| == |c.name| && a.nameIndex == b.nameIndex == c.nameIndex {
      NameTransitive(a.name, b.name, c.name);
    }
  }

  function Insert(a: Attr, s: seq<Attr>): seq<Attr> {
    if s == [] || Le(a, s[0]) then [a] + s else [s[0]] + Insert(a, s[1..])
  }

  /** The standard library's stable sort by that order. */
  function Sort(attrs: seq<Attr>): seq<Attr> {
    if attrs == [] then [] else Insert(attrs[0], Sort(attrs[1..]))
  }

  predicate Sorted(s: seq<Attr>) {
    forall i, j :: 0 <= i < j < |s| ==> Le(s[i], s[j])
  }

  lemma {:induction false} InsertKeeps(a: Attr, s: seq<Attr>)
    requires Sorted(s)
    ensures Sorted(Insert(a, s)) && multiset(Insert(a, s)) == multiset(s) + multiset{a}
    decreases s
  {
    hide Le;
    if s == [] {
    } else if Le(a, s[0]) {
      forall j | 0 <= j < |s| ensures Le(a, s[j]) {
        if 0 < j { LeTransitive(a, s[0], s[j]); }
      }
    } else {
      LeTotal(a, s[0]);
      InsertKeeps(a, s[1..]);
      var r := Insert(a, s[1..]);
      assert s == [s[0]] + s[1..];
      forall j | 0 <= j < |r| ensures Le(s[0], r[j]) {
        assert r[j] in multiset(r);
        assert r[j] in s[1..] || r[j] == a;
      }
    }
  }

  lemma {:induction false} SortSorts(attrs: seq<Attr>)
    ensures Sorted(Sort(attrs)) && multiset(Sort(attrs)) == multiset(attrs)
    decreases attrs
  {
    if attrs != [] {
      SortSorts(attrs[1..]);
      InsertKeeps(attrs[0], Sort(attrs[1..]));
      assert attrs == [attrs[0]] + attrs[1..];
    }
  }

  lemma SortedNamed(attrs: seq<Attr>)
    requires Named(attrs)
    ensures Named(Sort(attrs))
  {
    SortSorts(attrs);
    forall i | 0 <= i < |Sort(attrs)| ensures |Sort(attrs)[i].name| < 256 {
      assert Sort(attrs)[i] in multiset(Sort(attrs));
      assert Sort(attrs)[i] in attrs;
    }
  }

  // ----- the plan -----

  datatype Plan = Plan(ibody: seq<byte>, blockAttrs: seq<Attr>)

  const IBODY_ROOM: nat := IBODY_AREA - 4
  const BLOCK_ROOM: nat := BLOCK_SIZE - 0x20

  predicate Oversize(a: Attr)
    requires |a.name| < 256
  {
    |a.value| > BLOCK_SIZE - 32 - 4 - EntryBytes(a)
  }

  function SplitFrom(s: seq<Attr>, k: nat): (r: nat)
    requires k <= |s|
    ensures k <= r <= |s|
    decreases |s| - k
  {
    if k < |s| && Room(s[..k + 1], IBODY_ROOM) then SplitFrom(s, k + 1) else k
  }

  /** In-inode area first, up to the first attribute that does not fit; the rest to the block. */
  function Planned(s: seq<Attr>): Option<Plan>
    requires Named(s)
  {
    var k := SplitFrom(s, 0);
    if exists i :: 0 <= i < |s| && Oversize(s[i]) then None
    else if !Room(s[k..], BLOCK_ROOM) then None
    else
      SplitHasRoom(s, 0);
      Some(Plan(if k == 0 then [] else Bytes32(MAGIC) + Rendered(s[..k], IBODY_ROOM, 0), s[k..]))
  }

  lemma {:induction false} SplitHasRoom(s: seq<Attr>, k: nat)
    requires k <= |s| && Room(s[..k], IBODY_ROOM)
    ensures Room(s[..SplitFrom(s, k)], IBODY_ROOM)
    decreases |s| - k
  {
    if k < |s| && Room(s[..k + 1], IBODY_ROOM) { SplitHasRoom(s, k + 1); }
  }

  lemma {:induction false} PrefixRoom(s: seq<Attr>, j: nat, k: nat, usable: nat)
    requires j <= k <= |s| && Room(s[..k], usable)
    ensures Room(s[..j], usable)
    decreases k
  {
    if j < k {
      assert s[..k][..k - 1] == s[..k - 1];
      PrefixRoom(s, j, k - 1, usable);
    }
  }

  /** The inode takes the longest prefix that has room. */
  lemma {:induction false} SplitIsLongest(s: seq<Attr>, k: nat, j: nat)
    requires k <= |s| && j <= |s| && Room(s[..k], IBODY_ROOM)
    ensures Room(s[..j], IBODY_ROOM) <==> j <= SplitFrom(s, k)
    decreases |s| - k
  {
    if k < |s| && Room(s[..k + 1], IBODY_ROOM) {
      SplitIsLongest(s, k + 1, j);
    } else if j <= k {
      PrefixRoom(s, j, k, IBODY_ROOM);
    } else if Room(s[..j], IBODY_ROOM) {
      PrefixRoom(s, k + 1, j, IBODY_ROOM);
    }
  }

  /** The next multiple of four. */
  function UpTo4(n: nat): (r: nat)
    ensures r % 4 == 0 && n <= r < n + 4
  {
    n + (4 - n % 4) % 4
  }

  /** What attributes take: sixteen bytes each for the header, and name and value rounded up to four. */
  function Taken(attrs: seq<Attr>): nat {
    if attrs == [] then 0
    else
      var last := attrs[|attrs| - 1];
      Taken(attrs[..|attrs| - 1]) + 16 + UpTo4(|last.name|) + UpTo4(|last.value|)
  }

  lemma {:induction false} TakenIsSizes(attrs: seq<Attr>)
    ensures Taken(attrs) == HeadSize(attrs) + ValSize(attrs)
    decreases attrs
  {
    if attrs != [] { TakenIsSizes(attrs[..|attrs| - 1]); }
  }

  /**
    The inode takes the longest prefix of at most 88 bytes. The plan is refused exactly when what is left takes more
    than 4060 bytes, or when one value, before it is rounded up, is too long to share a block with its own entry.
  */
  lemma PlanExactly(s: seq<Attr>)
    requires Named(s)
    ensures var k := SplitFrom(s, 0);
            && Taken(s[..k]) <= 88 && (forall j :: k < j <= |s| ==> 88 < Taken(s[..j]))
            && (Planned(s).Some? <==>
                  Taken(s[k..]) <= 4060
                  && forall i :: 0 <= i < |s| ==> 52 + UpTo4(|s[i].name|) + |s[i].value| <= 4096)
            && (Planned(s).Some? ==>
                  && Planned(s).value.blockAttrs == s[k..]
                  && |Planned(s).value.ibody| == if k == 0 then 0 else 96)
  {
    hide Rendered, HeadSize, ValSize, UpTo4, Taken, SplitFrom;
    var k := SplitFrom(s, 0);
    RoomForNothing(s);
    SplitHasRoom(s, 0);
    forall j | k < j <= |s| ensures 88 < Taken(s[..j]) {
      SplitIsLongest(s, 0, j);
      TakenIsSizes(s[..j]);
    }
    TakenIsSizes(s[..k]);
    TakenIsSizes(s[k..]);
    forall i | 0 <= i < |s| ensures Oversize(s[i]) <==> 4096 < 52 + UpTo4(|s[i].name|) + |s[i].value| {
      OversizeIs(s[i]);
    }
  }

  lemma OversizeIs(a: Attr)
    requires |a.name| < 256
    ensures Oversize(a) <==> 4096 < 52 + UpTo4(|a.name|) + |a.value|
    ensures Oversize(a) <==> 4060 < Taken([a])
  {
    assert [a][..0] == [];
  }

  method AnyOversize(attrs: seq<Attr>) returns (found: bool)
    requires Named(attrs)
    ensures found <==> exists i :: 0 <= i < |attrs| && Oversize(attrs[i])
  {
    for i := 0 to |attrs|
      invariant forall j :: 0 <= j < i ==> !Oversize(attrs[j])
    {
      if Oversize(attrs[i]) { return true; }
    }
    return false;
  }

  lemma SizesStep(s: seq<Attr>, i: nat)
    requires i < |s|
    ensures HeadSize(s[..i + 1]) == HeadSize(s[..i]) + EntryBytes(s[i])
            && ValSize(s[..i + 1]) == ValSize(s[..i]) + ValueBytes(s[i])
  {
    assert s[..i + 1][..i] == s[..i] && s[..i + 1][i] == s[i];
  }

  /** The greedy walk, with running totals of what the entries and the values take. */
  method Split(s: seq<Attr>) returns (split: nat)
    ensures split == SplitFrom(s, 0)
  {
    hide HeadSize, ValSize;
    var ent, val := 0, 0;
    split := 0;
    SizesOfNothing();
    assert s[..0] == [];
    while split < |s|
      invariant split <= |s| && SplitFrom(s, 0) == SplitFrom(s, split)
      invariant ent == HeadSize(s[..split]) && val == ValSize(s[..split])
    {
      SizesStep(s, split);
      var e, v := EntryBytes(s[split]), ValueBytes(s[split]);
      if ent + e + 4 + val + v > IBODY_ROOM { break; }
      ent := ent + e;
      val := val + v;
      split := split + 1;
    }
  }

  lemma SizesOfNothing()
    ensures HeadSize([]) == 0 && ValSize([]) == 0
  {
  }

  method TotalBlock(attrs: seq<Attr>) returns (total: nat)
    ensures total == 32 + 4 + HeadSize(attrs) + ValSize(attrs)
  {
    hide HeadSize, ValSize;
    SizesOfNothing();
    assert attrs[..0] == [];
    total := 32 + 4;
    for i := 0 to |attrs|
      invariant total == 32 + 4 + HeadSize(attrs[..i]) + ValSize(attrs[..i])
    {
      SizesStep(attrs, i);
      total := total + (EntryBytes(attrs[i]) + ValueBytes(attrs[i]));
    }
    assert attrs[..|attrs|] == attrs;
  }

  /** The zeroed in-inode area with the magic, then the rendered list. */
  method RenderArea(attrs: seq<Attr>) returns (area: seq<byte>)
    requires Renderable(attrs, IBODY_ROOM, 0)
    ensures area == Bytes32(MAGIC) + Rendered(attrs, IBODY_ROOM, 0)
  {
    hide Rendered, HeadSize, ValSize, Bytes32;
    var buf := new byte[IBODY_AREA](_ => 0);
    assert buf[..] == [] + Zeros(IBODY_AREA) + [];
    Fill32(buf, 0, MAGIC, [], IBODY_AREA, []);
    assert buf[..4] == Bytes32(MAGIC) && buf[4..] == Zeros(IBODY_ROOM);
    var _ := RenderEntries(buf, 4, attrs, IBODY_ROOM, 0);
    area := buf[..];
  }

  method MakePlan(attrs: seq<Attr>) returns (r: Option<Plan>)
    requires Named(attrs)
    ensures Named(Sort(attrs)) && r == Planned(Sort(attrs))
  {
    hide Rendered, HeadSize, ValSize, Oversize, Bytes32;
    SortedNamed(attrs);
    var s := Sort(attrs);
    var oversize := AnyOversize(s);
    if oversize { return None; }
    var split := Split(s);
    var blockAttrs := s[split..];
    var total := TotalBlock(blockAttrs);
    if total > BLOCK_SIZE { return None; }
    RoomForNothing(s);
    SplitHasRoom(s, 0);
    var ibody := [];
    if split != 0 {
      ibody := RenderArea(s[..split]);
    }
    return Some(Plan(ibody, blockAttrs));
  }

  lemma RoomForNothing(s: seq<Attr>)
    ensures Room(s[..0], IBODY_ROOM)
  {
  }

  // ----- the block -----

  function BlockHash(hashes: seq<bv32>): bv32 {
    if 0 in hashes then 0 else Csum.HashesFold(0, hashes)
  }

  /** Magic, reference count and block count, all written before the entries. */
  function Fixed(): (r: seq<byte>)
    ensures |r| == 12
  {
    Bytes32(MAGIC) + Bytes32(1) + Bytes32(1)
  }

  function Laid(attrs: seq<Attr>, hash: u32, checksum: seq<byte>): (r: seq<byte>)
    requires Renderable(attrs, BLOCK_ROOM, 0x20) && |checksum| == 4
    ensures |r| == BLOCK_SIZE
  {
    Fixed() + Bytes32(hash) + checksum + Zeros(12) + Rendered(attrs, BLOCK_ROOM, 0x20)
  }

  function BlockChecksum(attrs: seq<Attr>, fsSeed: bv32, nr: u64): bv32
    requires Renderable(attrs, BLOCK_ROOM, 0x20)
  {
    Csum.XattrBlock(fsSeed, nr, Laid(attrs, Csum.AsU32(BlockHash(Hashes(attrs, 0x20))), Zeros(4)))
  }

  function BlockBytes(attrs: seq<Attr>, fsSeed: bv32, nr: u64): (r: seq<byte>)
    requires Renderable(attrs, BLOCK_ROOM, 0x20)
    ensures |r| == BLOCK_SIZE
  {
    Laid(attrs, Csum.AsU32(BlockHash(Hashes(attrs, 0x20))), Bytes32(Csum.AsU32(BlockChecksum(attrs, fsSeed, nr))))
  }

  method RenderBlock(attrs: seq<Attr>, fsSeed: bv32, nr: u64) returns (block: seq<byte>)
    requires Renderable(attrs, BLOCK_ROOM, 0x20)
    ensures block == BlockBytes(attrs, fsSeed, nr)
  {
    hide Rendered, HeadSize, ValSize, Bytes32, Csum.XattrBlock, Csum.HashesFold, Renderable, Hashes, Csum.AsU32;
    var buf := new byte[BLOCK_SIZE](_ => 0);
    assert buf[..] == [] + Zeros(BLOCK_SIZE) + [];
    Fill32(buf, 0, MAGIC, [], BLOCK_SIZE, []);
    assert [] + Bytes32(MAGIC) == Bytes32(MAGIC);
    Fill32(buf, 4, 1, Bytes32(MAGIC), BLOCK_SIZE - 4, []);
    Fill32(buf, 8, 1, Bytes32(MAGIC) + Bytes32(1), BLOCK_SIZE - 8, []);
    assert buf[..0x20] == Fixed() + Zeros(0x14) && buf[0x20..] == Zeros(BLOCK_ROOM);
    var hashes := RenderEntries(buf, 0x20, attrs, BLOCK_ROOM, 0x20);
    var hash := Csum.XattrBlockHash(hashes);
    ghost var body := Rendered(attrs, BLOCK_ROOM, 0x20);
    Fill32(buf, 0x0C, Csum.AsU32(hash), Fixed(), 0x14, body);
    ghost var p := Fixed() + Bytes32(Csum.AsU32(hash));
    ZerosApart(p, body);
    var c := Csum.XattrBlock(fsSeed, nr, buf[..]);
    Fill32(buf, 0x10, Csum.AsU32(c), p, 0x10, body);
    block := buf[..];
  }

  lemma ZerosApart(p: seq<byte>, q: seq<byte>)
    ensures p + Zeros(0x10) + q == p + Zeros(4) + Zeros(12) + q
  {
  }

  /** What stands in front of the entries of a rendered block, byte by byte where it is fixed. */
  lemma BlockHead(attrs: seq<Attr>, fsSeed: bv32, nr: u64)
    requires Renderable(attrs, BLOCK_ROOM, 0x20)
    ensures var b := BlockBytes(attrs, fsSeed, nr);
            && b[..12] == [0, 0, 2, 0xEA, 1, 0, 0, 0, 1, 0, 0, 0]
            && b[12..16] == Bytes32(Csum.AsU32(BlockHash(Hashes(attrs, 0x20))))
            && b[20..32] == Zeros(12)
  {
    hide Rendered, Renderable, Csum.XattrBlock, Csum.AsU32, BlockHash, Hashes, HeadSize, ValSize, BlockChecksum;
    assert Fixed() == [0, 0, 2, 0xEA, 1, 0, 0, 0, 1, 0, 0, 0];
    hide Fixed, Bytes32;
  }

  /** An area in the inode starts with the same magic number. */
  lemma AreaHead(s: seq<Attr>)
    requires Named(s) && Planned(s).Some? && Planned(s).value.ibody != []
    ensures Planned(s).value.ibody[..4] == [0, 0, 2, 0xEA]
  {
    hide Rendered, SplitFrom, Room, Oversize;
    assert Bytes32(MAGIC) == [0, 0, 2, 0xEA];
  }

  // ----- the reader on what was rendered -----

  lemma FieldInside<T>(p: seq<T>, w: seq<T>, z: seq<T>, q: seq<T>)
    ensures var b := p + w + z + q;
            b[..|p|] == p && b[|p|..|p| + |w|] == w && b[..|p| + |w|] == p + w && b[|p| + |w|..] == z + q
              && b[|p| + |w| + |z|..] == q
  {
  }

  lemma BlockFields(attrs: seq<Attr>, h: u32, checksum: seq<byte>)
    requires Renderable(attrs, BLOCK_ROOM, 0x20) && |checksum| == 4
    ensures var b := Laid(attrs, h, checksum);
            && Le32(b, 0) == MAGIC && Le32(b, 4) == 1 && Le32(b, 8) == 1
            && Le32(b, 0x0C) == h && b[0x10..0x14] == checksum && b[0x20..] == Rendered(attrs, BLOCK_ROOM, 0x20)
  {
    hide Rendered, Bytes32, Le32, Renderable, Fixed;
    FieldInside(Fixed() + Bytes32(h), checksum, Zeros(12), Rendered(attrs, BLOCK_ROOM, 0x20));
    FixedFields(Laid(attrs, h, checksum), h);
  }

  lemma FixedFields(b: seq<byte>, h: u32)
    requires 0x20 <= |b| && b[..0x10] == Fixed() + Bytes32(h)
    ensures Le32(b, 0) == MAGIC && Le32(b, 4) == 1 && Le32(b, 8) == 1 && Le32(b, 0x0C) == h
  {
    hide Bytes32, Le32;
    Peel32(b, Fixed(), h);
    Peel32(b, Bytes32(MAGIC) + Bytes32(1), 1);
    Peel32(b, Bytes32(MAGIC), 1);
    assert [] + Bytes32(MAGIC) == Bytes32(MAGIC);
    Peel32(b, [], MAGIC);
  }

  lemma RenderedBlockParses(attrs: seq<Attr>, fsSeed: bv32, nr: u64)
    requires Renderable(attrs, BLOCK_ROOM, 0x20)
    ensures ParseBlock(BlockBytes(attrs, fsSeed, nr))
            == Ok(BlockView(1, Csum.AsU32(BlockHash(Hashes(attrs, 0x20))),
              Csum.AsU32(BlockChecksum(attrs, fsSeed, nr)), AsEntries(attrs, 0x20)))
  {
    hide Rendered, Bytes32, Le32, BlockHash, Hashes, Renderable, Laid, ParseFrom, AsEntries, BlockChecksum;
    var c: u32 := Csum.AsU32(BlockChecksum(attrs, fsSeed, nr));
    var b := BlockBytes(attrs, fsSeed, nr);
    BlockFields(attrs, Csum.AsU32(BlockHash(Hashes(attrs, 0x20))), Bytes32(c));
    Le32Decodes(b, 0x10, c);
    RenderedParses(attrs, BLOCK_ROOM, 0x20, b);
  }

  /** The checksum does not see the field that stores it. */
  lemma StampUnseen(attrs: seq<Attr>, fsSeed: bv32, nr: u64, h: u32, c: u32)
    requires Renderable(attrs, BLOCK_ROOM, 0x20)
    ensures Csum.XattrBlock(fsSeed, nr, Laid(attrs, h, Bytes32(c)))
            == Csum.XattrBlock(fsSeed, nr, Laid(attrs, h, Zeros(4)))
  {
    SameAround(attrs, h, c);
  }

  lemma SameAround(attrs: seq<Attr>, h: u32, c: u32)
    requires Renderable(attrs, BLOCK_ROOM, 0x20)
    ensures var a, b := Laid(attrs, h, Zeros(4)), Laid(attrs, h, Bytes32(c));
            a[..0x10] == b[..0x10] && a[0x14..] == b[0x14..]
  {
  }

  /** No issue is raised for an attribute block (`verify_xattr_block`). */
  ghost predicate BlockClean(block: seq<byte>, hasCsum: bool, fsSeed: bv32, nr: u64) {
    match ParseBlock(block)
    case Err(_) => false
    case Ok(view) =>
      var es := view.entries;
      && (hasCsum ==> Csum.AsU32(Csum.XattrBlock(fsSeed, nr, block)) == view.checksum)
      && (forall i :: 0 <= i < |es| - 1 ==> KeyLe(es[i].nameIndex, es[i].name, es[i + 1].nameIndex, es[i + 1].name))
      && (forall i :: 0 <= i < |es| ==> es[i].hash == 0 || es[i].hash == Csum.AsU32(AttrHash(es[i].name, es[i].value)))
      && (view.hash == 0 || view.hash == Csum.AsU32(BlockHash(StoredHashes(es))))
  }

  /**
    With checksums on, a block without issues stores the sum of its number and of all its bytes, the stored sum
    zeroed; so two such blocks under one number do not differ inside four of the other bytes alone.
  */
  lemma CleanBlockIsSealed(block: seq<byte>, fsSeed: bv32, nr: u64)
    requires BlockClean(block, true, fsSeed, nr)
    ensures 32 <= |block|
    ensures Le32(block, 16) == Csum.AsU32(Crc(fsSeed, Csum.Bytes64(nr) + Splice(block, 16, [0, 0, 0, 0])))
  {
    hide ParseFrom, Crc, Le32;
    assert Zeros(4) == [0, 0, 0, 0];
    Csum.XattrBlockIsFoldOfZeroed(fsSeed, nr, block);
  }

  lemma DamagedBlockIsReported(a: seq<byte>, b: seq<byte>, fsSeed: bv32, nr: u64)
    requires 32 <= |a| == |b| && a[16..20] == b[16..20]
    requires DifferInWindow(Csum.Bytes64(nr) + Splice(a, 16, [0, 0, 0, 0]),
             Csum.Bytes64(nr) + Splice(b, 16, [0, 0, 0, 0]))
    ensures !(BlockClean(a, true, fsSeed, nr) && BlockClean(b, true, fsSeed, nr))
  {
    hide BlockClean, Crc, DifferInWindow, Splice, Le32, Csum.Bytes64;
    var x, y := Csum.Bytes64(nr) + Splice(a, 16, [0, 0, 0, 0]), Csum.Bytes64(nr) + Splice(b, 16, [0, 0, 0, 0]);
    BurstDetected(fsSeed, x, y);
    Csum.DistinctSums(Crc(fsSeed, x), Crc(fsSeed, y));
    SameField(a, b, 16);
    if BlockClean(a, true, fsSeed, nr) { CleanBlockIsSealed(a, fsSeed, nr); }
    if BlockClean(b, true, fsSeed, nr) { CleanBlockIsSealed(b, fsSeed, nr); }
  }

  lemma SameField(a: seq<byte>, b: seq<byte>, at: nat)
    requires at + 4 <= |a| == |b| && a[at..at + 4] == b[at..at + 4]
    ensures Le32(a, at) == Le32(b, at)
  {
    var x, y := a[at..at + 4], b[at..at + 4];
    assert x[0] == a[at] && x[1] == a[at + 1] && x[2] == a[at + 2] && x[3] == a[at + 3];
    assert y[0] == b[at] && y[1] == b[at + 1] && y[2] == b[at + 2] && y[3] == b[at + 3];
  }

  function StoredHashes(es: seq<Entry>): seq<bv32> {
    seq(|es|, i requires 0 <= i < |es| => es[i].hash as bv32)
  }

  lemma HashesComeBack(attrs: seq<Attr>)
    ensures StoredHashes(AsEntries(attrs, 0x20)) == Hashes(attrs, 0x20)
  {
  }

  /** The adjacent comparison that the verifier makes is enough to order the whole list. */
  lemma {:induction false} AdjacentIsSorted(s: seq<Attr>)
    requires forall i :: 0 <= i < |s| - 1 ==> Le(s[i], s[i + 1])
    ensures Sorted(s)
  {
    hide Le;
    forall i, j | 0 <= i < j < |s| ensures Le(s[i], s[j]) {
      AdjacentOrder(s, i, j);
    }
  }

  lemma {:induction false} AdjacentOrder(s: seq<Attr>, i: nat, j: nat)
    requires i < j < |s| && forall k :: 0 <= k < |s| - 1 ==> Le(s[k], s[k + 1])
    ensures Le(s[i], s[j])
    decreases j
  {
    hide Le;
    assert Le(s[j - 1], s[j - 1 + 1]);
    if i < j - 1 {
      AdjacentOrder(s, i, j - 1);
      LeTransitive(s[i], s[j - 1], s[j]);
    }
  }

  /** A rendered block raises no issue exactly when its attributes are in canonical order. */
  lemma RenderedBlockCleanIffSorted(attrs: seq<Attr>, hasCsum: bool, fsSeed: bv32, nr: u64)
    requires Renderable(attrs, BLOCK_ROOM, 0x20)
    ensures BlockClean(BlockBytes(attrs, fsSeed, nr), hasCsum, fsSeed, nr) <==> Sorted(attrs)
  {
    hide Laid, ParseBlock, BlockHash, Csum.XattrBlock, AttrHash, KeyLe, Hashes, StoredHashes, Renderable;
    RenderedBlockParses(attrs, fsSeed, nr);
    StampUnseen(attrs, fsSeed, nr, Csum.AsU32(BlockHash(Hashes(attrs, 0x20))),
      Csum.AsU32(BlockChecksum(attrs, fsSeed, nr)));
    HashesComeBack(attrs);
    var es := AsEntries(attrs, 0x20);
    assert forall i :: 0 <= i < |es| ==> es[i].hash == Csum.AsU32(AttrHash(es[i].name, es[i].value));
    assert forall i :: 0 <= i < |es| - 1 ==>
      (KeyLe(es[i].nameIndex, es[i].name, es[i + 1].nameIndex, es[i + 1].name) <==> Le(attrs[i], attrs[i + 1]));
    if forall i :: 0 <= i < |attrs| - 1 ==> Le(attrs[i], attrs[i + 1]) {
      AdjacentIsSorted(attrs);
    }
  }

  /** What the inode slot holds for a plan: the rendered area, or zeros when there is none. */
  predicate SlotHolds(slot: seq<byte>, plan: Plan) {
    |slot| == 256 && slot[0xA0..] == if plan.ibody == [] then Zeros(IBODY_AREA) else plan.ibody
  }

  lemma PlanShape(s: seq<Attr>)
    requires Named(s) && Planned(s).Some?
    ensures var plan, k := Planned(s).value, SplitFrom(s, 0);
            && plan.blockAttrs == s[k..] && |plan.blockAttrs| == |s| - k
            && Renderable(s[..k], IBODY_ROOM, 0) && Renderable(s[k..], BLOCK_ROOM, 0x20)
            && plan.ibody == if s[..k] == [] then [] else Bytes32(MAGIC) + Rendered(s[..k], IBODY_ROOM, 0)
  {
    hide Rendered, HeadSize, ValSize, Oversize, Bytes32;
    RoomForNothing(s);
    SplitHasRoom(s, 0);
  }

  lemma BothShares(slot: seq<byte>, own: seq<Entry>, attrs: seq<Attr>, fsSeed: bv32, nr: u64)
    requires IbodyEntries(slot, 32) == Ok(own) && Renderable(attrs, BLOCK_ROOM, 0x20)
    ensures Attributes(slot, 32, if attrs == [] then Option.None else Some(BlockBytes(attrs, fsSeed, nr)))
            == Ok(own + AsEntries(attrs, 0x20))
  {
    hide BlockBytes, ParseBlock, AsEntry, Renderable, IbodyEntries;
    if attrs == [] {
      assert AsEntries(attrs, 0x20) == [];
      assert own + [] == own;
    } else {
      RenderedBlockParses(attrs, fsSeed, nr);
    }
  }

  /** Every attribute comes back, in canonical order: the inode's share first, then the block's. */
  lemma AttributesComeBack(attrs: seq<Attr>, slot: seq<byte>, fsSeed: bv32, nr: u64)
    requires Named(attrs) && Named(Sort(attrs)) && Planned(Sort(attrs)).Some?
             && SlotHolds(slot, Planned(Sort(attrs)).value)
    ensures var s, plan := Sort(attrs), Planned(Sort(attrs)).value;
            var k := |s| - |plan.blockAttrs|;
            && 0 <= k <= |s| && plan.blockAttrs == s[k..] && Renderable(plan.blockAttrs, BLOCK_ROOM, 0x20)
            && Attributes(slot, 32, if plan.blockAttrs == [] then Option.None
               else Some(BlockBytes(plan.blockAttrs, fsSeed, nr)))
               == Ok(AsEntries(s[..k], 0) + AsEntries(s[k..], 0x20))
  {
    hide Rendered, Bytes32, BlockBytes, Sort, AsEntries, Attributes, Planned, Renderable, IbodyEntries;
    var s := Sort(attrs);
    var k := SplitFrom(s, 0);
    PlanShape(s);
    IbodyComesBack(s[..k], slot);
    BothShares(slot, AsEntries(s[..k], 0), s[k..], fsSeed, nr);
  }

  lemma IbodyComesBack(mine: seq<Attr>, slot: seq<byte>)
    requires Renderable(mine, IBODY_ROOM, 0) && |slot| == 256
    requires slot[0xA0..] == if mine == [] then Zeros(IBODY_AREA) else Bytes32(MAGIC) + Rendered(mine, IBODY_ROOM, 0)
    ensures IbodyEntries(slot, 32) == Ok(AsEntries(mine, 0))
  {
    hide Rendered, ParseFrom, AsEntry, Renderable;
    if mine == [] {
      assert slot[0xA0..][0] == slot[0xA0] && slot[0xA0..][1] == slot[0xA1] && slot[0xA0..][2] == slot[0xA2]
        && slot[0xA0..][3] == slot[0xA3];
      assert Le32(slot, 0xA0) == 0;
    } else {
      var area := slot[0xA4..];
      assert slot[0xA0..0xA4] == slot[0xA0..][..4] == Bytes32(MAGIC);
      Le32Decodes(slot, 0xA0, MAGIC);
      assert area == slot[0xA0..][4..] == Rendered(mine, IBODY_ROOM, 0);
      assert area[0..] == area;
      RenderedParses(mine, IBODY_ROOM, 0, area);
    }
  }

  lemma PlannedAreaFills(s: seq<Attr>)
    requires Named(s) && Planned(s).Some?
    ensures Planned(s).value.ibody == [] || |Planned(s).value.ibody| == IBODY_AREA
  {
    hide Rendered, HeadSize, ValSize;
  }

  /** The encoder puts the planned area where the reader looks for it. */
  lemma EncodedSlotHolds(x: Inode.Inode, plan: Plan)
    requires Inode.Encodable(x) && x.extraIsize == 32 && x.ibody == plan.ibody
    requires plan.ibody == [] || |plan.ibody| == IBODY_AREA
    ensures SlotHolds(Inode.Encoded(x), plan) && Le16(Inode.Encoded(x), 0x80) == 32
  {
  }

  /** From declared attributes to a slot and a block, and back to the same attributes. */
  lemma AttributesSurvive(attrs: seq<Attr>, x: Inode.Inode, fsSeed: bv32, nr: u64)
    requires Named(attrs) && Named(Sort(attrs)) && Planned(Sort(attrs)).Some?
    requires Inode.Encodable(x) && x.extraIsize == 32 && x.ibody == Planned(Sort(attrs)).value.ibody
    ensures var plan, slot := Planned(Sort(attrs)).value, Inode.Encoded(x);
            && Renderable(plan.blockAttrs, BLOCK_ROOM, 0x20)
            && var read := Attributes(slot, Inode.Decode(slot).value.extraIsize,
                                      if plan.blockAttrs == [] then Option.None
                                        else Some(BlockBytes(plan.blockAttrs, fsSeed, nr)));
            read.Ok? && multiset(Plain(read.value)) == multiset(attrs) && Sorted(Plain(read.value))
  {
    hide Inode.Encoded, Inode.Decode, Attributes, BlockBytes, Sort, AsEntries, Planned, Plain, Named, Renderable,
      Sorted, SlotHolds;
    var s, plan, slot := Sort(attrs), Planned(Sort(attrs)).value, Inode.Encoded(x);
    PlannedAreaFills(s);
    EncodedSlotHolds(x, plan);
    DecodedSize(slot);
    AttributesComeBack(attrs, slot, fsSeed, nr);
    var k := |s| - |plan.blockAttrs|;
    PlainEntries(s, k);
    SortSorts(attrs);
  }

  lemma DecodedSize(slot: seq<byte>)
    requires |slot| == Inode.SLOT
    ensures Inode.Decode(slot).Ok? && Inode.Decode(slot).value.extraIsize == Le16(slot, 0x80)
  {
    hide Le16, Inode.Area, Inode.Field;
  }

  /** The attributes of a list of entries, without their stored hashes. */
  function Plain(es: seq<Entry>): (r: seq<Attr>)
    ensures |r| == |es|
  {
    seq(|es|, i requires 0 <= i < |es| => Attr(es[i].nameIndex, es[i].name, es[i].value))
  }

  lemma PlainEntries(s: seq<Attr>, k: nat)
    requires k <= |s|
    ensures Plain(AsEntries(s[..k], 0) + AsEntries(s[k..], 0x20)) == s
  {
  }
}
