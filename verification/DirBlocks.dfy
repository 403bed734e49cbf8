/**
  Packing directory entries into blocks and rendering a block (`pack_dirents` in
  `src/build/seal.rs`, the leaves of `build` in `src/build/htree.rs`).
*/
module DirBlocks {
  import opened Bytes
  import opened ExtentWalk
  import opened DirVerify
  import opened DirRead
  import Dirent
  import Csum

  datatype Item = Item(name: seq<byte>, ino: u32, fileType: byte)

  /** A block without its checksum tail. */
  const USABLE: nat := BLOCK_SIZE - 12

  function RecLen(it: Item): nat {
    Dirent.RecLenFor(|it.name|)
  }

  function Taken(leaf: seq<Item>): nat {
    if leaf == [] then 0 else Taken(leaf[..|leaf| - 1]) + RecLen(leaf[|leaf| - 1])
  }

  /** An entry opens a new block when the last one has no room for it. */
  function WithEntry(leaves: seq<seq<Item>>, it: Item): (r: seq<seq<Item>>)
    requires leaves != []
    ensures r != []
  {
    var k := |leaves| - 1;
    if Taken(leaves[k]) + RecLen(it) > USABLE then leaves + [[it]] else leaves[..k] + [leaves[k] + [it]]
  }

  function Packed(items: seq<Item>): (r: seq<seq<Item>>)
    ensures r != []
  {
    if items == [] then [[]] else WithEntry(Packed(items[..|items| - 1]), items[|items| - 1])
  }

  function Flatten(leaves: seq<seq<Item>>): seq<Item> {
    if leaves == [] then [] else Flatten(leaves[..|leaves| - 1]) + leaves[|leaves| - 1]
  }

  lemma TakenStep(leaf: seq<Item>, it: Item)
    ensures Taken(leaf + [it]) == Taken(leaf) + RecLen(it) && Taken([it]) == RecLen(it)
  {
  }

  method Pack(items: seq<Item>) returns (leaves: seq<seq<Item>>)
    ensures leaves == Packed(items)
  {
    hide Taken, RecLen;
    leaves := [[]];
    var used := 0;
    PackedNothing();
    assert items[..0] == [];
    for i := 0 to |items|
      invariant leaves != [] && leaves == Packed(items[..i]) && used == Taken(leaves[|leaves| - 1])
    {
      assert items[..i + 1][..i] == items[..i];
      var rl := RecLen(items[i]);
      TakenStep(leaves[|leaves| - 1], items[i]);
      if used + rl > USABLE {
        leaves := leaves + [[]];
        used := 0;
      }
      var k := |leaves| - 1;
      leaves := leaves[..k] + [leaves[k] + [items[i]]];
      used := used + rl;
      assert [] + [items[i]] == [items[i]];
    }
    assert items[..|items|] == items;
  }

  lemma PackedNothing()
    ensures Packed([]) == [[]] && Taken([]) == 0
  {
  }

  lemma FlattenStep(leaves: seq<seq<Item>>, leaf: seq<Item>)
    ensures Flatten(leaves + [leaf]) == Flatten(leaves) + leaf
  {
  }

  lemma FlattenNothing()
    ensures Flatten([[]]) == []
  {
  }

  predicate Nameable(items: seq<Item>) {
    forall i :: 0 <= i < |items| ==> |items[i].name| < 256
  }

  predicate Fits(leaf: seq<Item>) {
    Taken(leaf) <= USABLE && Nameable(leaf)
  }

  lemma OneFits(leaf: seq<Item>, it: Item)
    requires |it.name| < 256
    ensures Fits([it])
    ensures Fits(leaf) && Taken(leaf) + RecLen(it) <= USABLE ==> Fits(leaf + [it])
  {
  }

  lemma WithEntryKeeps(leaves: seq<seq<Item>>, it: Item)
    requires leaves != [] && |it.name| < 256 && forall k :: 0 <= k < |leaves| ==> Fits(leaves[k])
    ensures forall k :: 0 <= k < |WithEntry(leaves, it)| ==> Fits(WithEntry(leaves, it)[k])
    ensures (forall k :: 0 <= k < |leaves| - 1 ==> leaves[k] != []) && (1 < |leaves| ==> leaves[|leaves| - 1] != [])
            ==> forall k :: 0 <= k < |WithEntry(leaves, it)| ==> WithEntry(leaves, it)[k] != []
    ensures Flatten(WithEntry(leaves, it)) == Flatten(leaves) + [it]
  {
    ShortRecord(it);
    NothingTaken();
    WithEntryFlat(leaves, it);
    hide Taken, RecLen, Fits, Flatten;
    var r, n := WithEntry(leaves, it), |leaves| - 1;
    OneFits(leaves[n], it);
    forall k | 0 <= k < |r| ensures Fits(r[k]) {
      if k < n { assert r[k] == leaves[k]; }
    }
  }

  lemma WithEntryFlat(leaves: seq<seq<Item>>, it: Item)
    requires leaves != []
    ensures Flatten(WithEntry(leaves, it)) == Flatten(leaves) + [it]
  {
    hide Taken, RecLen, Flatten;
    var k := |leaves| - 1;
    var init, last := leaves[..k], leaves[k];
    LastApart(leaves);
    FlattenStep(init, last);
    FlattenStep(leaves, [it]);
    FlattenStep(init, last + [it]);
    AppendAssociates(Flatten(init), last, [it]);
  }

  lemma NothingTaken()
    ensures Taken([]) == 0
  {
  }

  /** Packing keeps every entry in order, fills no block past its tail, and leaves none empty. */
  lemma {:induction false} PackedKeeps(items: seq<Item>)
    requires Nameable(items)
    ensures Flatten(Packed(items)) == items
    ensures forall k :: 0 <= k < |Packed(items)| ==> Fits(Packed(items)[k])
    ensures items != [] ==> forall k :: 0 <= k < |Packed(items)| ==> Packed(items)[k] != []
    decreases items
  {
    hide Taken, WithEntry;
    NothingTaken();
    if items == [] {
      FlattenNothing();
    } else {
      var n := |items| - 1;
      assert items == items[..n] + [items[n]];
      PackedKeeps(items[..n]);
      WithEntryKeeps(Packed(items[..n]), items[n]);
    }
  }

  /** A block is closed only because the entry that opens the next one does not fit: 4084 bytes hold records. */
  ghost predicate Greedy(leaves: seq<seq<Item>>) {
    forall k :: 0 <= k < |leaves| - 1 ==> ClosedAt(leaves, k)
  }

  ghost predicate ClosedAt(leaves: seq<seq<Item>>, k: nat)
    requires k < |leaves| - 1
  {
    leaves[k + 1] != [] && 4084 < Taken(leaves[k]) + RecLen(leaves[k + 1][0])
  }

  lemma WithEntryIsGreedy(leaves: seq<seq<Item>>, it: Item)
    requires leaves != [] && Greedy(leaves)
    ensures Greedy(WithEntry(leaves, it))
  {
    hide Taken, RecLen;
    var r, n := WithEntry(leaves, it), |leaves| - 1;
    forall k | 0 <= k < |r| - 1 ensures ClosedAt(r, k) {
      assert r[k] == leaves[k];
      if k < n {
        assert ClosedAt(leaves, k);
        assert r[k + 1][0] == leaves[k + 1][0];
      }
    }
  }

  lemma {:induction false} PackedIsGreedy(items: seq<Item>)
    ensures Greedy(Packed(items))
    decreases items
  {
    hide WithEntry, Greedy;
    if items == [] {
      OneIsGreedy();
    } else {
      PackedIsGreedy(items[..|items| - 1]);
      WithEntryIsGreedy(Packed(items[..|items| - 1]), items[|items| - 1]);
    }
  }

  lemma OneIsGreedy()
    ensures Greedy([[]])
  {
  }

  lemma ShortRecord(it: Item)
    requires |it.name| < 256
    ensures 8 + |it.name| <= RecLen(it) <= 264 && RecLen(it) % 4 == 0
  {
  }

  // ----- rendering one block -----

  predicate Renderable(leaf: seq<Item>) {
    Fits(leaf) && forall i :: 0 <= i < |leaf| ==> leaf[i].ino != 0
  }

  /** An entry's record, stretched to `len` bytes. */
  function RecordOf(it: Item, len: nat): (r: Dirent.Record)
    requires |it.name| < 256 && 8 + |it.name| <= len < 0x1_0000 && len % 4 == 0
    ensures r.Valid() && r.Len() == len
  {
    Dirent.Record(it.ino, |it.name|, it.fileType, it.name + Zeros(len - 8 - |it.name|))
  }

  /** Records at their own lengths, one after the other. */
  function Tight(items: seq<Item>): (r: seq<Dirent.Record>)
    requires Nameable(items)
    ensures Dirent.AllValid(r) && |r| == |items|
  {
    if items == [] then []
    else
      var it := items[|items| - 1];
      ShortRecord(it);
      Tight(items[..|items| - 1]) + [RecordOf(it, RecLen(it))]
  }

  lemma InitFits(leaf: seq<Item>)
    requires leaf != [] && Fits(leaf)
    ensures var k := |leaf| - 1;
            Fits(leaf[..k]) && Taken(leaf[..k]) + RecLen(leaf[k]) == Taken(leaf) && Taken(leaf[..k]) % 4 == 0
    decreases leaf
  {
    TakenAligned(leaf[..|leaf| - 1]);
  }

  lemma {:induction false} TakenAligned(leaf: seq<Item>)
    ensures Taken(leaf) % 4 == 0
    decreases leaf
  {
    if leaf != [] { TakenAligned(leaf[..|leaf| - 1]); }
  }

  /** An unused record that reaches the checksum tail. */
  function Unused(): Dirent.Record {
    Dirent.Record(0, 0, 0, Zeros(USABLE - 8))
  }

  /** The block's records: the last one reaches the checksum tail. */
  function Records(leaf: seq<Item>): (r: seq<Dirent.Record>)
    requires Fits(leaf)
    ensures Dirent.AllValid(r)
  {
    if leaf == [] then [Unused()]
    else
      InitFits(leaf);
      var k := |leaf| - 1;
      ShortRecord(leaf[k]);
      Tight(leaf[..k]) + [RecordOf(leaf[k], USABLE - Taken(leaf[..k]))]
  }

  function BlockBytes(leaf: seq<Item>, checksum: u32): (r: seq<byte>)
    requires Fits(leaf)
  {
    Dirent.Rendered(Records(leaf) + [Dirent.Tail(checksum)])
  }

  lemma {:induction false} RenderedAppend(a: seq<Dirent.Record>, b: seq<Dirent.Record>)
    requires Dirent.AllValid(a) && Dirent.AllValid(b)
    ensures Dirent.AllValid(a + b) && Dirent.Rendered(a + b) == Dirent.Rendered(a) + Dirent.Rendered(b)
    decreases a
  {
    if a == [] {
      assert a + b == b;
    } else {
      assert (a + b)[1..] == a[1..] + b;
      RenderedAppend(a[1..], b);
      AppendAssociates(a[0].Encoded(), Dirent.Rendered(a[1..]), Dirent.Rendered(b));
    }
  }

  lemma RenderedOne(r: Dirent.Record)
    requires r.Valid()
    ensures Dirent.Rendered([r]) == r.Encoded() && |r.Encoded()| == r.Len()
  {
  }

  lemma RenderedSnoc(a: seq<Dirent.Record>, r: Dirent.Record)
    requires Dirent.AllValid(a) && r.Valid()
    ensures Dirent.AllValid(a + [r]) && Dirent.Rendered(a + [r]) == Dirent.Rendered(a) + r.Encoded()
  {
    RenderedAppend(a, [r]);
    RenderedOne(r);
  }

  lemma {:induction false} TightLength(items: seq<Item>)
    requires Nameable(items)
    ensures |Dirent.Rendered(Tight(items))| == Taken(items)
    decreases items
  {
    if items != [] {
      var k := |items| - 1;
      TightLength(items[..k]);
      ShortRecord(items[k]);
      var r := RecordOf(items[k], RecLen(items[k]));
      RenderedSnoc(Tight(items[..k]), r);
      RenderedOne(r);
    }
  }

  /** One record into the zeroed buffer. */
  method PutRecord(buf: array<byte>, off: nat, it: Item, recLen: nat, ghost p: seq<byte>, ghost n: nat,
                   ghost q: seq<byte>)
    requires |it.name| < 256 && 8 + |it.name| <= recLen < 0x1_0000 && recLen % 4 == 0
    requires buf[..] == p + Zeros(n) + q && off == |p| && recLen <= n
    modifies buf
    ensures buf[..] == p + RecordOf(it, recLen).Encoded() + Zeros(n - recLen) + q
  {
    hide Bytes16, Bytes32, RecordOf, Dirent.Record.Encoded;
    ghost var a := p;
    Fill32(buf, off, it.ino, a, n, q); a := a + Bytes32(it.ino);
    Fill16(buf, off + 4, recLen, a, n - 4, q); a := a + Bytes16(recLen);
    Fill8(buf, off + 6, |it.name|, a, n - 6, q); a := a + [|it.name| as byte];
    Fill8(buf, off + 7, it.fileType, a, n - 7, q); a := a + [it.fileType];
    PutName(buf, off + 8, it.name, a, n - 8, recLen - 8 - |it.name|, q);
    RecordPieces(p, it, recLen);
  }

  /** A name and the zeros that stretch its record. */
  method PutName(buf: array<byte>, off: nat, name: seq<byte>, ghost p: seq<byte>, ghost n: nat, ghost pad: nat,
                 ghost q: seq<byte>)
    requires buf[..] == p + Zeros(n) + q && off == |p| && |name| + pad <= n
    modifies buf
    ensures buf[..] == p + name + Zeros(pad) + Zeros(n - |name| - pad) + q
  {
    CopyIn(buf, off, name);
    IntoZeros(p, n, name, q);
    SplitZeros(p + name, n - |name|, pad, q);
  }

  lemma RecordPieces(p: seq<byte>, it: Item, recLen: nat)
    requires |it.name| < 256 && 8 + |it.name| <= recLen < 0x1_0000 && recLen % 4 == 0
    ensures p + Bytes32(it.ino) + Bytes16(recLen) + [|it.name| as byte] + [it.fileType] + it.name
            + Zeros(recLen - 8 - |it.name|)
            == p + RecordOf(it, recLen).Encoded()
  {
  }

  /** The records written once `j` entries are in. */
  function Upto(leaf: seq<Item>, j: nat): (r: seq<Dirent.Record>)
    requires leaf != [] && Fits(leaf) && j <= |leaf|
    ensures Dirent.AllValid(r)
  {
    if j == |leaf| then Records(leaf)
    else
      PrefixNameable(leaf, j);
      Tight(leaf[..j])
  }

  lemma PrefixNameable(leaf: seq<Item>, j: nat)
    requires Nameable(leaf) && j <= |leaf|
    ensures Nameable(leaf[..j])
  {
  }

  function LenAt(leaf: seq<Item>, j: nat): nat
    requires j < |leaf|
  {
    if j == |leaf| - 1 then Minus(USABLE, Taken(leaf[..j])) else RecLen(leaf[j])
  }

  function Minus(a: nat, b: nat): nat {
    if b <= a then a - b else 0
  }

  lemma {:induction false} PrefixTaken(leaf: seq<Item>, j: nat)
    requires j <= |leaf|
    ensures Taken(leaf[..j]) <= Taken(leaf)
    decreases leaf
  {
    if j < |leaf| {
      var k := |leaf| - 1;
      assert leaf[..k][..j] == leaf[..j];
      PrefixTaken(leaf[..k], j);
    } else {
      assert leaf[..j] == leaf;
    }
  }

  lemma LenFits(leaf: seq<Item>, j: nat)
    requires leaf != [] && Fits(leaf) && j < |leaf|
    ensures |leaf[j].name| < 256 && Taken(leaf[..j]) <= USABLE
    ensures 8 + |leaf[j].name| <= LenAt(leaf, j) < 0x1_0000 && LenAt(leaf, j) % 4 == 0
            && Taken(leaf[..j]) + LenAt(leaf, j) <= USABLE
  {
    var now := leaf[..j + 1];
    assert now[..j] == leaf[..j] && now[j] == leaf[j];
    PrefixTaken(leaf, j);
    PrefixTaken(leaf, j + 1);
    TakenAligned(leaf[..j]);
    ShortRecord(leaf[j]);
  }

  lemma UptoNext(leaf: seq<Item>, j: nat)
    requires leaf != [] && Fits(leaf) && j < |leaf| && |leaf[j].name| < 256
    requires 8 + |leaf[j].name| <= LenAt(leaf, j) < 0x1_0000 && LenAt(leaf, j) % 4 == 0 && Taken(leaf[..j]) <= USABLE
    ensures Upto(leaf, j + 1) == Upto(leaf, j) + [RecordOf(leaf[j], LenAt(leaf, j))]
  {
    hide Taken, RecLen, RecordOf;
    var now := leaf[..j + 1];
    assert now[..j] == leaf[..j] && now[j] == leaf[j];
    PrefixNameable(leaf, j + 1);
    assert leaf[..|leaf|] == leaf;
  }

  lemma UptoStep(leaf: seq<Item>, j: nat)
    requires leaf != [] && Fits(leaf) && j < |leaf|
    ensures |leaf[j].name| < 256 && Taken(leaf[..j]) <= USABLE
    ensures 8 + |leaf[j].name| <= LenAt(leaf, j) < 0x1_0000 && LenAt(leaf, j) % 4 == 0
            && Taken(leaf[..j]) + LenAt(leaf, j) <= USABLE
    ensures Dirent.Rendered(Upto(leaf, j + 1))
            == Dirent.Rendered(Upto(leaf, j)) + RecordOf(leaf[j], LenAt(leaf, j)).Encoded()
    ensures |Dirent.Rendered(Upto(leaf, j))| == Taken(leaf[..j])
  {
    hide Dirent.Rendered, Taken, LenAt, RecLen, RecordOf, Tight;
    LenFits(leaf, j);
    UptoNext(leaf, j);
    PrefixNameable(leaf, j);
    TightLength(leaf[..j]);
    RenderedSnoc(Upto(leaf, j), RecordOf(leaf[j], LenAt(leaf, j)));
  }

  lemma WholeLength(leaf: seq<Item>)
    requires Fits(leaf)
    ensures |Dirent.Rendered(Records(leaf))| == USABLE
  {
    if leaf == [] {
      RenderedOne(Unused());
    } else {
      var k := |leaf| - 1;
      UptoStep(leaf, k);
      assert RecordOf(leaf[k], LenAt(leaf, k)).Len() == LenAt(leaf, k);
      RenderedOne(RecordOf(leaf[k], LenAt(leaf, k)));
    }
  }

  /** The records of a block, each in its place, followed by zeros. */
  method PutRecords(buf: array<byte>, leaf: seq<Item>)
    requires leaf != [] && Fits(leaf) && buf[..] == Zeros(BLOCK_SIZE)
    modifies buf
    ensures buf[..] == Dirent.Rendered(Records(leaf)) + Zeros(12)
  {
    hide Dirent.Rendered, Taken, RecLen, LenAt, Fits, Upto;
    var off := 0;
    StartOfBlock(leaf);
    assert leaf[..0] == [];
    for j := 0 to |leaf|
      invariant off <= USABLE && off == if j < |leaf| then Taken(leaf[..j]) else USABLE
      invariant buf[..] == Dirent.Rendered(Upto(leaf, j)) + Zeros(BLOCK_SIZE - off) + []
    {
      UptoStep(leaf, j);
      LenMeans(leaf, j);
      var recLen := if j == |leaf| - 1 then USABLE - off else RecLen(leaf[j]);
      PutRecord(buf, off, leaf[j], recLen, Dirent.Rendered(Upto(leaf, j)), BLOCK_SIZE - off, []);
      off := off + recLen;
    }
    LastUpto(leaf);
  }

  lemma StartOfBlock(leaf: seq<Item>)
    requires leaf != [] && Fits(leaf)
    ensures Taken([]) == 0 && Dirent.Rendered(Upto(leaf, 0)) == [] && [] + Zeros(BLOCK_SIZE) + [] == Zeros(BLOCK_SIZE)
  {
  }

  lemma LastUpto(leaf: seq<Item>)
    requires leaf != [] && Fits(leaf)
    ensures Upto(leaf, |leaf|) == Records(leaf)
  {
  }

  lemma LenMeans(leaf: seq<Item>, j: nat)
    requires leaf != [] && Fits(leaf) && j < |leaf|
    ensures Taken(leaf[..j]) <= USABLE
    ensures LenAt(leaf, j) == if j == |leaf| - 1 then USABLE - Taken(leaf[..j]) else RecLen(leaf[j])
    ensures j + 1 < |leaf| ==> Taken(leaf[..j + 1]) == Taken(leaf[..j]) + RecLen(leaf[j])
  {
    PrefixTaken(leaf, j);
    assert leaf[..j + 1] == leaf[..j] + [leaf[j]];
    TakenStep(leaf[..j], leaf[j]);
  }

  lemma UnusedBytes(b: seq<byte>)
    requires b == Splice(Zeros(BLOCK_SIZE), 4, Bytes16(USABLE)) && Fits([])
    ensures b == Dirent.Rendered(Records([])) + Zeros(12)
  {
  }

  function TailBytes(checksum: u32): (r: seq<byte>)
    ensures |r| == 12
  {
    Bytes32(0) + Bytes16(12) + [0, 0xDE] + Bytes32(checksum)
  }

  lemma BlockIsRecordsAndTail(leaf: seq<Item>, checksum: u32)
    requires Fits(leaf)
    ensures BlockBytes(leaf, checksum) == Dirent.Rendered(Records(leaf)) + TailBytes(checksum)
    ensures |BlockBytes(leaf, checksum)| == BLOCK_SIZE
  {
    hide Dirent.Rendered, Records;
    WholeLength(leaf);
    assert Dirent.Tail(checksum).Encoded() == TailBytes(checksum);
    RenderedSnoc(Records(leaf), Dirent.Tail(checksum));
  }

  /** The block's own checksum. */
  function Seal(leaf: seq<Item>, inodeSeed: bv32): u32
    requires Fits(leaf)
  {
    BlockIsRecordsAndTail(leaf, 0);
    Csum.AsU32(Csum.DirentBlock(inodeSeed, BlockBytes(leaf, 0)))
  }

  /** The tail's shape, its checksum still zero. */
  method PutTail(buf: array<byte>, ghost body: seq<byte>)
    requires |body| == USABLE && buf[..] == body + Zeros(12)
    modifies buf
    ensures buf[..] == body + TailBytes(0)
  {
    PutU16(buf, BLOCK_SIZE - 12 + 4, 12);
    buf[BLOCK_SIZE - 12 + 7] := 0xDE;
    assert Bytes32(0) == [0, 0, 0, 0];
    hide Bytes16, Bytes32;
    assert buf[..] == body + TailBytes(0);
  }

  method PutChecksum(buf: array<byte>, c: u32, ghost body: seq<byte>)
    requires |body| == USABLE && buf[..] == body + TailBytes(0)
    modifies buf
    ensures buf[..] == body + TailBytes(c)
  {
    hide Bytes16, Bytes32;
    PutU32(buf, BLOCK_SIZE - 4, c);
    assert buf[..] == body + TailBytes(c);
  }

  /** Records, then the tail's shape, then the checksum over everything before the tail. */
  method RenderBlock(leaf: seq<Item>, inodeSeed: bv32) returns (block: seq<byte>)
    requires Fits(leaf)
    ensures block == BlockBytes(leaf, Seal(leaf, inodeSeed))
  {
    hide Dirent.Rendered, Fits, BlockBytes, Csum.DirentBlock, Records, Csum.AsU32, TailBytes, Bytes16;
    var buf := new byte[BLOCK_SIZE](_ => 0);
    assert buf[..] == Zeros(BLOCK_SIZE);
    if leaf == [] {
      PutU16(buf, 4, USABLE);
      UnusedBytes(buf[..]);
    } else {
      PutRecords(buf, leaf);
    }
    ghost var body := Dirent.Rendered(Records(leaf));
    WholeLength(leaf);
    PutTail(buf, body);
    BlockIsRecordsAndTail(leaf, 0);
    var c := Csum.AsU32(Csum.DirentBlock(inodeSeed, buf[..]));
    PutChecksum(buf, c, body);
    BlockIsRecordsAndTail(leaf, c);
    block := buf[..];
  }

  // ----- reading a rendered block -----

  function NamedItems(items: seq<Item>): (r: seq<Named>)
    ensures |r| == |items|
  {
    seq(|items|, i requires 0 <= i < |items| => Named(items[i].ino, items[i].fileType, items[i].name))
  }

  /** `records` carry `items`, whatever their lengths. */
  predicate Carry(records: seq<Dirent.Record>, items: seq<Item>) {
    && |records| == |items|
    && forall i :: 0 <= i < |items| ==>
         && records[i].Valid() && records[i].inode == items[i].ino != 0 && records[i].fileType == items[i].fileType
         && records[i].body[..records[i].nameLen] == items[i].name
  }

  lemma RecordCarries(it: Item, len: nat)
    requires |it.name| < 256 && 8 + |it.name| <= len < 0x1_0000 && len % 4 == 0
    ensures var r := RecordOf(it, len);
            r.inode == it.ino && r.fileType == it.fileType && r.body[..r.nameLen] == it.name
  {
  }

  lemma {:induction false} TightCarries(items: seq<Item>)
    requires Nameable(items) && forall i :: 0 <= i < |items| ==> items[i].ino != 0
    ensures Carry(Tight(items), items)
    decreases items
  {
    if items != [] {
      var k := |items| - 1;
      TightCarries(items[..k]);
      ShortRecord(items[k]);
      RecordCarries(items[k], RecLen(items[k]));
      assert items == items[..k] + [items[k]];
    }
  }

  lemma RecordsCarry(leaf: seq<Item>)
    requires Renderable(leaf) && leaf != []
    ensures Carry(Records(leaf), leaf)
  {
    InitFits(leaf);
    var k := |leaf| - 1;
    TightCarries(leaf[..k]);
    ShortRecord(leaf[k]);
    RecordCarries(leaf[k], USABLE - Taken(leaf[..k]));
    assert leaf == leaf[..k] + [leaf[k]];
  }

  lemma {:induction false} CarriedNames(records: seq<Dirent.Record>, items: seq<Item>, checksum: u32, off: nat)
    requires Dirent.AllValid(records) && Carry(records, items)
    ensures Dirent.AllValid(records + [Dirent.Tail(checksum)])
    ensures AllNamed(Dirent.Used(records + [Dirent.Tail(checksum)], off)) == NamedItems(items)
    decreases records
  {
    hide Bytes32;
    var all := records + [Dirent.Tail(checksum)];
    Dirent.UsedStep(all, off);
    if records == [] {
      assert all[1..] == [];
    } else {
      assert all[1..] == records[1..] + [Dirent.Tail(checksum)];
      CarriedNames(records[1..], items[1..], checksum, off + records[0].Len());
      NamesCons(records[0].AsEntry(off), Dirent.Used(all[1..], off + records[0].Len()), items);
    }
  }

  lemma NamesCons(e: Dirent.Entry, rest: seq<Dirent.Entry>, items: seq<Item>)
    requires items != [] && AsNamed(e) == Named(items[0].ino, items[0].fileType, items[0].name)
    requires AllNamed(rest) == NamedItems(items[1..])
    ensures AllNamed([e] + rest) == NamedItems(items)
  {
    forall i | 0 <= i < |items| ensures AllNamed([e] + rest)[i] == NamedItems(items)[i] {
      if 0 < i {
        assert ([e] + rest)[i] == rest[i - 1] && AllNamed(rest)[i - 1] == NamedItems(items[1..])[i - 1];
      }
    }
  }

  lemma UnusedNames(checksum: u32)
    ensures Dirent.AllValid([Unused()] + [Dirent.Tail(checksum)])
    ensures AllNamed(Dirent.Used([Unused()] + [Dirent.Tail(checksum)], 0)) == NamedItems([])
  {
    NeverUsed(Unused(), Dirent.Tail(checksum), 0);
  }

  lemma NeverUsed(a: Dirent.Record, b: Dirent.Record, off: nat)
    requires a.Valid() && b.Valid() && a.inode == 0 == b.inode
    ensures Dirent.AllValid([a] + [b]) && Dirent.Used([a] + [b], off) == []
  {
    assert ([a] + [b])[1..] == [b];
    Dirent.UsedStep([a] + [b], off);
    Dirent.UsedStep([b], off + a.Len());
    assert [b][1..] == [];
  }

  /** A rendered block lists exactly its entries, in order, and its tail holds the checksum. */
  lemma RenderedBlockReads(leaf: seq<Item>, checksum: u32)
    requires Renderable(leaf)
    ensures var b := BlockBytes(leaf, checksum);
            && |b| == BLOCK_SIZE && Dirent.Scan(b, 0).ok && AllNamed(Dirent.Scan(b, 0).entries) == NamedItems(leaf)
            && Dirent.TailChecksum(b) == Some(checksum)
  {
    hide Dirent.Rendered, Dirent.TailChecksum, Dirent.Scan, NamedItems;
    var b := BlockBytes(leaf, checksum);
    BlockIsRecordsAndTail(leaf, checksum);
    if leaf == [] {
      UnusedNames(checksum);
    } else {
      RecordsCarry(leaf);
      CarriedNames(Records(leaf), leaf, checksum, 0);
    }
    assert b[0..] == b;
    Dirent.RenderedScans(b, 0, Records(leaf) + [Dirent.Tail(checksum)]);
    WholeLength(leaf);
    assert b[BLOCK_SIZE - 12..] == TailBytes(checksum) == Dirent.Tail(checksum).Encoded();
    Dirent.TailReads(b, checksum);
  }

  /** The checksum covers only what lies in front of the tail. */
  lemma SealUnseen(leaf: seq<Item>, inodeSeed: bv32, checksum: u32)
    requires Fits(leaf)
    ensures |BlockBytes(leaf, checksum)| == BLOCK_SIZE
    ensures Csum.AsU32(Csum.DirentBlock(inodeSeed, BlockBytes(leaf, checksum))) == Seal(leaf, inodeSeed)
  {
    hide Dirent.Rendered, Records;
    BlockIsRecordsAndTail(leaf, checksum);
    BlockIsRecordsAndTail(leaf, 0);
    WholeLength(leaf);
    assert BlockBytes(leaf, checksum)[..USABLE] == BlockBytes(leaf, 0)[..USABLE];
  }

  /** A rendered and sealed block raises no issue of its own. */
  lemma RenderedBlockIsClean(d: Dir, leaf: seq<Item>, logical: nat)
    requires Renderable(leaf)
    ensures |BlockBytes(leaf, Seal(leaf, d.Seed()))| == BLOCK_SIZE
    ensures BlockIssues(d, BlockBytes(leaf, Seal(leaf, d.Seed())), logical) == []
  {
    hide BlockBytes, Csum.DirentBlock, Dirent.Scan, Dirent.TailChecksum, Csum.AsU32, Seal;
    RenderedBlockReads(leaf, Seal(leaf, d.Seed()));
    SealUnseen(leaf, d.Seed(), Seal(leaf, d.Seed()));
  }
}
