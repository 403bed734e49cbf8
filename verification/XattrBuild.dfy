/**
  How attributes are laid out when an image is built (`src/build/xattr_build.rs`), and
  that the reader finds every one of them again.
*/
module XattrBuild {
  import opened Bytes
  import opened Xattr
  import Csum

  datatype Attr = Attr(nameIndex: byte, name: seq<byte>, value: seq<byte>)

  const IBODY_AREA: nat := 96

  function EntryBytes(a: Attr): nat {
    EntrySize(|a.name|)
  }

  function ValueBytes(a: Attr): nat {
    |a.value| + (4 - |a.value| % 4) % 4
  }

  function HeadSize(attrs: seq<Attr>): nat {
    if attrs == [] then 0 else HeadSize(attrs[..|attrs| - 1]) + EntryBytes(attrs[|attrs| - 1])
  }

  function ValSize(attrs: seq<Attr>): nat {
    if attrs == [] then 0 else ValSize(attrs[..|attrs| - 1]) + ValueBytes(attrs[|attrs| - 1])
  }

  /** Entries, terminator and values fit together. */
  predicate Room(attrs: seq<Attr>, usable: nat) {
    HeadSize(attrs) + 4 + ValSize(attrs) <= usable
  }

  /** `set_xattr` turns longer names away. */
  predicate Named(attrs: seq<Attr>) {
    forall i :: 0 <= i < |attrs| ==> |attrs[i].name| < 256
  }

  /** What the renderer needs of its caller; offsets are stored in sixteen bits. */
  predicate Renderable(attrs: seq<Attr>, usable: nat, base: nat) {
    Named(attrs) && Room(attrs, usable) && base + usable <= 0xFFFF
  }

  function AttrHash(name: seq<byte>, value: seq<byte>): bv32 {
    Csum.WordsFold(Csum.NameFold(0, name), Csum.PadTo4(value))
  }

  /** Entries in a block carry their hash; entries in an inode store zero. */
  function StoredHash(a: Attr, base: nat): bv32 {
    if base != 0 then AttrHash(a.name, a.value) else 0
  }

  function AsEntry(a: Attr, base: nat): Entry {
    Entry(a.nameIndex, a.name, a.value, Csum.AsU32(StoredHash(a, base)))
  }

  function AsEntries(attrs: seq<Attr>, base: nat): (es: seq<Entry>)
    ensures |es| == |attrs|
  {
    seq(|attrs|, i requires 0 <= i < |attrs| => AsEntry(attrs[i], base))
  }

  /** What a rendered list stores besides the attributes: zero in an inode, the hash of name and value in a block. */
  lemma HashesStored(attrs: seq<Attr>, i: nat)
    requires i < |attrs|
    ensures AsEntries(attrs, 0)[i].hash == 0
    ensures AsEntries(attrs, 0x20)[i].hash == Csum.AsU32(AttrHash(attrs[i].name, attrs[i].value))
  {
    hide AttrHash;
    assert Csum.AsU32(0) == 0;
  }

  lemma LastFits(attrs: seq<Attr>, usable: nat, base: nat)
    requires attrs != [] && Renderable(attrs, usable, base)
    ensures Renderable(attrs[..|attrs| - 1], usable, base)
    ensures base + usable - ValSize(attrs) < 0x1_0000 && |attrs[|attrs| - 1].value| < 0x1_0000
    ensures base + usable - ValSize(attrs) >= 20
  {
  }

  /** The last attribute's header and padded name; its value starts where all the values so far start. */
  function LastCell(attrs: seq<Attr>, usable: nat, base: nat): (r: seq<byte>)
    requires attrs != [] && Renderable(attrs, usable, base)
    ensures |r| == EntryBytes(attrs[|attrs| - 1])
  {
    LastFits(attrs, usable, base);
    var a := attrs[|attrs| - 1];
    Header(AsEntry(a, base), base + usable - ValSize(attrs)) + Csum.PadTo4(a.name)
  }

  function Heads(attrs: seq<Attr>, usable: nat, base: nat): (r: seq<byte>)
    requires Renderable(attrs, usable, base)
    ensures |r| == HeadSize(attrs)
    decreases attrs
  {
    if attrs == [] then [] else Heads(attrs[..|attrs| - 1], usable, base) + LastCell(attrs, usable, base)
  }

  function Vals(attrs: seq<Attr>): (r: seq<byte>)
    ensures |r| == ValSize(attrs)
  {
    if attrs == [] then [] else Csum.PadTo4(attrs[|attrs| - 1].value) + Vals(attrs[..|attrs| - 1])
  }

  /** Entries from the front, values from the back, zeros between. */
  function Rendered(attrs: seq<Attr>, usable: nat, base: nat): (r: seq<byte>)
    requires Renderable(attrs, usable, base)
    ensures |r| == usable
  {
    Heads(attrs, usable, base) + Zeros(usable - HeadSize(attrs) - ValSize(attrs)) + Vals(attrs)
  }

  // ----- reading the rendered list back -----

  lemma {:induction false} HeadsPrefix(attrs: seq<Attr>, usable: nat, base: nat, i: nat)
    requires Renderable(attrs, usable, base) && i <= |attrs|
    ensures Renderable(attrs[..i], usable, base) && HeadSize(attrs[..i]) <= HeadSize(attrs)
    ensures Heads(attrs, usable, base)[..HeadSize(attrs[..i])] == Heads(attrs[..i], usable, base)
    decreases attrs
  {
    hide LastCell;
    if i == |attrs| {
      assert attrs[..i] == attrs;
    } else {
      var init := attrs[..|attrs| - 1];
      LastFits(attrs, usable, base);
      HeadsPrefix(init, usable, base, i);
      assert init[..i] == attrs[..i];
    }
  }

  lemma {:induction false} ValsSuffix(attrs: seq<Attr>, i: nat)
    requires i <= |attrs|
    ensures ValSize(attrs[..i]) <= ValSize(attrs)
    ensures Vals(attrs)[ValSize(attrs) - ValSize(attrs[..i])..] == Vals(attrs[..i])
    decreases attrs
  {
    if i == |attrs| {
      assert attrs[..i] == attrs;
    } else {
      var init := attrs[..|attrs| - 1];
      ValsSuffix(init, i);
      assert init[..i] == attrs[..i];
    }
  }

  function ValueAt(attrs: seq<Attr>, usable: nat, base: nat, i: nat): u16
    requires Renderable(attrs, usable, base) && i < |attrs|
  {
    HeadsPrefix(attrs, usable, base, i + 1);
    LastFits(attrs[..i + 1], usable, base);
    base + usable - ValSize(attrs[..i + 1])
  }

  lemma CellOf(attrs: seq<Attr>, usable: nat, base: nat, i: nat)
    requires Renderable(attrs, usable, base) && i < |attrs|
    ensures Renderable(attrs[..i + 1], usable, base) && Renderable(attrs[..i], usable, base)
    ensures HeadSize(attrs[..i + 1]) == HeadSize(attrs[..i]) + EntryBytes(attrs[i]) <= HeadSize(attrs)
    ensures Heads(attrs[..i + 1], usable, base)
            == Heads(attrs[..i], usable, base) + LastCell(attrs[..i + 1], usable, base)
    ensures Heads(attrs[..i + 1], usable, base) == Heads(attrs, usable, base)[..HeadSize(attrs[..i + 1])]
  {
    hide LastCell, EntryBytes, ValSize;
    var now := attrs[..i + 1];
    HeadsPrefix(attrs, usable, base, i);
    HeadsPrefix(attrs, usable, base, i + 1);
    assert now[..i] == attrs[..i] && now[i] == attrs[i];
  }

  lemma CellBytes(attrs: seq<Attr>, usable: nat, base: nat, i: nat)
    requires Renderable(attrs, usable, base) && i < |attrs| && Renderable(attrs[..i + 1], usable, base)
    ensures Encodable(AsEntry(attrs[i], base))
    ensures LastCell(attrs[..i + 1], usable, base)
            == Header(AsEntry(attrs[i], base), ValueAt(attrs, usable, base, i)) + Csum.PadTo4(attrs[i].name)
  {
    hide AttrHash, Header, HeadSize, StoredHash, Csum.PadTo4;
    LastFits(attrs[..i + 1], usable, base);
    assert attrs[..i + 1][i] == attrs[i];
  }

  lemma HeadsInFront(attrs: seq<Attr>, usable: nat, base: nat)
    requires Renderable(attrs, usable, base)
    ensures Rendered(attrs, usable, base)[..HeadSize(attrs)] == Heads(attrs, usable, base)
  {
  }

  lemma HeadInRegion(attrs: seq<Attr>, usable: nat, base: nat, region: seq<byte>, i: nat)
    requires Renderable(attrs, usable, base) && i < |attrs| && region == Rendered(attrs, usable, base)
    ensures HeadSize(attrs[..i + 1]) == HeadSize(attrs[..i]) + EntryBytes(attrs[i]) <= usable
    ensures var off, a := HeadSize(attrs[..i]), attrs[i];
            && Encodable(AsEntry(a, base))
            && region[off..off + 16] == Header(AsEntry(a, base), ValueAt(attrs, usable, base, i))
            && region[off + 16..off + 16 + |a.name|] == a.name
  {
    hide Header, Heads, Vals, Rendered, LastCell, ValSize, HeadSize, EntrySize, Csum.PadTo4, AsEntry, ValueAt;
    var heads := Heads(attrs, usable, base);
    HeadsInFront(attrs, usable, base);
    CellOf(attrs, usable, base, i);
    CellBytes(attrs, usable, base, i);
    var off, a := HeadSize(attrs[..i]), attrs[i];
    var cell := LastCell(attrs[..i + 1], usable, base);
    CellInRegion(region, heads, Heads(attrs[..i], usable, base), cell);
    CellParts(region, off, a, Header(AsEntry(a, base), ValueAt(attrs, usable, base, i)));
  }

  lemma CellParts(region: seq<byte>, off: nat, a: Attr, header: seq<byte>)
    requires |header| == 16 && off + EntryBytes(a) <= |region|
    requires region[off..off + EntryBytes(a)] == header + Csum.PadTo4(a.name)
    ensures region[off..off + 16] == header && region[off + 16..off + 16 + |a.name|] == a.name
  {
    var cell := header + Csum.PadTo4(a.name);
    assert cell[0..16] == header && cell[16..16 + |a.name|] == a.name;
    SubSlice(region, off, off + |cell|, 0, 16);
    SubSlice(region, off, off + |cell|, 16, 16 + |a.name|);
  }

  lemma OneStored(attrs: seq<Attr>, usable: nat, base: nat, whole: seq<byte>, i: nat)
    requires Renderable(attrs, usable, base) && i < |attrs|
    requires |whole| == base + usable && whole[base..] == Rendered(attrs, usable, base)
    ensures var at := ValueAt(attrs, usable, base, i);
            StoredAt(whole[base..], whole, HeadSize(attrs[..i]), AsEntry(attrs[i], base), at) && 0 < at
    ensures HeadSize(attrs[..i + 1]) == HeadSize(attrs[..i]) + EntryBytes(attrs[i])
  {
    hide AttrHash, Header, Heads, Vals, Rendered, StoredHash, HeadSize, ValSize, EntrySize;
    var region := whole[base..];
    HeadInRegion(attrs, usable, base, region, i);
    ValueInRegion(attrs, usable, base, region, i);
    HeadsPrefix(attrs, usable, base, i + 1);
    LastFits(attrs[..i + 1], usable, base);
    var at, n := ValueAt(attrs, usable, base, i) as int, |attrs[i].value|;
    SubSlice(whole, base, |whole|, at - base, at - base + n);
  }

  lemma CellInRegion(region: seq<byte>, heads: seq<byte>, before: seq<byte>, cell: seq<byte>)
    requires |heads| <= |region| && region[..|heads|] == heads
    requires |before| + |cell| <= |heads| && heads[..|before| + |cell|] == before + cell
    ensures region[|before|..|before| + |cell|] == cell
  {
    SubSlice(region, 0, |heads|, |before|, |before| + |cell|);
    SubSlice(heads, 0, |before| + |cell|, |before|, |before| + |cell|);
    assert (before + cell)[|before|..] == cell;
  }

  lemma ValsAtEnd(attrs: seq<Attr>, usable: nat, base: nat)
    requires Renderable(attrs, usable, base)
    ensures Rendered(attrs, usable, base)[usable - ValSize(attrs)..] == Vals(attrs)
  {
  }

  lemma LastValue(attrs: seq<Attr>, i: nat)
    requires i < |attrs|
    ensures |attrs[i].value| <= ValSize(attrs[..i + 1]) <= ValSize(attrs)
    ensures Vals(attrs[..i + 1])[..|attrs[i].value|] == attrs[i].value
  {
    hide Csum.PadTo4;
    ValsSuffix(attrs, i + 1);
    assert attrs[..i + 1][i] == attrs[i];
  }

  lemma TailOfTail<T>(s: seq<T>, m: nat, t: seq<T>, k: nat, u: seq<T>, n: nat)
    requires m + k <= |s| && s[m..] == t && t[k..] == u && n <= |u|
    ensures s[m + k..m + k + n] == u[..n]
  {
  }

  lemma ValueInRegion(attrs: seq<Attr>, usable: nat, base: nat, region: seq<byte>, i: nat)
    requires Renderable(attrs, usable, base) && i < |attrs| && region == Rendered(attrs, usable, base)
    ensures ValSize(attrs[..i + 1]) <= usable && |attrs[i].value| <= ValSize(attrs[..i + 1])
    ensures var cursor := usable - ValSize(attrs[..i + 1]);
            region[cursor..cursor + |attrs[i].value|] == attrs[i].value
  {
    hide Heads, Vals, Rendered, HeadSize, ValSize;
    ValsSuffix(attrs, i + 1);
    LastValue(attrs, i);
    ValsAtEnd(attrs, usable, base);
    TailOfTail(region, usable - ValSize(attrs), Vals(attrs), ValSize(attrs) - ValSize(attrs[..i + 1]),
      Vals(attrs[..i + 1]), |attrs[i].value|);
  }

  lemma {:induction false} RenderedIsListed(attrs: seq<Attr>, usable: nat, base: nat, whole: seq<byte>, ats: seq<u16>,
                                            i: nat)
    requires Renderable(attrs, usable, base) && i <= |attrs|
    requires |whole| == base + usable && whole[base..] == Rendered(attrs, usable, base)
    requires |ats| == |attrs| && forall k :: 0 <= k < |attrs| ==> ats[k] == ValueAt(attrs, usable, base, k)
    ensures Listed(whole[base..], whole, HeadSize(attrs[..i]), AsEntries(attrs, base)[i..], ats[i..])
    decreases |attrs| - i
  {
    hide StoredAt, ValueAt, Heads, Vals, Renderable, StoredHash, Header;
    var region := whole[base..];
    var es := AsEntries(attrs, base);
    if i == |attrs| {
      assert attrs[..i] == attrs;
      Terminated(attrs, usable, base);
    } else {
      OneStored(attrs, usable, base, whole, i);
      RenderedIsListed(attrs, usable, base, whole, ats, i + 1);
      SuffixStep(es, i);
      SuffixStep(ats, i);
    }
  }

  lemma SuffixStep<T>(s: seq<T>, i: nat)
    requires i < |s|
    ensures s[i..][0] == s[i] && s[i..][1..] == s[i + 1..]
  {
  }

  lemma Terminated(attrs: seq<Attr>, usable: nat, base: nat)
    requires Renderable(attrs, usable, base)
    ensures HeadSize(attrs) + 4 <= usable
            && Rendered(attrs, usable, base)[HeadSize(attrs)..HeadSize(attrs) + 4] == Zeros(4)
  {
  }

  /** The parser returns exactly the rendered attributes, in order, from either kind of region. */
  lemma RenderedParses(attrs: seq<Attr>, usable: nat, base: nat, whole: seq<byte>)
    requires Renderable(attrs, usable, base)
    requires |whole| == base + usable && whole[base..] == Rendered(attrs, usable, base)
    ensures ParseFrom(whole[base..], whole, 0) == Ok(AsEntries(attrs, base))
  {
    hide Listed, Rendered, AsEntry;
    var ats := seq(|attrs|, k requires 0 <= k < |attrs| => ValueAt(attrs, usable, base, k));
    RenderedIsListed(attrs, usable, base, whole, ats, 0);
    assert attrs[..0] == [];
    var es := AsEntries(attrs, base);
    assert es[0..] == es && ats[0..] == ats;
    ListedParses(whole[base..], whole, 0, es, ats);
  }

  // ----- the renderer -----

  method PutValue(buf: array<byte>, at: nat, value: seq<byte>, ghost p: seq<byte>, ghost n: nat, ghost q: seq<byte>)
    requires buf[..] == p + Zeros(n) + q && |Csum.PadTo4(value)| <= n && at == |p| + n - |Csum.PadTo4(value)|
    modifies buf
    ensures buf[..] == p + Zeros(n - |Csum.PadTo4(value)|) + (Csum.PadTo4(value) + q)
  {
    CopyIn(buf, at, value);
    BackOfZeros(p, n, value, (4 - |value| % 4) % 4, q);
  }

  method PutName(buf: array<byte>, at: nat, name: seq<byte>, ghost p: seq<byte>, ghost n: nat, ghost q: seq<byte>)
    requires buf[..] == p + Zeros(n) + q && at == |p| && |Csum.PadTo4(name)| <= n
    modifies buf
    ensures buf[..] == p + Csum.PadTo4(name) + Zeros(n - |Csum.PadTo4(name)|) + q
  {
    CopyIn(buf, at, name);
    IntoZeros(p, n, name, q);
    var k := (4 - |name| % 4) % 4;
    SplitZeros(p + name, n - |name|, k, q);
    AppendAssociates(p, name, Zeros(k));
  }

  lemma HeaderPieces(p: seq<byte>, e: Entry, at: u16)
    requires Encodable(e)
    ensures p + [|e.name| as byte] + [e.nameIndex] + Bytes16(at) + Zeros(4) + Bytes32(|e.value|) + Bytes32(e.hash)
            == p + Header(e, at)
  {
  }

  /** The fields of one header, in the renderer's order; the value's inode number stays zero. */
  method PutHeader(buf: array<byte>, at: nat, e: Entry, valueAt: u16, ghost p: seq<byte>, ghost n: nat,
                   ghost q: seq<byte>)
    requires Encodable(e) && buf[..] == p + Zeros(n) + q && at == |p| && 16 <= n
    modifies buf
    ensures buf[..] == p + Header(e, valueAt) + Zeros(n - 16) + q
  {
    hide Bytes16, Bytes32, Header, Zeros;
    ghost var a := p;
    Fill8(buf, at, |e.name|, a, n, q); a := a + [|e.name| as byte];
    Fill8(buf, at + 1, e.nameIndex, a, n - 1, q); a := a + [e.nameIndex];
    Fill16(buf, at + 2, valueAt, a, n - 2, q); a := a + Bytes16(valueAt);
    ZerosAre(4);
    SplitZeros(a, n - 4, 4, q); a := a + Zeros(4);
    Fill32(buf, at + 8, |e.value|, a, n - 8, q); a := a + Bytes32(|e.value|);
    Fill32(buf, at + 12, e.hash, a, n - 12, q); a := a + Bytes32(e.hash);
    HeaderPieces(p, e, valueAt);
  }

  lemma ZerosAre(n: nat)
    ensures |Zeros(n)| == n
  {
  }

  method PutEntry(buf: array<byte>, at: nat, e: Entry, valueAt: u16, ghost p: seq<byte>, ghost n: nat,
                  ghost q: seq<byte>)
    requires Encodable(e) && buf[..] == p + Zeros(n) + q && at == |p| && EntrySize(|e.name|) <= n
    modifies buf
    ensures buf[..] == p + (Header(e, valueAt) + Csum.PadTo4(e.name)) + Zeros(n - EntrySize(|e.name|)) + q
  {
    hide Bytes16, Bytes32, Header, Zeros;
    PutHeader(buf, at, e, valueAt, p, n, q);
    PutName(buf, at + 16, e.name, p + Header(e, valueAt), n - 16, q);
    AppendAssociates(p, Header(e, valueAt), Csum.PadTo4(e.name));
  }

  function Hashes(attrs: seq<Attr>, base: nat): (r: seq<bv32>)
    ensures |r| == |attrs|
  {
    seq(|attrs|, i requires 0 <= i < |attrs| => StoredHash(attrs[i], base))
  }

  lemma HashesGrow(attrs: seq<Attr>, base: nat)
    requires attrs != []
    ensures Hashes(attrs, base) == Hashes(attrs[..|attrs| - 1], base) + [StoredHash(attrs[|attrs| - 1], base)]
  {
  }

  lemma SizesGrow(attrs: seq<Attr>, usable: nat, base: nat, i: nat)
    requires Renderable(attrs, usable, base) && i < |attrs|
    ensures Renderable(attrs[..i], usable, base) && Renderable(attrs[..i + 1], usable, base)
    ensures attrs[..i + 1][..i] == attrs[..i] && attrs[..i + 1][i] == attrs[i]
    ensures HeadSize(attrs[..i + 1]) == HeadSize(attrs[..i]) + EntryBytes(attrs[i])
    ensures ValSize(attrs[..i + 1]) == ValSize(attrs[..i]) + ValueBytes(attrs[i])
    ensures base + usable - ValSize(attrs[..i + 1]) < 0x1_0000 && Encodable(AsEntry(attrs[i], base))
  {
    hide Heads, StoredHash;
    HeadsPrefix(attrs, usable, base, i);
    HeadsPrefix(attrs, usable, base, i + 1);
    LastFits(attrs[..i + 1], usable, base);
    assert attrs[..i + 1][..i] == attrs[..i] && attrs[..i + 1][i] == attrs[i];
  }

  /** One attribute: its value downward from the cursor, its entry upward from `ent`. */
  method RenderOne(buf: array<byte>, start: nat, ghost attrs: seq<Attr>, i: nat, a: Attr, ghost usable: nat, base: nat,
                   ent: nat, cursor: nat, ghost pre: seq<byte>) returns (h: bv32)
    requires Renderable(attrs, usable, base) && i < |attrs| && a == attrs[i]
    requires Renderable(attrs[..i], usable, base)
    requires |pre| == start && ent == HeadSize(attrs[..i]) && cursor == usable - ValSize(attrs[..i])
    requires buf[..] == pre + Rendered(attrs[..i], usable, base)
    modifies buf
    ensures h == StoredHash(a, base)
    ensures Renderable(attrs[..i + 1], usable, base) && buf[..] == pre + Rendered(attrs[..i + 1], usable, base)
  {
    hide Header, StoredHash, EntrySize, HeadSize, ValSize, Encodable, Renderable, Rendered, Heads, Vals, Csum.PadTo4;
    SizesGrow(attrs, usable, base, i);
    RoomLeft(attrs, usable, base, i);
    ghost var was, now := attrs[..i], attrs[..i + 1];
    ghost var n := usable - HeadSize(was) - ValSize(was);
    RenderedFrom(pre, was, usable, base);
    var at := cursor - ValueBytes(a);
    PutValue(buf, start + at, a.value, pre + Heads(was, usable, base), n, Vals(was));
    h := HashOf(a, base);
    PutEntry(buf, start + ent, Entry(a.nameIndex, a.name, a.value, Csum.AsU32(h)), base + at,
             pre + Heads(was, usable, base), n - ValueBytes(a), Csum.PadTo4(a.value) + Vals(was));
    RenderedNext(pre, attrs, usable, base, i);
  }

  lemma RoomLeft(attrs: seq<Attr>, usable: nat, base: nat, i: nat)
    requires Renderable(attrs, usable, base) && i < |attrs|
    ensures HeadSize(attrs[..i]) + EntryBytes(attrs[i]) + 4 + ValSize(attrs[..i]) + ValueBytes(attrs[i]) <= usable
  {
    SizesGrow(attrs, usable, base, i);
  }

  lemma RenderedFrom(pre: seq<byte>, attrs: seq<Attr>, usable: nat, base: nat)
    requires Renderable(attrs, usable, base)
    ensures pre + Rendered(attrs, usable, base)
            == pre + Heads(attrs, usable, base) + Zeros(usable - HeadSize(attrs) - ValSize(attrs)) + Vals(attrs)
  {
    hide Heads, Vals, HeadSize, ValSize;
  }

  lemma RenderedNext(pre: seq<byte>, attrs: seq<Attr>, usable: nat, base: nat, i: nat)
    requires Renderable(attrs, usable, base) && i < |attrs| && Renderable(attrs[..i], usable, base)
             && Renderable(attrs[..i + 1], usable, base)
    requires Encodable(AsEntry(attrs[i], base)) && 0 <= base + usable - ValSize(attrs[..i + 1]) < 0x1_0000
    requires HeadSize(attrs[..i + 1]) + ValSize(attrs[..i + 1]) <= usable
    ensures pre + Rendered(attrs[..i + 1], usable, base)
            == pre + Heads(attrs[..i], usable, base)
               + (Header(AsEntry(attrs[i], base), base + usable - ValSize(attrs[..i + 1])) + Csum.PadTo4(attrs[i].name))
               + Zeros(usable - HeadSize(attrs[..i + 1]) - ValSize(attrs[..i + 1]))
                 + (Csum.PadTo4(attrs[i].value) + Vals(attrs[..i]))
  {
    hide Header, StoredHash, EntrySize, HeadSize, ValSize, Csum.PadTo4, Rendered;
    var now := attrs[..i + 1];
    assert now[..i] == attrs[..i] && now[i] == attrs[i];
    RenderedFrom(pre, now, usable, base);
    AppendAssociates(pre, Heads(attrs[..i], usable, base), LastCell(now, usable, base));
  }

  method HashOf(a: Attr, base: nat) returns (h: bv32)
    ensures h == StoredHash(a, base)
  {
    if base != 0 {
      h := Csum.XattrEntryHash(a.name, a.value);
    } else {
      h := 0;
    }
  }

  /** Renders into the zeroed end of a buffer, and returns the entry hashes. */
  method RenderEntries(buf: array<byte>, start: nat, attrs: seq<Attr>, usable: nat, base: nat)
                       returns (hashes: seq<bv32>)
    requires Renderable(attrs, usable, base) && start + usable == buf.Length && buf[start..] == Zeros(usable)
    modifies buf
    ensures buf[..] == old(buf[..start]) + Rendered(attrs, usable, base)
    ensures hashes == Hashes(attrs, base)
  {
    hide Rendered, StoredHash, HeadSize, ValSize, Heads, Vals, Renderable, EntrySize;
    ghost var pre := buf[..start];
    var ent, cursor := 0, usable;
    hashes := [];
    RenderedNone(attrs, usable, base);
    assert attrs[..0] == [];
    assert buf[..] == buf[..start] + buf[start..];
    for i := 0 to |attrs|
      invariant Renderable(attrs[..i], usable, base)
      invariant ent == HeadSize(attrs[..i]) && cursor == usable - ValSize(attrs[..i])
      invariant buf[..] == pre + Rendered(attrs[..i], usable, base)
      invariant hashes == Hashes(attrs[..i], base)
    {
      SizesGrow(attrs, usable, base, i);
      HashesGrow(attrs[..i + 1], base);
      RoomLeft(attrs, usable, base, i);
      var h := RenderOne(buf, start, attrs, i, attrs[i], usable, base, ent, cursor, pre);
      hashes := hashes + [h];
      ent := ent + EntryBytes(attrs[i]);
      cursor := cursor - ValueBytes(attrs[i]);
    }
    assert attrs[..|attrs|] == attrs;
  }

  lemma RenderedNone(attrs: seq<Attr>, usable: nat, base: nat)
    requires Renderable(attrs, usable, base)
    ensures Renderable([], usable, base) && HeadSize([]) == 0 && ValSize([]) == 0
            && Rendered([], usable, base) == Zeros(usable)
    ensures Hashes([], base) == []
  {
  }
}
