/**
  Extended attributes: the entry list that the in-inode area and the attribute block
  share (`src/spec/xattr.rs`).
*/
module Xattr {
  import opened Bytes

  const MAGIC: u32 := 0xEA02_0000

  datatype Entry = Entry(nameIndex: byte, name: seq<byte>, value: seq<byte>, hash: u32)

  datatype BlockView = BlockView(refcount: u32, hash: u32, checksum: u32, entries: seq<Entry>)

  /** A header and a name, padded to four bytes. */
  function EntrySize(nameLen: nat): (n: nat)
    ensures 16 + nameLen <= n < 16 + nameLen + 4 && n % 4 == 0
  {
    16 + nameLen + (4 - nameLen % 4) % 4
  }

  /** The entry whose header starts at `off`, which is known not to be the terminator. */
  function ParseEntry(region: seq<byte>, base: seq<byte>, off: nat): Result<Entry> {
    if off + 16 > |region| then Err(Corrupt)
    else
      var nameLen: int := region[off];
      var valueOffs: int := Le16(region, off + 2);
      var valueSize: int := Le32(region, off + 8);
      if Le32(region, off + 4) != 0 then Err(Unsupported)
      else if off + 16 + nameLen > |region| then Err(Corrupt)
      else if valueOffs + valueSize > |base| then Err(Corrupt)
      else Ok(Entry(region[off + 1], region[off + 16..off + 16 + nameLen], base[valueOffs..valueOffs + valueSize],
        Le32(region, off + 12)))
  }

  /** The list from `off` to the four zero bytes that end it, or the first error on the way. */
  function ParseFrom(region: seq<byte>, base: seq<byte>, off: nat): Result<seq<Entry>>
    decreases |region| - off
  {
    if off + 4 > |region| then Err(Corrupt)
    else if Le32(region, off) == 0 then Ok([])
    else
      var e :- ParseEntry(region, base, off);
      var rest :- ParseFrom(region, base, off + EntrySize(|e.name|));
      Ok([e] + rest)
  }

  function After(done: seq<Entry>, rest: Result<seq<Entry>>): Result<seq<Entry>> {
    match rest
    case Ok(es) => Ok(done + es)
    case Err(_) => rest
  }

  /** The parser's loop: it ends on every region, and collects what the recursive reading finds. */
  method ParseEntries(region: seq<byte>, base: seq<byte>) returns (r: Result<seq<Entry>>)
    ensures r == ParseFrom(region, base, 0)
  {
    hide ParseEntry, EntrySize;
    var out: seq<Entry> := [];
    var off := 0;
    AfterNothing(ParseFrom(region, base, 0));
    while true
      invariant 0 <= off
      invariant ParseFrom(region, base, 0) == After(out, ParseFrom(region, base, off))
      decreases |region| - off
    {
      if off + 4 > |region| { return Err(Corrupt); }
      if Le32(region, off) == 0 {
        assert out + [] == out;
        return Ok(out);
      }
      var e := ParseEntry(region, base, off);
      if e.Err? { return Err(e.error); }
      AfterStep(out, e.value, ParseFrom(region, base, off + EntrySize(|e.value.name|)));
      out := out + [e.value];
      off := off + EntrySize(|e.value.name|);
    }
  }

  lemma AfterNothing(rest: Result<seq<Entry>>)
    ensures After([], rest) == rest
  {
    if rest.Ok? {
      assert [] + rest.value == rest.value;
    }
  }

  lemma AfterStep(done: seq<Entry>, e: Entry, rest: Result<seq<Entry>>)
    ensures rest.Ok? ==> done + ([e] + rest.value) == done + [e] + rest.value
  {
  }

  // ----- what a well-formed list looks like -----

  function Header(e: Entry, at: u16): (r: seq<byte>)
    requires |e.name| < 256 && |e.value| < 0x1_0000_0000
    ensures |r| == 16
  {
    [|e.name| as byte, e.nameIndex] + Bytes16(at) + Bytes32(0) + Bytes32(|e.value|) + Bytes32(e.hash)
  }

  predicate Encodable(e: Entry) {
    |e.name| < 256 && |e.value| < 0x1_0000_0000
  }

  /** `e` is stored at `off` of the region, with its value at `at` of the value base. */
  predicate StoredAt(region: seq<byte>, base: seq<byte>, off: nat, e: Entry, at: u16) {
    && Encodable(e)
    && off + 16 + |e.name| <= |region| && at as int + |e.value| <= |base|
    && region[off..off + 16] == Header(e, at)
    && region[off + 16..off + 16 + |e.name|] == e.name
    && base[at..at as int + |e.value|] == e.value
  }

  /** The entry could be taken for the terminator: its first four bytes are all zero. */
  predicate LooksLikeEnd(e: Entry, at: u16) {
    |e.name| == 0 && e.nameIndex == 0 && at == 0
  }

  ghost predicate Listed(region: seq<byte>, base: seq<byte>, off: nat, es: seq<Entry>, ats: seq<u16>)
    requires |es| == |ats|
    decreases es
  {
    if es == [] then off + 4 <= |region| && region[off..off + 4] == Zeros(4)
    else
      && StoredAt(region, base, off, es[0], ats[0]) && !LooksLikeEnd(es[0], ats[0])
      && Listed(region, base, off + EntrySize(|es[0].name|), es[1..], ats[1..])
  }

  lemma HeaderFields(b: seq<byte>, off: nat, e: Entry, at: u16)
    requires Encodable(e) && off + 16 <= |b|
    ensures b[off..off + 16] == Header(e, at) <==>
            b[off] == |e.name| && b[off + 1] == e.nameIndex && Le16(b, off + 2) == at && Le32(b, off + 4) == 0
            && Le32(b, off + 8) == |e.value| && Le32(b, off + 12) == e.hash
  {
    hide Bytes16, Bytes32, Le16, Le32;
    var w := b[off..off + 16];
    assert w == [b[off], b[off + 1]] + b[off + 2..off + 4] + b[off + 4..off + 8] + b[off + 8..off + 12]
      + b[off + 12..off + 16];
    Le16Encodes(b, off + 2);
    Le32Encodes(b, off + 4);
    Le32Encodes(b, off + 8);
    Le32Encodes(b, off + 12);
    if w == Header(e, at) {
      var h := Header(e, at);
      assert w[0] == b[off] && w[1] == b[off + 1];
      assert h[2..4] == Bytes16(at) && h[4..8] == Bytes32(0) && h[8..12] == Bytes32(|e.value|)
        && h[12..16] == Bytes32(e.hash);
      SubSlice(b, off, off + 16, 2, 4);
      SubSlice(b, off, off + 16, 4, 8);
      SubSlice(b, off, off + 16, 8, 12);
      SubSlice(b, off, off + 16, 12, 16);
      Le16Decodes(b, off + 2, at);
      Le32Decodes(b, off + 4, 0);
      Le32Decodes(b, off + 8, |e.value|);
      Le32Decodes(b, off + 12, e.hash);
    }
  }

  /** The entry parser succeeds with `e` exactly where `e` is stored at the offset the header gives. */
  lemma ParseEntryIffStored(region: seq<byte>, base: seq<byte>, off: nat, e: Entry)
    requires off + 4 <= |region|
    ensures ParseEntry(region, base, off) == Ok(e) <==> StoredAt(region, base, off, e, Le16(region, off + 2))
  {
    hide Header, Le16, Le32;
    if off + 16 <= |region| && Encodable(e) {
      HeaderFields(region, off, e, Le16(region, off + 2));
    }
  }

  lemma EndBytes(region: seq<byte>, base: seq<byte>, off: nat, e: Entry, at: u16)
    requires StoredAt(region, base, off, e, at)
    ensures off + 16 <= |region| && at == Le16(region, off + 2)
    ensures Le32(region, off) == 0 <==> LooksLikeEnd(e, at)
  {
    hide Header;
    HeaderFields(region, off, e, at);
  }

  lemma ZeroWord(region: seq<byte>, off: nat)
    requires off + 4 <= |region|
    ensures Le32(region, off) == 0 <==> region[off..off + 4] == Zeros(4)
  {
    Le32Encodes(region, off);
    assert Bytes32(0) == Zeros(4);
    if region[off..off + 4] == Zeros(4) {
      Le32Decodes(region, off, 0);
    }
    hide Le32, Bytes32;
  }

  lemma {:induction false} ListedParses(region: seq<byte>, base: seq<byte>, off: nat, es: seq<Entry>, ats: seq<u16>)
    requires |es| == |ats| && Listed(region, base, off, es, ats)
    ensures ParseFrom(region, base, off) == Ok(es)
    decreases es
  {
    hide ParseEntry, StoredAt, Header, Le16, Le32;
    if es == [] {
      ZeroWord(region, off);
    } else {
      EndBytes(region, base, off, es[0], ats[0]);
      ParseEntryIffStored(region, base, off, es[0]);
      ListedParses(region, base, off + EntrySize(|es[0].name|), es[1..], ats[1..]);
      assert es == [es[0]] + es[1..];
    }
  }

  lemma {:induction false} ParsedIsListed(region: seq<byte>, base: seq<byte>, off: nat) returns (ats: seq<u16>)
    requires ParseFrom(region, base, off).Ok?
    ensures var es := ParseFrom(region, base, off).value;
            |ats| == |es| && Listed(region, base, off, es, ats)
    decreases |region| - off
  {
    hide ParseEntry, StoredAt, Header, Le16, Le32;
    if Le32(region, off) == 0 {
      ZeroWord(region, off);
      ats := [];
    } else {
      var e := ParseEntry(region, base, off).value;
      var at := Le16(region, off + 2);
      ParseEntryIffStored(region, base, off, e);
      EndBytes(region, base, off, e, at);
      var rest := ParsedIsListed(region, base, off + EntrySize(|e.name|));
      ats := [at] + rest;
      var es := ParseFrom(region, base, off).value;
      assert es[1..] == ParseFrom(region, base, off + EntrySize(|e.name|)).value;
      assert ats[1..] == rest;
    }
  }

  /** On every region, the parser returns a list exactly when that list is laid out there. */
  lemma ParsesIffListed(region: seq<byte>, base: seq<byte>, off: nat, es: seq<Entry>)
    ensures ParseFrom(region, base, off) == Ok(es)
            <==> exists ats :: |ats| == |es| && Listed(region, base, off, es, ats)
  {
    if ParseFrom(region, base, off) == Ok(es) {
      var ats := ParsedIsListed(region, base, off);
    } else if ats :| |ats| == |es| && Listed(region, base, off, es, ats) {
      ListedParses(region, base, off, es, ats);
    }
  }

  /** An unnamed index-0 attribute whose value lies at offset 0 reads as the end of the list. */
  lemma UnnamedAtZeroEndsList()
    ensures var e, region := Entry(0, [], [], 7), Header(Entry(0, [], [], 7), 0) + Zeros(4);
            StoredAt(region, region, 0, e, 0) && ParseFrom(region, region, 0) == Ok([])
  {
  }

  // ----- the two places that hold a list -----

  /** The attributes in the inode slot; none without room for the magic, or without the magic. */
  function IbodyEntries(slot: seq<byte>, extraIsize: u16): Result<seq<Entry>> {
    var start := 0x80 + extraIsize as int;
    if start + 4 > |slot| || Le32(slot, start) != MAGIC then Ok([])
    else ParseFrom(slot[start + 4..], slot[start + 4..], 0)
  }

  function ParseBlock(block: seq<byte>): Result<BlockView> {
    if |block| < 0x20 then Err(Corrupt)
    else if Le32(block, 0) != MAGIC then Err(Corrupt)
    else if Le32(block, 8) != 1 then Err(Corrupt)
    else
      var es :- ParseFrom(block[0x20..], block, 0);
      Ok(BlockView(Le32(block, 4), Le32(block, 0x0C), Le32(block, 0x10), es))
  }

  ghost predicate Holds(region: seq<byte>, base: seq<byte>, es: seq<Entry>) {
    exists ats: seq<u16> :: |ats| == |es| && Listed(region, base, 0, es, ats)
  }

  /**
    The area behind the declared fields of an inode: empty without room for the magic number or without it; otherwise
    it is read as a list exactly when one is laid out behind the magic number, values counted from there.
  */
  lemma IbodyExactly(slot: seq<byte>, extraIsize: u16, es: seq<Entry>)
    ensures var start, r := 128 + extraIsize as nat, IbodyEntries(slot, extraIsize);
            if |slot| < start + 4 || slot[start..start + 4] != [0, 0, 2, 0xEA] then r == Ok([])
            else r == Ok(es) <==> Holds(slot[start + 4..], slot[start + 4..], es)
  {
    hide Listed, ParseFrom, Le32;
    var start := 128 + extraIsize as nat;
    if start + 4 <= |slot| {
      MagicBytes(slot, start);
      ParsesIffListed(slot[start + 4..], slot[start + 4..], 0, es);
    }
  }

  lemma MagicBytes(b: seq<byte>, at: nat)
    requires at + 4 <= |b|
    ensures Le32(b, at) == MAGIC <==> b[at..at + 4] == [0, 0, 2, 0xEA]
  {
    Le32Encodes(b, at);
    if b[at..at + 4] == [0, 0, 2, 0xEA] {
      Le32Decodes(b, at, 0xEA02_0000);
    }
  }

  /** An attribute block: magic number, one block, and a list behind 32 bytes, values counted from the block's start. */
  lemma BlockExactly(block: seq<byte>, es: seq<Entry>)
    ensures var r := ParseBlock(block);
            r.Ok? && r.value.entries == es
            <==> 32 <= |block| && block[..4] == [0, 0, 2, 0xEA] && Le32(block, 8) == 1 && Holds(block[32..], block, es)
    ensures var r := ParseBlock(block);
            r.Ok? ==> r.value.refcount == Le32(block, 4) && r.value.hash == Le32(block, 12)
                      && r.value.checksum == Le32(block, 16)
  {
    hide Listed, ParseFrom, Le32;
    if 32 <= |block| {
      MagicBytes(block, 0);
      ParsesIffListed(block[0x20..], block, 0, es);
    }
  }

  /** `Fs::xattrs` once the slot and, when the inode names one, the attribute block are read. */
  function Attributes(slot: seq<byte>, extraIsize: u16, block: Option<seq<byte>>): Result<seq<Entry>> {
    var own :- IbodyEntries(slot, extraIsize);
    match block
    case None => Ok(own)
    case Some(b) =>
      var view :- ParseBlock(b);
      Ok(own + view.entries)
  }
}
