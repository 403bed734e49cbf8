/**
  CRC-32C in raw-register form: the seed is the running register, with no inversion
  before or after (`src/csum.rs`, `crc32c` in `tools/check_vectors.py`).

  Facts about single bits are stated on bare bit-vector expressions; facts about
  repeated steps are proved once for an arbitrary register type.
*/
module Crc32c {
  import opened Bytes

  function Xor(a: bv32, b: bv32): bv32 {
    a ^ b
  }

  predicate LowBit(c: bv32) {
    c & 1 == 1
  }

  function Half(c: bv32): bv32 {
    c >> 1
  }

  /** The Castagnoli polynomial, lowest bit first. */
  const POLY: bv32 := 0x82F6_3B78

  /** One step of the reflected register. */
  function BitStep(c: bv32): bv32 {
    if LowBit(c) then Xor(Half(c), POLY) else Half(c)
  }

  function Iter<T>(f: T -> T, x: T, n: nat): T
    decreases n
  {
    if n == 0 then x else Iter(f, f(x), n - 1)
  }

  function Step8(c: bv32): bv32 {
    Iter(BitStep, c, 8)
  }

  function Narrow(b: byte): bv8 {
    b as bv8
  }

  function Widen(b: byte): bv32 {
    Narrow(b) as bv32
  }

  /** `crc32c_raw`: fold the bytes of `data` into the register `seed`. */
  function Crc(seed: bv32, data: seq<byte>): bv32
    decreases data
  {
    if data == [] then seed else Crc(Step8(Xor(seed, Widen(data[0]))), data[1..])
  }

  // ----- folding in pieces -----

  /** Folding a buffer piecewise is folding it whole. */
  lemma {:induction false} CrcConcat(seed: bv32, a: seq<byte>, b: seq<byte>)
    ensures Crc(Crc(seed, a), b) == Crc(seed, a + b)
    decreases a
  {
    if a == [] {
      assert a + b == b;
    } else {
      assert (a + b)[1..] == a[1..] + b;
      CrcConcat(Step8(Xor(seed, Widen(a[0]))), a[1..], b);
    }
  }

  // ----- repeated steps, for any register type -----

  lemma {:induction false} IterInjective<T(!new)>(f: T -> T, x: T, y: T, n: nat)
    requires forall a, b :: f(a) == f(b) ==> a == b
    requires Iter(f, x, n) == Iter(f, y, n)
    ensures x == y
    decreases n
  {
    if n > 0 { IterInjective(f, f(x), f(y), n - 1); }
  }

  lemma {:induction false} IterLast<T>(f: T -> T, x: T, n: nat)
    ensures Iter(f, x, n + 1) == f(Iter(f, x, n))
    decreases n
  {
    if n > 0 { IterLast(f, f(x), n - 1); }
  }

  lemma IterUnrolled<T>(f: T -> T, x: T)
    ensures Iter(f, x, 0) == x && Iter(f, x, 1) == f(x) && Iter(f, x, 2) == f(f(x)) && Iter(f, x, 3) == f(f(f(x)))
    ensures Iter(f, x, 4) == f(f(f(f(x)))) && Iter(f, x, 5) == f(f(f(f(f(x))))) && Iter(f, x, 6) == f(f(f(f(f(f(x))))))
    ensures Iter(f, x, 7) == f(f(f(f(f(f(f(x))))))) && Iter(f, x, 8) == f(f(f(f(f(f(f(f(x))))))))
  {
  }

  /** If one step undoes `up` on an added term, `n` steps undo `n` of them. */
  lemma {:induction false} IterAbsorbs<T(!new)>(f: T -> T, up: T -> T, add: (T, T) -> T, fits: T -> bool, x: T, y: T,
                                         n: nat)
    requires forall a, b :: fits(b) ==> f(add(a, up(b))) == add(f(a), b)
    requires forall i: nat :: i < n ==> fits(Iter(up, y, i))
    ensures Iter(f, add(x, Iter(up, y, n)), n) == add(Iter(f, x, n), y)
    decreases n
  {
    if n > 0 {
      IterLast(up, y, n - 1);
      IterAbsorbs(f, up, add, fits, f(x), y, n - 1);
    }
  }

  // ----- one bit step loses nothing -----

  // The polynomial has its top bit set, so the top bit tells which branch was taken.
  lemma BitStepInjective(c: bv32, c': bv32, d: bv32)
    requires d == BitStep(c) && d == BitStep(c')
    ensures c == c'
  {
  }

  lemma Step8Injective(c: bv32, c': bv32)
    requires Step8(c) == Step8(c')
    ensures c == c'
  {
    forall a, b | BitStep(a) == BitStep(b) ensures a == b { BitStepInjective(a, b, BitStep(a)); }
    IterInjective(BitStep, c, c', 8);
  }

  lemma XorInjective(a: bv32, b: bv32, x: bv32)
    ensures Xor(a, x) == Xor(b, x) ==> a == b
    ensures Xor(x, a) == Xor(x, b) ==> a == b
  {
  }

  /** Folding the same bytes into different registers leaves them different. */
  lemma {:induction false} CrcSeedInjective(s: bv32, t: bv32, data: seq<byte>)
    requires Crc(s, data) == Crc(t, data)
    ensures s == t
    decreases data
  {
    if data != [] {
      var x := Widen(data[0]);
      CrcSeedInjective(Step8(Xor(s, x)), Step8(Xor(t, x)), data[1..]);
      Step8Injective(Xor(s, x), Xor(t, x));
      XorInjective(s, t, x);
    }
  }

  // ----- up to four bytes are one word -----

  function Up1(y: bv32): bv32 {
    y << 1
  }

  function Up8(y: bv32): bv32 {
    y << 8
  }

  predicate TopBitClear(y: bv32) {
    y & 0x8000_0000 == 0
  }

  predicate TopByteClear(y: bv32) {
    y & 0xFF00_0000 == 0
  }

  lemma LowBitOfSum(x: bv32, y: bv32)
    ensures LowBit(Xor(x, Up1(y))) == LowBit(x)
  {
  }

  lemma HalfOfSum(x: bv32, y: bv32)
    requires TopBitClear(y)
    ensures Half(Xor(x, Up1(y))) == Xor(Half(x), y)
  {
  }

  lemma XorRegroups(a: bv32, b: bv32, c: bv32)
    ensures (a ^ b) ^ c == a ^ (b ^ c)
  {
  }

  lemma XorAssociates(a: bv32, b: bv32, c: bv32)
    ensures Xor(Xor(a, b), c) == Xor(a, Xor(b, c))
  {
    XorRegroups(a, b, c);
  }

  lemma XorCommutes(a: bv32, b: bv32)
    ensures Xor(a, b) == Xor(b, a)
  {
  }

  lemma XorSwaps(a: bv32, b: bv32, c: bv32)
    ensures Xor(Xor(a, b), c) == Xor(Xor(a, c), b)
  {
    hide Xor;
    XorAssociates(a, b, c);
    XorCommutes(b, c);
    XorAssociates(a, c, b);
  }

  /** Bits above the lowest only move down, so they can be added before or after the step. */
  lemma BitStepAbsorbs(x: bv32, y: bv32)
    requires TopBitClear(y)
    ensures BitStep(Xor(x, Up1(y))) == Xor(BitStep(x), y)
  {
    hide LowBit, Half, Xor, Up1, TopBitClear;
    LowBitOfSum(x, y);
    HalfOfSum(x, y);
    XorSwaps(Half(x), y, POLY);
  }

  lemma RoomToShift(y: bv32)
    requires y & 0xFF00_0000 == 0
    ensures y & 0x8000_0000 == 0 && (y << 1) & 0x8000_0000 == 0 && ((y << 1) << 1) & 0x8000_0000 == 0
    ensures (((y << 1) << 1) << 1) & 0x8000_0000 == 0 && ((((y << 1) << 1) << 1) << 1) & 0x8000_0000 == 0
    ensures (((((y << 1) << 1) << 1) << 1) << 1) & 0x8000_0000 == 0
    ensures ((((((y << 1) << 1) << 1) << 1) << 1) << 1) & 0x8000_0000 == 0
    ensures (((((((y << 1) << 1) << 1) << 1) << 1) << 1) << 1) & 0x8000_0000 == 0
  {
  }

  lemma Up8IsIter(y: bv32)
    ensures Iter(Up1, y, 8) == Up8(y)
  {
  }

  lemma ClearAt(y: bv32, i: nat)
    requires TopByteClear(y) && i < 8
    ensures TopBitClear(Iter(Up1, y, i))
  {
    IterUnrolled(Up1, y);
    RoomToShift(y);
  }

  lemma Step8Absorbs(x: bv32, y: bv32)
    requires TopByteClear(y)
    ensures Step8(Xor(x, Up8(y))) == Xor(Step8(x), y)
  {
    forall a, b | TopBitClear(b) ensures BitStep(Xor(a, Up1(b))) == Xor(BitStep(a), b) { BitStepAbsorbs(a, b); }
    forall i: nat | i < 8 ensures TopBitClear(Iter(Up1, y, i)) { ClearAt(y, i); }
    Up8IsIter(y);
    IterAbsorbs(BitStep, Up1, Xor, TopBitClear, x, y, 8);
  }

  /** A byte string as one little-endian word (bytes beyond the fourth are shifted out). */
  function Word(w: seq<byte>): bv32 {
    if w == [] then 0 else Xor(Widen(w[0]), Up8(Word(w[1..])))
  }

  lemma WidenSmall(b: byte)
    ensures Widen(b) & 0xFFFF_FF00 == 0
  {
  }

  lemma WordSmall(w: seq<byte>)
    requires |w| <= 3
    ensures |w| == 0 ==> Word(w) == 0
    ensures |w| == 1 ==> Word(w) & 0xFFFF_FF00 == 0
    ensures |w| == 2 ==> Word(w) & 0xFFFF_0000 == 0
    ensures TopByteClear(Word(w))
    decreases |w|
  {
  }

  lemma XorZero(a: bv32)
    ensures Xor(a, 0) == a
  {
  }

  /** Folding up to four bytes is adding their word and stepping once per byte. */
  lemma {:induction false} CrcOfWord(c: bv32, w: seq<byte>)
    requires |w| <= 4
    ensures Crc(c, w) == Iter(Step8, Xor(c, Word(w)), |w|)
    decreases |w|
  {
    if w == [] {
      XorZero(c);
    } else {
      var x, y := Xor(c, Widen(w[0])), Word(w[1..]);
      CrcOfWord(Step8(x), w[1..]);
      WordSmall(w[1..]);
      Step8Absorbs(x, y);
      XorAssociates(c, Widen(w[0]), Up8(y));
    }
  }

  lemma SplitXor(x: bv32, y: bv32)
    requires x & 0xFFFF_FF00 == 0 && y & 0xFF00_0000 == 0
    ensures x == Xor(x, Up8(y)) & 0xFF && y == Xor(x, Up8(y)) >> 8
  {
  }

  // The conversion is decided sixteen values at a time.
  lemma Bv8Back(b: int)
    requires 0 <= b < 0x100
    ensures (b as bv8) as int == b
  {
    if b < 0x80 {
      if b < 0x40 {
        if b < 0x20 { if b < 0x10 {} else {} } else if b < 0x30 {} else {}
      } else {
        if b < 0x60 { if b < 0x50 {} else {} } else if b < 0x70 {} else {}
      }
    } else {
      if b < 0xC0 {
        if b < 0xA0 { if b < 0x90 {} else {} } else if b < 0xB0 {} else {}
      } else {
        if b < 0xE0 { if b < 0xD0 {} else {} } else if b < 0xF0 {} else {}
      }
    }
  }

  lemma NarrowInjective(b: byte, b': byte)
    requires Narrow(b) == Narrow(b')
    ensures b == b'
  {
    Bv8Back(b);
    Bv8Back(b');
  }

  lemma WideInjective(x: bv8, y: bv8)
    requires x as bv32 == y as bv32
    ensures x == y
  {
  }

  lemma WidenInjective(b: byte, b': byte)
    requires Widen(b) == Widen(b')
    ensures b == b'
  {
    WideInjective(Narrow(b), Narrow(b'));
    NarrowInjective(b, b');
  }

  /** The first byte of a word and the word of the rest. */
  lemma SplitFirst(w: seq<byte>)
    requires 0 < |w| <= 4
    ensures Widen(w[0]) == Word(w) & 0xFF && Word(w[1..]) == Word(w) >> 8
  {
    WordSmall(w[1..]);
    WidenSmall(w[0]);
    SplitXor(Widen(w[0]), Word(w[1..]));
  }

  lemma {:induction false} WordInjective(w: seq<byte>, w': seq<byte>)
    requires |w| == |w'| <= 4 && Word(w) == Word(w')
    ensures w == w'
    decreases |w|
  {
    if w != [] {
      SplitFirst(w);
      SplitFirst(w');
      WidenInjective(w[0], w'[0]);
      WordInjective(w[1..], w'[1..]);
      assert w == [w[0]] + w[1..] && w' == [w'[0]] + w'[1..];
    }
  }

  lemma WindowInjective(c: bv32, w: seq<byte>, w': seq<byte>)
    requires |w| == |w'| <= 4 && Crc(c, w) == Crc(c, w')
    ensures w == w'
  {
    CrcOfWord(c, w);
    CrcOfWord(c, w');
    forall a, b | Step8(a) == Step8(b) ensures a == b { Step8Injective(a, b); }
    IterInjective(Step8, Xor(c, Word(w)), Xor(c, Word(w')), |w|);
    XorInjective(Word(w), Word(w'), c);
    WordInjective(w, w');
  }

  /** The two strings differ, and only inside one window of four consecutive bytes. */
  ghost predicate DifferInWindow(a: seq<byte>, b: seq<byte>) {
    && |a| == |b|
    && a != b
    && exists k: nat :: AgreeOutside(a, b, k)
  }

  ghost predicate AgreeOutside(a: seq<byte>, b: seq<byte>, k: nat)
    requires |a| == |b|
  {
    forall i :: 0 <= i < |a| && !(k <= i < k + 4) ==> a[i] == b[i]
  }

  /** Burst detection: no seed lets a change confined to four bytes go unnoticed. */
  lemma BurstDetected(seed: bv32, a: seq<byte>, b: seq<byte>)
    requires DifferInWindow(a, b)
    ensures Crc(seed, a) != Crc(seed, b)
  {
    var k: nat :| AgreeOutside(a, b, k);
    var lo := if k <= |a| then k else |a|;
    var hi := if lo + 4 <= |a| then lo + 4 else |a|;
    assert a[..lo] == b[..lo];
    assert a[hi..] == b[hi..];
    assert a == a[..lo] + a[lo..hi] + a[hi..];
    assert b == b[..lo] + b[lo..hi] + b[hi..];
    var c := Crc(seed, a[..lo]);
    CrcConcat(seed, a[..lo], a[lo..hi]);
    CrcConcat(seed, b[..lo], b[lo..hi]);
    CrcConcat(seed, a[..lo] + a[lo..hi], a[hi..]);
    CrcConcat(seed, b[..lo] + b[lo..hi], b[hi..]);
    if Crc(seed, a) == Crc(seed, b) {
      CrcSeedInjective(Crc(c, a[lo..hi]), Crc(c, b[lo..hi]), a[hi..]);
      WindowInjective(c, a[lo..hi], b[lo..hi]);
    }
  }

  // ----- the table-driven form -----

  lemma LowBits(z: bv32)
    ensures z & 0xFF <= 0xFF
  {
  }

  function LowByte(z: bv32): bv8 {
    LowBits(z);
    (z & 0xFF) as bv8
  }

  lemma LowByteBack(v: bv8)
    ensures Narrow(v as int) == v
  {
  }

  lemma LowByteWide(z: bv32, v: bv8)
    requires v == (z & 0xFF) as bv8
    ensures v as bv32 == z & 0xFF
  {
  }

  lemma LowAndHigh(z: bv32, h: bv32)
    requires h == z >> 8
    ensures (z & 0xFF) ^ (h << 8) == z && h & 0xFF00_0000 == 0
  {
  }

  lemma LowAndHighXor(z: bv32, h: bv32)
    requires h == z >> 8
    ensures Xor(z & 0xFF, Up8(h)) == z
  {
  }

  lemma HighBytes(c: bv32, x: bv32, z: bv32, h: bv32)
    requires x & 0xFFFF_FF00 == 0 && z == c ^ x && h == c >> 8
    ensures h == z >> 8
  {
  }

  predicate IsTable(t: seq<bv32>) {
    |t| == 256 && forall k: byte :: t[k] == Step8(Widen(k))
  }

  /** The 256-entry table: every byte stepped eight times. */
  method BuildTable() returns (t: seq<bv32>)
    ensures IsTable(t)
  {
    t := [];
    for i := 0 to 256
      invariant |t| == i
      invariant forall k: byte :: k < i ==> t[k] == Step8(Widen(k))
    {
      var c := Widen(i);
      for j := 0 to 8
        invariant c == Iter(BitStep, Widen(i), j)
      {
        IterLast(BitStep, Widen(i), j);
        c := BitStep(c);
      }
      t := t + [c];
    }
  }

  lemma TableIndex(z: bv32)
    ensures Widen(LowByte(z) as int) == z & 0xFF
  {
    LowByteBack(LowByte(z));
    LowByteWide(z, LowByte(z));
  }

  /** The byte-at-a-time table form computes the same register as the bit-serial one. */
  method CrcByTable(seed: bv32, data: seq<byte>) returns (c: bv32)
    ensures c == Crc(seed, data)
  {
    var t := BuildTable();
    c := seed;
    for i := 0 to |data|
      invariant Crc(seed, data) == Crc(c, data[i..])
    {
      // Eight steps are one table lookup on the low byte.
      ghost var z, h := Xor(c, Widen(data[i])), c >> 8;
      WidenSmall(data[i]);
      HighBytes(c, Widen(data[i]), z, h);
      TableIndex(z);
      LowAndHigh(z, h);
      LowAndHighXor(z, h);
      Step8Absorbs(z & 0xFF, h);
      assert data[i..][1..] == data[i + 1..];
      c := Xor(t[LowByte(Xor(c, Widen(data[i]))) as int], c >> 8);
    }
  }
}
