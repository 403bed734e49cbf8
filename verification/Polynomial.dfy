/**
  What the CRC computes (`crc32c_raw` in `src/csum.rs`): the remainder of a polynomial over the
  two-element field, divided by the generator of RFC 3720. A polynomial is the list of its
  coefficients, highest power first.
*/
module Polynomial {
  import opened Bytes
  import opened Crc32c

  type Poly = seq<bool>

  function Zero(n: nat): Poly {
    seq(n, _ => false)
  }

  /** Addition, which is subtraction too. */
  function Add(p: Poly, q: Poly): (r: Poly)
    requires |p| == |q|
    ensures |r| == |p|
  {
    seq(|p|, i requires 0 <= i < |p| => p[i] != q[i])
  }

  /** Bit `i` of a number, the lowest being bit 0. */
  predicate BitOf(v: nat, i: nat) {
    if i == 0 then v % 2 == 1 else BitOf(v / 2, i - 1)
  }

  /** The generator, 0x1EDC6F41 with the highest bit first, without its term x^32. */
  function Generator(): (r: Poly)
    ensures |r| == 32
  {
    seq<bool>(32, i requires 0 <= i < 32 => BitOf(0x1EDC_6F41, 31 - i))
  }

  /** The generator with its highest term, times x^n; or zero. */
  function Copy(there: bool, n: nat): (r: Poly)
    ensures |r| == 33 + n
  {
    (if there then [true] + Generator() else Zero(33)) + Zero(n)
  }

  /** The generator times `q`: one shifted copy for each term of `q`. */
  function Times(q: Poly): (r: Poly)
    ensures |r| == |q| + 32
  {
    if q == [] then Zero(32)
    else Add(Copy(q[0], |q| - 1), [false] + Times(q[1..]))
  }

  /** `p` is `q` times the generator plus `r`, which has a lower degree. */
  predicate Divides(p: Poly, q: Poly, r: Poly) {
    |r| == 32 && |p| == |q| + 32 && p == Add(Times(q), Zero(|q|) + r)
  }

  ghost predicate IsRemainder(p: Poly, r: Poly) {
    exists q: Poly :: Divides(p, q, r)
  }

  /** The bits of a byte, lowest first. */
  function ByteBits(b: byte): (r: Poly)
    ensures |r| == 8
  {
    seq<bool>(8, i requires 0 <= i => BitOf(b, i))
  }

  /** A message: the bits of its bytes in order. */
  function Message(data: seq<byte>): (r: Poly)
    ensures |r| == 8 * |data|
  {
    if data == [] then [] else ByteBits(data[0]) + Message(data[1..])
  }

  /** Bit `i` of a register. */
  predicate BitAt(c: bv32, i: nat) {
    if i == 0 then LowBit(c) else BitAt(Half(c), i - 1)
  }

  /** The polynomial that a register holds: its lowest bit is the highest power. */
  function Register(c: bv32): (r: Poly)
    ensures |r| == 32
  {
    seq<bool>(32, i requires 0 <= i => BitAt(c, i))
  }

  /** The seed times x^n plus the message times x^32, `n` being the message's length. */
  function Dividend(seed: Poly, message: Poly): (r: Poly)
    requires |seed| == 32
    ensures |r| == |message| + 32
  {
    Add(seed + Zero(|message|), message + Zero(32))
  }

  // ----- a remainder is unique -----

  lemma {:induction false} QuotientUnique(p: Poly, q: Poly, r: Poly, q': Poly, r': Poly)
    requires Divides(p, q, r) && Divides(p, q', r')
    ensures q == q' && r == r'
    decreases |q|
  {
    if q == [] {
      forall i | 0 <= i < 32 ensures r[i] == r'[i] { assert p[i] == r[i] && p[i] == r'[i]; }
    } else {
      assert p[0] == q[0] && p[0] == q'[0];
      RestDivides(p, q, r);
      RestDivides(p, q', r');
      QuotientUnique(Rest(p), q[1..], r, q'[1..], r');
      assert q == [q[0]] + q[1..] && q' == [q'[0]] + q'[1..];
    }
  }

  /** One step of the long division: the generator is taken off when the highest term is there. */
  function Rest(p: Poly): (r: Poly)
    requires 33 <= |p|
    ensures |r| == |p| - 1
  {
    if p[0] then Add(p[1..], Generator() + Zero(|p| - 33)) else p[1..]
  }

  lemma RestDivides(p: Poly, q: Poly, r: Poly)
    requires Divides(p, q, r) && q != []
    ensures p[0] == q[0] && Divides(Rest(p), q[1..], r)
  {
    hide Times;
    TimesFirst(q);
    var t := Times(q[1..]);
    forall i | 0 <= i < |p| - 1 ensures Rest(p)[i] == Add(t, Zero(|q| - 1) + r)[i] {
      assert p[i + 1] == (Times(q)[i + 1] != (Zero(|q|) + r)[i + 1]);
    }
  }

  lemma TimesFirst(q: Poly)
    requires q != []
    ensures Times(q)[0] == q[0]
    ensures forall i :: 0 <= i < |q| + 31 ==>
              Times(q)[i + 1] == ((q[0] && i < 32 && Generator()[i]) != Times(q[1..])[i])
  {
    hide Generator, Copy, Add, Times;
    TimesIs(q);
    forall i | 0 <= i < |q| + 31
      ensures Times(q)[i + 1] == ((q[0] && i < 32 && Generator()[i]) != Times(q[1..])[i])
    {
      CopyAt(q[0], |q| - 1, i);
      SumAt(Copy(q[0], |q| - 1), Times(q[1..]), i);
    }
    CopyAt(q[0], |q| - 1, 0);
    SumAt(Copy(q[0], |q| - 1), Times(q[1..]), 0);
  }

  lemma TimesIs(q: Poly)
    requires q != []
    ensures |q[1..]| == |q| - 1 && |Times(q[1..])| == |q| + 31 && |Copy(q[0], |q| - 1)| == |q| + 32
    ensures Times(q) == Add(Copy(q[0], |q| - 1), [false] + Times(q[1..]))
  {
    hide Copy, Add;
  }

  lemma SumAt(first: Poly, rest: Poly, i: nat)
    requires |first| == |rest| + 1 && i < |rest|
    ensures Add(first, [false] + rest)[0] == first[0]
    ensures Add(first, [false] + rest)[i + 1] == (first[i + 1] != rest[i])
  {
  }

  lemma CopyAt(there: bool, n: nat, i: nat)
    requires i < n + 32
    ensures Copy(there, n)[0] == there
    ensures Copy(there, n)[i + 1] == (there && i < 32 && Generator()[i])
  {
    hide Generator;
  }

  /** A polynomial has one remainder. */
  lemma RemainderUnique(p: Poly, r: Poly, r': Poly)
    requires IsRemainder(p, r) && IsRemainder(p, r')
    ensures r == r'
  {
    var q :| Divides(p, q, r);
    var q' :| Divides(p, q', r');
    QuotientUnique(p, q, r, q', r');
  }

  // ----- bits of a register -----

  lemma {:induction false} BitOfXor(c: bv32, d: bv32, i: nat)
    ensures BitAt(Xor(c, d), i) == (BitAt(c, i) != BitAt(d, i))
    decreases i
  {
    LowOfXor(c, d);
    HalfOfXor(c, d);
    hide LowBit, Half, Xor;
    if 0 < i { BitOfXor(Half(c), Half(d), i - 1); }
  }

  lemma LowOfXor(c: bv32, d: bv32)
    ensures LowBit(Xor(c, d)) == (LowBit(c) != LowBit(d))
  {
  }

  lemma HalfOfXor(c: bv32, d: bv32)
    ensures Half(Xor(c, d)) == Xor(Half(c), Half(d))
  {
  }

  function Down8(c: bv32): bv32 {
    c >> 8
  }

  lemma Eighth(c: bv32)
    ensures Half(Half(Half(Half(Half(Half(Half(Half(c)))))))) == Down8(c)
  {
  }

  lemma {:induction false} BitsBehind(c: bv32, n: nat, i: nat)
    ensures BitAt(c, n + i) == BitAt(Iter(Half, c, n), i)
    decreases n
  {
    hide LowBit, Half;
    if 0 < n { BitsBehind(Half(c), n - 1, i); }
  }

  lemma BitZero(c: bv32)
    ensures BitAt(c, 0) == LowBit(c)
  {
  }

  /** The first eight bits, and those behind them. */
  lemma EightBits(c: bv32, i: nat)
    ensures BitAt(c, 0) == LowBit(c) && BitAt(c, 1) == LowBit(Half(c)) && BitAt(c, 2) == LowBit(Half(Half(c)))
    ensures BitAt(c, 3) == LowBit(Half(Half(Half(c)))) && BitAt(c, 4) == LowBit(Half(Half(Half(Half(c)))))
    ensures BitAt(c, 5) == LowBit(Half(Half(Half(Half(Half(c))))))
    ensures BitAt(c, 6) == LowBit(Half(Half(Half(Half(Half(Half(c)))))))
    ensures BitAt(c, 7) == LowBit(Half(Half(Half(Half(Half(Half(Half(c))))))))
    ensures BitAt(c, 8 + i) == BitAt(Down8(c), i)
  {
    Eighth(c);
    IterUnrolled(Half, c);
    forall k: nat | k < 8 ensures BitAt(c, k) == LowBit(Iter(Half, c, k)) {
      BitsBehind(c, k, 0);
      BitZero(Iter(Half, c, k));
    }
    BitsBehind(c, 8, i);
    hide BitAt, Half, LowBit, Down8, Iter;
  }

  lemma EightOf(v: nat)
    ensures BitOf(v, 0) == (v % 2 == 1) && BitOf(v, 1) == (v / 2 % 2 == 1)
    ensures BitOf(v, 2) == (v / 2 / 2 % 2 == 1) && BitOf(v, 3) == (v / 2 / 2 / 2 % 2 == 1)
    ensures BitOf(v, 4) == (v / 2 / 2 / 2 / 2 % 2 == 1) && BitOf(v, 5) == (v / 2 / 2 / 2 / 2 / 2 % 2 == 1)
    ensures BitOf(v, 6) == (v / 2 / 2 / 2 / 2 / 2 / 2 % 2 == 1)
    ensures BitOf(v, 7) == (v / 2 / 2 / 2 / 2 / 2 / 2 / 2 % 2 == 1)
  {
    NumberStepDown(v);
    NumberStepDown(v / 2);
    NumberStepDown(v / 2 / 2);
    NumberStepDown(v / 2 / 2 / 2);
    NumberStepDown(v / 2 / 2 / 2 / 2);
    NumberStepDown(v / 2 / 2 / 2 / 2 / 2);
    NumberStepDown(v / 2 / 2 / 2 / 2 / 2 / 2);
    NumberStepDown(v / 2 / 2 / 2 / 2 / 2 / 2 / 2);
    hide BitOf;
  }

  lemma TwoDown(v: nat, i: nat)
    ensures BitOf(v, 2 + i) == BitOf(v / 4, i)
  {
    NumberStepDown(v);
    NumberStepDown(v / 2);
    assert v / 2 / 2 == v / 4;
    hide BitOf;
    assert BitOf(v, (1 + i) + 1) == BitOf(v / 2, 1 + i);
  }

  lemma BehindOf(v: nat, i: nat)
    ensures BitOf(v, 8 + i) == BitOf(v / 256, i)
  {
    hide BitOf;
    TwoDown(v, 6 + i);
    TwoDown(v / 4, 4 + i);
    TwoDown(v / 16, 2 + i);
    TwoDown(v / 64, i);
  }

  lemma NumberStepDown(v: nat)
    ensures BitOf(v, 0) == (v % 2 == 1)
    ensures forall i: nat :: BitOf(v, i + 1) == BitOf(v / 2, i)
  {
  }

  /** The low byte of a register is the low byte of a number with its bits in reverse. */
  predicate Mirrors(c: bv32, v: nat) {
    && BitAt(c, 0) == BitOf(v, 7) && BitAt(c, 1) == BitOf(v, 6) && BitAt(c, 2) == BitOf(v, 5)
       && BitAt(c, 3) == BitOf(v, 4)
    && BitAt(c, 4) == BitOf(v, 3) && BitAt(c, 5) == BitOf(v, 2) && BitAt(c, 6) == BitOf(v, 1)
       && BitAt(c, 7) == BitOf(v, 0)
  }

  lemma MirrorAt(c: bv32, v: nat, i: nat)
    requires Mirrors(c, v) && i < 8
    ensures BitAt(c, i) == BitOf(v, 7 - i)
  {
    hide BitAt, BitOf;
  }

  lemma FirstByte()
    ensures Mirrors(POLY, 0x1E)
  {
    EightBits(POLY, 0);
    EightOf(0x1E);
    hide BitAt, BitOf;
  }

  lemma SecondByte()
    ensures Mirrors(Down8(POLY), 0x1EDC)
  {
    EightBits(Down8(POLY), 0);
    EightOf(0x1EDC);
    hide BitAt, BitOf;
  }

  lemma ThirdByte()
    ensures Mirrors(Down8(Down8(POLY)), 0x1E_DC6F)
  {
    EightBits(Down8(Down8(POLY)), 0);
    EightOf(0x1E_DC6F);
    hide BitAt, BitOf;
  }

  lemma FourthByte()
    ensures Mirrors(Down8(Down8(Down8(POLY))), 0x1EDC_6F41)
  {
    EightBits(Down8(Down8(Down8(POLY))), 0);
    EightOf(0x1EDC_6F41);
    hide BitAt, BitOf;
  }

  lemma FirstByteAt(k: nat)
    requires k < 8
    ensures BitAt(POLY, k) == BitOf(0x1EDC_6F41, 31 - k)
  {
    FirstByte();
    hide BitAt, BitOf, Mirrors, Down8;
    MirrorAt(POLY, 0x1E, k);
    BehindOf(0x1EDC_6F41, 23 - k);
    BehindOf(0x1E_DC6F, 15 - k);
    BehindOf(0x1EDC, 7 - k);
  }

  lemma SecondByteAt(k: nat)
    requires k < 8
    ensures BitAt(POLY, 8 + k) == BitOf(0x1EDC_6F41, 23 - k)
  {
    SecondByte();
    hide BitAt, BitOf, Mirrors, Down8;
    MirrorAt(Down8(POLY), 0x1EDC, k);
    EightBits(POLY, k);
    BehindOf(0x1EDC_6F41, 15 - k);
    BehindOf(0x1E_DC6F, 7 - k);
  }

  lemma ThirdByteAt(k: nat)
    requires k < 8
    ensures BitAt(POLY, 16 + k) == BitOf(0x1EDC_6F41, 15 - k)
  {
    ThirdByte();
    hide BitAt, BitOf, Mirrors, Down8;
    MirrorAt(Down8(Down8(POLY)), 0x1E_DC6F, k);
    EightBits(POLY, 8 + k);
    EightBits(Down8(POLY), k);
    BehindOf(0x1EDC_6F41, 7 - k);
  }

  lemma FourthByteAt(k: nat)
    requires k < 8
    ensures BitAt(POLY, 24 + k) == BitOf(0x1EDC_6F41, 7 - k)
  {
    FourthByte();
    hide BitAt, BitOf, Mirrors, Down8;
    MirrorAt(Down8(Down8(Down8(POLY))), 0x1EDC_6F41, k);
    EightBits(POLY, 16 + k);
    EightBits(Down8(POLY), 8 + k);
    EightBits(Down8(Down8(POLY)), k);
  }

  /** The polynomial of the register is the generator, its bits in reverse. */
  lemma PolyIsGenerator(i: nat)
    requires i < 32
    ensures BitAt(POLY, i) == BitOf(0x1EDC_6F41, 31 - i)
  {
    hide BitAt, BitOf;
    if i < 8 {
      FirstByteAt(i);
    } else if i < 16 {
      SecondByteAt(i - 8);
    } else if i < 24 {
      ThirdByteAt(i - 16);
    } else {
      FourthByteAt(i - 24);
    }
  }

  lemma ShiftedOut(c: bv32)
    ensures !BitAt(c, 32)
  {
    NothingLeft(c);
    EightBits(Down8(Down8(Down8(Down8(c)))), 0);
    hide BitAt, Down8, LowBit, Half;
    EightBits(c, 24);
    EightBits(Down8(c), 16);
    EightBits(Down8(Down8(c)), 8);
    EightBits(Down8(Down8(Down8(c))), 0);
  }

  lemma NothingLeft(c: bv32)
    ensures !LowBit(Down8(Down8(Down8(Down8(c)))))
  {
  }

  // ----- one bit of long division -----

  /** The register after a step: moved by one place, less the generator when its highest term was there. */
  lemma StepDivides(c: bv32, i: nat)
    requires i < 32
    ensures Register(BitStep(c))[i] == ((i < 31 && Register(c)[i + 1]) != (Register(c)[0] && Generator()[i]))
  {
    PolyIsGenerator(i);
    BitsBehind(c, 1, i);
    BitZero(c);
    ShiftedOut(c);
    BitOfXor(Half(c), POLY, i);
    hide Half, LowBit, Xor, BitAt, BitOf;
  }

  lemma DividendTerms(seed: Poly, m: Poly)
    requires |seed| == 32
    ensures forall i :: 0 <= i < |m| + 32 ==> Dividend(seed, m)[i] == ((i < 32 && seed[i]) != (i < |m| && m[i]))
  {
  }

  /** Division, term by term. */
  lemma DividesTerms(p: Poly, q: Poly, r: Poly)
    requires |r| == 32 && |p| == |q| + 32
    ensures Divides(p, q, r) <==> forall i :: 0 <= i < |p| ==> p[i] == (Times(q)[i] != (|q| <= i && r[i - |q|]))
  {
    hide Times;
    var sum := Add(Times(q), Zero(|q|) + r);
    assert forall i :: 0 <= i < |p| ==> sum[i] == (Times(q)[i] != (|q| <= i && r[i - |q|]));
  }

  /** A zero bit of the message is one step. */
  lemma ZeroIn(c: bv32, m: Poly, q: Poly, r: Poly)
    requires Divides(Dividend(Register(BitStep(c)), m), q, r)
    ensures Divides(Dividend(Register(c), [false] + m), [Register(c)[0]] + q, r)
  {
    var p := Dividend(Register(c), [false] + m);
    var q' := [Register(c)[0]] + q;
    hide Register, BitStep, Generator, Times, LowBit, Half, BitAt, Divides, Dividend;
    forall i | 0 <= i < |p| ensures p[i] == (Times(q')[i] != (|q'| <= i && r[i - |q'|])) {
      DividendTerms(Register(c), [false] + m);
      TimesFirst(q');
      if 0 < i { TermIn(c, m, q, r, i); }
    }
    DividesTerms(p, q', r);
  }

  // The same at one place.

  lemma DividendAt(seed: Poly, m: Poly, i: nat)
    requires |seed| == 32 && i < |m| + 32
    ensures |Dividend(seed, m)| == |m| + 32
    ensures Dividend(seed, m)[i] == ((i < 32 && seed[i]) != (i < |m| && m[i]))
  {
    hide Dividend;
    DividendTerms(seed, m);
  }

  lemma DividesAt(p: Poly, q: Poly, r: Poly, i: nat)
    requires Divides(p, q, r) && i < |p|
    ensures |r| == 32 && |p| == |q| + 32 && p[i] == (Times(q)[i] != (|q| <= i && r[i - |q|]))
  {
    DividesTerms(p, q, r);
  }

  lemma TimesAt(first: bool, q: Poly, i: nat)
    requires i < |q| + 32
    ensures Times([first] + q)[i + 1] == ((first && i < 32 && Generator()[i]) != Times(q)[i])
  {
    var q' := [first] + q;
    assert q'[1..] == q;
    hide Times, Generator;
    TimesFirst(q');
  }

  lemma TermIn(c: bv32, m: Poly, q: Poly, r: Poly, i: nat)
    requires Divides(Dividend(Register(BitStep(c)), m), q, r) && 0 < i < |m| + 33
    ensures var q' := [Register(c)[0]] + q;
            Dividend(Register(c), [false] + m)[i] == (Times(q')[i] != (|q'| <= i && r[i - |q'|]))
  {
    hide *;
    DividendAt(Register(c), [false] + m, i);
    DividendAt(Register(BitStep(c)), m, i - 1);
    DividesAt(Dividend(Register(BitStep(c)), m), q, r, i - 1);
    TimesAt(Register(c)[0], q, i - 1);
    if i <= 32 { StepDivides(c, i - 1); }
    assert i - 1 < |m| ==> ([false] + m)[i] == m[i - 1];
  }

  // ----- the whole division -----

  lemma {:induction false} ZerosIn(c: bv32, n: nat, m: Poly, r: Poly)
    requires IsRemainder(Dividend(Register(Iter(BitStep, c, n)), m), r)
    ensures IsRemainder(Dividend(Register(c), Zero(n) + m), r)
    decreases n
  {
    hide Register, BitStep, Dividend, Divides;
    if n == 0 {
      assert Zero(0) + m == m;
    } else {
      ZerosIn(BitStep(c), n - 1, m, r);
      var q :| Divides(Dividend(Register(BitStep(c)), Zero(n - 1) + m), q, r);
      ZeroIn(c, Zero(n - 1) + m, q, r);
      assert [false] + (Zero(n - 1) + m) == Zero(n) + m;
    }
  }

  // Decided sixteen values at a time.
  lemma WidenedFirst(b: byte)
    requires 0x00 <= b < 0x40
    ensures LowBit(Widen(b)) == (b % 2 == 1) && Half(Widen(b)) == Widen(b / 2)
  {
    if b < 0x20 { if b < 0x10 {} else {} } else if b < 0x30 {} else {}
  }

  lemma WidenedSecond(b: byte)
    requires 0x40 <= b < 0x80
    ensures LowBit(Widen(b)) == (b % 2 == 1) && Half(Widen(b)) == Widen(b / 2)
  {
    if b < 0x60 { if b < 0x50 {} else {} } else if b < 0x70 {} else {}
  }

  lemma WidenedThird(b: byte)
    requires 0x80 <= b < 0xC0
    ensures LowBit(Widen(b)) == (b % 2 == 1) && Half(Widen(b)) == Widen(b / 2)
  {
    if b < 0xA0 { if b < 0x90 {} else {} } else if b < 0xB0 {} else {}
  }

  lemma WidenedFourth(b: byte)
    requires 0xC0 <= b < 0x100
    ensures LowBit(Widen(b)) == (b % 2 == 1) && Half(Widen(b)) == Widen(b / 2)
  {
    if b < 0xE0 { if b < 0xD0 {} else {} } else if b < 0xF0 {} else {}
  }

  lemma WidenedBit(b: byte)
    ensures LowBit(Widen(b)) == (b % 2 == 1) && Half(Widen(b)) == Widen(b / 2)
  {
    hide *;
    if b < 0x40 {
      WidenedFirst(b);
    } else if b < 0x80 {
      WidenedSecond(b);
    } else if b < 0xC0 {
      WidenedThird(b);
    } else {
      WidenedFourth(b);
    }
  }

  lemma {:induction false} WidenedBits(b: byte, i: nat)
    ensures BitAt(Widen(b), i) == BitOf(b, i)
    decreases i
  {
    WidenedBit(b);
    hide LowBit, Half, Widen;
    if 0 < i { WidenedBits(b / 2, i - 1); }
  }

  lemma {:induction false} SmallBits(b: nat, n: nat, i: nat)
    requires b < Pow2(n) && n <= i
    ensures !BitOf(b, i)
    decreases i
  {
    if 0 < i { SmallBits(b / 2, if n == 0 then 0 else n - 1, i - 1); }
  }

  function Pow2(n: nat): nat {
    if n == 0 then 1 else 2 * Pow2(n - 1)
  }

  /** A byte of the message is added to the register before its eight steps. */
  lemma ByteInRegister(c: bv32, b: byte, i: nat)
    requires i < 32
    ensures Register(Xor(c, Widen(b)))[i] == (Register(c)[i] != (i < 8 && BitOf(b, i)))
  {
    BitOfXor(c, Widen(b), i);
    WidenedBits(b, i);
    if 8 <= i { SmallBits(b, 8, i); }
    hide Xor, Widen, BitOf, BitAt;
  }

  lemma ByteIn(c: bv32, b: byte, m: Poly)
    ensures Dividend(Register(c), ByteBits(b) + m) == Dividend(Register(Xor(c, Widen(b))), Zero(8) + m)
  {
    hide Register, Xor, Widen, BitOf, Dividend;
    var p, p' := Dividend(Register(c), ByteBits(b) + m), Dividend(Register(Xor(c, Widen(b))), Zero(8) + m);
    forall i | 0 <= i < |m| + 40 ensures |p| == |p'| == |m| + 40 && p[i] == p'[i] {
      DividendAt(Register(c), ByteBits(b) + m, i);
      DividendAt(Register(Xor(c, Widen(b))), Zero(8) + m, i);
      if i < 32 { ByteInRegister(c, b, i); }
    }
    assert p == p';
  }

  /** The CRC of a message is the remainder of its division by the generator, the seed being added at the front. */
  lemma {:induction false} CrcIsRemainder(seed: bv32, data: seq<byte>)
    ensures IsRemainder(Dividend(Register(seed), Message(data)), Register(Crc(seed, data)))
    decreases data
  {
    hide Register, BitStep, Dividend, Times, Xor, Widen, ByteBits;
    if data == [] {
      NothingIn(Register(seed));
    } else {
      var c := Xor(seed, Widen(data[0]));
      CrcIsRemainder(Step8(c), data[1..]);
      ZerosIn(c, 8, Message(data[1..]), Register(Crc(seed, data)));
      ByteIn(seed, data[0], Message(data[1..]));
    }
  }

  lemma NothingIn(r: Poly)
    requires |r| == 32
    ensures IsRemainder(Dividend(r, []), r)
  {
    forall i | 0 <= i < 32 ensures Dividend(r, [])[i] == Add(Times([]), Zero(0) + r)[i] {}
    assert Divides(Dividend(r, []), [], r);
  }
}
