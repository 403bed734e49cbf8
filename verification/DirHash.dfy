/**
  The half-MD4 directory hash (`src/dirhash.rs`), proved equal to the register form of
  RFC 1320 and to the packing loops of `tools/check_vectors.py` and of the kernel.
*/
module DirHash {
  import opened Bytes
  import opened Crc32c

  datatype Signedness = Signed | Unsigned

  // ----- the transform -----

  /** The four chaining registers. */
  datatype State = State(a: bv32, b: bv32, c: bv32, d: bv32)

  function F(x: bv32, y: bv32, z: bv32): bv32 { z ^ (x & (y ^ z)) }
  function G(x: bv32, y: bv32, z: bv32): bv32 { (x & y) + ((x ^ y) & z) }
  function H(x: bv32, y: bv32, z: bv32): bv32 { x ^ y ^ z }

  lemma AddDisjoint(p: bv32, q: bv32)
    requires p & q == 0
    ensures p + q == p | q
  {
  }

  lemma MajorityBits(x: bv32, y: bv32, z: bv32, p: bv32, q: bv32)
    requires p == x & y && q == (x ^ y) & z
    ensures p & q == 0 && p | q == (x & y) | (x & z) | (y & z)
  {
  }

  /** `F` as section 3.4 of RFC 1320 writes it. */
  lemma FChooses(x: bv32, y: bv32, z: bv32)
    ensures F(x, y, z) == (x & y) | (!x & z)
  {
  }

  lemma SumIsMajority(x: bv32, y: bv32, z: bv32, p: bv32, q: bv32)
    requires p == x & y && q == (x ^ y) & z
    ensures p + q == (x & y) | (x & z) | (y & z)
  {
    MajorityBits(x, y, z, p, q);
    AddDisjoint(p, q);
  }

  /** `G` as section 3.4 of RFC 1320 writes it: the sum never carries. */
  lemma GIsMajority(x: bv32, y: bv32, z: bv32)
    ensures G(x, y, z) == (x & y) | (x & z) | (y & z)
  {
    SumIsMajority(x, y, z, x & y, (x ^ y) & z);
  }

  datatype Aux = UseF | UseG | UseH

  function Apply(f: Aux, x: bv32, y: bv32, z: bv32): bv32 {
    match f
    case UseF => F(x, y, z)
    case UseG => G(x, y, z)
    case UseH => H(x, y, z)
  }

  function Rotated(x: bv32, s: nat): bv32
    requires 0 < s < 32
  {
    (x << s) | (x >> (32 - s))
  }

  /** Addition wraps at 32 bits. */
  function Sum(x: bv32, y: bv32): bv32 { x + y }

  /** `(w + f(x, y, z) + m + k) <<< s`. */
  function Mix(f: Aux, k: bv32, w: bv32, x: bv32, y: bv32, z: bv32, m: bv32, s: nat): bv32
    requires 0 < s < 32
  {
    Rotated(Sum(Sum(Sum(w, Apply(f, x, y, z)), m), k), s)
  }

  /** Which message word a step takes, and how far it rotates. */
  datatype Slot = Slot(word: nat, shift: nat)

  predicate IsSchedule(sched: seq<Slot>) {
    |sched| == 8 && forall i :: 0 <= i < 8 ==> sched[i].word < 8 && 0 < sched[i].shift < 32
  }

  type Schedule = s: seq<Slot> | IsSchedule(s)
    witness [Slot(0, 1), Slot(0, 1), Slot(0, 1), Slot(0, 1), Slot(0, 1), Slot(0, 1), Slot(0, 1), Slot(0, 1)]

  /** The eight message words of one chunk. */
  type Words = w: seq<bv32> | |w| == 8 witness [0, 0, 0, 0, 0, 0, 0, 0]

  const K2: bv32 := 0x5A82_7999
  const K3: bv32 := 0x6ED9_EBA1
  const R1: Schedule := [
    Slot(0, 3), Slot(1, 7), Slot(2, 11), Slot(3, 19),
    Slot(4, 3), Slot(5, 7), Slot(6, 11), Slot(7, 19)]
  const R2: Schedule := [
    Slot(1, 3), Slot(3, 5), Slot(5, 9), Slot(7, 13),
    Slot(0, 3), Slot(2, 5), Slot(4, 9), Slot(6, 13)]
  const R3: Schedule := [
    Slot(3, 3), Slot(7, 9), Slot(2, 11), Slot(6, 15),
    Slot(1, 3), Slot(5, 9), Slot(0, 11), Slot(4, 15)]

  /** Step `i` of a round in RFC 1320's register names: `[ABCD] [DABC] [CDAB] [BCDA]`, twice. */
  function Step(f: Aux, k: bv32, v: State, inp: Words, slot: Slot, i: nat): State
    requires slot.word < 8 && 0 < slot.shift < 32
  {
    var m := inp[slot.word];
    match i % 4
    case 0 => v.(a := Mix(f, k, v.a, v.b, v.c, v.d, m, slot.shift))
    case 1 => v.(d := Mix(f, k, v.d, v.a, v.b, v.c, m, slot.shift))
    case 2 => v.(c := Mix(f, k, v.c, v.d, v.a, v.b, m, slot.shift))
    case _ => v.(b := Mix(f, k, v.b, v.c, v.d, v.a, m, slot.shift))
  }

  function Steps(f: Aux, k: bv32, v: State, inp: Words, sched: Schedule, n: nat): State
    requires n <= 8
  {
    if n == 0 then v else Step(f, k, Steps(f, k, v, inp, sched, n - 1), inp, sched[n - 1], n - 1)
  }

  function Transformed(s: State, inp: Words): State {
    var v := Steps(UseF, 0, s, inp, R1, 8);
    var v := Steps(UseG, K2, v, inp, R2, 8);
    var v := Steps(UseH, K3, v, inp, R3, 8);
    Plus(s, v)
  }

  /** The feed-forward: registers added word by word. */
  function Plus(s: State, v: State): State {
    State(Sum(s.a, v.a), Sum(s.b, v.b), Sum(s.c, v.c), Sum(s.d, v.d))
  }

  function StateOf(v: seq<bv32>): State
    requires |v| == 4
  {
    State(v[0], v[1], v[2], v[3])
  }

  function Written(f: Aux, k: bv32, v: seq<bv32>, m: bv32, shift: nat, t: nat): bv32
    requires |v| == 4 && t < 4 && 0 < shift < 32
  {
    Mix(f, k, v[t], v[(t + 1) % 4], v[(t + 2) % 4], v[(t + 3) % 4], m, shift)
  }

  /** The index arithmetic of the loop is the register naming of the standard. */
  lemma IndexIsRegister(f: Aux, k: bv32, v: seq<bv32>, inp: Words, slot: Slot, i: nat, t: nat)
    requires |v| == 4 && slot.word < 8 && 0 < slot.shift < 32 && t == [0, 3, 2, 1][i % 4]
    ensures StateOf(v[t := Written(f, k, v, inp[slot.word], slot.shift, t)]) == Step(f, k, StateOf(v), inp, slot, i)
  {
    hide Mix;
    if i % 4 == 0 {
    } else if i % 4 == 1 {
    } else if i % 4 == 2 {
    } else {
    }
  }

  /** One round over the register array; the register written cycles a, d, c, b. */
  method Round(f: Aux, k: bv32, v: array<bv32>, inp: Words, sched: Schedule)
    requires v.Length == 4
    modifies v
    ensures StateOf(v[..]) == Steps(f, k, StateOf(old(v[..])), inp, sched, 8)
  {
    hide Mix, Step, StateOf, Written;
    for i := 0 to 8
      invariant StateOf(v[..]) == Steps(f, k, StateOf(old(v[..])), inp, sched, i)
    {
      var t := [0, 3, 2, 1][i % 4];
      ghost var before := v[..];
      IndexIsRegister(f, k, before, inp, sched[i], i, t);
      WrittenIsMix(f, k, before, inp[sched[i].word], sched[i].shift, t);
      v[t] := Mix(f, k, v[t], v[(t + 1) % 4], v[(t + 2) % 4], v[(t + 3) % 4], inp[sched[i].word], sched[i].shift);
      assert v[..] == before[t := v[t]];
    }
  }

  lemma WrittenIsMix(f: Aux, k: bv32, v: seq<bv32>, m: bv32, shift: nat, t: nat)
    requires |v| == 4 && t < 4 && 0 < shift < 32
    ensures Written(f, k, v, m, shift, t) == Mix(f, k, v[t], v[(t + 1) % 4], v[(t + 2) % 4], v[(t + 3) % 4], m, shift)
  {
  }

  method AddInto(buf: array<bv32>, v: array<bv32>)
    requires buf.Length == 4 && v.Length == 4 && buf != v
    modifies buf
    ensures StateOf(buf[..]) == Plus(StateOf(old(buf[..])), StateOf(v[..]))
  {
    hide Sum;
    for i := 0 to 4
      invariant forall j :: 0 <= j < i ==> buf[j] == Sum(old(buf[j]), v[j])
      invariant forall j :: i <= j < 4 ==> buf[j] == old(buf[j])
    {
      buf[i] := Sum(buf[i], v[i]);
    }
  }

  method HalfMd4Transform(buf: array<bv32>, inp: Words)
    requires buf.Length == 4
    modifies buf
    ensures StateOf(buf[..]) == Transformed(StateOf(old(buf[..])), inp)
  {
    hide Steps, Step, StateOf, Plus;
    var v := new bv32[] [buf[0], buf[1], buf[2], buf[3]];
    assert v[..] == buf[..];
    Round(UseF, 0, v, inp, R1);
    Round(UseG, K2, v, inp, R2);
    Round(UseH, K3, v, inp, R3);
    AddInto(buf, v);
  }

  // ----- packing name bytes into words -----

  function Extended(s: Signedness, b: byte): bv32 {
    if s.Signed? && 0x80 <= b then Widen(b) | 0xFFFF_FF00 else Widen(b)
  }

  /** A byte shifted in at the bottom. */
  function Push(val: bv32, c: bv32): bv32 {
    Sum(c, Up8(val))
  }

  function Pack(val: bv32, s: Signedness, bytes: seq<byte>): bv32 {
    if bytes == [] then val else Push(Pack(val, s, bytes[..|bytes| - 1]), Extended(s, bytes[|bytes| - 1]))
  }

  /** The padding pattern of a length: its low byte four times, for lengths below 256. */
  function Pad(len: nat): bv32 {
    var l := (len % 0x1_0000_0000) as bv32;
    var pad := l | (l << 8);
    pad | (pad << 16)
  }

  /** Word `i`: its up to four message bytes shifted into the pad. */
  function HashWord(msg: seq<byte>, pad: bv32, s: Signedness, i: nat): bv32 {
    Pack(pad, s, msg[Min(4 * i, |msg|)..Min(4 * i + 4, |msg|)])
  }

  function HashWords(msg: seq<byte>, pad: bv32, s: Signedness): Words {
    seq<bv32>(8, i requires 0 <= i => HashWord(msg, pad, s, i))
  }

  lemma PackSnoc(msg: seq<byte>, pad: bv32, s: Signedness, lo: nat, i: nat)
    requires lo <= i < |msg|
    ensures Pack(pad, s, msg[lo..i + 1]) == Push(Pack(pad, s, msg[lo..i]), Extended(s, msg[i]))
  {
    assert msg[lo..i + 1][..i - lo] == msg[lo..i];
  }

  lemma WordAt(msg: seq<byte>, pad: bv32, s: Signedness, i: nat)
    ensures 4 * i + 4 <= |msg| ==> HashWord(msg, pad, s, i) == Pack(pad, s, msg[4 * i..4 * i + 4])
    ensures 4 * i <= |msg| <= 4 * i + 4 ==> HashWord(msg, pad, s, i) == Pack(pad, s, msg[4 * i..])
    ensures |msg| <= 4 * i ==> HashWord(msg, pad, s, i) == pad
  {
    if |msg| <= 4 * i { assert msg[Min(4 * i, |msg|)..Min(4 * i + 4, |msg|)] == []; }
    if 4 * i <= |msg| <= 4 * i + 4 { assert msg[4 * i..Min(4 * i + 4, |msg|)] == msg[4 * i..]; }
  }

  /** `str2hashbuf`: an index selects the word being written. */
  method Str2HashBuf(msg: seq<byte>, s: Signedness) returns (out: Words)
    ensures out == HashWords(if |msg| <= 32 then msg else msg[..32], Pad(|msg|), s)
  {
    hide Push, Extended, Pad, Pack, HashWord;
    var pad := Pad(|msg|);
    var m := if |msg| <= 32 then msg else msg[..32];
    var words := new bv32[8](_ => 0);
    var val, widx := pad, 0;
    EmptyPack(pad, s);
    for i := 0 to |m|
      invariant widx == i / 4 && val == Pack(pad, s, m[4 * widx..i])
      invariant forall j :: 0 <= j < widx ==> words[j] == HashWord(m, pad, s, j)
    {
      PackSnoc(m, pad, s, 4 * widx, i);
      WordAt(m, pad, s, widx);
      val := Push(val, Extended(s, m[i]));
      if i % 4 == 3 {
        words[widx] := val;
        widx := widx + 1;
        val := pad;
        assert m[4 * widx..i + 1] == [];
      }
    }
    if widx < 8 {
      WordAt(m, pad, s, widx);
      assert m[4 * widx..|m|] == m[4 * widx..];
      words[widx] := val;
      widx := widx + 1;
    }
    while widx < 8
      invariant widx <= 8 && (widx < 8 ==> |m| <= 4 * widx)
      invariant forall j :: 0 <= j < widx ==> words[j] == HashWord(m, pad, s, j)
    {
      WordAt(m, pad, s, widx);
      words[widx] := pad;
      widx := widx + 1;
    }
    out := words[..];
  }

  lemma EmptyPack(pad: bv32, s: Signedness)
    ensures Pack(pad, s, []) == pad
  {
  }

  /** `msg[i] - 256 if msg[i] >= 128 else msg[i]`, modulo 2^32. */
  function AsSignedChar(b: byte): bv32 {
    if 0x80 <= b then Widen(b) - 0x100 else Widen(b)
  }

  lemma SignedCharIsExtended(b: byte)
    ensures AsSignedChar(b) == Extended(Signed, b)
  {
  }

  /** The reference packing counts the remaining words down and appends to a list. */
  method PackByCountdown(msg: seq<byte>) returns (out: Words)
    ensures out == HashWords(if |msg| <= 32 then msg else msg[..32], Pad(|msg|), Signed)
  {
    hide Push, Extended, Pad, Pack, HashWord, AsSignedChar;
    var pad := Pad(|msg|);
    var m := if |msg| <= 32 then msg else msg[..32];
    var words: seq<bv32> := [];
    var val, num := pad, 8;
    EmptyPack(pad, Signed);
    for i := 0 to |m|
      invariant |words| == i / 4 && num == 8 - |words| && val == Pack(pad, Signed, m[4 * |words|..i])
      invariant forall j :: 0 <= j < |words| ==> words[j] == HashWord(m, pad, Signed, j)
    {
      PackSnoc(m, pad, Signed, 4 * |words|, i);
      WordAt(m, pad, Signed, |words|);
      SignedCharIsExtended(m[i]);
      val := Push(val, AsSignedChar(m[i]));
      if i % 4 == 3 {
        words := words + [val];
        val := pad;
        num := num - 1;
        assert m[4 * |words|..i + 1] == [];
      }
    }
    num := num - 1;
    if 0 <= num {
      WordAt(m, pad, Signed, |words|);
      assert m[4 * |words|..|m|] == m[4 * |words|..];
      words := words + [val];
      num := num - 1;
    }
    while 0 <= num
      invariant -1 <= num == 7 - |words|
      invariant 0 <= num ==> |m| <= 4 * |words|
      invariant forall j :: 0 <= j < |words| ==> words[j] == HashWord(m, pad, Signed, j)
    {
      WordAt(m, pad, Signed, |words|);
      words := words + [pad];
      num := num - 1;
    }
    out := words;
  }

  // ----- the hash of a name -----

  type HashSeed = s: seq<bv32> | |s| == 4 witness [0, 0, 0, 0]

  /** An all-zero seed means the MD4 initial state. */
  function Initial(seed: HashSeed): State {
    if seed == [0, 0, 0, 0] then State(0x6745_2301, 0xEFCD_AB89, 0x98BA_DCFE, 0x1032_5476) else StateOf(seed)
  }

  /** 32-byte chunks, each padded by its own length; an empty name still gets one transform. */
  function HashState(st: State, s: Signedness, name: seq<byte>): State
    decreases |name|
  {
    if |name| <= 32 then Transformed(st, HashWords(name, Pad(|name|), s))
    else HashState(Transformed(st, HashWords(name[..32], Pad(32), s)), s, name[32..])
  }

  /** The kernel's loop: each chunk is padded by how much of the name remains. */
  function KernelState(st: State, s: Signedness, name: seq<byte>): State
    decreases |name|
  {
    if name == [] then st
    else
      var n := Min(|name|, 32);
      KernelState(Transformed(st, HashWords(name[..n], Pad(|name|), s)), s, name[n..])
  }

  // Shifting distributes over addition. Each lemma unfolds only one side, which keeps adders out of the goal.

  function ShiftedSum(a: bv32, b: bv32): bv32 {
    (a + b) << 8
  }

  lemma ShiftAfter(a: bv32, b: bv32, s: bv32)
    requires s == a + b
    ensures Up8(s) == ShiftedSum(a, b)
  {
  }

  lemma ShiftBefore(a: bv32, b: bv32)
    ensures (a << 8) + (b << 8) == ShiftedSum(a, b)
  {
  }

  lemma SameTerms(a: bv32, b: bv32, x: bv32, y: bv32)
    requires x == a << 8 && y == b << 8
    ensures x + y == (a << 8) + (b << 8)
  {
  }

  lemma SumOfShifts(a: bv32, b: bv32)
    ensures Up8(a) + Up8(b) == ShiftedSum(a, b)
  {
    hide ShiftedSum;
    ShiftBefore(a, b);
    SameTerms(a, b, Up8(a), Up8(b));
  }

  lemma SumAfterShift(a: bv32, b: bv32)
    ensures Sum(Up8(a), Up8(b)) == ShiftedSum(a, b)
  {
    hide Up8, ShiftedSum;
    SumOfShifts(a, b);
  }

  lemma Up8OfSum(a: bv32, b: bv32)
    ensures Up8(Sum(a, b)) == Sum(Up8(a), Up8(b))
  {
    ShiftAfter(a, b, Sum(a, b));
    hide Up8, Sum, ShiftedSum;
    SumAfterShift(a, b);
  }

  lemma Up8Out(p: bv32)
    ensures Up8(Up8(Up8(Up8(p)))) == 0
  {
  }

  /** Each push moves the start value eight bits up, so after four nothing of it is left. */
  lemma FourPushes(p: bv32, c0: bv32, c1: bv32, c2: bv32, c3: bv32)
    ensures Push(Push(Push(Push(p, c0), c1), c2), c3) ==
            Sum(c3, Sum(Up8(c2), Sum(Up8(Up8(c1)), Sum(Up8(Up8(Up8(c0))), 0))))
  {
    hide Sum, Up8;
    Up8OfSum(c0, Up8(p));
    Up8OfSum(c1, Sum(Up8(c0), Up8(Up8(p))));
    Up8OfSum(Up8(c0), Up8(Up8(p)));
    Up8OfSum(c2, Sum(Up8(c1), Sum(Up8(Up8(c0)), Up8(Up8(Up8(p))))));
    Up8OfSum(Up8(c1), Sum(Up8(Up8(c0)), Up8(Up8(Up8(p)))));
    Up8OfSum(Up8(Up8(c0)), Up8(Up8(Up8(p))));
    Up8Out(p);
  }

  /** Four bytes shift the pad out of a word. */
  lemma FullWordForgetsPad(p: bv32, q: bv32, s: Signedness, w: seq<byte>)
    requires |w| == 4
    ensures Pack(p, s, w) == Pack(q, s, w)
  {
    hide Push, Extended, Pack;
    FourPushes(p, Extended(s, w[0]), Extended(s, w[1]), Extended(s, w[2]), Extended(s, w[3]));
    FourPushes(q, Extended(s, w[0]), Extended(s, w[1]), Extended(s, w[2]), Extended(s, w[3]));
    PackFour(p, s, w);
    PackFour(q, s, w);
  }

  lemma PackFour(p: bv32, s: Signedness, w: seq<byte>)
    requires |w| == 4
    ensures Pack(p, s, w) == Push(Push(Push(Push(p, Extended(s, w[0])), Extended(s, w[1])), Extended(s, w[2])),
            Extended(s, w[3]))
  {
    hide Push, Extended;
    assert w[..3][..2] == w[..2] && w[..2][..1] == w[..1] && w[..1][..0] == [];
    assert Pack(p, s, w[..1]) == Push(p, Extended(s, w[0]));
    assert Pack(p, s, w[..2]) == Push(Pack(p, s, w[..1]), Extended(s, w[1]));
    assert Pack(p, s, w[..3]) == Push(Pack(p, s, w[..2]), Extended(s, w[2]));
  }

  lemma FullChunkForgetsPad(p: bv32, q: bv32, s: Signedness, msg: seq<byte>)
    requires |msg| == 32
    ensures HashWords(msg, p, s) == HashWords(msg, q, s)
  {
    hide Pack, Push, HashWord;
    forall i | 0 <= i < 8 ensures HashWord(msg, p, s, i) == HashWord(msg, q, s, i) {
      WordAt(msg, p, s, i);
      WordAt(msg, q, s, i);
      FullWordForgetsPad(p, q, s, msg[4 * i..4 * i + 4]);
    }
  }

  /** On every non-empty name, padding by chunk length and by remaining length hash alike. */
  lemma {:induction false} ChunkPadIsKernelPad(st: State, s: Signedness, name: seq<byte>)
    requires name != []
    ensures HashState(st, s, name) == KernelState(st, s, name)
    decreases |name|
  {
    hide Transformed, HashWords, Pad;
    if |name| <= 32 {
      assert name[..|name|] == name && name[|name|..] == [];
    } else {
      FullChunkForgetsPad(Pad(32), Pad(|name|), s, name[..32]);
      ChunkPadIsKernelPad(Transformed(st, HashWords(name[..32], Pad(32), s)), s, name[32..]);
    }
  }

  const ZERO_WORDS: Words := [0, 0, 0, 0, 0, 0, 0, 0]

  lemma EmptyNamePacksZeros(s: Signedness)
    ensures HashWords([], Pad(0), s) == ZERO_WORDS
  {
    assert Pad(0) == 0;
    hide Pad;
    forall i | 0 <= i < 8 ensures HashWord([], 0, s, i) == 0 {}
  }

  /** The empty name is where they part, unless one transform of zero words happens to change nothing. */
  lemma PaddingsAgreeExactly(st: State, s: Signedness, name: seq<byte>)
    ensures HashState(st, s, name) == KernelState(st, s, name) <==> name != [] || Transformed(st, ZERO_WORDS) == st
  {
    hide Transformed, HashWords, Pad;
    if name == [] {
      EmptyNamePacksZeros(s);
    } else {
      ChunkPadIsKernelPad(st, s, name);
    }
  }

  predicate Ascii(name: seq<byte>) {
    forall i :: 0 <= i < |name| ==> name[i] < 0x80
  }

  lemma {:induction false} AsciiPack(val: bv32, w: seq<byte>)
    requires Ascii(w)
    ensures Pack(val, Signed, w) == Pack(val, Unsigned, w)
    decreases |w|
  {
    hide Push;
    if w != [] { AsciiPack(val, w[..|w| - 1]); }
  }

  lemma AsciiSlice(name: seq<byte>, lo: nat, hi: nat)
    requires Ascii(name) && lo <= hi <= |name|
    ensures Ascii(name[lo..hi])
  {
  }

  /** On all-ASCII names the signed and unsigned flavours agree. */
  lemma {:induction false} AsciiFlavoursAgree(st: State, name: seq<byte>)
    requires Ascii(name)
    ensures HashState(st, Signed, name) == HashState(st, Unsigned, name)
    decreases |name|
  {
    hide Transformed, Pad, Pack;
    var chunk := if |name| <= 32 then name else name[..32];
    var pad := Pad(|chunk|);
    forall i | 0 <= i < 8 ensures HashWord(chunk, pad, Signed, i) == HashWord(chunk, pad, Unsigned, i) {
      var lo, hi := Min(4 * i, |chunk|), Min(4 * i + 4, |chunk|);
      AsciiSlice(chunk, lo, hi);
      AsciiPack(pad, chunk[lo..hi]);
    }
    assert HashWords(chunk, pad, Signed) == HashWords(chunk, pad, Unsigned);
    if 32 < |name| {
      AsciiFlavoursAgree(Transformed(st, HashWords(chunk, pad, Signed)), name[32..]);
    }
  }

  /** The major hash, its low bit cleared for the collision flag, and the minor hash. */
  method HalfMd4(seed: HashSeed, s: Signedness, name: seq<byte>) returns (hash: bv32, minor: bv32)
    ensures var st := HashState(Initial(seed), s, name); hash == st.b & 0xFFFF_FFFE && minor == st.c
  {
    hide Transformed, HashWords, Pad;
    var init := Initial(seed);
    var buf := new bv32[] [init.a, init.b, init.c, init.d];
    var rest := name;
    while 32 < |rest|
      invariant HashState(StateOf(buf[..]), s, rest) == HashState(init, s, name)
    {
      var words := Str2HashBuf(rest[..32], s);
      HalfMd4Transform(buf, words);
      rest := rest[32..];
    }
    var words := Str2HashBuf(rest, s);
    HalfMd4Transform(buf, words);
    return buf[1] & 0xFFFF_FFFE, buf[2];
  }

  lemma ClearedIsEven(x: bv32)
    ensures (x & 0xFFFF_FFFE) as int % 2 == 0
  {
  }

  /** A hash as the 32-bit number that index entries are compared with; its low bit is their collision flag. */
  function LowBitCleared(x: bv32): (r: u32)
    ensures r % 2 == 0
  {
    ClearedIsEven(x);
    (x & 0xFFFF_FFFE) as int
  }

  function NameHash(seed: HashSeed, s: Signedness, name: seq<byte>): (r: u32)
    ensures r % 2 == 0
  {
    LowBitCleared(HashState(Initial(seed), s, name).b)
  }
}
