/**
  What pins the directory hash down: the transform step by step with the numbers of RFC 1320, and
  names whose hashes are known (`src/dirhash.rs` and its tests).
*/
module HashVectors {
  import opened Bytes
  import opened Crc32c
  import opened DirHash

  // ----- the 24 steps, written out -----

  function Left(x: bv32, s: nat): bv32
    requires 0 < s < 32
  {
    (x << s) | (x >> (32 - s))
  }

  function Chosen(x: bv32, y: bv32, z: bv32): bv32 { (x & y) | (!x & z) }
  function Majority(x: bv32, y: bv32, z: bv32): bv32 { (x & y) | (x & z) | (y & z) }
  function Parity(x: bv32, y: bv32, z: bv32): bv32 { x ^ y ^ z }

  /** `(a + F(b, c, d) + w) <<< s`: a step of round 1. */
  function First(a: bv32, b: bv32, c: bv32, d: bv32, w: bv32, s: nat): bv32
    requires 0 < s < 32
  {
    Left(Sum(Sum(a, Chosen(b, c, d)), w), s)
  }

  /** `(a + G(b, c, d) + w + 5A827999) <<< s`: a step of round 2. */
  function Second(a: bv32, b: bv32, c: bv32, d: bv32, w: bv32, s: nat): bv32
    requires 0 < s < 32
  {
    Left(Sum(Sum(Sum(a, Majority(b, c, d)), w), 0x5A82_7999), s)
  }

  /** `(a + H(b, c, d) + w + 6ED9EBA1) <<< s`: a step of round 3. */
  function Third(a: bv32, b: bv32, c: bv32, d: bv32, w: bv32, s: nat): bv32
    requires 0 < s < 32
  {
    Left(Sum(Sum(Sum(a, Parity(b, c, d)), w), 0x6ED9_EBA1), s)
  }

  function Round1(s: State, w: Words): State {
    var a, b, c, d := s.a, s.b, s.c, s.d;
    var a := First(a, b, c, d, w[0], 3);
    var d := First(d, a, b, c, w[1], 7);
    var c := First(c, d, a, b, w[2], 11);
    var b := First(b, c, d, a, w[3], 19);
    var a := First(a, b, c, d, w[4], 3);
    var d := First(d, a, b, c, w[5], 7);
    var c := First(c, d, a, b, w[6], 11);
    var b := First(b, c, d, a, w[7], 19);
    State(a, b, c, d)
  }

  function Round2(s: State, w: Words): State {
    var a, b, c, d := s.a, s.b, s.c, s.d;
    var a := Second(a, b, c, d, w[1], 3);
    var d := Second(d, a, b, c, w[3], 5);
    var c := Second(c, d, a, b, w[5], 9);
    var b := Second(b, c, d, a, w[7], 13);
    var a := Second(a, b, c, d, w[0], 3);
    var d := Second(d, a, b, c, w[2], 5);
    var c := Second(c, d, a, b, w[4], 9);
    var b := Second(b, c, d, a, w[6], 13);
    State(a, b, c, d)
  }

  function Round3(s: State, w: Words): State {
    var a, b, c, d := s.a, s.b, s.c, s.d;
    var a := Third(a, b, c, d, w[3], 3);
    var d := Third(d, a, b, c, w[7], 9);
    var c := Third(c, d, a, b, w[2], 11);
    var b := Third(b, c, d, a, w[6], 15);
    var a := Third(a, b, c, d, w[1], 3);
    var d := Third(d, a, b, c, w[5], 9);
    var c := Third(c, d, a, b, w[0], 11);
    var b := Third(b, c, d, a, w[4], 15);
    State(a, b, c, d)
  }

  lemma LeftIsRotated(x: bv32, s: nat)
    requires 0 < s < 32
    ensures Rotated(x, s) == Left(x, s)
  {
  }

  lemma ZeroAdded(x: bv32)
    ensures Sum(x, 0) == x
  {
  }

  lemma FirstIsMix(a: bv32, b: bv32, c: bv32, d: bv32, w: bv32, s: nat)
    requires 0 < s < 32
    ensures Mix(UseF, 0, a, b, c, d, w, s) == First(a, b, c, d, w, s)
  {
    FChooses(b, c, d);
    assert F(b, c, d) == Chosen(b, c, d);
    hide F, Chosen, Sum, Rotated, Left;
    ZeroAdded(Sum(Sum(a, F(b, c, d)), w));
    LeftIsRotated(Sum(Sum(a, F(b, c, d)), w), s);
  }

  lemma SecondIsMix(a: bv32, b: bv32, c: bv32, d: bv32, w: bv32, s: nat)
    requires 0 < s < 32
    ensures Mix(UseG, 0x5A82_7999, a, b, c, d, w, s) == Second(a, b, c, d, w, s)
  {
    GIsMajority(b, c, d);
    assert G(b, c, d) == Majority(b, c, d);
    hide G, Majority, Sum, Rotated, Left;
    LeftIsRotated(Sum(Sum(Sum(a, G(b, c, d)), w), 0x5A82_7999), s);
  }

  lemma ThirdIsMix(a: bv32, b: bv32, c: bv32, d: bv32, w: bv32, s: nat)
    requires 0 < s < 32
    ensures Mix(UseH, 0x6ED9_EBA1, a, b, c, d, w, s) == Third(a, b, c, d, w, s)
  {
    assert H(b, c, d) == Parity(b, c, d);
    hide H, Parity, Sum, Rotated, Left;
    LeftIsRotated(Sum(Sum(Sum(a, H(b, c, d)), w), 0x6ED9_EBA1), s);
  }

  lemma StepsNext(f: Aux, k: bv32, v: State, inp: Words, sched: Schedule, n: nat)
    requires n < 8
    ensures Steps(f, k, v, inp, sched, n + 1) == Step(f, k, Steps(f, k, v, inp, sched, n), inp, sched[n], n)
    ensures Steps(f, k, v, inp, sched, 0) == v
  {
    hide Step;
  }

  /** Eight steps, one after the other. */
  lemma EightSteps(f: Aux, k: bv32, v: State, inp: Words, sched: Schedule)
    ensures var s1 := Step(f, k, v, inp, sched[0], 0);
            var s2 := Step(f, k, s1, inp, sched[1], 1);
            var s3 := Step(f, k, s2, inp, sched[2], 2);
            var s4 := Step(f, k, s3, inp, sched[3], 3);
            var s5 := Step(f, k, s4, inp, sched[4], 4);
            var s6 := Step(f, k, s5, inp, sched[5], 5);
            var s7 := Step(f, k, s6, inp, sched[6], 6);
            Steps(f, k, v, inp, sched, 8) == Step(f, k, s7, inp, sched[7], 7)
  {
    hide Step, Steps;
    StepsNext(f, k, v, inp, sched, 0);
    StepsNext(f, k, v, inp, sched, 1);
    StepsNext(f, k, v, inp, sched, 2);
    StepsNext(f, k, v, inp, sched, 3);
    StepsNext(f, k, v, inp, sched, 4);
    StepsNext(f, k, v, inp, sched, 5);
    StepsNext(f, k, v, inp, sched, 6);
    StepsNext(f, k, v, inp, sched, 7);
  }

  lemma Round1Is(v: State, inp: Words)
    ensures Steps(UseF, 0, v, inp, R1, 8) == Round1(v, inp)
  {
    EightSteps(UseF, 0, v, inp, R1);
    hide Mix, First;
    forall a: bv32, b: bv32, c: bv32, d: bv32, w: bv32, s: nat | 0 < s < 32
      ensures Mix(UseF, 0, a, b, c, d, w, s) == First(a, b, c, d, w, s)
    {
      FirstIsMix(a, b, c, d, w, s);
    }
  }

  lemma Round2Is(v: State, inp: Words)
    ensures Steps(UseG, 0x5A82_7999, v, inp, R2, 8) == Round2(v, inp)
  {
    EightSteps(UseG, 0x5A82_7999, v, inp, R2);
    hide Mix, Second;
    forall a: bv32, b: bv32, c: bv32, d: bv32, w: bv32, s: nat | 0 < s < 32
      ensures Mix(UseG, 0x5A82_7999, a, b, c, d, w, s) == Second(a, b, c, d, w, s)
    {
      SecondIsMix(a, b, c, d, w, s);
    }
  }

  lemma Round3Is(v: State, inp: Words)
    ensures Steps(UseH, 0x6ED9_EBA1, v, inp, R3, 8) == Round3(v, inp)
  {
    EightSteps(UseH, 0x6ED9_EBA1, v, inp, R3);
    hide Mix, Third;
    forall a: bv32, b: bv32, c: bv32, d: bv32, w: bv32, s: nat | 0 < s < 32
      ensures Mix(UseH, 0x6ED9_EBA1, a, b, c, d, w, s) == Third(a, b, c, d, w, s)
    {
      ThirdIsMix(a, b, c, d, w, s);
    }
  }

  /** The transform is three rounds in the form of RFC 1320, section 3.4, over eight words, then the feed-forward. */
  lemma TransformWrittenOut(s: State, w: Words)
    ensures var v := Round3(Round2(Round1(s, w), w), w);
            Transformed(s, w) == State(Sum(s.a, v.a), Sum(s.b, v.b), Sum(s.c, v.c), Sum(s.d, v.d))
  {
    hide Steps, Round1, Round2, Round3, Sum;
    Round1Is(s, w);
    Round2Is(Round1(s, w), w);
    Round3Is(Round2(Round1(s, w), w), w);
  }

  // ----- names whose hashes are known -----

  /** The seed of the tests: the words of UUID deadbeef-dead-4ead-8ead-deadbeef0000. */
  const SEED: HashSeed := [0xEFBE_ADDE, 0xAD4E_ADDE, 0xADDE_AD8E, 0x0000_EFBE]

  /** `hello.txt`. */
  const HELLO: seq<byte> := [0x68, 0x65, 0x6C, 0x6C, 0x6F, 0x2E, 0x74, 0x78, 0x74]

  /** `a`. */
  const LETTER: seq<byte> := [0x61]

  lemma {:induction false} PackShort(pad: bv32, s: Signedness, b: seq<byte>)
    requires |b| <= 4
    ensures |b| == 0 ==> Pack(pad, s, b) == pad
    ensures |b| == 1 ==> Pack(pad, s, b) == Push(pad, Extended(s, b[0]))
    ensures |b| == 2 ==> Pack(pad, s, b) == Push(Push(pad, Extended(s, b[0])), Extended(s, b[1]))
    ensures |b| == 3 ==>
              Pack(pad, s, b) == Push(Push(Push(pad, Extended(s, b[0])), Extended(s, b[1])), Extended(s, b[2]))
    ensures |b| == 4 ==>
              Pack(pad, s, b) ==
              Push(Push(Push(Push(pad, Extended(s, b[0])), Extended(s, b[1])), Extended(s, b[2])), Extended(s, b[3]))
    decreases |b|
  {
    hide Push, Extended;
    if b != [] { PackShort(pad, s, b[..|b| - 1]); }
  }

  lemma HelloWord0()
    ensures HashWord(HELLO, 0x0909_0909, Signed, 0) == 0x6865_6C6C
  {
    assert HELLO[0..4] == [0x68, 0x65, 0x6C, 0x6C];
    PackShort(0x0909_0909, Signed, [0x68, 0x65, 0x6C, 0x6C]);
    hide Pack;
  }

  lemma HelloWord1()
    ensures HashWord(HELLO, 0x0909_0909, Signed, 1) == 0x6F2E_7478
  {
    assert HELLO[4..8] == [0x6F, 0x2E, 0x74, 0x78];
    PackShort(0x0909_0909, Signed, [0x6F, 0x2E, 0x74, 0x78]);
    hide Pack;
  }

  lemma HelloWord2()
    ensures HashWord(HELLO, 0x0909_0909, Signed, 2) == 0x0909_0974
  {
    assert HELLO[8..9] == [0x74];
    PackShort(0x0909_0909, Signed, [0x74]);
    hide Pack;
  }

  lemma HelloWords()
    ensures HashWords(HELLO, Pad(|HELLO|), Signed)
            == [0x6865_6C6C, 0x6F2E_7478, 0x0909_0974, 0x0909_0909, 0x0909_0909, 0x0909_0909, 0x0909_0909, 0x0909_0909]
  {
    assert Pad(|HELLO|) == 0x0909_0909;
    hide HashWord, Pad;
    HelloWord0();
    HelloWord1();
    HelloWord2();
    forall i: nat | 3 <= i < 8 ensures HashWord(HELLO, 0x0909_0909, Signed, i) == 0x0909_0909 {
      WordAt(HELLO, 0x0909_0909, Signed, i);
    }
  }

  lemma HelloTransformed()
    ensures Transformed(StateOf(SEED),
            [0x6865_6C6C, 0x6F2E_7478, 0x0909_0974, 0x0909_0909, 0x0909_0909, 0x0909_0909, 0x0909_0909, 0x0909_0909])
            == State(0x2DEB_3DDF, 0x093B_83D7, 0x33E0_CA61, 0x27BF_4099)
  {
    var w := [0x6865_6C6C, 0x6F2E_7478, 0x0909_0974, 0x0909_0909, 0x0909_0909, 0x0909_0909, 0x0909_0909, 0x0909_0909];
    TransformWrittenOut(StateOf(SEED), w);
    hide Transformed;
    assert Round1(State(0xEFBE_ADDE, 0xAD4E_ADDE, 0xADDE_AD8E, 0x0000_EFBE), w)
           == State(0x3EBE_DEBB, 0xA01F_29A7, 0xF156_A74B, 0xA84D_0BFA);
    assert Round2(State(0x3EBE_DEBB, 0xA01F_29A7, 0xF156_A74B, 0xA84D_0BFA), w)
           == State(0x7D34_29BE, 0x24A2_4622, 0x6F42_CB6A, 0x1ECC_C80D);
    assert Round3(State(0x7D34_29BE, 0x24A2_4622, 0x6F42_CB6A, 0x1ECC_C80D), w)
           == State(0x3E2C_9001, 0x5BEC_D5F9, 0x8602_1CD3, 0x27BE_50DB);
  }

  /** The start values of RFC 1320, section 3.3, are the bytes 01 23 45 67 89 ab cd ef and then the same downwards. */
  lemma InitialState(seed: HashSeed)
    ensures seed == [0, 0, 0, 0] ==>
              var s := Initial(seed);
              && s.a as int == Le32([0x01, 0x23, 0x45, 0x67], 0) && s.b as int == Le32([0x89, 0xAB, 0xCD, 0xEF], 0)
              && s.c as int == Le32([0xFE, 0xDC, 0xBA, 0x98], 0) && s.d as int == Le32([0x76, 0x54, 0x32, 0x10], 0)
    ensures seed != [0, 0, 0, 0] ==>
              var s := Initial(seed);
              s.a == seed[0] && s.b == seed[1] && s.c == seed[2] && s.d == seed[3]
  {
  }

  /** `hello.txt`, as in the tests of the source. */
  lemma HashOfHello()
    ensures var st := HashState(Initial(SEED), Signed, HELLO);
            st.b & 0xFFFF_FFFE == 0x093B_83D6 && st.c == 0x33E0_CA61
    ensures NameHash(SEED, Signed, HELLO) == 0x093B_83D6
  {
    HelloWords();
    HelloTransformed();
    hide Transformed, HashWords, Pad;
  }

  lemma LetterWord0()
    ensures HashWord(LETTER, 0x0101_0101, Signed, 0) == 0x0101_0161
  {
    assert LETTER[0..1] == [0x61];
    PackShort(0x0101_0101, Signed, [0x61]);
    hide Pack;
  }

  lemma LetterWords()
    ensures HashWords(LETTER, Pad(|LETTER|), Signed)
            == [0x0101_0161, 0x0101_0101, 0x0101_0101, 0x0101_0101, 0x0101_0101, 0x0101_0101, 0x0101_0101, 0x0101_0101]
  {
    assert Pad(|LETTER|) == 0x0101_0101;
    hide HashWord, Pad;
    LetterWord0();
    forall i: nat | 1 <= i < 8 ensures HashWord(LETTER, 0x0101_0101, Signed, i) == 0x0101_0101 {
      WordAt(LETTER, 0x0101_0101, Signed, i);
    }
  }

  lemma LetterTransformed()
    ensures Transformed(StateOf(SEED),
            [0x0101_0161, 0x0101_0101, 0x0101_0101, 0x0101_0101, 0x0101_0101, 0x0101_0101, 0x0101_0101, 0x0101_0101])
            == State(0xBCA1_992D, 0x5538_916C, 0x34A2_9FA3, 0x38A2_81A3)
  {
    var w := [0x0101_0161, 0x0101_0101, 0x0101_0101, 0x0101_0101, 0x0101_0101, 0x0101_0101, 0x0101_0101, 0x0101_0101];
    TransformWrittenOut(StateOf(SEED), w);
    hide Transformed;
    assert Round1(State(0xEFBE_ADDE, 0xAD4E_ADDE, 0xADDE_AD8E, 0x0000_EFBE), w)
           == State(0xEF2E_78A2, 0x979A_3027, 0xE2BC_A6AA, 0x9A9D_FC87);
    assert Round2(State(0xEF2E_78A2, 0x979A_3027, 0xE2BC_A6AA, 0x9A9D_FC87), w)
           == State(0x0D72_2E9D, 0xB40D_829C, 0xFE19_CB4A, 0x5606_8A18);
    assert Round3(State(0x0D72_2E9D, 0xB40D_829C, 0xFE19_CB4A, 0x5606_8A18), w)
           == State(0xCCE2_EB4F, 0xA7E9_E38E, 0x86C3_F215, 0x38A1_91E5);
  }

  /** `a`, as in the tests of the source. */
  lemma HashOfLetter()
    ensures var st := HashState(Initial(SEED), Signed, LETTER);
            st.b & 0xFFFF_FFFE == 0x5538_916C && st.c == 0x34A2_9FA3
    ensures NameHash(SEED, Signed, LETTER) == 0x5538_916C
  {
    LetterWords();
    LetterTransformed();
    hide Transformed, HashWords, Pad;
  }

}
