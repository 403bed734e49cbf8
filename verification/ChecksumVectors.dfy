/**
  Known values of the checksums and hashes (`src/csum.rs` and its tests, `tools/check_vectors.py`).
*/
module ChecksumVectors {
  import opened Bytes
  import opened Crc32c
  import opened Csum
  import XattrBuild
  import XattrPlan

  /** One byte: eight steps. */
  function ByteStep(c: bv32, b: byte): bv32 {
    BitStep(BitStep(BitStep(BitStep(BitStep(BitStep(BitStep(BitStep(Xor(c, Widen(b))))))))))
  }

  lemma CrcOne(c: bv32, b: byte)
    ensures Crc(c, [b]) == ByteStep(c, b)
  {
    IterUnrolled(BitStep, Xor(c, Widen(b)));
    hide BitStep, Xor, Widen, Iter;
  }

  /** One high bit in the last place leaves the reflected generator behind. */
  lemma CrcOfHighBit()
    ensures Crc(0, [0x80]) == 0x82F6_3B78
  {
    CrcOne(0, 0x80);
    hide Crc;
  }

  lemma CrcFour(c: bv32, b0: byte, b1: byte, b2: byte, b3: byte)
    ensures Crc(c, [b0, b1, b2, b3]) == ByteStep(ByteStep(ByteStep(ByteStep(c, b0), b1), b2), b3)
  {
    CrcOne(c, b0);
    CrcOne(ByteStep(c, b0), b1);
    CrcOne(ByteStep(ByteStep(c, b0), b1), b2);
    CrcOne(ByteStep(ByteStep(ByteStep(c, b0), b1), b2), b3);
    hide ByteStep, Crc;
    CrcConcat(c, [b0], [b1]);
    CrcConcat(c, [b0] + [b1], [b2]);
    CrcConcat(c, [b0] + [b1] + [b2], [b3]);
    assert [b0] + [b1] + [b2] + [b3] == [b0, b1, b2, b3];
  }

  lemma Digits0()
    ensures Crc(0xFFFF_FFFF, [0x31, 0x32, 0x33, 0x34]) == 0x09C5_0B11
  {
    assert ByteStep(0xFFFF_FFFF, 0x31) == 0x6F0A_661C;
    assert ByteStep(0x6F0A_661C, 0x32) == 0x8CAA_3B9F;
    assert ByteStep(0x8CAA_3B9F, 0x33) == 0xEF84_D04D;
    CrcFour(0xFFFF_FFFF, 0x31, 0x32, 0x33, 0x34);
    hide Crc;
  }

  lemma Digits1()
    ensures Crc(0x09C5_0B11, [0x35, 0x36, 0x37, 0x38]) == 0x9F78_7F65
  {
    assert ByteStep(0x09C5_0B11, 0x35) == 0xE72E_DCCA;
    assert ByteStep(0xE72E_DCCA, 0x36) == 0xBECA_8E79;
    assert ByteStep(0xBECA_8E79, 0x37) == 0xEDBD_6815;
    CrcFour(0x09C5_0B11, 0x35, 0x36, 0x37, 0x38);
    hide Crc;
  }

  lemma Digits2()
    ensures Crc(0x9F78_7F65, [0x39]) == 0x1CF9_6D7C
  {
    CrcOne(0x9F78_7F65, 0x39);
    hide Crc;
  }

  /** `123456789`, the customary check string, without the inversions. */
  lemma CrcOfDigits()
    ensures Crc(0xFFFF_FFFF, [0x31, 0x32, 0x33, 0x34, 0x35, 0x36, 0x37, 0x38, 0x39])
            == 0x1CF9_6D7C
  {
    hide Crc;
    Digits0();
    Digits1();
    CrcConcat(0xFFFF_FFFF, [0x31, 0x32, 0x33, 0x34], [0x35, 0x36, 0x37, 0x38]);
    assert [0x31, 0x32, 0x33, 0x34] + [0x35, 0x36, 0x37, 0x38]
           == [0x31, 0x32, 0x33, 0x34, 0x35, 0x36, 0x37, 0x38];
    Digits2();
    CrcConcat(0xFFFF_FFFF, [0x31, 0x32, 0x33, 0x34, 0x35, 0x36, 0x37, 0x38], [0x39]);
    assert [0x31, 0x32, 0x33, 0x34, 0x35, 0x36, 0x37, 0x38] + [0x39]
           == [0x31, 0x32, 0x33, 0x34, 0x35, 0x36, 0x37, 0x38, 0x39];
  }

  lemma Uuid0()
    ensures Crc(0xFFFF_FFFF, [0xD0, 0xD0, 0xCA, 0xCA]) == 0x8DF0_D89A
  {
    assert ByteStep(0xFFFF_FFFF, 0xD0) == 0x7E51_4D05;
    assert ByteStep(0x7E51_4D05, 0xD0) == 0xE65C_A4FA;
    assert ByteStep(0xE65C_A4FA, 0xCA) == 0x3005_1515;
    CrcFour(0xFFFF_FFFF, 0xD0, 0xD0, 0xCA, 0xCA);
    hide Crc;
  }

  lemma Uuid1()
    ensures Crc(0x8DF0_D89A, [0x00, 0x00, 0x40, 0x00]) == 0x7005_1361
  {
    assert ByteStep(0x8DF0_D89A, 0x00) == 0xF9C7_24F7;
    assert ByteStep(0xF9C7_24F7, 0x00) == 0x275D_CCBA;
    assert ByteStep(0x275D_CCBA, 0x40) == 0x98AB_1A81;
    CrcFour(0x8DF0_D89A, 0x00, 0x00, 0x40, 0x00);
    hide Crc;
  }

  lemma Uuid2()
    ensures Crc(0x7005_1361, [0x80, 0x00, 0x00, 0x00]) == 0x455A_38B4
  {
    assert ByteStep(0x7005_1361, 0x80) == 0x112B_2E0A;
    assert ByteStep(0x112B_2E0A, 0x00) == 0x6BF3_0316;
    assert ByteStep(0x6BF3_0316, 0x00) == 0x3694_D384;
    CrcFour(0x7005_1361, 0x80, 0x00, 0x00, 0x00);
    hide Crc;
  }

  lemma Uuid3()
    ensures Crc(0x455A_38B4, [0x00, 0x00, 0x00, 0x01]) == 0x4216_AB51
  {
    assert ByteStep(0x455A_38B4, 0x00) == 0x75CA_BFEE;
    assert ByteStep(0x75CA_BFEE, 0x00) == 0x4F3D_DD82;
    assert ByteStep(0x4F3D_DD82, 0x00) == 0x6382_7652;
    CrcFour(0x455A_38B4, 0x00, 0x00, 0x00, 0x01);
    hide Crc;
  }

  /** The filesystem seed of UUID d0d0caca-0000-4000-8000-000000000001, as in the tests. */
  lemma SeedOfUuid()
    ensures Crc(0xFFFF_FFFF, [0xD0, 0xD0, 0xCA, 0xCA, 0x00, 0x00, 0x40, 0x00, 0x80, 0x00, 0x00, 0x00, 0x00, 0x00, 0x00,
            0x01])
            == 0x4216_AB51
  {
    hide Crc;
    Uuid0();
    Uuid1();
    CrcConcat(0xFFFF_FFFF, [0xD0, 0xD0, 0xCA, 0xCA], [0x00, 0x00, 0x40, 0x00]);
    assert [0xD0, 0xD0, 0xCA, 0xCA] + [0x00, 0x00, 0x40, 0x00]
           == [0xD0, 0xD0, 0xCA, 0xCA, 0x00, 0x00, 0x40, 0x00];
    Uuid2();
    CrcConcat(0xFFFF_FFFF, [0xD0, 0xD0, 0xCA, 0xCA, 0x00, 0x00, 0x40, 0x00], [0x80, 0x00, 0x00, 0x00]);
    assert [0xD0, 0xD0, 0xCA, 0xCA, 0x00, 0x00, 0x40, 0x00] + [0x80, 0x00, 0x00, 0x00]
           == [0xD0, 0xD0, 0xCA, 0xCA, 0x00, 0x00, 0x40, 0x00, 0x80, 0x00, 0x00, 0x00];
    Uuid3();
    CrcConcat(0xFFFF_FFFF, [0xD0, 0xD0, 0xCA, 0xCA, 0x00, 0x00, 0x40, 0x00, 0x80, 0x00, 0x00, 0x00],
      [0x00, 0x00, 0x00, 0x01]);
    assert [0xD0, 0xD0, 0xCA, 0xCA, 0x00, 0x00, 0x40, 0x00, 0x80, 0x00, 0x00, 0x00] + [0x00, 0x00, 0x00, 0x01]
           == [0xD0, 0xD0, 0xCA, 0xCA, 0x00, 0x00, 0x40, 0x00, 0x80, 0x00, 0x00, 0x00, 0x00, 0x00, 0x00, 0x01];
  }

  // ----- an attribute -----

  const LOWER_HEX: seq<byte> :=
    [0x30, 0x31, 0x32, 0x33, 0x34, 0x35, 0x36, 0x37, 0x38, 0x39, 0x61, 0x62, 0x63, 0x64, 0x65, 0x66]

  function Repeated(k: nat): (r: seq<byte>)
    ensures |r| == 16 * k
  {
    if k == 0 then [] else LOWER_HEX + Repeated(k - 1)
  }

  /** The four words of `0123456789abcdef`, folded in. */
  function FourWords(h: bv32): bv32 {
    WordStep(WordStep(WordStep(WordStep(h, 0x3332_3130), 0x3736_3534), 0x6261_3938), 0x6665_6463)
  }

  lemma WordNext(b: byte, rest: seq<byte>)
    ensures Word([b] + rest) == Xor(Widen(b), Up8(Word(rest)))
  {
    assert ([b] + rest)[1..] == rest;
  }

  lemma WordOfFour(a: byte, b: byte, c: byte, d: byte)
    ensures Word([a, b, c, d])
            == Xor(Widen(a), Up8(Xor(Widen(b), Up8(Xor(Widen(c), Up8(Xor(Widen(d), Up8(0))))))))
  {
    assert Word([]) == 0;
    hide Word, Up8, Xor, Widen;
    WordNext(d, []);
    WordNext(c, [d]);
    WordNext(b, [c, d]);
    WordNext(a, [b, c, d]);
    assert [a] + [b, c, d] == [a, b, c, d] && [b] + [c, d] == [b, c, d] && [c] + [d] == [c, d] && [d] + [] == [d];
  }

  lemma HexWords()
    ensures Word(LOWER_HEX[0..4]) == 0x3332_3130 && Word(LOWER_HEX[4..8]) == 0x3736_3534
    ensures Word(LOWER_HEX[8..12]) == 0x6261_3938 && Word(LOWER_HEX[12..16]) == 0x6665_6463
  {
    assert LOWER_HEX[0..4] == [0x30, 0x31, 0x32, 0x33] && LOWER_HEX[4..8] == [0x34, 0x35, 0x36, 0x37];
    assert LOWER_HEX[8..12] == [0x38, 0x39, 0x61, 0x62] && LOWER_HEX[12..16] == [0x63, 0x64, 0x65, 0x66];
    WordOfFour(0x30, 0x31, 0x32, 0x33);
    WordOfFour(0x34, 0x35, 0x36, 0x37);
    WordOfFour(0x38, 0x39, 0x61, 0x62);
    WordOfFour(0x63, 0x64, 0x65, 0x66);
    hide Word;
  }

  lemma WordThenRest(h: bv32, w: seq<byte>, rest: seq<byte>)
    requires |w| == 4 && |rest| % 4 == 0
    ensures WordsFold(h, w + rest) == WordsFold(WordStep(h, Word(w)), rest)
  {
    assert (w + rest)[..4] == w && (w + rest)[4..] == rest;
  }

  lemma SixteenBytes(h: bv32, rest: seq<byte>)
    requires |rest| % 4 == 0
    ensures WordsFold(h, LOWER_HEX + rest) == WordsFold(FourWords(h), rest)
  {
    hide WordsFold, WordStep, Word;
    var a, b, c, d := LOWER_HEX[0..4], LOWER_HEX[4..8], LOWER_HEX[8..12], LOWER_HEX[12..16];
    HexWords();
    assert LOWER_HEX + rest == a + (b + (c + (d + rest)));
    WordThenRest(h, a, b + (c + (d + rest)));
    var h1 := WordStep(h, 0x3332_3130);
    WordThenRest(h1, b, c + (d + rest));
    var h2 := WordStep(h1, 0x3736_3534);
    WordThenRest(h2, c, d + rest);
    WordThenRest(WordStep(h2, 0x6261_3938), d, rest);
  }

  /** Folding the sixteen bytes in twice changes nothing. */
  lemma TwiceIsNothing(h: bv32)
    ensures FourWords(FourWords(h)) == h
  {
  }

  lemma {:induction false} EvenlyRepeated(h: bv32, k: nat)
    ensures WordsFold(h, Repeated(2 * k)) == h
    decreases k
  {
    hide *;
    if k == 0 {
      NothingFolded(h);
    } else {
      RepeatedTwice(2 * k);
      SixteenBytes(h, LOWER_HEX + Repeated(2 * k - 2));
      SixteenBytes(FourWords(h), Repeated(2 * k - 2));
      TwiceIsNothing(h);
      EvenlyRepeated(h, k - 1);
    }
  }

  lemma NothingFolded(h: bv32)
    ensures WordsFold(h, Repeated(0)) == h
  {
    hide WordStep;
  }

  lemma RepeatedTwice(k: nat)
    requires 2 <= k
    ensures Repeated(k) == LOWER_HEX + (LOWER_HEX + Repeated(k - 2))
  {
  }

  lemma NameNext(h: bv32, b: byte, rest: seq<byte>)
    ensures NameFold(h, [b] + rest) == NameFold(NameStep(h, b), rest)
  {
    hide NameStep;
    assert ([b] + rest)[1..] == rest;
  }

  lemma NameThree(a: byte, b: byte, c: byte)
    ensures NameFold(0, [a, b, c]) == NameStep(NameStep(NameStep(0, a), b), c)
  {
    assert forall h :: NameFold(h, []) == h;
    hide NameStep, NameFold;
    assert [a] + [b, c] == [a, b, c] && [b] + [c] == [b, c] && [c] + [] == [c];
    NameNext(0, a, [b, c]);
    NameNext(NameStep(0, a), b, [c]);
    NameNext(NameStep(NameStep(0, a), b), c, []);
  }

  /** Attribute `user.big` of the test image: `0123456789abcdef` sixteen times is stored with hash 0x18547. */
  lemma HashOfBig()
    ensures WordsFold(NameFold(0, [0x62, 0x69, 0x67]), PadTo4(Repeated(16))) == 0x1_8547
    ensures XattrBuild.AttrHash([0x62, 0x69, 0x67], Repeated(16)) == 0x1_8547
  {
    NameThree(0x62, 0x69, 0x67);
    assert NameStep(NameStep(NameStep(0, 0x62), 0x69), 0x67) == 0x1_8547;
    hide NameFold, NameStep, WordsFold;
    assert PadTo4(Repeated(16)) == Repeated(16);
    EvenlyRepeated(0x1_8547, 8);
  }

  /** The hash of a block with one entry is that entry's; before a second one it is rotated by half its width. */
  lemma FoldOfTwo(a: bv32, b: bv32)
    ensures HashesFold(0, []) == 0 && HashesFold(0, [a]) == a
    ensures HashesFold(0, [a, b]) == a.RotateLeft(16) ^ b
  {
    assert WordStep(0, a) == a;
    StepsRotate(a, 0, b);
    hide WordStep;
    assert [a, b][1..] == [b] && [b][1..] == [] && [a][1..] == [];
    assert HashesFold(a, [b]) == WordStep(a, b);
  }

  /** A block's hash is zero as soon as one entry's is, as it is for an in-inode entry, and a fold otherwise. */
  lemma BlockHashes(hashes: seq<bv32>, a: bv32, b: bv32)
    ensures 0 in hashes ==> XattrPlan.BlockHash(hashes) == 0
    ensures XattrPlan.BlockHash([]) == 0 && XattrPlan.BlockHash([a]) == a
    ensures a != 0 && b != 0 ==> XattrPlan.BlockHash([a, b]) == a.RotateLeft(16) ^ b
  {
    FoldOfTwo(a, b);
    hide HashesFold;
  }
}
