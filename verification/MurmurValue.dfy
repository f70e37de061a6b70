/** MurmurHash3-128 of the alphabet, worked out from the definitions (internal/hash/murmur3.go:27-156). */
module MurmurValue {
  import opened Bits
  import opened Words
  import opened Murmur3
  import opened Numerals

  const SEED: Word := 0x0000_0000_9747_B28C

  /** "abcdefghijklmnopqrstuvwxyz": one block, and a tail that reaches both halves. */
  const ALPHABET: seq<byte> := [
    0x61, 0x62, 0x63, 0x64, 0x65, 0x66, 0x67, 0x68, 0x69, 0x6A, 0x6B, 0x6C, 0x6D,
    0x6E, 0x6F, 0x70, 0x71, 0x72, 0x73, 0x74, 0x75, 0x76, 0x77, 0x78, 0x79, 0x7A]

  // ---------------------------------------------------------------- arithmetic on given numbers

  lemma RotateNumber(x: Word, r: nat, p: nat, q: nat)
    requires 0 < r < 64 && p == Pow2(r) && q == Pow2(64 - r)
    ensures Rotl(x, r) == x % q * p + x / q
  {
    hide Rotl;
    RotlSum(x, r);
  }

  lemma Powers()
    ensures Pow2(27) == 0x800_0000 && Pow2(37) == 0x20_0000_0000
    ensures Pow2(31) == 0x8000_0000 && Pow2(33) == 0x2_0000_0000
  {
    assert Pow2(5) == 32 && Pow2(8) == 256;
    Pow2Split(8, 16);
    Pow2Split(16, 32);
    Pow2Split(5, 32);
    Pow2Split(5, 37);
  }

  lemma ShiftedXor(x: Word, y: nat, r: nat)
    requires y == x / 0x2_0000_0000 && Xor(x, y) == r
    ensures r < TWO64 && XorShift33(x) == r
  {
    hide Xor, Shr, Pow2;
    Powers();
    ShrDivides(x, 33);
    assert XorShift33(x) == Xor(x, y);
  }

  // ---------------------------------------------------------------- the message

  lemma TwoBytes(s: seq<byte>)
    requires |s| == 2
    ensures LittleEndian(s) == s[0] as nat + 256 * s[1] as nat
  {
    hide LittleEndian;
    NumberOfTail(s);
    NextByte(s, 0);
    NextByte(s, 1);
  }

  lemma AlphabetWords()
    ensures |ALPHABET| == 26
    ensures LittleEndian(ALPHABET[0..8]) == 0x6867_6665_6463_6261
    ensures LittleEndian(ALPHABET[8..16]) == 0x706F_6E6D_6C6B_6A69
    ensures LittleEndian(ALPHABET[16..][0..8]) == 0x7877_7675_7473_7271
    ensures LittleEndian(ALPHABET[16..][8..10]) == 0x0000_0000_0000_7A79
  {
    hide LittleEndian;
    NumberOfBytes(ALPHABET[0..8]);
    NumberOfBytes(ALPHABET[8..16]);
    NumberOfBytes(ALPHABET[16..][0..8]);
    TwoBytes(ALPHABET[16..][8..10]);
  }

  lemma BlockMixed1()
    ensures MixK1(0x6867_6665_6463_6261) == 0x2C20_6ECA_25D3_CF80
  {
    hide Rotl, Pow2;
    Powers();
    RotateNumber(0x397B_E101_8D98_4DB5, 31, 0x0000_0000_8000_0000, 0x0000_0002_0000_0000);
    assert Mul(0x6867_6665_6463_6261, C1) == 0x397B_E101_8D98_4DB5;
    assert Rotl(0x397B_E101_8D98_4DB5, 31) == 0xC6CC_26DA_9CBD_F080;
  }

  lemma BlockMixed2()
    ensures MixK2(0x706F_6E6D_6C6B_6A69) == 0xB70D_BA9B_F586_1C36
  {
    hide Rotl, Pow2;
    Powers();
    RotateNumber(0x2C36_022F_24B1_1517, 33, 0x0000_0002_0000_0000, 0x0000_0000_8000_0000);
    assert Mul(0x706F_6E6D_6C6B_6A69, C2) == 0x2C36_022F_24B1_1517;
    assert Rotl(0x2C36_022F_24B1_1517, 33) == 0x4962_2A2E_586C_045E;
  }

  lemma TailMixed1()
    ensures MixK1(0x7877_7675_7473_7271) == 0x0617_8446_C445_C114
  {
    hide Rotl, Pow2;
    Powers();
    RotateNumber(0x7E44_71D9_544A_DB05, 31, 0x0000_0000_8000_0000, 0x0000_0002_0000_0000);
    assert Mul(0x7877_7675_7473_7271, C1) == 0x7E44_71D9_544A_DB05;
    assert Rotl(0x7E44_71D9_544A_DB05, 31) == 0xAA25_6D82_BF22_38EC;
  }

  lemma TailMixed2()
    ensures MixK2(0x0000_0000_0000_7A79) == 0xE18E_EEBB_AC39_5EDD
  {
    hide Rotl, Pow2;
    Powers();
    RotateNumber(0x74B0_E574_B82D_3D07, 33, 0x0000_0002_0000_0000, 0x0000_0000_8000_0000);
    assert Mul(0x0000_0000_0000_7A79, C2) == 0x74B0_E574_B82D_3D07;
    assert Rotl(0x74B0_E574_B82D_3D07, 33) == 0x705A_7A0E_E961_CAE9;
  }

  lemma BlockXored1()
    ensures Xor(0x0000_0000_9747_B28C, 0x2C20_6ECA_25D3_CF80) == 0x2C20_6ECA_B294_7D0C
  {
    hide Xor;
    XorNumbers(0x8C, 0xB2, 0x47, 0x97, 0x00, 0x00, 0x00, 0x00,
               0x80, 0xCF, 0xD3, 0x25, 0xCA, 0x6E, 0x20, 0x2C);
  }

  lemma BlockXored2()
    ensures Xor(0x0000_0000_9747_B28C, 0xB70D_BA9B_F586_1C36) == 0xB70D_BA9B_62C1_AEBA
  {
    hide Xor;
    XorNumbers(0x8C, 0xB2, 0x47, 0x97, 0x00, 0x00, 0x00, 0x00,
               0x36, 0x1C, 0x86, 0xF5, 0x9B, 0xBA, 0x0D, 0xB7);
  }

  lemma BlockScrambled1()
    ensures Scramble(0x2C20_6ECA_B294_7D0C, 27, 0x0000_0000_9747_B28C, D1) == 0xABE7_338D_2E28_7533
  {
    hide Rotl, Pow2;
    Powers();
    RotateNumber(0x2C20_6ECA_B294_7D0C, 27, 0x0000_0000_0800_0000, 0x0000_0020_0000_0000);
    assert Rotl(0x2C20_6ECA_B294_7D0C, 27) == 0x5594_A3E8_6161_0376;
  }

  lemma BlockScrambled2()
    ensures Scramble(0xB70D_BA9B_62C1_AEBA, 31, 0xABE7_338D_2E28_7533, D2) == 0xD268_3694_E8B5_F735
  {
    hide Rotl, Pow2;
    Powers();
    RotateNumber(0xB70D_BA9B_62C1_AEBA, 31, 0x0000_0000_8000_0000, 0x0000_0002_0000_0000);
    assert Rotl(0xB70D_BA9B_62C1_AEBA, 31) == 0xB160_D75D_5B86_DD4D;
  }

  lemma BlockRound()
    ensures Round(State(SEED, SEED), 0x6867_6665_6463_6261, 0x706F_6E6D_6C6B_6A69) ==
            State(0xABE7_338D_2E28_7533, 0xD268_3694_E8B5_F735)
  {
    hide Scramble, Xor, MixK1, MixK2;
    BlockMixed1();
    BlockMixed2();
    BlockXored1();
    BlockXored2();
    BlockScrambled1();
    BlockScrambled2();
  }

  lemma Finished1First()
    ensures XorShift33(0xE1D7_8FFB_2EFA_5E2F) == 0xE1D7_8FFB_5E11_99D2
  {
    hide Xor, XorShift33;
    XorNumbers(0x2F, 0x5E, 0xFA, 0x2E, 0xFB, 0x8F, 0xD7, 0xE1,
               0xFD, 0xC7, 0xEB, 0x70, 0x00, 0x00, 0x00, 0x00);
    ShiftedXor(0xE1D7_8FFB_2EFA_5E2F, 0x0000_0000_70EB_C7FD, 0xE1D7_8FFB_5E11_99D2);
  }

  lemma Finished1Second()
    ensures XorShift33(0x2349_0859_70F1_052A) == 0x2349_0859_6155_8106
  {
    hide Xor, XorShift33;
    XorNumbers(0x2A, 0x05, 0xF1, 0x70, 0x59, 0x08, 0x49, 0x23,
               0x2C, 0x84, 0xA4, 0x11, 0x00, 0x00, 0x00, 0x00);
    ShiftedXor(0x2349_0859_70F1_052A, 0x0000_0000_11A4_842C, 0x2349_0859_6155_8106);
  }

  lemma Finished1Third()
    ensures XorShift33(0xF699_B530_05C8_5CF2) == 0xF699_B530_7E84_866A
  {
    hide Xor, XorShift33;
    XorNumbers(0xF2, 0x5C, 0xC8, 0x05, 0x30, 0xB5, 0x99, 0xF6,
               0x98, 0xDA, 0x4C, 0x7B, 0x00, 0x00, 0x00, 0x00);
    ShiftedXor(0xF699_B530_05C8_5CF2, 0x0000_0000_7B4C_DA98, 0xF699_B530_7E84_866A);
  }

  lemma Finished1()
    ensures Fmix64(0xE1D7_8FFB_2EFA_5E2F) == 0xF699_B530_7E84_866A
  {
    hide XorShift33;
    Finished1First();
    assert Mul(0xE1D7_8FFB_5E11_99D2, F1) == 0x2349_0859_70F1_052A;
    Finished1Second();
    assert Mul(0x2349_0859_6155_8106, F2) == 0xF699_B530_05C8_5CF2;
    Finished1Third();
  }

  lemma Finished2First()
    ensures XorShift33(0x15BE_682A_7387_0821) == 0x15BE_682A_7958_3C34
  {
    hide Xor, XorShift33;
    XorNumbers(0x21, 0x08, 0x87, 0x73, 0x2A, 0x68, 0xBE, 0x15,
               0x15, 0x34, 0xDF, 0x0A, 0x00, 0x00, 0x00, 0x00);
    ShiftedXor(0x15BE_682A_7387_0821, 0x0000_0000_0ADF_3415, 0x15BE_682A_7958_3C34);
  }

  lemma Finished2Second()
    ensures XorShift33(0x8597_BA13_8DD8_A5A4) == 0x8597_BA13_CF13_78AD
  {
    hide Xor, XorShift33;
    XorNumbers(0xA4, 0xA5, 0xD8, 0x8D, 0x13, 0xBA, 0x97, 0x85,
               0x09, 0xDD, 0xCB, 0x42, 0x00, 0x00, 0x00, 0x00);
    ShiftedXor(0x8597_BA13_8DD8_A5A4, 0x0000_0000_42CB_DD09, 0x8597_BA13_CF13_78AD);
  }

  lemma Finished2Third()
    ensures XorShift33(0xF5CA_E757_5A70_9C17) == 0xF5CA_E757_2095_EFBC
  {
    hide Xor, XorShift33;
    XorNumbers(0x17, 0x9C, 0x70, 0x5A, 0x57, 0xE7, 0xCA, 0xF5,
               0xAB, 0x73, 0xE5, 0x7A, 0x00, 0x00, 0x00, 0x00);
    ShiftedXor(0xF5CA_E757_5A70_9C17, 0x0000_0000_7AE5_73AB, 0xF5CA_E757_2095_EFBC);
  }

  lemma Finished2()
    ensures Fmix64(0x15BE_682A_7387_0821) == 0xF5CA_E757_2095_EFBC
  {
    hide XorShift33;
    Finished2First();
    assert Mul(0x15BE_682A_7958_3C34, F1) == 0x8597_BA13_8DD8_A5A4;
    Finished2Second();
    assert Mul(0x8597_BA13_CF13_78AD, F2) == 0xF5CA_E757_5A70_9C17;
    Finished2Third();
  }

  lemma TailXored1()
    ensures Xor(0xABE7_338D_2E28_7533, 0x0617_8446_C445_C114) == 0xADF0_B7CB_EA6D_B427
  {
    hide Xor;
    XorNumbers(0x33, 0x75, 0x28, 0x2E, 0x8D, 0x33, 0xE7, 0xAB,
               0x14, 0xC1, 0x45, 0xC4, 0x46, 0x84, 0x17, 0x06);
  }

  lemma TailXored2()
    ensures Xor(0xD268_3694_E8B5_F735, 0xE18E_EEBB_AC39_5EDD) == 0x33E6_D82F_448C_A9E8
  {
    hide Xor;
    XorNumbers(0x35, 0xF7, 0xB5, 0xE8, 0x94, 0x36, 0x68, 0xD2,
               0xDD, 0x5E, 0x39, 0xAC, 0xBB, 0xEE, 0x8E, 0xE1);
  }

  lemma AlphabetTail()
    ensures MixTail(State(0xABE7_338D_2E28_7533, 0xD268_3694_E8B5_F735), ALPHABET[16..]) ==
            State(0xADF0_B7CB_EA6D_B427, 0x33E6_D82F_448C_A9E8)
  {
    hide Xor, MixK1, MixK2, LittleEndian;
    AlphabetWords();
    TailMixed1();
    TailMixed2();
    TailXored1();
    TailXored2();
  }

  lemma LengthXored1()
    ensures Xor(0xADF0_B7CB_EA6D_B427, 0x0000_0000_0000_001A) == 0xADF0_B7CB_EA6D_B43D
  {
    hide Xor;
    XorNumbers(0x27, 0xB4, 0x6D, 0xEA, 0xCB, 0xB7, 0xF0, 0xAD,
               0x1A, 0x00, 0x00, 0x00, 0x00, 0x00, 0x00, 0x00);
  }

  lemma LengthXored2()
    ensures Xor(0x33E6_D82F_448C_A9E8, 0x0000_0000_0000_001A) == 0x33E6_D82F_448C_A9F2
  {
    hide Xor;
    XorNumbers(0xE8, 0xA9, 0x8C, 0x44, 0x2F, 0xD8, 0xE6, 0x33,
               0x1A, 0x00, 0x00, 0x00, 0x00, 0x00, 0x00, 0x00);
  }

  lemma AlphabetFinish()
    ensures Finish(State(0xADF0_B7CB_EA6D_B427, 0x33E6_D82F_448C_A9E8), 26) ==
            State(0xEC64_9C87_9F1A_7626, 0xE22F_83DE_BFB0_65E2)
  {
    hide Xor, Fmix64;
    LengthXored1();
    LengthXored2();
    Finished1();
    Finished2();
  }

  lemma OneBlock(data: seq<byte>, seed: Word)
    requires 16 <= |data| < 32
    ensures Fold(Round, State(seed, seed), AllBlocks(data)) ==
            Round(State(seed, seed), Half(data, 0, 8), Half(data, 8, 16))
  {
    hide Round, LittleEndian;
    var ks := AllBlocks(data);
    assert ks[..0] == [];
    assert Block(data, 0)[0..8] == data[0..8] && Block(data, 0)[8..16] == data[8..16];
  }

  /** The whole sum, from block words to both halves of the result. */
  lemma AlphabetSum()
    ensures Sum128(ALPHABET, SEED) == State(0xEC64_9C87_9F1A_7626, 0xE22F_83DE_BFB0_65E2)
  {
    hide Round, Finish, MixTail, LittleEndian;
    AlphabetWords();
    BlockRound();
    AlphabetTail();
    AlphabetFinish();
    OneBlock(ALPHABET, SEED);
  }
}
