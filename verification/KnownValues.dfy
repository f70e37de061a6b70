/** Values worked out from the definitions, where other laws would hold of other constants too. */
module KnownValues {
  import opened Bits
  import opened Words
  import opened Numerals
  import opened Hash
  import opened Crc32
  import T = Crc32Table
  import BigEndian
  import Records
  import StoreRuns

  // ---------------------------------------------------------------- the base hashes

  lemma FirstOfA()
    ensures XorByte(0xCBF2_9CE4_8422_2325, 0x61) == 0xCBF2_9CE4_8422_2344
  {
    hide Xor, Val;
    ValIsNumber(0x61);
    XorNumbers(0x25, 0x23, 0x22, 0x84, 0xE4, 0x9C, 0xF2, 0xCB,
               0x61, 0x00, 0x00, 0x00, 0x00, 0x00, 0x00, 0x00);
  }

  lemma SecondOfA()
    ensures XorByte(0xAF63_DC4C_8601_EC8C, 0x62) == 0xAF63_DC4C_8601_ECEE
  {
    hide Xor, Val;
    ValIsNumber(0x62);
    XorNumbers(0x8C, 0xEC, 0x01, 0x86, 0x4C, 0xDC, 0x63, 0xAF,
               0x62, 0x00, 0x00, 0x00, 0x00, 0x00, 0x00, 0x00);
  }

  lemma FirstOfB()
    ensures XorByte(0xAF63_BD4C_8601_B7DF, 0x61) == 0xAF63_BD4C_8601_B7BE
  {
    hide Xor, Val;
    ValIsNumber(0x61);
    XorNumbers(0xDF, 0xB7, 0x01, 0x86, 0x4C, 0xBD, 0x63, 0xAF,
               0x61, 0x00, 0x00, 0x00, 0x00, 0x00, 0x00, 0x00);
  }

  lemma SecondOfB()
    ensures XorByte(0x0832_6707_B4EB_37DA, 0x62) == 0x0832_6707_B4EB_37B8
  {
    hide Xor, Val;
    ValIsNumber(0x62);
    XorNumbers(0xDA, 0x37, 0xEB, 0xB4, 0x07, 0x67, 0x32, 0x08,
               0x62, 0x00, 0x00, 0x00, 0x00, 0x00, 0x00, 0x00);
  }

  lemma Two(s: seq<byte>)
    requires |s| == 2
    ensures Fnv64a(s) == Mul(XorByte(Mul(XorByte(OFFSET, s[0]), PRIME), s[1]), PRIME)
    ensures Fnv64(s) == XorByte(Mul(XorByte(Mul(OFFSET, PRIME), s[0]), PRIME), s[1])
  {
    hide XorByte, Mul;
    var t := s[..1];
    assert t[..0] == [] && t[0] == s[0];
    assert Fnv64a(t) == Mul(XorByte(OFFSET, s[0]), PRIME) && Fnv64(t) == XorByte(Mul(OFFSET, PRIME), s[0]);
  }

  /** The base hashes of "ab". */
  lemma HashesOfAb()
    ensures Fnv64a([0x61, 0x62]) == 0x089C_4407_B545_986A && Fnv64([0x61, 0x62]) == 0x0832_6707_B4EB_37B8
  {
    hide XorByte, Fnv64a, Fnv64;
    Two([0x61, 0x62]);
    FirstOfA();
    assert Mul(0xCBF2_9CE4_8422_2344, PRIME) == 0xAF63_DC4C_8601_EC8C;
    SecondOfA();
    assert Mul(0xAF63_DC4C_8601_ECEE, PRIME) == 0x089C_4407_B545_986A;
    assert Mul(OFFSET, PRIME) == 0xAF63_BD4C_8601_B7DF;
    FirstOfB();
    assert Mul(0xAF63_BD4C_8601_B7BE, PRIME) == 0x0832_6707_B4EB_37DA;
    SecondOfB();
  }

  // ---------------------------------------------------------------- the checksum

  lemma Digits123()
    ensures T.UpdateByte(0xFFFF_FFFF, 0x31) == 0x7C23_1048
    ensures T.UpdateByte(0x7C23_1048, 0x32) == 0xB0AC_BB32
    ensures T.UpdateByte(0xB0AC_BB32, 0x33) == 0x77B7_9C2D
  {}

  lemma Digits456()
    ensures T.UpdateByte(0x77B7_9C2D, 0x34) == 0x641C_1F5C
    ensures T.UpdateByte(0x641C_1F5C, 0x35) == 0x340A_C5E3
    ensures T.UpdateByte(0x340A_C5E3, 0x36) == 0xF68D_2C9E
  {}

  lemma Digits789()
    ensures T.UpdateByte(0xF68D_2C9E, 0x37) == 0xAFFC_9660
    ensures T.UpdateByte(0xAFFC_9660, 0x38) == 0x651F_2550
    ensures T.UpdateByte(0x651F_2550, 0x39) == 0x340B_C6D9
  {}

  lemma LoopNext(c: bv32, s: seq<byte>, i: nat)
    requires i < |s|
    ensures T.UpdateLoop(c, s[i..]) == T.UpdateLoop(T.UpdateByte(c, s[i]), s[i + 1..])
  {
    hide T.UpdateByte;
    assert s[i..][1..] == s[i + 1..];
  }

  lemma LoopEnds(c: bv32, s: seq<byte>)
    ensures T.UpdateLoop(c, s[|s|..]) == c && s[0..] == s
  {}

  lemma LoopOverDigits()
    ensures T.UpdateLoop(0xFFFF_FFFF, [0x31, 0x32, 0x33, 0x34, 0x35, 0x36, 0x37, 0x38, 0x39]) == 0x340B_C6D9
  {
    hide T.UpdateByte, T.UpdateLoop;
    var s: seq<byte> := [0x31, 0x32, 0x33, 0x34, 0x35, 0x36, 0x37, 0x38, 0x39];
    Digits123();
    Digits456();
    Digits789();
    LoopEnds(0x340B_C6D9, s);
    LoopNext(0xFFFF_FFFF, s, 0);
    LoopNext(0x7C23_1048, s, 1);
    LoopNext(0xB0AC_BB32, s, 2);
    LoopNext(0x77B7_9C2D, s, 3);
    LoopNext(0x641C_1F5C, s, 4);
    LoopNext(0x340A_C5E3, s, 5);
    LoopNext(0xF68D_2C9E, s, 6);
    LoopNext(0xAFFC_9660, s, 7);
    LoopNext(0x651F_2550, s, 8);
  }

  lemma BytesOf(r: bv32, s: seq<byte>)
    requires |s| == 4
    requires ((r ^ 0xFFFF_FFFF) >> 24) & 0xFF == s[0] as bv32 && ((r ^ 0xFFFF_FFFF) >> 16) & 0xFF == s[1] as bv32
    requires ((r ^ 0xFFFF_FFFF) >> 8) & 0xFF == s[2] as bv32 && (r ^ 0xFFFF_FFFF) & 0xFF == s[3] as bv32
    ensures Bytes(T.Xor(r, 0xFFFF_FFFF)) == s
  {}

  /** The check value of CRC-32: the checksum of the digits "123456789". */
  lemma CheckValue()
    ensures ChecksumIEEE([0x31, 0x32, 0x33, 0x34, 0x35, 0x36, 0x37, 0x38, 0x39]) == 0xCBF4_3926
  {
    hide T.UpdateLoop, BigEndian.Get, Bytes;
    T.ChecksumIsReference([0x31, 0x32, 0x33, 0x34, 0x35, 0x36, 0x37, 0x38, 0x39]);
    LoopOverDigits();
    BytesOf(0x340B_C6D9, [0xCB, 0xF4, 0x39, 0x26]);
    BigEndian.GetFour([0xCB, 0xF4, 0x39, 0x26]);
  }

  lemma EmptyRecordBytes()
    ensures T.UpdateByte(0xFFFF_FFFF, 0x01) == 0x5AFA_20E4
    ensures T.UpdateByte(0x5AFA_20E4, 0x00) == 0xA73D_DC41
    ensures T.UpdateByte(0xA73D_DC41, 0x00) == 0x017C_4CDA
    ensures T.UpdateByte(0x017C_4CDA, 0x00) == 0x6607_4786
    ensures T.UpdateByte(0x6607_4786, 0x00) == 0x04BD_2152
  {}

  lemma LoopOverEmptyRecord()
    ensures T.UpdateLoop(0xFFFF_FFFF, [0x01, 0x00, 0x00, 0x00, 0x00]) == 0x04BD_2152
  {
    hide T.UpdateByte, T.UpdateLoop;
    var s: seq<byte> := [0x01, 0x00, 0x00, 0x00, 0x00];
    EmptyRecordBytes();
    LoopEnds(0x04BD_2152, s);
    LoopNext(0xFFFF_FFFF, s, 0);
    LoopNext(0x5AFA_20E4, s, 1);
    LoopNext(0xA73D_DC41, s, 2);
    LoopNext(0x017C_4CDA, s, 3);
    LoopNext(0x6607_4786, s, 4);
  }

  /** The checksum of the record that adds the empty item. */
  lemma EmptyRecordChecksum()
    ensures ChecksumIEEE([0x01, 0x00, 0x00, 0x00, 0x00]) == 0xFB42_DEAD
  {
    hide T.UpdateLoop, BigEndian.Get, Bytes;
    T.ChecksumIsReference([0x01, 0x00, 0x00, 0x00, 0x00]);
    LoopOverEmptyRecord();
    BytesOf(0x04BD_2152, [0xFB, 0x42, 0xDE, 0xAD]);
    BigEndian.GetFour([0xFB, 0x42, 0xDE, 0xAD]);
  }

  /** The record that adds the empty item, byte for byte. */
  lemma EmptyRecord()
    ensures Records.EncodeRecord(StoreRuns.AddRecord([])) == [0x01, 0, 0, 0, 0, 0xFB, 0x42, 0xDE, 0xAD]
  {
    hide BigEndian.Put, BigEndian.Get, ChecksumIEEE;
    BigEndian.GetFour([0, 0, 0, 0]);
    BigEndian.PutGet([0, 0, 0, 0]);
    BigEndian.GetFour([0xFB, 0x42, 0xDE, 0xAD]);
    BigEndian.PutGet([0xFB, 0x42, 0xDE, 0xAD]);
    EmptyRecordChecksum();
    assert Records.Covered(StoreRuns.AddRecord([])) == [0x01, 0, 0, 0, 0];
  }
}
