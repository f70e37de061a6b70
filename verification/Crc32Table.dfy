/** The bit-serial CRC-32 is the table-driven one of the reference code in section 8 of RFC 1952. */
module Crc32Table {
  import opened Bits
  import opened Crc32
  import BigEndian

  function ShiftN(x: bv32, n: nat): bv32
    decreases n, x
  {
    if n == 0 then x else ShiftN(Shift(x), n - 1)
  }

  /** Entry `n` of the table: eight shifts. */
  function Table(n: bv32): bv32 {
    ShiftN(n, 8)
  }

  function Xor(x: bv32, y: bv32): bv32 {
    x ^ y
  }

  function Low(c: bv32): bv32 {
    c & 0xFF
  }

  function Wide(b: byte): bv32 {
    b as bv32
  }

  /** One byte: the table entry selected by the low byte of the register XOR the byte, XOR the shifted register. */
  function UpdateByte(c: bv32, b: byte): bv32 {
    Xor(Table(Low(Xor(c, Wide(b)))), c >> 8)
  }

  /** The loop inside `update_crc`. */
  function UpdateLoop(c: bv32, s: seq<byte>): bv32
    decreases |s|, c
  {
    if |s| == 0 then c else UpdateLoop(UpdateByte(c, s[0]), s[1..])
  }

  // ---------------------------------------------------------------- shifting past bits that wait above

  lemma RawXor(x: bv32, h: bv32, c: bv32)
    ensures (x ^ h) >> 1 == (x >> 1) ^ (h >> 1)
    ensures (x ^ h) & 1 == (x & 1) ^ (h & 1) && (x & 1) ^ 0 == x & 1
    ensures (x ^ h) ^ c == (x ^ c) ^ h && x ^ 0 == x
  {}

  lemma RawAssoc(x: bv32, h: bv32, c: bv32)
    ensures (x ^ h) ^ c == x ^ (h ^ c)
  {}

  lemma XorAssoc(x: bv32, h: bv32, c: bv32)
    ensures Xor(Xor(x, h), c) == Xor(x, Xor(h, c))
  {
    RawAssoc(x, h, c);
  }

  /** The laws of XOR used below. */
  lemma XorLaws(x: bv32, h: bv32, c: bv32)
    ensures Xor(x, h) >> 1 == Xor(x >> 1, h >> 1)
    ensures h & 1 == 0 ==> Xor(x, h) & 1 == x & 1
    ensures Xor(Xor(x, h), c) == Xor(Xor(x, c), h) && Xor(x, 0) == x
  {
    RawXor(x, h, c);
  }

  lemma ShiftIsXor(r: bv32)
    ensures Shift(r) == Xor(r >> 1, if r & 1 == 1 then POLY else 0)
  {}

  /** An even part passes through a step unchanged but for its place. */
  lemma EvenPasses(x: bv32, h: bv32)
    requires h & 1 == 0
    ensures Shift(Xor(x, h)) == Xor(Shift(x), h >> 1)
  {
    hide Xor, Shift;
    ShiftIsXor(x);
    ShiftIsXor(Xor(x, h));
    XorLaws(x, h, 0);
    XorLaws(x >> 1, h >> 1, if x & 1 == 1 then POLY else 0);
  }

  /** The low `n` bits of `h` are clear and `h >> n` is `t`. */
  predicate Above(h: bv32, n: nat, t: bv32)
    decreases n, h
  {
    if n == 0 then h == t else h & 1 == 0 && Above(h >> 1, n - 1, t)
  }

  lemma {:induction false} HighPartPasses(x: bv32, h: bv32, n: nat, t: bv32)
    requires Above(h, n, t)
    ensures ShiftN(Xor(x, h), n) == Xor(ShiftN(x, n), t)
    decreases n
  {
    hide Shift, Xor;
    if n == 0 {
    } else {
      EvenPasses(x, h);
      HighPartPasses(Shift(x), h >> 1, n - 1, t);
    }
  }

  /** `bits` are the bits of `w`, least significant first. */
  predicate Spells(w: bv32, bits: seq<bool>)
    decreases |bits|, w
  {
    if |bits| == 0 then w == 0 else bits[0] == (w & 1 == 1) && Spells(w >> 1, bits[1..])
  }

  /** `w` with its lowest bit cleared. */
  function Upper(w: bv32): bv32 {
    w & 0xFFFF_FFFE
  }

  lemma FeedBitIsXor(r: bv32, b: bool)
    ensures FeedBit(r, b) == Shift(Xor(r, if b then 1 else 0))
  {
    hide Shift;
    XorLaws(r, 0, 0);
  }

  lemma LowBitValue(w: bv32)
    ensures w & 1 == 0 || w & 1 == 1
    ensures Upper(w) >> 1 == w >> 1 && Upper(w) & 1 == 0
  {}

  lemma LowAndUpper(w: bv32)
    ensures Xor(w & 1, Upper(w)) == w
  {}

  lemma XorLow(r: bv32, w: bv32)
    ensures Xor(Xor(r, w & 1), Upper(w)) == Xor(r, w)
  {
    hide Xor, Upper;
    XorAssoc(r, w & 1, Upper(w));
    LowAndUpper(w);
  }

  lemma FeedLow(r: bv32, w: bv32, b: bool)
    requires b == (w & 1 == 1)
    ensures FeedBit(r, b) == Shift(Xor(r, w & 1)) && Xor(Xor(r, w & 1), Upper(w)) == Xor(r, w)
    ensures Upper(w) >> 1 == w >> 1 && Upper(w) & 1 == 0
  {
    hide Shift, Xor, Upper, FeedBit;
    FeedBitIsXor(r, b);
    LowBitValue(w);
    XorLow(r, w);
  }

  lemma XorNothing(r: bv32)
    ensures Xor(r, 0) == r
  {
    XorLaws(r, 0, 0);
  }

  /** Feeding the bits one by one is XORing them all in first and then shifting. */
  lemma {:induction false} FeedPulled(r: bv32, w: bv32, bits: seq<bool>)
    requires Spells(w, bits)
    ensures Feed(r, bits) == ShiftN(Xor(r, w), |bits|)
    decreases |bits|
  {
    hide Shift, Xor, FeedBit, Upper;
    if |bits| == 0 {
      XorNothing(r);
    } else {
      FeedLow(r, w, bits[0]);
      EvenPasses(Xor(r, w & 1), Upper(w));
      FeedPulled(FeedBit(r, bits[0]), w >> 1, bits[1..]);
    }
  }

  // ---------------------------------------------------------------- one byte

  function ByteBits(b: byte): (bits: seq<bool>)
    ensures |bits| == 8
  {
    [b & 1 != 0, b & 2 != 0, b & 4 != 0, b & 8 != 0, b & 16 != 0, b & 32 != 0, b & 64 != 0, b & 128 != 0]
  }

  lemma MaskIsBit(b: byte, p: nat)
    requires p < 8
    ensures ByteBits(b)[p] == BitOf(b, p)
  {}

  lemma ByteBitsAreBits(b: byte)
    ensures BitsOf([b]) == ByteBits(b)
  {
    var x, y := BitsOf([b]), ByteBits(b);
    forall p: nat | p < 8 ensures x[p] == y[p] {
      assert x[p] == GetBit([b], p);
      MaskIsBit(b, p);
    }
  }

  lemma FourBits(b: byte)
    ensures var bits := ByteBits(b);
            bits[4..] == [b & 16 != 0, b & 32 != 0, b & 64 != 0, b & 128 != 0]
            && bits[0] == (b & 1 != 0) && bits[1] == (b & 2 != 0) && bits[2] == (b & 4 != 0) && bits[3] == (b & 8 != 0)
  {}

  lemma FourMore(w: bv32, bits: seq<bool>)
    requires |bits| == 8 && Spells(w >> 4, bits[4..])
    requires (w >> 1) >> 1 == w >> 2 && (w >> 2) >> 1 == w >> 3 && (w >> 3) >> 1 == w >> 4
    requires bits[0] == (w & 1 == 1) && bits[1] == ((w >> 1) & 1 == 1)
    requires bits[2] == ((w >> 2) & 1 == 1) && bits[3] == ((w >> 3) & 1 == 1)
    ensures Spells(w, bits)
  {
    assert bits[1..][1..] == bits[2..] && bits[2..][1..] == bits[3..] && bits[3..][1..] == bits[4..];
    assert Spells(w >> 3, bits[3..]);
    assert Spells(w >> 2, bits[2..]);
    assert Spells(w >> 1, bits[1..]);
  }

  lemma LowSpells(b: byte)
    ensures var w := b as bv32;
            ((w >> 1) >> 1 == w >> 2) && ((w >> 2) >> 1 == w >> 3) && ((w >> 3) >> 1 == w >> 4)
            && (b & 1 != 0 <==> w & 1 == 1) && (b & 2 != 0 <==> (w >> 1) & 1 == 1)
            && (b & 4 != 0 <==> (w >> 2) & 1 == 1) && (b & 8 != 0 <==> (w >> 3) & 1 == 1)
  {}

  lemma HighBits(b: byte)
    ensures var w := (b as bv32) >> 4;
            ((w >> 1) >> 1 == w >> 2) && ((w >> 2) >> 1 == w >> 3) && ((w >> 3) >> 1 == 0)
            && (b & 16 != 0 <==> w & 1 == 1) && (b & 32 != 0 <==> (w >> 1) & 1 == 1)
            && (b & 64 != 0 <==> (w >> 2) & 1 == 1) && (b & 128 != 0 <==> (w >> 3) & 1 == 1)
  {}

  lemma TopSpells(w: bv32, bits: seq<bool>, b: byte)
    requires w == (b as bv32) >> 4 && bits == [b & 16 != 0, b & 32 != 0, b & 64 != 0, b & 128 != 0]
    ensures Spells(w, bits)
  {
    HighBits(b);
    assert bits[1..][1..] == bits[2..] && bits[2..][1..] == bits[3..] && bits[3..][1..] == [];
    assert Spells(0, []);
    assert Spells(w >> 3, bits[3..]);
    assert Spells(w >> 2, bits[2..]);
    assert Spells(w >> 1, bits[1..]);
  }

  lemma ByteSpells(b: byte)
    ensures Spells(Wide(b), ByteBits(b))
  {
    hide ByteBits;
    var bits, w := ByteBits(b), b as bv32;
    FourBits(b);
    TopSpells(w >> 4, bits[4..], b);
    LowSpells(b);
    FourMore(w, bits);
  }

  lemma EightSteps(h: bv32)
    requires h & 0xFF == 0
    ensures (((((((h >> 1) >> 1) >> 1) >> 1) >> 1) >> 1) >> 1) >> 1 == h >> 8
    ensures h & 1 == 0 && (h >> 1) & 1 == 0 && ((h >> 1) >> 1) & 1 == 0 && (((h >> 1) >> 1) >> 1) & 1 == 0
    ensures ((((h >> 1) >> 1) >> 1) >> 1) & 1 == 0 && (((((h >> 1) >> 1) >> 1) >> 1) >> 1) & 1 == 0
    ensures ((((((h >> 1) >> 1) >> 1) >> 1) >> 1) >> 1) & 1 == 0 &&
            (((((((h >> 1) >> 1) >> 1) >> 1) >> 1) >> 1) >> 1) & 1 == 0
  {}

  lemma AboveEight(h: bv32)
    requires h & 0xFF == 0
    ensures Above(h, 8, h >> 8)
  {
    var t := h >> 8;
    EightSteps(h);
    assert Above((((((((h >> 1) >> 1) >> 1) >> 1) >> 1) >> 1) >> 1) >> 1, 0, t);
    assert Above(((((((h >> 1) >> 1) >> 1) >> 1) >> 1) >> 1) >> 1, 1, t);
    assert Above((((((h >> 1) >> 1) >> 1) >> 1) >> 1) >> 1, 2, t);
    assert Above(((((h >> 1) >> 1) >> 1) >> 1) >> 1, 3, t);
    assert Above((((h >> 1) >> 1) >> 1) >> 1, 4, t);
    assert Above(((h >> 1) >> 1) >> 1, 5, t);
    assert Above((h >> 1) >> 1, 6, t);
    assert Above(h >> 1, 7, t);
  }

  /** The bytes of `c` above the lowest. */
  function Rest(c: bv32): bv32 {
    c & 0xFFFF_FF00
  }

  lemma LowAndRest(z: bv32)
    ensures Xor(Low(z), Rest(z)) == z
  {}

  lemma RawRest(c: bv32, w: bv32)
    ensures (c ^ w) & 0xFFFF_FF00 == (c & 0xFFFF_FF00) ^ (w & 0xFFFF_FF00)
  {}

  lemma RestOfXor(c: bv32, w: bv32)
    requires Rest(w) == 0
    ensures Rest(Xor(c, w)) == Rest(c)
  {
    RawRest(c, w);
    XorLaws(Rest(c), 0, 0);
  }

  lemma SplitAtByte(c: bv32, w: bv32)
    requires Rest(w) == 0
    ensures Xor(Low(Xor(c, w)), Rest(c)) == Xor(c, w)
  {
    hide Xor, Rest, Low;
    RestOfXor(c, w);
    LowAndRest(Xor(c, w));
  }

  lemma RawRestAbove(c: bv32)
    ensures Rest(c) & 0xFF == 0 && Rest(c) >> 8 == c >> 8
  {}

  lemma RestAbove(c: bv32)
    ensures Above(Rest(c), 8, c >> 8)
  {
    RawRestAbove(c);
    AboveEight(Rest(c));
  }

  lemma ByteIsSmall(b: byte)
    ensures Rest(Wide(b)) == 0
  {}

  lemma FeedByte(c: bv32, b: byte)
    ensures Feed(c, BitsOf([b])) == UpdateByte(c, b)
  {
    hide Shift, ShiftN, Feed, Spells, Above, ByteBits, Xor, BitsOf, Rest, Wide, Low;
    var w := Wide(b);
    ByteBitsAreBits(b);
    ByteSpells(b);
    FeedPulled(c, w, ByteBits(b));
    ByteIsSmall(b);
    SplitAtByte(c, w);
    RestAbove(c);
    HighPartPasses(Low(Xor(c, w)), Rest(c), 8, c >> 8);
  }

  // ---------------------------------------------------------------- whole messages

  lemma {:induction false} FeedAppends(r: bv32, a: seq<bool>, b: seq<bool>)
    ensures Feed(r, a + b) == Feed(Feed(r, a), b)
    decreases |a|
  {
    hide FeedBit;
    if |a| == 0 {
      assert a + b == b;
    } else {
      FeedAppends(FeedBit(r, a[0]), a[1..], b);
      assert (a + b)[1..] == a[1..] + b;
    }
  }

  lemma BitsOfCons(s: seq<byte>)
    requires |s| > 0
    ensures BitsOf(s) == BitsOf([s[0]]) + BitsOf(s[1..])
  {
    var x, y := BitsOf(s), BitsOf([s[0]]) + BitsOf(s[1..]);
    forall p: nat | p < 8 * |s| ensures x[p] == y[p] {
      if p >= 8 {
        assert GetBit(s[1..], p - 8) == GetBit(s, p);
      } else {
        assert GetBit([s[0]], p) == GetBit(s, p);
      }
    }
  }

  /** The register fed bit by bit is the one of the table-driven loop. */
  lemma {:induction false} FeedIsTableLoop(c: bv32, s: seq<byte>)
    ensures Feed(c, BitsOf(s)) == UpdateLoop(c, s)
    decreases |s|
  {
    hide UpdateByte, FeedBit;
    if |s| == 0 {
      assert BitsOf(s) == [];
    } else {
      BitsOfCons(s);
      FeedAppends(c, BitsOf([s[0]]), BitsOf(s[1..]));
      FeedByte(c, s[0]);
      FeedIsTableLoop(UpdateByte(c, s[0]), s[1..]);
    }
  }

  const ONES: bv32 := 0xFFFF_FFFF

  /** `update_crc`: the loop between a conditioning of the register before and after it. */
  function UpdateCrc(crc: bv32, s: seq<byte>): bv32 {
    Xor(UpdateLoop(Xor(crc, ONES), s), ONES)
  }

  /** The checksum of a whole message: an update that starts from zero. */
  function ReferenceCrc(s: seq<byte>): bv32 {
    UpdateCrc(0, s)
  }

  lemma ZeroXor(x: bv32)
    ensures Xor(0, x) == x
  {}

  lemma RegisterIsXor(s: seq<byte>)
    ensures Register(s) == Xor(Feed(ONES, BitsOf(s)), ONES)
  {
    hide Feed, BitsOf;
  }

  /** ChecksumIEEE is the reference code's checksum. */
  lemma ChecksumIsReference(s: seq<byte>)
    ensures ChecksumIEEE(s) == BigEndian.Get(Bytes(ReferenceCrc(s)))
  {
    hide Bytes, BigEndian.Get, UpdateLoop, Register, Xor, Feed, BitsOf;
    RegisterIsXor(s);
    FeedIsTableLoop(ONES, s);
    ZeroXor(ONES);
  }

  // ---------------------------------------------------------------- the residue

  lemma {:induction false} LoopAppends(c: bv32, s: seq<byte>, t: seq<byte>)
    ensures UpdateLoop(c, s + t) == UpdateLoop(UpdateLoop(c, s), t)
    decreases |s|
  {
    hide UpdateByte;
    if |s| == 0 {
      assert s + t == t;
    } else {
      LoopAppends(UpdateByte(c, s[0]), s[1..], t);
      assert (s + t)[1..] == s[1..] + t;
    }
  }

  function Down(x: bv32): bv32 {
    x >> 8
  }

  /** The low byte of `x`, complemented. */
  function Flipped(x: bv32): bv32 {
    (x & 0xFF) ^ 0xFF
  }

  lemma ResidueXor(k: bv32, x: bv32)
    ensures Low(Xor(Xor(k, x), Flipped(x))) == Flipped(k) && Xor(k, x) >> 8 == Xor(Down(k), Down(x))
  {}

  /** A register made of `k` and of the rest `x` of the register before, fed the complement of the low byte of
      `x`: the byte cancels, and what is left of `x` moves down. */
  lemma ResidueStep(k: bv32, x: bv32, b: byte)
    requires Wide(b) == Flipped(x)
    ensures UpdateByte(Xor(k, x), b) == Xor(Xor(Table(Flipped(k)), Down(k)), Down(x))
  {
    hide Table, Xor, Low, Wide, Flipped, Down;
    ResidueXor(k, x);
    XorAssoc(Table(Flipped(k)), Down(k), Down(x));
  }

  /** The bytes of the complement of `r`, lowest first. */
  function Complement(r: bv32): (s: seq<byte>)
    ensures |s| == 4
  {
    var c := Bytes(Xor(r, ONES));
    [c[3], c[2], c[1], c[0]]
  }

  lemma ComplementBytes(r: bv32)
    ensures Wide(Complement(r)[0]) == Flipped(r)
    ensures Wide(Complement(r)[1]) == Flipped(Down(r))
    ensures Wide(Complement(r)[2]) == Flipped(Down(Down(r)))
    ensures Wide(Complement(r)[3]) == Flipped(Down(Down(Down(r))))
  {}

  lemma TableValues()
    ensures Table(0xFF) == 0x2D02_EF8D && Table(0x72) == 0xBE0B_1010 && Table(0) == 0 && Table(0xED) == 0xDEBB_9EC5
  {}

  lemma ResidueValues()
    ensures Xor(Table(Flipped(0)), Down(0)) == 0x2D02_EF8D
    ensures Xor(Table(Flipped(0x2D02_EF8D)), Down(0x2D02_EF8D)) == 0xBE26_12FF
    ensures Xor(Table(Flipped(0xBE26_12FF)), Down(0xBE26_12FF)) == 0x00BE_2612
    ensures Xor(Table(Flipped(0x00BE_2612)), Down(0x00BE_2612)) == 0xDEBB_20E3
  {
    hide Table;
    TableValues();
  }

  lemma NothingLeft(k: bv32, r: bv32)
    ensures Xor(0, r) == r && Xor(k, Down(Down(Down(Down(r))))) == k
  {}

  lemma LoopFour(r: bv32, s: seq<byte>)
    requires |s| == 4
    ensures UpdateLoop(r, s) == UpdateByte(UpdateByte(UpdateByte(UpdateByte(r, s[0]), s[1]), s[2]), s[3])
  {
    hide UpdateByte;
    var a := UpdateByte(r, s[0]);
    var b := UpdateByte(a, s[1]);
    var c := UpdateByte(b, s[2]);
    assert s[1..][1..] == s[2..] && s[2..][1..] == s[3..] && s[3..][1..] == [];
    assert UpdateLoop(r, s) == UpdateLoop(a, s[1..]) && UpdateLoop(a, s[1..]) == UpdateLoop(b, s[2..]);
    assert UpdateLoop(b, s[2..]) == UpdateLoop(c, s[3..]) && UpdateLoop(c, s[3..]) == UpdateByte(c, s[3]);
  }

  lemma ComplementLeavesResidue(r: bv32)
    ensures UpdateLoop(r, Complement(r)) == 0xDEBB_20E3
  {
    hide Table, UpdateByte, UpdateLoop, Complement, Xor, Down, Flipped, Wide;
    var s := Complement(r);
    ComplementBytes(r);
    ResidueValues();
    NothingLeft(0xDEBB_20E3, r);
    LoopFour(r, s);
    ResidueStep(0, r, s[0]);
    ResidueStep(0x2D02_EF8D, Down(r), s[1]);
    ResidueStep(0xBE26_12FF, Down(Down(r)), s[2]);
    ResidueStep(0x00BE_2612, Down(Down(Down(r))), s[3]);
  }

  lemma ChecksumBytes(s: seq<byte>)
    ensures BigEndian.Put(ChecksumIEEE(s), 4) == Bytes(Xor(Feed(ONES, BitsOf(s)), ONES))
  {
    hide Bytes, Register, Feed, BitsOf, Xor, BigEndian.Put, BigEndian.Get;
    RegisterIsXor(s);
    BigEndian.PutGet(Bytes(Register(s)));
  }

  /** For every message, feeding it and then the four bytes of its checksum, lowest first, leaves the register
      at the residue of CRC-32. */
  lemma Residue(s: seq<byte>)
    ensures var c := BigEndian.Put(ChecksumIEEE(s), 4);
            Feed(0xFFFF_FFFF, BitsOf(s + [c[3], c[2], c[1], c[0]])) == 0xDEBB_20E3
  {
    hide UpdateLoop, Feed, BitsOf, Bytes, Xor, BigEndian.Put, BigEndian.Get, ChecksumIEEE;
    var r := Feed(ONES, BitsOf(s));
    ChecksumBytes(s);
    FeedIsTableLoop(ONES, s);
    FeedIsTableLoop(ONES, s + Complement(r));
    LoopAppends(ONES, s, Complement(r));
    ComplementLeavesResidue(r);
  }
}
