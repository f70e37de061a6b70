/** Bytes, the bits inside them, and fixed-width fields of bits inside a byte sequence. */
module Bits {

  type byte = bv8

  /** What the filters hold: any byte string. */
  type Item = seq<byte>

  const TWO32: nat := 0x1_0000_0000
  const TWO64: nat := 0x1_0000_0000_0000_0000

  function Pow2(n: nat): (r: nat)
    ensures r > 0
  {
    if n == 0 then 1 else 2 * Pow2(n - 1)
  }

  // ---------------------------------------------------------------- one byte

  /** The byte in which only bit `i` is set. */
  function Mask(i: nat): byte
    requires i < 8
  {
    if i == 0 then 1 else if i == 1 then 2 else if i == 2 then 4 else if i == 3 then 8
    else if i == 4 then 16 else if i == 5 then 32 else if i == 6 then 64 else 128
  }

  predicate BitOf(b: byte, i: nat)
    requires i < 8
  {
    b & Mask(i) != 0
  }

  /** A byte is determined by its eight bits. */
  lemma ByteExtensional(a: byte, b: byte)
    requires forall i: nat | i < 8 :: BitOf(a, i) == BitOf(b, i)
    ensures a == b
  {
    assert BitOf(a, 0) == BitOf(b, 0) && BitOf(a, 1) == BitOf(b, 1) && BitOf(a, 2) == BitOf(b, 2) &&
           BitOf(a, 3) == BitOf(b, 3);
    assert BitOf(a, 4) == BitOf(b, 4) && BitOf(a, 5) == BitOf(b, 5) && BitOf(a, 6) == BitOf(b, 6) &&
           BitOf(a, 7) == BitOf(b, 7);
  }

  // ---------------------------------------------------------------- bits of a byte sequence

  /** Bit `p` of `s`, least significant bit of each byte first; false outside `s`. */
  predicate GetBit(s: seq<byte>, p: nat) {
    p / 8 < |s| && BitOf(s[p / 8], p % 8)
  }

  /** `s` with bit `p` set or cleared; `s` itself when `p` is outside. */
  function PutBit(s: seq<byte>, p: nat, on: bool): (r: seq<byte>)
    ensures |r| == |s|
  {
    if p / 8 >= |s| then s
    else s[p / 8 := if on then s[p / 8] | Mask(p % 8) else s[p / 8] & !Mask(p % 8)]
  }

  lemma MaskSelects(b: byte, i: nat, j: nat)
    requires i < 8 && j < 8
    ensures BitOf(b | Mask(i), j) == (i == j || BitOf(b, j))
    ensures BitOf(b & !Mask(i), j) == (i != j && BitOf(b, j))
  {}

  lemma GetPutBit(s: seq<byte>, p: nat, on: bool, q: nat)
    ensures GetBit(PutBit(s, p, on), q) == if q == p && p / 8 < |s| then on else GetBit(s, q)
  {
    hide Mask, BitOf;
    if p / 8 < |s| && q / 8 == p / 8 {
      MaskSelects(s[p / 8], p % 8, q % 8);
    }
  }

  /** Two byte sequences of one length with the same bits are equal. */
  lemma BitsExtensional(s: seq<byte>, t: seq<byte>)
    requires |s| == |t|
    requires forall p: nat | p < 8 * |s| :: GetBit(s, p) == GetBit(t, p)
    ensures s == t
  {
    forall i | 0 <= i < |s| ensures s[i] == t[i] {
      forall j: nat | j < 8 ensures BitOf(s[i], j) == BitOf(t[i], j) {
        assert GetBit(s, 8 * i + j) == GetBit(t, 8 * i + j);
      }
      ByteExtensional(s[i], t[i]);
    }
  }

  function Zeros(n: nat): (s: seq<byte>)
    ensures |s| == n
  {
    seq(n, _ => 0)
  }

  lemma ZerosClear(n: nat, p: nat)
    ensures !GetBit(Zeros(n), p)
  {
    if p / 8 < n {
      assert Zeros(n)[p / 8] == 0;
    }
  }

  // ---------------------------------------------------------------- fields

  /** The number held by the `n` bits of `s` from bit `off` on, least significant first. */
  function ReadBits(s: seq<byte>, off: nat, n: nat): (v: nat)
    ensures v < Pow2(n)
    decreases n, s
  {
    if n == 0 then 0
    else (if GetBit(s, off) then 1 else 0) + 2 * ReadBits(s, off + 1, n - 1)
  }

  /** `s` with the low `n` bits of `v` stored from bit `off` on. */
  function WriteBits(s: seq<byte>, off: nat, n: nat, v: nat): (r: seq<byte>)
    ensures |r| == |s|
    decreases n, s
  {
    if n == 0 then s
    else WriteBits(PutBit(s, off, v % 2 == 1), off + 1, n - 1, v / 2)
  }

  predicate NatBit(v: nat, i: nat) {
    if i == 0 then v % 2 == 1 else NatBit(v / 2, i - 1)
  }

  /** A write changes exactly the bits of its field. */
  lemma {:induction false} GetWriteBits(s: seq<byte>, off: nat, n: nat, v: nat, q: nat)
    ensures GetBit(WriteBits(s, off, n, v), q) ==
            if off <= q < off + n && q / 8 < |s| then NatBit(v, q - off) else GetBit(s, q)
    decreases n
  {
    if n == 0 {
    } else {
      var s1 := PutBit(s, off, v % 2 == 1);
      GetPutBit(s, off, v % 2 == 1, q);
      GetWriteBits(s1, off + 1, n - 1, v / 2, q);
    }
  }

  lemma MulAtLeast(d: int, k: int)
    requires d > 0 && k > 0
    ensures d * k >= d
  {}

  lemma ModUnique(v: int, d: int, q: int, r: int)
    requires d > 0 && 0 <= r < d && v == d * q + r
    ensures v % d == r && v / d == q
  {
    var q', r' := v / d, v % d;
    if q' < q {
      MulAtLeast(d, q - q');
    } else if q < q' {
      MulAtLeast(d, q' - q);
    }
    assert d * (q - q') == r' - r;
  }

  lemma {:induction false} ModPow2Step(v: nat, n: nat)
    ensures v % Pow2(n + 1) == v % 2 + 2 * (v / 2 % Pow2(n))
  {
    var p := Pow2(n);
    var q, r := v / 2 / p, v / 2 % p;
    assert v == Pow2(n + 1) * q + (v % 2 + 2 * r) by {
      assert v / 2 == p * q + r;
      assert Pow2(n + 1) * q == 2 * (p * q);
    }
    ModUnique(v, Pow2(n + 1), q, v % 2 + 2 * r);
  }

  lemma MulOrder(a: nat, b: nat, c: nat)
    ensures a <= b ==> a * c <= b * c
  {}

  lemma {:induction false} Pow2Split(r: nat, n: nat)
    requires r <= n
    ensures Pow2(r) * Pow2(n - r) == Pow2(n)
    decreases r
  {
    if r == 0 {
    } else {
      Pow2Split(r - 1, n - 1);
      assert Pow2(r) * Pow2(n - r) == 2 * (Pow2(r - 1) * Pow2(n - r));
    }
  }

  /** A field reads as `v mod 2^n` once its bits are those of `v`. */
  lemma {:induction false} ReadBitsOf(s: seq<byte>, off: nat, n: nat, v: nat)
    requires forall i: nat | i < n :: GetBit(s, off + i) == NatBit(v, i)
    ensures ReadBits(s, off, n) == v % Pow2(n)
    decreases n
  {
    if n == 0 {
    } else {
      forall i: nat | i < n - 1 ensures GetBit(s, off + 1 + i) == NatBit(v / 2, i) {
        assert GetBit(s, off + (i + 1)) == NatBit(v, i + 1);
      }
      ReadBitsOf(s, off + 1, n - 1, v / 2);
      assert GetBit(s, off + 0) == NatBit(v, 0);
      ModPow2Step(v, n - 1);
    }
  }

  /** The bits of a field are the bits of the number it holds. */
  lemma {:induction false} NatBitReadBits(s: seq<byte>, off: nat, n: nat, i: nat)
    requires i < n
    ensures NatBit(ReadBits(s, off, n), i) == GetBit(s, off + i)
    decreases n
  {
    if i == 0 {
    } else {
      NatBitReadBits(s, off + 1, n - 1, i - 1);
    }
  }

  /** Read after write, for a field inside `s`. */
  lemma ReadWriteBits(s: seq<byte>, off: nat, n: nat, v: nat)
    requires off + n <= 8 * |s|
    ensures ReadBits(WriteBits(s, off, n, v), off, n) == v % Pow2(n)
  {
    forall i: nat | i < n
      ensures GetBit(WriteBits(s, off, n, v), off + i) == NatBit(v, i)
    {
      GetWriteBits(s, off, n, v, off + i);
    }
    ReadBitsOf(WriteBits(s, off, n, v), off, n, v);
  }

  /** A field depends on its own bits only. */
  lemma {:induction false} ReadBitsSame(s: seq<byte>, t: seq<byte>, off: nat, n: nat)
    requires forall q: nat | off <= q < off + n :: GetBit(s, q) == GetBit(t, q)
    ensures ReadBits(s, off, n) == ReadBits(t, off, n)
    decreases n
  {
    if n == 0 {
    } else {
      ReadBitsSame(s, t, off + 1, n - 1);
    }
  }

  // ---------------------------------------------------------------- numeric value of a byte

  /** The unsigned value of a byte. */
  function Val(b: byte): (n: nat)
    ensures n < 256
  {
    ReadBits([b], 0, 8)
  }

  /** The byte holding `n mod 256`. */
  function ByteOf(n: nat): (b: byte)
    ensures Val(b) == n % 256
  {
    ReadWriteBits([0], 0, 8, n);
    var w := WriteBits([0], 0, 8, n);
    assert w == [w[0]];
    w[0]
  }

  lemma ValBit(b: byte, i: nat)
    requires i < 8
    ensures NatBit(Val(b), i) == BitOf(b, i)
  {
    NatBitReadBits([b], 0, 8, i);
    assert GetBit([b], i) == BitOf(b, i);
  }

  lemma ValInjective(a: byte, b: byte)
    requires Val(a) == Val(b)
    ensures a == b
  {
    forall i: nat | i < 8 ensures BitOf(a, i) == BitOf(b, i) {
      ValBit(a, i);
      ValBit(b, i);
    }
    ByteExtensional(a, b);
  }

  /** Bit `i` of a byte is the lowest bit after shifting it down `i` places. */
  lemma BitIsShift(b: byte, i: nat)
    requires i < 8
    ensures BitOf(b, i) <==> (b >> i) & 1 == 1
  {}

  lemma HalfByte(b: byte)
    ensures b as nat == (if b & 1 == 1 then 1 else 0) + 2 * ((b >> 1) as nat)
  {}

  lemma ShiftOnce(b: byte, i: nat)
    requires i < 8
    ensures (b >> i) >> 1 == b >> (i + 1)
  {}


  /** The byte without its low `i` bits, as a number. */
  function Shifted(b: byte, i: nat): nat
    requires i <= 8
  {
    (b >> i) as nat
  }

  lemma ShiftedEnds(b: byte)
    ensures Shifted(b, 8) == 0 && Shifted(b, 0) == b as nat
  {}

  lemma ShiftedStep(b: byte, i: nat)
    requires i < 8
    ensures Shifted(b, i) == (if BitOf(b, i) then 1 else 0) + 2 * Shifted(b, i + 1)
  {
    hide BitOf;
    BitIsShift(b, i);
    HalfByte(b >> i);
    ShiftOnce(b, i);
  }

  lemma {:induction false} ReadShifted(b: byte, i: nat)
    requires i <= 8
    ensures ReadBits([b], i, 8 - i) == Shifted(b, i)
    decreases 8 - i
  {
    hide BitOf, Shifted;
    if i == 8 {
      ShiftedEnds(b);
    } else {
      ReadShifted(b, i + 1);
      ShiftedStep(b, i);
      assert GetBit([b], i) == BitOf(b, i);
    }
  }

  /** The value of a byte is the number it is. */
  lemma ValIsNumber(b: byte)
    ensures Val(b) == b as nat
  {
    hide ReadBits;
    ReadShifted(b, 0);
    ShiftedEnds(b);
  }

  // ---------------------------------------------------------------- byte sequences as numbers

  /** The bytes of `s` as a little-endian number. */
  function LittleEndian(s: seq<byte>): nat {
    if |s| == 0 then 0 else Val(s[0]) + 256 * LittleEndian(s[1..])
  }

  lemma {:induction false} NatBitZero(i: nat)
    ensures !NatBit(0, i)
  {
    if i == 0 {
    } else {
      NatBitZero(i - 1);
    }
  }

  lemma TwiceProduct(p: nat, q: nat)
    ensures 2 * p * q == 2 * (p * q)
  {}

  /** Below bit 8 a number shows its low byte, above it the rest. */
  lemma {:induction false} NatBitSplit(lo: nat, hi: nat, w: nat, i: nat)
    requires lo < Pow2(w)
    ensures NatBit(lo + Pow2(w) * hi, i) == if i < w then NatBit(lo, i) else NatBit(hi, i - w)
    decreases w
  {
    if w == 0 {
    } else {
      TwiceProduct(Pow2(w - 1), hi);
      if i == 0 {
      } else {
        NatBitSplit(lo / 2, hi, w - 1, i - 1);
        assert (lo + Pow2(w) * hi) / 2 == lo / 2 + Pow2(w - 1) * hi;
      }
    }
  }

  /** The bits of a byte sequence are those of its little-endian number. */
  lemma {:induction false} LittleEndianBit(s: seq<byte>, p: nat)
    ensures NatBit(LittleEndian(s), p) == GetBit(s, p)
  {
    hide BitOf, Val;
    if |s| == 0 {
      NatBitZero(p);
    } else {
      assert Pow2(8) == 256;
      NatBitSplit(Val(s[0]), LittleEndian(s[1..]), 8, p);
      if p < 8 {
        ValBit(s[0], p);
      } else {
        LittleEndianBit(s[1..], p - 8);
        assert (p - 8) / 8 == p / 8 - 1 && (p - 8) % 8 == p % 8;
      }
    }
  }

  function Shr(a: nat, j: nat): (r: nat)
    decreases j, a
  {
    if j == 0 then a else Shr(a / 2, j - 1)
  }

  lemma {:induction false} NatBitShift(v: nat, off: nat, i: nat)
    ensures NatBit(Shr(v, off), i) == NatBit(v, off + i)
    decreases off
  {
    if off == 0 {
    } else {
      NatBitShift(v / 2, off - 1, i);
    }
  }

  lemma HalfThenDivide(a: nat, p: nat)
    requires p > 0
    ensures a / 2 / p == a / (2 * p)
  {
    var q, r := a / 2 / p, a / 2 % p;
    TwiceProduct(p, q);
    assert a / 2 == p * q + r;
    ModUnique(a, 2 * p, q, 2 * r + a % 2);
  }

  lemma {:induction false} ShrDivides(a: nat, j: nat)
    ensures Shr(a, j) == a / Pow2(j)
    decreases j
  {
    if j == 0 {
    } else {
      ShrDivides(a / 2, j - 1);
      HalfThenDivide(a, Pow2(j - 1));
    }
  }

  /** A field of bits is a run of binary digits of the little-endian number. */
  lemma FieldIsDigits(s: seq<byte>, off: nat, n: nat)
    ensures ReadBits(s, off, n) == LittleEndian(s) / Pow2(off) % Pow2(n)
  {
    hide GetBit, Pow2, LittleEndian;
    var v := Shr(LittleEndian(s), off);
    ShrDivides(LittleEndian(s), off);
    forall i: nat | i < n ensures GetBit(s, off + i) == NatBit(v, i) {
      NatBitShift(LittleEndian(s), off, i);
      LittleEndianBit(s, off + i);
    }
    ReadBitsOf(s, off, n, v);
  }
}

/** Big-endian unsigned integers (Go's encoding/binary.BigEndian). */
module BigEndian {
  import opened Bits

  function Get(s: seq<byte>): (n: nat)
  {
    if |s| == 0 then 0 else 256 * Get(s[..|s| - 1]) + Val(s[|s| - 1])
  }

  /** `n` narrowed to `width` bytes. */
  function Put(n: nat, width: nat): (s: seq<byte>)
    ensures |s| == width
    decreases width, n
  {
    if width == 0 then [] else Put(n / 256, width - 1) + [ByteOf(n)]
  }

  function Pow256(w: nat): (r: nat)
    ensures r > 0
  {
    if w == 0 then 1 else 256 * Pow256(w - 1)
  }

  lemma {:induction false} GetBound(s: seq<byte>)
    ensures Get(s) < Pow256(|s|)
  {
    if |s| == 0 {
    } else {
      GetBound(s[..|s| - 1]);
    }
  }

  lemma ModPow256Step(n: nat, w: nat)
    ensures n % Pow256(w + 1) == 256 * (n / 256 % Pow256(w)) + n % 256
  {
    var p := Pow256(w);
    var q, r := n / 256 / p, n / 256 % p;
    assert n == 256 * p * q + (256 * r + n % 256) by {
      assert n / 256 == p * q + r;
    }
    ModUnique(n, 256 * p, q, 256 * r + n % 256);
  }

  lemma {:induction false} GetPut(n: nat, width: nat)
    ensures Get(Put(n, width)) == n % Pow256(width)
    decreases width
  {
    if width == 0 {
    } else {
      GetPut(n / 256, width - 1);
      assert Put(n, width)[..width - 1] == Put(n / 256, width - 1);
      ModPow256Step(n, width - 1);
    }
  }

  lemma {:induction false} PutGet(s: seq<byte>)
    ensures Put(Get(s), |s|) == s
  {
    hide Val, ByteOf;
    if |s| == 0 {
    } else {
      var t := s[..|s| - 1];
      PutGet(t);
      var n := Get(s);
      assert n / 256 == Get(t);
      ValInjective(ByteOf(n), s[|s| - 1]);
      assert s == t + [s[|s| - 1]];
    }
  }

  lemma GetInjective(s: seq<byte>, t: seq<byte>)
    requires |s| == |t| && Get(s) == Get(t)
    ensures s == t
  {
    PutGet(s);
    PutGet(t);
  }

  lemma {:induction false} Pow256Monotone(v: nat, w: nat)
    requires v <= w
    ensures Pow256(v) <= Pow256(w)
    decreases w
  {
    if v == w {
    } else {
      Pow256Monotone(v, w - 1);
    }
  }

  lemma {:induction false} Pow256Split(v: nat, w: nat)
    requires v <= w
    ensures Pow256(v) * Pow256(w - v) == Pow256(w)
    decreases v
  {
    if v == 0 {
    } else {
      Pow256Split(v - 1, w - 1);
      assert Pow256(v) * Pow256(w - v) == 256 * (Pow256(v - 1) * Pow256(w - v));
    }
  }

  lemma {:induction false} Pow256IsShift(w: nat)
    ensures Pow2(8 * w) == Pow256(w)
  {
    if w == 0 {
    } else {
      Pow256IsShift(w - 1);
      Pow2Split(8, 8 * w);
      assert Pow2(8) == 256;
    }
  }

  lemma Widths()
    ensures Pow256(4) == TWO32 && Pow256(8) == TWO64
  {}

  lemma GetPutExact(n: nat, width: nat)
    requires n < Pow256(width)
    ensures Get(Put(n, width)) == n
  {
    GetPut(n, width);
    ModUnique(n, Pow256(width), 0, n);
  }

  /** The inversion at the 32-bit width used by every header. */
  lemma GetPut32(n: nat)
    requires n < TWO32
    ensures Get(Put(n, 4)) == n
  {
    Widths();
    GetPutExact(n, 4);
  }

  lemma Get32Bound(s: seq<byte>)
    requires |s| == 4
    ensures Get(s) < TWO32
  {
    GetBound(s);
    Widths();
  }

  lemma DivideBy256(n: nat, p: nat)
    requires p > 0
    ensures n / 256 / p == n / (256 * p)
  {
    var q, r := n / 256 / p, n / 256 % p;
    assert 256 * p * q == 256 * (p * q);
    assert n / 256 == p * q + r;
    ModUnique(n, 256 * p, q, 256 * r + n % 256);
  }

  /** Byte `i` of a number written in `width` bytes, as a number. */
  lemma {:induction false} PutDigit(n: nat, width: nat, i: nat)
    requires i < width
    ensures Put(n, width)[i] as nat == n / Pow256(width - 1 - i) % 256
    decreases width
  {
    hide Val, ByteOf;
    if i == width - 1 {
      ValIsNumber(ByteOf(n));
    } else {
      PutDigit(n / 256, width - 1, i);
      DivideBy256(n, Pow256(width - 2 - i));
    }
  }

  /** The four bytes at `at` hold `n`, most significant first. */
  predicate Holds32(b: seq<byte>, at: nat, n: nat) {
    at + 4 <= |b|
    && b[at] as nat == n / 0x100_0000 % 256 && b[at + 1] as nat == n / 0x1_0000 % 256
    && b[at + 2] as nat == n / 0x100 % 256 && b[at + 3] as nat == n % 256
  }

  lemma PutHolds32(n: nat)
    ensures Holds32(Put(n, 4), 0, n)
  {
    hide Put;
    PutDigit(n, 4, 0);
    PutDigit(n, 4, 1);
    PutDigit(n, 4, 2);
    PutDigit(n, 4, 3);
    assert Pow256(3) == 0x100_0000 && Pow256(2) == 0x1_0000 && Pow256(1) == 0x100;
  }

  lemma Holds32At(b: seq<byte>, at: nat, n: nat)
    requires at + 4 <= |b| && b[at..at + 4] == Put(n, 4)
    ensures Holds32(b, at, n)
  {
    hide Put;
    PutHolds32(n);
    var w := b[at..at + 4];
    assert w[0] == b[at] && w[1] == b[at + 1] && w[2] == b[at + 2] && w[3] == b[at + 3];
  }

  /** The eight bytes at `at` hold `n`, most significant first. */
  predicate Holds64(b: seq<byte>, at: nat, n: nat) {
    Holds32(b, at, n / 0x1_0000_0000) && Holds32(b, at + 4, n)
  }

  lemma DividesOnce(n: nat)
    ensures n / 256 / 256 / 256 / 256 == n / 0x1_0000_0000
  {}

  /** The eight bytes of a number are those of its upper half and those of its lower half. */
  lemma PutHalves(n: nat)
    ensures Put(n, 8) == Put(n / 0x1_0000_0000, 4) + Put(n, 4)
  {
    hide ByteOf;
    var a, b, c := n / 256, n / 256 / 256, n / 256 / 256 / 256;
    DividesOnce(n);
    assert Put(n, 8) == Put(a, 7) + [ByteOf(n)] && Put(a, 7) == Put(b, 6) + [ByteOf(a)];
    assert Put(b, 6) == Put(c, 5) + [ByteOf(b)] && Put(c, 5) == Put(c / 256, 4) + [ByteOf(c)];
    assert Put(n, 4) == Put(a, 3) + [ByteOf(n)] && Put(a, 3) == Put(b, 2) + [ByteOf(a)];
    assert Put(b, 2) == Put(c, 1) + [ByteOf(b)] && Put(c, 1) == Put(c / 256, 0) + [ByteOf(c)];
  }

  lemma Holds64At(b: seq<byte>, at: nat, n: nat)
    requires at + 8 <= |b| && b[at..at + 8] == Put(n, 8)
    ensures Holds64(b, at, n)
  {
    hide Put, Holds32;
    PutHalves(n);
    assert b[at..at + 4] == b[at..at + 8][..4] && b[at + 4..at + 8] == b[at..at + 8][4..];
    Holds32At(b, at, n / 0x1_0000_0000);
    Holds32At(b, at + 4, n);
  }

  /** Four bytes read as a number. */
  lemma GetFour(s: seq<byte>)
    requires |s| == 4
    ensures Get(s) == s[0] as nat * 0x100_0000 + s[1] as nat * 0x1_0000 + s[2] as nat * 0x100 + s[3] as nat
  {
    hide Val;
    var a, b, c := s[..3], s[..2], s[..1];
    assert a[..2] == b && b[..1] == c && c[..0] == [];
    assert Get(c) == Val(s[0]);
    assert Get(b) == 256 * Get(c) + Val(s[1]);
    assert Get(a) == 256 * Get(b) + Val(s[2]);
    ValIsNumber(s[0]);
    ValIsNumber(s[1]);
    ValIsNumber(s[2]);
    ValIsNumber(s[3]);
  }
}
