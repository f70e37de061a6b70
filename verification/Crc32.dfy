/** CRC-32 as used by every file format of the repository (Go's crc32.ChecksumIEEE; section 8 of
    RFC 1952), defined one message bit at a time, and the bursts it is certain to detect. */
module Crc32 {
  import opened Bits
  import BigEndian

  const POLY: bv32 := 0xEDB8_8320

  function Shift(r: bv32): bv32 {
    (r >> 1) ^ (if r & 1 == 1 then POLY else 0)
  }

  function FeedBit(r: bv32, b: bool): bv32 {
    Shift(if b then r ^ 1 else r)
  }

  /** The register after the message bits `bits`, started at `r`. */
  function Feed(r: bv32, bits: seq<bool>): bv32
    decreases |bits|, r
  {
    if |bits| == 0 then r else Feed(FeedBit(r, bits[0]), bits[1..])
  }

  /** The bits of a message in transmission order. */
  function BitsOf(s: seq<byte>): (bits: seq<bool>)
    ensures |bits| == 8 * |s|
    ensures forall p: nat | p < 8 * |s| :: bits[p] == GetBit(s, p)
  {
    seq(8 * |s|, p requires 0 <= p < 8 * |s| => GetBit(s, p))
  }

  function Register(s: seq<byte>): bv32 {
    Feed(0xFFFF_FFFF, BitsOf(s)) ^ 0xFFFF_FFFF
  }

  function Bytes(c: bv32): (s: seq<byte>)
    ensures |s| == 4
  {
    [((c >> 24) & 0xFF) as bv8, ((c >> 16) & 0xFF) as bv8, ((c >> 8) & 0xFF) as bv8, (c & 0xFF) as bv8]
  }

  /** crc32.ChecksumIEEE. */
  function ChecksumIEEE(s: seq<byte>): (n: nat)
    ensures n < TWO32
  {
    BigEndian.Get32Bound(Bytes(Register(s)));
    BigEndian.Get(Bytes(Register(s)))
  }

  // ---------------------------------------------------------------- how a difference travels

  const TOP: bv32 := 0x8000_0000

  /** The registers differ in a bit selected by `hi`. */
  predicate Differ(r: bv32, r': bv32, hi: bv32) {
    r & hi != r' & hi
  }

  lemma FeedBitInjective(r: bv32, r': bv32, b: bool)
    requires r != r'
    ensures FeedBit(r, b) != FeedBit(r', b)
  {}

  /** Different registers stay different under equal input. */
  lemma {:induction false} FeedInjective(r: bv32, r': bv32, bits: seq<bool>)
    requires r != r'
    ensures Feed(r, bits) != Feed(r', bits)
    decreases |bits|
  {
    if |bits| == 0 {
    } else {
      FeedBitInjective(r, r', bits[0]);
      FeedInjective(FeedBit(r, bits[0]), FeedBit(r', bits[0]), bits[1..]);
    }
  }

  /** A difference above the low end moves down by one place, or its feedback shows in the top bit,
      whatever the two input bits are. */
  lemma DifferenceMoves(r: bv32, r': bv32, b: bool, b': bool, hi: bv32)
    requires Differ(r, r', hi) && hi & 1 == 0
    ensures Differ(FeedBit(r, b), FeedBit(r', b'), (hi >> 1) | TOP)
  {}

  lemma DifferenceStarts(r: bv32)
    ensures Differ(FeedBit(r, true), FeedBit(r, false), TOP)
  {}

  /** `hi` can move down `n` places without reaching the low end. */
  predicate Room(hi: bv32, n: nat)
    decreases n, hi
  {
    n == 0 || (hi & 1 == 0 && Room((hi >> 1) | TOP, n - 1))
  }

  lemma TopBitRoom()
    ensures Room(TOP, 31)
  {
    assert Room(0xFFFF_FFFC, 2) && Room(0xFFFF_FFF0, 4);
    assert Room(0xFFFF_FFC0, 6) && Room(0xFFFF_FF00, 8);
    assert Room(0xFFFF_FC00, 10) && Room(0xFFFF_F000, 12);
    assert Room(0xFFFF_C000, 14) && Room(0xFFFF_0000, 16);
    assert Room(0xFFFC_0000, 18) && Room(0xFFF0_0000, 20);
    assert Room(0xFFC0_0000, 22) && Room(0xFF00_0000, 24);
    assert Room(0xFC00_0000, 26) && Room(0xF000_0000, 28);
    assert Room(0xC000_0000, 30);
  }

  /** Registers that differ in `hi` cannot be brought together by `n` bits of differing input. */
  lemma {:induction false} FeedApart(r: bv32, r': bv32, a: seq<bool>, b: seq<bool>, n: nat, hi: bv32)
    requires |a| == |b|
    requires forall i | n <= i < |a| :: a[i] == b[i]
    requires Room(hi, n) && Differ(r, r', hi)
    ensures Feed(r, a) != Feed(r', b)
    decreases |a|
  {
    if n == 0 || |a| == 0 {
      assert a == b;
      FeedInjective(r, r', a);
    } else {
      DifferenceMoves(r, r', a[0], b[0], hi);
      FeedApart(FeedBit(r, a[0]), FeedBit(r', b[0]), a[1..], b[1..], n - 1, (hi >> 1) | TOP);
    }
  }

  /** Burst detection on bits: unequal messages that agree outside 32 consecutive bits never meet. */
  lemma {:induction false} BurstOnBits(r: bv32, a: seq<bool>, b: seq<bool>, lo: nat)
    requires |a| == |b| && a != b
    requires forall i: nat | i < |a| && a[i] != b[i] :: lo <= i < lo + 32
    ensures Feed(r, a) != Feed(r, b)
    decreases |a|
  {
    if a[0] == b[0] {
      assert a == [a[0]] + a[1..] && b == [b[0]] + b[1..];
      forall i: nat | i < |a[1..]| && a[1..][i] != b[1..][i]
        ensures lo - 1 <= i < lo - 1 + 32
      {
        assert a[i + 1] != b[i + 1];
      }
      if lo == 0 {
        forall i: nat | i < |a[1..]| && a[1..][i] != b[1..][i]
          ensures 0 <= i < 32
        {
          assert a[i + 1] != b[i + 1];
        }
      }
      BurstOnBits(FeedBit(r, a[0]), a[1..], b[1..], if lo == 0 then 0 else lo - 1);
    } else {
      assert lo == 0;
      DifferenceStarts(r);
      TopBitRoom();
      FeedApart(FeedBit(r, a[0]), FeedBit(r, b[0]), a[1..], b[1..], 31, TOP);
    }
  }

  // ---------------------------------------------------------------- checksums

  lemma BytesInjective(c: bv32, d: bv32)
    requires Bytes(c) == Bytes(d)
    ensures c == d
  {
    var x, y := Bytes(c), Bytes(d);
    assert x[0] == y[0] && x[1] == y[1] && x[2] == y[2] && x[3] == y[3];
  }

  lemma XorInjective(x: bv32, y: bv32, z: bv32)
    ensures x ^ z == y ^ z <==> x == y
  {}

  /** CRC-32 tells apart any two messages of one length that differ only inside 32 consecutive bits. */
  lemma BurstDetected(s: seq<byte>, t: seq<byte>, lo: nat)
    requires |s| == |t| && s != t
    requires forall p: nat | p < 8 * |s| && GetBit(s, p) != GetBit(t, p) :: lo <= p < lo + 32
    ensures ChecksumIEEE(s) != ChecksumIEEE(t)
  {
    if BitsOf(s) == BitsOf(t) {
      forall p: nat | p < 8 * |s| ensures GetBit(s, p) == GetBit(t, p) {
        assert BitsOf(s)[p] == BitsOf(t)[p];
      }
      BitsExtensional(s, t);
      assert false;
    }
    BurstOnBits(0xFFFF_FFFF, BitsOf(s), BitsOf(t), lo);
    var x, y := Feed(0xFFFF_FFFF, BitsOf(s)), Feed(0xFFFF_FFFF, BitsOf(t));
    XorInjective(x, y, 0xFFFF_FFFF);
    if ChecksumIEEE(s) == ChecksumIEEE(t) {
      BigEndian.GetInjective(Bytes(Register(s)), Bytes(Register(t)));
      BytesInjective(Register(s), Register(t));
      assert false;
    }
  }

  /** In particular any change confined to four consecutive bytes. */
  lemma FourBytesDetected(s: seq<byte>, t: seq<byte>, at: nat)
    requires |s| == |t| && s != t
    requires forall i | 0 <= i < |s| && s[i] != t[i] :: at <= i < at + 4
    ensures ChecksumIEEE(s) != ChecksumIEEE(t)
  {
    forall p: nat | p < 8 * |s| && GetBit(s, p) != GetBit(t, p)
      ensures 8 * at <= p < 8 * at + 32
    {
      assert s[p / 8] != t[p / 8];
    }
    BurstDetected(s, t, 8 * at);
  }
}
