/** Bytewise combination of bit arrays, population counts and Hamming distance
    (internal/filter/ops.go, internal/merge/merge.go). */
module BitAlgebra {
  import opened Bits
  import opened Bloom

  datatype BitOp = Or | And | AndNot | Xor

  function OnBytes(op: BitOp, x: byte, y: byte): byte {
    match op
    case Or => x | y
    case And => x & y
    case AndNot => x & !y
    case Xor => x ^ y
  }

  predicate OnBits(op: BitOp, x: bool, y: bool) {
    match op
    case Or => x || y
    case And => x && y
    case AndNot => x && !y
    case Xor => x != y
  }

  /** `a` combined with `b` byte by byte, over the length of `a`. */
  function Combine(op: BitOp, a: seq<byte>, b: seq<byte>): (r: seq<byte>)
    ensures |r| == |a|
  {
    seq(|a|, i requires 0 <= i < |a| => if i < |b| then OnBytes(op, a[i], b[i]) else a[i])
  }

  function OnSets(op: BitOp, x: set<nat>, y: set<nat>): set<nat> {
    match op
    case Or => x + y
    case And => x * y
    case AndNot => x - y
    case Xor => (x - y) + (y - x)
  }

  // ---------------------------------------------------------------- bytes, bits, sets

  lemma BitOr(x: byte, y: byte, i: nat)
    requires i < 8
    ensures BitOf(x | y, i) <==> BitOf(x, i) || BitOf(y, i)
  {}

  lemma BitAnd(x: byte, y: byte, i: nat)
    requires i < 8
    ensures BitOf(x & y, i) <==> BitOf(x, i) && BitOf(y, i)
  {}

  lemma BitAndNot(x: byte, y: byte, i: nat)
    requires i < 8
    ensures BitOf(x & !y, i) <==> BitOf(x, i) && !BitOf(y, i)
  {}

  lemma XorMasked(x: byte, y: byte, m: byte)
    ensures (x ^ y) & m == (x & m) ^ (y & m)
  {}

  lemma ZeroOrMask(x: byte, i: nat)
    requires i < 8
    ensures Mask(i) != 0 && (x & Mask(i) == 0 || x & Mask(i) == Mask(i))
  {}

  lemma XorUnits(m: byte)
    ensures 0 ^ m == m && m ^ 0 == m && m ^ m == 0 && (0 as byte) ^ 0 == 0
  {}

  lemma BitXor(x: byte, y: byte, i: nat)
    requires i < 8
    ensures BitOf(x ^ y, i) <==> BitOf(x, i) != BitOf(y, i)
  {
    var m := Mask(i);
    assert (x ^ y) & m == (x & m) ^ (y & m) by {
      XorMasked(x, y, m);
    }
    ZeroOrMask(x, i);
    ZeroOrMask(y, i);
    XorUnits(m);
  }

  lemma OnBytesBit(op: BitOp, x: byte, y: byte, i: nat)
    requires i < 8
    ensures BitOf(OnBytes(op, x, y), i) == OnBits(op, BitOf(x, i), BitOf(y, i))
  {
    match op
    case Or => BitOr(x, y, i);
    case And => BitAnd(x, y, i);
    case AndNot => BitAndNot(x, y, i);
    case Xor => BitXor(x, y, i);
  }

  lemma GetCombine(op: BitOp, a: seq<byte>, b: seq<byte>, p: nat)
    requires |a| == |b|
    ensures p < 8 * |a| ==> GetBit(Combine(op, a, b), p) == OnBits(op, GetBit(a, p), GetBit(b, p))
  {
    if p / 8 < |a| {
      OnBytesBit(op, a[p / 8], b[p / 8], p % 8);
    }
  }

  /** Bytewise OR, AND, AND-NOT and XOR are union, intersection, difference and symmetric
      difference of the sets of set bits. */
  lemma CombineIsOnSets(op: BitOp, a: seq<byte>, b: seq<byte>)
    requires |a| == |b|
    ensures SetBits(Combine(op, a, b)) == OnSets(op, SetBits(a), SetBits(b))
  {
    forall p: nat | p < 8 * |a|
      ensures GetBit(Combine(op, a, b), p) == OnBits(op, GetBit(a, p), GetBit(b, p))
    {
      GetCombine(op, a, b, p);
    }
  }

  /** Union of two filters is the filter of both item lists. */
  lemma UnionIsConcatenation(f: Filter, xs: seq<Item>, ys: seq<Item>)
    requires WellFormed(f)
    ensures Combine(Or, InsertAll(f, xs).bits, InsertAll(f, ys).bits) == InsertAll(f, xs + ys).bits
  {
    var a, b := InsertAll(f, xs).bits, InsertAll(f, ys).bits;
    forall p: nat | p < 8 * |f.bits|
      ensures GetBit(Combine(Or, a, b), p) == GetBit(InsertAll(f, xs + ys).bits, p)
    {
      GetCombine(Or, a, b, p);
      GetInsertAll(f, xs, p);
      GetInsertAll(f, ys, p);
      GetInsertAll(f, xs + ys, p);
      assert forall x :: x in xs + ys <==> x in xs || x in ys;
    }
    BitsExtensional(Combine(Or, a, b), InsertAll(f, xs + ys).bits);
  }

  /** An item present in both filters is present in their intersection, and only those are. */
  lemma IntersectionContains(f: Filter, g: Filter, x: Item)
    requires WellFormed(f) && WellFormed(g) && f.m == g.m && f.k == g.k
    ensures Contains(Filter(f.m, f.k, Combine(And, f.bits, g.bits)), x) <==> Contains(f, x) && Contains(g, x)
  {
    var h := Filter(f.m, f.k, Combine(And, f.bits, g.bits));
    forall p | p in ItemPositions(f, x)
      ensures GetBit(h.bits, p) <==> GetBit(f.bits, p) && GetBit(g.bits, p)
    {
      GetCombine(And, f.bits, g.bits, p);
    }
    assert ItemPositions(h, x) == ItemPositions(f, x) == ItemPositions(g, x);
  }

  // ---------------------------------------------------------------- folds over lists of filters

  function CombineAll(op: BitOp, first: seq<byte>, rest: seq<seq<byte>>): (r: seq<byte>)
    ensures |r| == |first|
  {
    if |rest| == 0 then first
    else Combine(op, CombineAll(op, first, rest[..|rest| - 1]), rest[|rest| - 1])
  }

  function Concat(lists: seq<seq<Item>>): seq<Item> {
    if |lists| == 0 then [] else Concat(lists[..|lists| - 1]) + lists[|lists| - 1]
  }

  /** The bit arrays of the filters built from `f` and each of the item lists. */
  function BuiltFrom(f: Filter, lists: seq<seq<Item>>): (r: seq<seq<byte>>)
    ensures |r| == |lists|
    ensures forall b | b in r :: |b| == |f.bits|
  {
    if |lists| == 0 then []
    else BuiltFrom(f, lists[..|lists| - 1]) + [InsertAll(f, lists[|lists| - 1]).bits]
  }

  lemma Associative<T>(a: seq<T>, b: seq<T>, c: seq<T>)
    ensures a + (b + c) == a + b + c
  {}

  lemma ConcatStep(xs: seq<Item>, lists: seq<seq<Item>>)
    requires |lists| > 0
    ensures xs + Concat(lists) == xs + Concat(lists[..|lists| - 1]) + lists[|lists| - 1]
  {
    Associative(xs, Concat(lists[..|lists| - 1]), lists[|lists| - 1]);
  }

  lemma CombineAllStep(op: BitOp, f: Filter, first: seq<byte>, lists: seq<seq<Item>>)
    requires |first| == |f.bits| && |lists| > 0
    ensures var n := |lists| - 1;
            CombineAll(op, first, BuiltFrom(f, lists)) ==
            Combine(op, CombineAll(op, first, BuiltFrom(f, lists[..n])), InsertAll(f, lists[n]).bits)
  {
    assert BuiltFrom(f, lists)[..|lists| - 1] == BuiltFrom(f, lists[..|lists| - 1]);
  }

  /** OR-ing the filters of several item lists gives the filter of their concatenation. */
  lemma {:induction false} UnionAllIsConcatenation(f: Filter, xs: seq<Item>, lists: seq<seq<Item>>)
    requires WellFormed(f)
    ensures CombineAll(Or, InsertAll(f, xs).bits, BuiltFrom(f, lists)) == InsertAll(f, xs + Concat(lists)).bits
    decreases |lists|
  {
    if |lists| == 0 {
      assert xs + Concat(lists) == xs;
    } else {
      var n := |lists| - 1;
      UnionAllIsConcatenation(f, xs, lists[..n]);
      CombineAllStep(Or, f, InsertAll(f, xs).bits, lists);
      UnionIsConcatenation(f, xs + Concat(lists[..n]), lists[n]);
      ConcatStep(xs, lists);
    }
  }

  /** The intersection of several filters contains exactly the items all of them contain. */
  lemma {:induction false} IntersectionAllContains(f: Filter, rest: seq<seq<byte>>, x: Item)
    requires WellFormed(f)
    requires forall b | b in rest :: |b| == |f.bits|
    ensures Contains(Filter(f.m, f.k, CombineAll(And, f.bits, rest)), x) <==>
            Contains(f, x) && forall b | b in rest :: Contains(Filter(f.m, f.k, b), x)
    decreases |rest|
  {
    hide Contains, Combine;
    if |rest| == 0 {
    } else {
      var n := |rest| - 1;
      IntersectionAllContains(f, rest[..n], x);
      IntersectionContains(Filter(f.m, f.k, CombineAll(And, f.bits, rest[..n])), Filter(f.m, f.k, rest[n]), x);
      assert rest == rest[..n] + [rest[n]];
    }
  }

  // ---------------------------------------------------------------- counting set bits

  function Unit(on: bool): nat {
    if on then 1 else 0
  }

  /** The number of set bits of a byte from bit `i` up. */
  function OnesFrom(b: byte, i: nat): nat
    requires i <= 8
    decreases 8 - i, b
  {
    if i == 8 then 0 else Unit(BitOf(b, i)) + OnesFrom(b, i + 1)
  }

  function Ones(b: byte): nat {
    OnesFrom(b, 0)
  }

  lemma {:induction false} OnesWithout(b: byte, j: nat, i: nat)
    requires j < 8 && BitOf(b, j) && i <= 8
    ensures OnesFrom(b & !Mask(j), i) + Unit(i <= j) == OnesFrom(b, i)
    decreases 8 - i
  {
    if i == 8 {
    } else {
      MaskSelects(b, j, i);
      OnesWithout(b, j, i + 1);
    }
  }

  /** All bits of `b` below bit `j` are clear. */
  predicate ClearBelow(b: byte, j: nat)
    requires j < 8
  {
    b & (Mask(j) - 1) == 0
  }

  lemma LowestBit(b: byte, j: nat)
    requires j < 8 && ClearBelow(b, j)
    ensures BitOf(b, j) ==> b & (b - 1) == b & !Mask(j)
    ensures !BitOf(b, j) ==> if j == 7 then b == 0 else ClearBelow(b, j + 1)
  {}

  lemma {:induction false} ClearLowestFrom(b: byte, j: nat)
    requires b != 0 && j < 8 && ClearBelow(b, j)
    ensures Ones(b & (b - 1)) + 1 == Ones(b)
    decreases 8 - j
  {
    LowestBit(b, j);
    if BitOf(b, j) {
      OnesWithout(b, j, 0);
    } else {
      ClearLowestFrom(b, j + 1);
    }
  }

  /** `b & (b - 1)` clears exactly one set bit. */
  lemma ClearLowest(b: byte)
    requires b != 0
    ensures Ones(b & (b - 1)) + 1 == Ones(b)
  {
    ClearLowestFrom(b, 0);
  }

  lemma {:induction false} ZeroHasNone(i: nat)
    requires i <= 8
    ensures OnesFrom(0, i) == 0
    decreases 8 - i
  {
    if i == 8 {
    } else {
      ZeroHasNone(i + 1);
    }
  }

  function OnesIn(bits: seq<byte>): nat {
    if |bits| == 0 then 0 else OnesIn(bits[..|bits| - 1]) + Ones(bits[|bits| - 1])
  }

  /** Kernighan's loop. */
  method PopCnt(b: byte) returns (count: nat)
    ensures count == Ones(b)
  {
    var c := b;
    count := 0;
    while c != 0
      invariant count + Ones(c) == Ones(b)
      decreases Ones(c)
    {
      ClearLowest(c);
      c := c & (c - 1);
      count := count + 1;
    }
    ZeroHasNone(0);
  }

  function SetBelow(bits: seq<byte>, n: nat): set<nat> {
    set p: nat | p < n && GetBit(bits, p)
  }

  lemma SetBelowStep(bits: seq<byte>, n: nat)
    ensures |SetBelow(bits, n + 1)| == |SetBelow(bits, n)| + Unit(GetBit(bits, n))
  {
    if GetBit(bits, n) {
      assert SetBelow(bits, n + 1) == SetBelow(bits, n) + {n};
    } else {
      assert SetBelow(bits, n + 1) == SetBelow(bits, n);
    }
  }

  /** The bits of byte `i` from `j` up add their own count. */
  lemma {:induction false} SetBelowByte(bits: seq<byte>, i: nat, j: nat)
    requires i < |bits| && j <= 8
    ensures |SetBelow(bits, 8 * i + 8)| == |SetBelow(bits, 8 * i + j)| + OnesFrom(bits[i], j)
    decreases 8 - j
  {
    if j == 8 {
    } else {
      SetBelowStep(bits, 8 * i + j);
      SetBelowByte(bits, i, j + 1);
    }
  }

  lemma {:induction false} OnesInBelow(bits: seq<byte>, n: nat)
    requires n <= |bits|
    ensures OnesIn(bits[..n]) == |SetBelow(bits, 8 * n)|
    decreases n
  {
    if n == 0 {
      assert SetBelow(bits, 0) == {};
    } else {
      OnesInBelow(bits, n - 1);
      SetBelowByte(bits, n - 1, 0);
      assert bits[..n][..n - 1] == bits[..n - 1];
    }
  }

  /** The population count is the number of set positions. */
  lemma PopCountIsCardinality(bits: seq<byte>)
    ensures OnesIn(bits) == |SetBits(bits)|
  {
    OnesInBelow(bits, |bits|);
    assert bits[..|bits|] == bits;
    assert SetBelow(bits, 8 * |bits|) == SetBits(bits);
  }

  lemma {:induction false} BelowCardinality(s: set<nat>, n: nat)
    requires forall p | p in s :: p < n
    ensures |s| <= n
    decreases n
  {
    if n == 0 {
      assert s == {};
    } else {
      BelowCardinality(s - {n - 1}, n - 1);
    }
  }

  /** A filter built by New and Add never has more than m set bits: its padding bits stay clear. */
  lemma PopCountAtMostM(m: nat, k: nat, xs: seq<Item>)
    requires m > 0 && k > 0
    ensures OnesIn(InsertAll(Empty(m, k), xs).bits) <= m
  {
    BitsAreUnionOfPositions(m, k, xs);
    PopCountIsCardinality(InsertAll(Empty(m, k), xs).bits);
    BelowCardinality(SetBits(InsertAll(Empty(m, k), xs).bits), m);
  }

  /** |A or B| + |A and B| == |A| + |B|. */
  lemma InclusionExclusion(a: seq<byte>, b: seq<byte>)
    requires |a| == |b|
    ensures OnesIn(Combine(Or, a, b)) + OnesIn(Combine(And, a, b)) == OnesIn(a) + OnesIn(b)
  {
    PopCountIsCardinality(a);
    PopCountIsCardinality(b);
    PopCountIsCardinality(Combine(Or, a, b));
    PopCountIsCardinality(Combine(And, a, b));
    CombineIsOnSets(Or, a, b);
    CombineIsOnSets(And, a, b);
  }

  // ---------------------------------------------------------------- Hamming distance

  function Hamming(a: seq<byte>, b: seq<byte>): nat
    requires |a| == |b|
  {
    OnesIn(Combine(Xor, a, b))
  }

  lemma HammingIsSymmetricDifference(a: seq<byte>, b: seq<byte>)
    requires |a| == |b|
    ensures Hamming(a, b) == |OnSets(Xor, SetBits(a), SetBits(b))|
  {
    PopCountIsCardinality(Combine(Xor, a, b));
    CombineIsOnSets(Xor, a, b);
  }

  lemma SubsetCardinality(s: set<nat>, t: set<nat>)
    requires s <= t
    ensures |s| <= |t|
  {
    assert t == s + (t - s);
  }

  lemma TriangleOnSets(x: set<nat>, y: set<nat>, z: set<nat>)
    ensures |OnSets(Xor, x, z)| <= |OnSets(Xor, x, y)| + |OnSets(Xor, y, z)|
  {
    var p, q := OnSets(Xor, x, y), OnSets(Xor, y, z);
    SubsetCardinality(OnSets(Xor, x, z), p + q);
    assert |p + q| == |p| + |q| - |p * q|;
  }

  /** Hamming distance is a metric on bit arrays of one length. */
  lemma HammingIsMetric(a: seq<byte>, b: seq<byte>, c: seq<byte>)
    requires |a| == |b| == |c|
    ensures Hamming(a, b) == 0 <==> a == b
    ensures Hamming(a, b) == Hamming(b, a)
    ensures Hamming(a, c) <= Hamming(a, b) + Hamming(b, c)
  {
    HammingIsSymmetricDifference(a, b);
    HammingIsSymmetricDifference(b, a);
    HammingIsSymmetricDifference(b, c);
    HammingIsSymmetricDifference(a, c);
    TriangleOnSets(SetBits(a), SetBits(b), SetBits(c));
    assert OnSets(Xor, SetBits(a), SetBits(b)) == OnSets(Xor, SetBits(b), SetBits(a));
    if Hamming(a, b) == 0 {
      assert SetBits(a) - SetBits(b) == {} && SetBits(b) - SetBits(a) == {};
      SetBitsExtensional(a, b);
    }
  }
}
