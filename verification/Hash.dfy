/** Double hashing over FNV-1a and FNV-1 (internal/hash/hash.go). */
module Hash {
  import opened Bits
  import opened Words

  const OFFSET: nat := 0xcbf2_9ce4_8422_2325
  const PRIME: nat := 0x100_0000_01b3

  function XorByte(h: Word, b: byte): Word {
    XorWord(h, Val(b))
  }

  /** FNV-1a: XOR a byte in, then multiply. */
  function Fnv64a(data: seq<byte>): Word {
    if |data| == 0 then OFFSET
    else Mul(XorByte(Fnv64a(data[..|data| - 1]), data[|data| - 1]), PRIME)
  }

  /** FNV-1: multiply, then XOR a byte in. */
  function Fnv64(data: seq<byte>): Word {
    if |data| == 0 then OFFSET
    else XorByte(Mul(Fnv64(data[..|data| - 1]), PRIME), data[|data| - 1])
  }

  /** Bit index number `i` of `data` in a filter of `m` bits: (h1 + i*h2) mod m, the sum wrapping at 2^64. */
  function Hash(data: seq<byte>, i: nat, m: nat): (p: nat)
    ensures m > 0 ==> p < m
  {
    if m == 0 then 0 else Add(Fnv64a(data), Mul(i, Fnv64(data))) % m
  }

  /** The `k` bit indices of `data`. */
  function Positions(data: seq<byte>, m: nat, k: nat): (ps: seq<nat>)
    ensures |ps| == k
    ensures forall i | 0 <= i < k :: ps[i] == Hash(data, i, m)
    ensures m > 0 ==> forall p | p in ps :: p < m
  {
    seq(k, i requires 0 <= i < k => Hash(data, i, m))
  }

  ghost predicate Distinct(ps: seq<nat>) {
    forall i, j | 0 <= i < j < |ps| :: ps[i] != ps[j]
  }

  // ---------------------------------------------------------------- parity of the second base hash

  /** How many bytes of `data` are odd. */
  function OddBytes(data: seq<byte>): nat {
    if |data| == 0 then 0 else OddBytes(data[..|data| - 1]) + Val(data[|data| - 1]) % 2
  }

  lemma ModOfMod(x: nat, m: nat, n: nat)
    requires m > 0 && n > 0
    ensures x % (m * n) % m == x % m
  {
    var a, b := x / (m * n), x % (m * n);
    var c, d := b / m, b % m;
    assert x == m * (n * a + c) + d by {
      assert x == m * n * a + b;
      assert m * n * a == m * (n * a);
    }
    ModUnique(x, m, n * a + c, d);
  }

  lemma ModEven(x: nat, n: nat)
    requires n > 0
    ensures x % (2 * n) % 2 == x % 2
  {
    ModOfMod(x, 2, n);
  }

  lemma OddTimes(d: nat, o: nat)
    requires o % 2 == 1
    ensures d * o % 2 == d % 2
  {
    var a := o / 2;
    assert d * o == 2 * (d * a) + d;
  }

  lemma MulPrimeParity(h: Word)
    ensures Mul(h, PRIME) % 2 == h % 2
  {
    ModEven(h * PRIME, TWO64 / 2);
    OddTimes(h, PRIME);
  }

  lemma XorParity(a: nat, b: nat)
    ensures Xor(a, b) % 2 == (a % 2 + b % 2) % 2
  {}

  lemma StepParity(h: Word, b: byte)
    ensures XorByte(Mul(h, PRIME), b) % 2 == (h % 2 + Val(b) % 2) % 2
  {
    MulPrimeParity(h);
    XorParity(Mul(h, PRIME), Val(b));
  }

  /** The second base hash is odd exactly when an even number of bytes are odd. */
  lemma {:induction false} Fnv64Parity(data: seq<byte>)
    ensures Fnv64(data) % 2 == 1 <==> OddBytes(data) % 2 == 0
  {
    hide XorByte, Mul;
    if |data| == 0 {
    } else {
      Fnv64Parity(data[..|data| - 1]);
      StepParity(Fnv64(data[..|data| - 1]), data[|data| - 1]);
    }
  }

  // ---------------------------------------------------------------- when the positions are distinct

  /** The number of steps of width `h` after which the residues modulo 2^e first repeat:
      2^e divided by the largest power of two dividing both. */
  function Order(h: nat, e: nat): (n: nat)
    ensures n > 0
    decreases e, h
  {
    if e == 0 then 1 else if h % 2 == 0 then Order(h / 2, e - 1) else Pow2(e)
  }

  lemma OddCancelsOnce(d: nat, o: nat, p: nat)
    requires p > 0 && o % 2 == 1 && d * o % (2 * p) == 0
    ensures d % 2 == 0 && d / 2 * o % p == 0
  {
    var q := d * o / (2 * p);
    assert d * o == 2 * (p * q);
    OddTimes(d, o);
    assert d * o == 2 * (d / 2 * o) by {
      assert d == 2 * (d / 2);
    }
    ModUnique(d / 2 * o, p, q, 0);
  }

  lemma Double(x: nat, p: nat)
    requires p > 0
    ensures 2 * x % (2 * p) == 2 * (x % p)
  {
    assert x == p * (x / p) + x % p;
    ModUnique(2 * x, 2 * p, x / p, 2 * (x % p));
  }

  lemma {:induction false} OddCancels(d: nat, o: nat, e: nat)
    requires o % 2 == 1 && d * o % Pow2(e) == 0
    ensures d % Pow2(e) == 0
    decreases e
  {
    if e == 0 {
    } else {
      OddCancelsOnce(d, o, Pow2(e - 1));
      OddCancels(d / 2, o, e - 1);
      Double(d / 2, Pow2(e - 1));
    }
  }

  lemma MultipleMod(a: nat, b: nat, m: nat)
    requires m > 0 && a % m == 0
    ensures a * b % m == 0
  {
    var q := a / m;
    assert a * b == m * (q * b);
    ModUnique(a * b, m, q * b, 0);
  }

  /** `d` steps of width `h` return to the start exactly when the order divides `d`. */
  lemma {:induction false} ReturnsToStart(d: nat, h: nat, e: nat)
    ensures d * h % Pow2(e) == 0 <==> d % Order(h, e) == 0
    decreases e
  {
    if e == 0 {
    } else {
      if h % 2 == 0 {
        ReturnsToStart(d, h / 2, e - 1);
        assert d * h == 2 * (d * (h / 2));
        Double(d * (h / 2), Pow2(e - 1));
      } else {
        if d * h % Pow2(e) == 0 {
          OddCancels(d, h, e);
        }
        if d % Pow2(e) == 0 {
          MultipleMod(d, h, Pow2(e));
        }
      }
    }
  }

  lemma DifferenceMod(x: nat, y: nat, m: nat)
    requires m > 0
    ensures x % m == (x + y) % m <==> y % m == 0
  {
    var q, r := x / m, x % m;
    var q', r' := y / m, y % m;
    if r + r' < m {
      assert x + y == m * (q + q') + (r + r');
      ModUnique(x + y, m, q + q', r + r');
    } else {
      assert x + y == m * (q + q' + 1) + (r + r' - m);
      ModUnique(x + y, m, q + q' + 1, r + r' - m);
    }
  }

  lemma SumMod(a: nat, x: nat, y: nat, m: nat)
    requires m > 0 && x % m == y % m
    ensures (a + x) % m == (a + y) % m
  {
    var r := a + x % m;
    assert a + x == m * (x / m + r / m) + r % m;
    ModUnique(a + x, m, x / m + r / m, r % m);
    assert a + y == m * (y / m + r / m) + r % m;
    ModUnique(a + y, m, y / m + r / m, r % m);
  }

  /** The wrap at 2^64 is invisible modulo a smaller power of two. */
  lemma Unwrapped(h1: nat, h2: nat, i: nat, e: nat)
    requires e < 64
    ensures Add(h1, Mul(i, h2)) % Pow2(e) == (h1 + i * h2) % Pow2(e)
  {
    var m := Pow2(e);
    Pow2Split(e, 64);
    Pow2Of64();
    ModOfMod(h1 + Mul(i, h2), m, Pow2(64 - e));
    ModOfMod(i * h2, m, Pow2(64 - e));
    SumMod(h1, Mul(i, h2), i * h2, m);
  }

  lemma StepsRepeat(h1: nat, h2: nat, i: nat, j: nat, e: nat)
    requires i <= j
    ensures (h1 + i * h2) % Pow2(e) == (h1 + j * h2) % Pow2(e) <==> (j - i) % Order(h2, e) == 0
  {
    assert h1 + j * h2 == (h1 + i * h2) + (j - i) * h2 by {
      assert j * h2 == i * h2 + (j - i) * h2;
    }
    DifferenceMod(h1 + i * h2, (j - i) * h2, Pow2(e));
    ReturnsToStart(j - i, h2, e);
  }

  lemma PositionsRepeat(data: seq<byte>, i: nat, j: nat, e: nat)
    requires e < 64 && i <= j
    ensures Hash(data, i, Pow2(e)) == Hash(data, j, Pow2(e)) <==> (j - i) % Order(Fnv64(data), e) == 0
  {
    var h1: nat, h2: nat := Fnv64a(data), Fnv64(data);
    Unwrapped(h1, h2, i, e);
    Unwrapped(h1, h2, j, e);
    StepsRepeat(h1, h2, i, j, e);
  }

  /** In a filter of 2^e bits the k positions of an item are pairwise distinct exactly when k does
      not exceed the order of the second base hash. */
  lemma PositionsDistinctIff(data: seq<byte>, e: nat, k: nat)
    requires e < 64
    ensures Distinct(Positions(data, Pow2(e), k)) <==> k <= Order(Fnv64(data), e)
  {
    var n, ps := Order(Fnv64(data), e), Positions(data, Pow2(e), k);
    if k <= n {
      forall i, j | 0 <= i < j < k ensures ps[i] != ps[j] {
        PositionsRepeat(data, i, j, e);
        ModUnique(j - i, n, 0, j - i);
      }
    } else {
      PositionsRepeat(data, 0, n, e);
      ModUnique(n, n, 1, 0);
      assert ps[0] == ps[n];
    }
  }

  /** An item with an even number of odd bytes has pairwise distinct positions in a filter of 2^e
      bits for every k up to the filter size, and for no larger k. */
  lemma EvenItemsAreDistinct(data: seq<byte>, e: nat, k: nat)
    requires e < 64 && OddBytes(data) % 2 == 0
    ensures Distinct(Positions(data, Pow2(e), k)) <==> k <= Pow2(e)
  {
    Fnv64Parity(data);
    PositionsDistinctIff(data, e, k);
  }

  // ---------------------------------------------------------------- what the positions are

  lemma WrappedSum(h1: nat, p: nat)
    ensures Add(h1, p % TWO64) % TWO64 == (h1 + p) % TWO64
  {
    ModOfMod(p, TWO64, 1);
    SumMod(h1, p % TWO64, p, TWO64);
    ModOfMod(h1 + p % TWO64, TWO64, 1);
  }

  lemma NextSum(h1: nat, h2: nat, i: nat)
    ensures (h1 + (i + 1) * h2) % TWO64 == ((h1 + i * h2) % TWO64 + h2) % TWO64
  {
    var s := h1 + i * h2;
    assert h1 + (i + 1) * h2 == h2 + s;
    ModOfMod(s, TWO64, 1);
    SumMod(h2, s % TWO64, s, TWO64);
  }

  lemma HashIsSum(data: seq<byte>, i: nat)
    ensures Hash(data, i, TWO64) == (Fnv64a(data) + i * Fnv64(data)) % TWO64
  {
    hide Fnv64a, Fnv64, Add;
    WrappedSum(Fnv64a(data), i * Fnv64(data));
  }

  /** The position of index `i` before it is reduced to the filter size moves on by the second base hash. */
  lemma PositionsMove(data: seq<byte>, i: nat)
    ensures Hash(data, 0, TWO64) == Fnv64a(data)
    ensures Hash(data, i + 1, TWO64) == (Hash(data, i, TWO64) + Fnv64(data)) % TWO64
  {
    hide Fnv64a, Fnv64, Hash;
    HashIsSum(data, 0);
    ModUnique(Fnv64a(data), TWO64, 0, Fnv64a(data));
    HashIsSum(data, i);
    HashIsSum(data, i + 1);
    NextSum(Fnv64a(data), Fnv64(data), i);
  }

  /** ... and a filter of `m` bits takes its remainder. */
  lemma PositionsReduce(data: seq<byte>, i: nat, m: nat)
    requires m > 0
    ensures Hash(data, i, m) == Hash(data, i, TWO64) % m
  {
    hide Fnv64a, Fnv64;
    ModOfMod(Fnv64a(data) + Mul(i, Fnv64(data)), TWO64, 1);
  }

  /** So the first position is the first base hash, reduced. */
  lemma FirstPosition(data: seq<byte>, m: nat)
    requires m > 0
    ensures Positions(data, m, 1) == [Fnv64a(data) % m]
  {
    hide Hash, Fnv64a, Fnv64;
    PositionsMove(data, 0);
    PositionsReduce(data, 0, m);
  }

  // ---------------------------------------------------------------- the base hashes tell bytes apart

  const PRIME_INVERSE: nat := 0xce96_5057_aff6_957b

  lemma MulPrimeInjective(x: Word, y: Word)
    requires Mul(x, PRIME) == Mul(y, PRIME)
    ensures x == y
  {
    hide Mul;
    assert PRIME * PRIME_INVERSE % TWO64 == 1;
    MulBack(x, PRIME, PRIME_INVERSE);
    MulBack(y, PRIME, PRIME_INVERSE);
  }

  lemma XorByteInjective(x: Word, y: Word, b: byte, c: byte)
    ensures XorByte(x, b) == XorByte(y, b) ==> x == y
    ensures XorByte(x, b) == XorByte(x, c) ==> b == c
  {
    hide Xor, Val;
    XorBack(x, Val(b));
    XorBack(y, Val(b));
    XorBack(x, Val(c));
    if XorByte(x, b) == XorByte(x, c) {
      ValInjective(b, c);
    }
  }

  /** `x` and `y` have one length and differ in byte `i` and nowhere else. */
  predicate DifferOnlyAt(x: seq<byte>, y: seq<byte>, i: nat) {
    i < |x| == |y| && x[i] != y[i] && forall j | 0 <= j < |x| && j != i :: x[j] == y[j]
  }

  /** Items of one length that differ in exactly one byte differ in both base hashes. */
  lemma {:induction false} OneByteDiffers(x: seq<byte>, y: seq<byte>, i: nat)
    requires DifferOnlyAt(x, y, i)
    ensures Fnv64a(x) != Fnv64a(y) && Fnv64(x) != Fnv64(y)
    decreases |x|
  {
    hide XorByte, Mul;
    var n := |x| - 1;
    var a, b: Word := Fnv64a(x[..n]), Fnv64a(y[..n]);
    var c, d: Word := Fnv64(x[..n]), Fnv64(y[..n]);
    if i == n {
      assert x[..n] == y[..n];
      XorByteInjective(a, a, x[n], y[n]);
      XorByteInjective(Mul(c, PRIME), Mul(c, PRIME), x[n], y[n]);
      if Fnv64a(x) == Fnv64a(y) {
        MulPrimeInjective(XorByte(a, x[n]), XorByte(a, y[n]));
      }
    } else {
      OneByteDiffers(x[..n], y[..n], i);
      XorByteInjective(a, b, x[n], x[n]);
      XorByteInjective(Mul(c, PRIME), Mul(d, PRIME), x[n], x[n]);
      if Fnv64a(x) == Fnv64a(y) {
        MulPrimeInjective(XorByte(a, x[n]), XorByte(b, x[n]));
      }
      if Fnv64(x) == Fnv64(y) {
        MulPrimeInjective(c, d);
      }
    }
  }
}
