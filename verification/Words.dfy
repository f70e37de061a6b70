/** 64-bit unsigned words as naturals below 2^64, with Go's wrapping arithmetic written out. */
module Words {
  import opened Bits

  type Word = n: nat | n < TWO64

  function Add(x: nat, y: nat): Word {
    (x + y) % TWO64
  }

  function Sub(x: Word, y: Word): Word {
    (x + TWO64 - y) % TWO64
  }

  function Mul(x: nat, y: nat): Word {
    x * y % TWO64
  }

  function Xor(a: nat, b: nat): (r: nat)
    decreases a + b
  {
    if a == 0 && b == 0 then 0
    else (if a % 2 == b % 2 then 0 else 1) + 2 * Xor(a / 2, b / 2)
  }

  // ---------------------------------------------------------------- exclusive or

  lemma XorHalves(a: nat, b: nat)
    ensures Xor(a, b) % 2 == (if a % 2 == b % 2 then 0 else 1)
    ensures Xor(a, b) / 2 == Xor(a / 2, b / 2)
  {}

  lemma {:induction false} XorTwice(a: nat, b: nat)
    ensures Xor(Xor(a, b), b) == a
    decreases a + b
  {
    if a + b == 0 {
    } else {
      XorTwice(a / 2, b / 2);
      XorHalves(a, b);
      XorHalves(Xor(a, b), b);
    }
  }

  lemma {:induction false} XorCommutes(a: nat, b: nat)
    ensures Xor(a, b) == Xor(b, a)
    decreases a + b
  {
    if a + b == 0 {
    } else {
      XorCommutes(a / 2, b / 2);
    }
  }

  /** Either operand is found again. */
  lemma XorBack(a: nat, b: nat)
    ensures Xor(Xor(a, b), b) == a && Xor(Xor(a, b), a) == b
  {
    XorTwice(a, b);
    XorCommutes(a, b);
    XorTwice(b, a);
  }

  /** Each bit of the result is set exactly when it differs in the operands. */
  lemma {:induction false} XorIsBitwise(a: nat, b: nat, i: nat)
    ensures NatBit(Xor(a, b), i) <==> NatBit(a, i) != NatBit(b, i)
    decreases i
  {
    XorHalves(a, b);
    if i == 0 {
    } else {
      XorIsBitwise(a / 2, b / 2, i - 1);
    }
  }

  lemma LowBits(x: byte, y: byte)
    ensures (x ^ y) & 1 == 1 <==> (x & 1 == 1) != (y & 1 == 1)
  {}

  lemma ShiftXor(x: byte, y: byte, i: nat)
    requires i < 8
    ensures (x ^ y) >> i == (x >> i) ^ (y >> i)
  {}

  lemma XorShiftedBit(x: byte, y: byte, i: nat)
    requires i < 8
    ensures BitOf(x ^ y, i) <==> BitOf(x, i) != BitOf(y, i)
  {
    hide BitOf;
    BitIsShift(x, i);
    BitIsShift(y, i);
    BitIsShift(x ^ y, i);
    LowBits(x >> i, y >> i);
    ShiftXor(x, y, i);
  }

  lemma XorUnfold(a: nat, b: nat)
    ensures Xor(a, b) == (if a % 2 == b % 2 then 0 else 1) + 2 * Xor(a / 2, b / 2)
  {}

  lemma XorLowestBit(p: nat, a: nat, q: nat, b: nat)
    requires p < 2 && q < 2
    ensures Xor(p + 2 * a, q + 2 * b) == (if p == q then 0 else 1) + 2 * Xor(a, b)
  {
    XorUnfold(p + 2 * a, q + 2 * b);
  }

  lemma {:induction false} XorZero(a: nat)
    ensures Xor(a, 0) == a
  {
    if a == 0 {
    } else {
      XorZero(a / 2);
    }
  }

  lemma {:induction false} XorShifted(x: byte, y: byte, i: nat)
    requires i <= 8
    ensures Xor(Shifted(x, i), Shifted(y, i)) == Shifted(x ^ y, i)
    decreases 8 - i
  {
    hide BitOf, Shifted, Xor;
    if i == 8 {
      ShiftedEnds(x);
      ShiftedEnds(y);
      ShiftedEnds(x ^ y);
      XorZero(0);
    } else {
      XorShifted(x, y, i + 1);
      XorLowestBit(if BitOf(x, i) then 1 else 0, Shifted(x, i + 1), if BitOf(y, i) then 1 else 0, Shifted(y, i + 1));
      XorShiftedBit(x, y, i);
      ShiftedStep(x, i);
      ShiftedStep(y, i);
      ShiftedStep(x ^ y, i);
    }
  }

  /** On the values of bytes it is the exclusive or of the bytes. */
  lemma XorVal(x: byte, y: byte)
    ensures Xor(Val(x), Val(y)) == Val(x ^ y)
  {
    hide Xor, Val;
    XorShifted(x, y, 0);
    ShiftedEnds(x);
    ShiftedEnds(y);
    ShiftedEnds(x ^ y);
    ValIsNumber(x);
    ValIsNumber(y);
    ValIsNumber(x ^ y);
  }

  lemma HalfOfSum(lo: nat, p: nat, hi: nat)
    ensures (lo + 2 * p * hi) / 2 == lo / 2 + p * hi && (lo + 2 * p * hi) % 2 == lo % 2
  {
    TwiceProduct(p, hi);
  }

  lemma {:induction false} XorLow(lo: nat, hi: nat, lo': nat, hi': nat, w: nat)
    requires lo < Pow2(w) && lo' < Pow2(w)
    ensures Xor(lo + Pow2(w) * hi, lo' + Pow2(w) * hi') == Xor(lo, lo') + Pow2(w) * Xor(hi, hi')
    decreases w
  {
    hide Xor;
    XorUnfold(lo, lo');
    if w == 0 {
      XorUnfold(0, 0);
    } else {
      var p := Pow2(w - 1);
      XorLow(lo / 2, hi, lo' / 2, hi', w - 1);
      HalfOfSum(lo, p, hi);
      HalfOfSum(lo', p, hi');
      TwiceProduct(p, Xor(hi, hi'));
      XorUnfold(lo + Pow2(w) * hi, lo' + Pow2(w) * hi');
    }
  }

  /** Numbers are combined digit by digit in base 256. */
  lemma XorDigits(lo: nat, hi: nat, lo': nat, hi': nat)
    requires lo < 256 && lo' < 256
    ensures Xor(lo + 256 * hi, lo' + 256 * hi') == Xor(lo, lo') + 256 * Xor(hi, hi')
  {
    hide Xor;
    XorLow(lo, hi, lo', hi', 8);
    assert Pow2(8) == 256;
  }

  lemma {:induction false} XorBound(a: nat, b: nat, n: nat)
    requires a < Pow2(n) && b < Pow2(n)
    ensures Xor(a, b) < Pow2(n)
    decreases n
  {
    if n == 0 {
    } else {
      XorBound(a / 2, b / 2, n - 1);
    }
  }

  lemma Pow2Of64()
    ensures Pow2(64) == TWO64
  {
    assert Pow2(8) == 256;
    Pow2Split(8, 16);
    Pow2Split(16, 32);
    Pow2Split(32, 64);
  }

  function XorWord(a: Word, b: Word): (r: Word) {
    Pow2Of64();
    XorBound(a, b, 64);
    Xor(a, b)
  }

  /** Numbers that share no bit are combined by addition. */
  lemma {:induction false} XorDisjoint(a: nat, b: nat, j: nat)
    requires b < Pow2(j)
    ensures Xor(a * Pow2(j), b) == a * Pow2(j) + b
    decreases j
  {
    if j == 0 {
      XorTwice(a, 0);
      XorZero(a);
    } else {
      assert a * Pow2(j) == 2 * (a * Pow2(j - 1));
      XorDisjoint(a, b / 2, j - 1);
    }
  }

  // ---------------------------------------------------------------- shifts

  lemma {:induction false} XorShr(a: nat, b: nat, j: nat)
    ensures Shr(Xor(a, b), j) == Xor(Shr(a, j), Shr(b, j))
    decreases j
  {
    if j == 0 {
    } else {
      assert Xor(a, b) / 2 == Xor(a / 2, b / 2);
      XorShr(a / 2, b / 2, j - 1);
    }
  }

  lemma {:induction false} ShrShr(a: nat, i: nat, j: nat)
    ensures Shr(Shr(a, i), j) == Shr(a, i + j)
    decreases i
  {
    if i == 0 {
    } else {
      ShrShr(a / 2, i - 1, j);
    }
  }

  lemma {:induction false} ShrVanishes(a: nat, j: nat)
    requires a < Pow2(j)
    ensures Shr(a, j) == 0
    decreases j
  {
    if j == 0 {
    } else {
      ShrVanishes(a / 2, j - 1);
    }
  }

  lemma {:induction false} ShrSmaller(a: nat, j: nat)
    ensures Shr(a, j) <= a
    decreases j
  {
    if j == 0 {
    } else {
      ShrSmaller(a / 2, j - 1);
    }
  }

  /** The word XOR its upper 31 bits moved down. */
  function XorShift33(x: Word): (r: Word) {
    ShrSmaller(x, 33);
    XorWord(x, Shr(x, 33))
  }

  /** Doing it twice restores the word, since 33 + 33 >= 64. */
  lemma XorShift33Twice(x: Word)
    ensures XorShift33(XorShift33(x)) == x
  {
    var s, j := Shr(x, 33), 33;
    ShrSmaller(x, 33);
    XorShr(x, s, j);
    ShrShr(x, j, j);
    Pow2Of64();
    assert Pow2(66) == 4 * Pow2(64);
    ShrVanishes(x, j + j);
    XorZero(s);
    assert Shr(XorShift33(x), j) == s;
    XorTwice(x, s);
  }

  /** Left shift by `r` bits, within 64 bits. */
  function Shl(x: Word, r: nat): Word {
    x * Pow2(r) % TWO64
  }

  lemma QuotientBound(x: nat, p: nat, q: nat)
    requires x < p * q && q > 0
    ensures x / q < p
  {
    MulOrder(p, x / q, q);
  }

  lemma RemainderBound(p: nat, q: nat, lo: nat)
    requires lo < q
    ensures 0 <= lo * p <= p * q - p
  {
    assert p * q - lo * p == p * (q - lo);
    MulAtLeast(p + 1, q - lo);
  }

  lemma Regroup(x: nat, p: nat, q: nat, hi: nat, lo: nat)
    requires x == q * hi + lo
    ensures x * p == p * q * hi + lo * p
  {}

  lemma SplitWord(x: Word, p: nat, q: nat)
    requires p * q == TWO64
    ensures q > 0 && x / q < p
    ensures x * p % TWO64 == x % q * p <= TWO64 - p
  {
    var hi, lo := x / q, x % q;
    QuotientBound(x, p, q);
    Regroup(x, p, q, hi, lo);
    RemainderBound(p, q, lo);
    ModUnique(x * p, TWO64, hi, lo * p);
  }

  /** The two halves of a rotation occupy disjoint bits. */
  lemma RotlParts(x: Word, r: nat)
    requires 0 < r < 64
    ensures Shl(x, r) == x % Pow2(64 - r) * Pow2(r)
    ensures Shr(x, 64 - r) == x / Pow2(64 - r) < Pow2(r)
    ensures Shl(x, r) + Shr(x, 64 - r) < TWO64
  {
    Pow2Split(r, 64);
    Pow2Of64();
    ShrDivides(x, 64 - r);
    SplitWord(x, Pow2(r), Pow2(64 - r));
  }

  /** Rotation to the left by `r` bits. */
  function Rotl(x: Word, r: nat): (w: Word)
    requires 0 < r < 64
  {
    RotlParts(x, r);
    Shl(x, r) + Shr(x, 64 - r)
  }

  lemma RotlSum(x: Word, r: nat)
    requires 0 < r < 64
    ensures Rotl(x, r) == x % Pow2(64 - r) * Pow2(r) + x / Pow2(64 - r) && x / Pow2(64 - r) < Pow2(r)
  {
    hide Pow2, Shl, Shr;
    RotlParts(x, r);
  }

  lemma Swapped(x: nat, p: nat, q: nat)
    requires q > 0 && x / q < p
    ensures var y := x % q * p + x / q; y % p * q + y / p == x
  {
    var y := x % q * p + x / q;
    ModUnique(y, p, x % q, x / q);
    assert x == x / q * q + x % q;
  }

  /** Rotating by the rest of the word rotates back. */
  lemma RotlBack(x: Word, r: nat)
    requires 0 < r < 64
    ensures Rotl(Rotl(x, r), 64 - r) == x
  {
    hide Pow2, Rotl;
    RotlSum(x, r);
    RotlSum(Rotl(x, r), 64 - r);
    assert 64 - (64 - r) == r;
    Swapped(x, Pow2(r), Pow2(64 - r));
  }

  // ---------------------------------------------------------------- arithmetic

  lemma SubAdd(x: Word, y: Word)
    ensures Sub(Add(x, y), y) == x && Add(Sub(x, y), y) == x
  {}

  /** A multiplier with an inverse modulo 2^64 loses nothing. */
  lemma MulBack(x: Word, c: nat, inv: nat)
    requires c * inv % TWO64 == 1
    ensures Mul(Mul(x, c), inv) == x
  {
    var q, r := x * c / TWO64, Mul(x, c);
    var t := c * inv / TWO64;
    assert x * c == TWO64 * q + r;
    assert c * inv == TWO64 * t + 1;
    assert r * inv == x + TWO64 * (x * t - q * inv) by {
      assert (x * c) * inv == x * (c * inv);
      assert (TWO64 * q + r) * inv == TWO64 * (q * inv) + r * inv;
      assert x * (TWO64 * t + 1) == TWO64 * (x * t) + x;
    }
    ModUnique(r * inv, TWO64, x * t - q * inv, x);
  }
}
