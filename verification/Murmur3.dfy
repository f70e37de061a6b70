/** MurmurHash3-128 (internal/hash/murmur3.go). */
module Murmur3 {
  import opened Bits
  import opened Words
  import BigEndian

  const C1: nat := 0x87c3_7b91_1142_53d5
  const C2: nat := 0x4cf5_ad43_2745_937f
  const D1: Word := 0x52dc_e729
  const D2: Word := 0x3849_5ab5
  const F1: nat := 0xff51_afd7_ed55_8ccd
  const F2: nat := 0xc4ce_b9fe_1a85_ec53

  /** The running pair (h1, h2). */
  datatype State = State(h1: Word, h2: Word)

  // ---------------------------------------------------------------- specification

  function MixK1(k: Word): Word {
    Mul(Rotl(Mul(k, C1), 31), C2)
  }

  function MixK2(k: Word): Word {
    Mul(Rotl(Mul(k, C2), 33), C1)
  }

  /** Rotate, add, multiply by five, add. */
  function Scramble(x: Word, r: nat, c: Word, d: Word): Word
    requires 0 < r < 64
  {
    Add(Mul(Add(Rotl(x, r), c), 5), d)
  }

  function RoundH1(s: State, k1: Word): Word {
    Scramble(XorWord(s.h1, MixK1(k1)), 27, s.h2, D1)
  }

  function RoundH2(s: State, h1: Word, k2: Word): Word {
    Scramble(XorWord(s.h2, MixK2(k2)), 31, h1, D2)
  }

  /** One 16-byte block. */
  function Round(s: State, k1: Word, k2: Word): State {
    var h1 := RoundH1(s, k1);
    State(h1, RoundH2(s, h1, k2))
  }

  lemma {:induction false} LittleEndianBound(s: seq<byte>)
    ensures LittleEndian(s) < BigEndian.Pow256(|s|)
  {
    if |s| == 0 {
    } else {
      LittleEndianBound(s[1..]);
    }
  }

  lemma WordBound(s: seq<byte>)
    requires |s| <= 8
    ensures LittleEndian(s) < TWO64
  {
    LittleEndianBound(s);
    BigEndian.Pow256Monotone(|s|, 8);
    BigEndian.Widths();
  }

  /** The two little-endian halves of a block, or the front part of a tail. */
  function Half(s: seq<byte>, from: nat, to: nat): Word
    requires from <= to <= |s| && to - from <= 8
  {
    WordBound(s[from..to]);
    LittleEndian(s[from..to])
  }

  function Block(data: seq<byte>, i: nat): (b: seq<byte>)
    requires 16 * i + 16 <= |data|
    ensures |b| == 16
  {
    data[16 * i..16 * i + 16]
  }

  /** The two words of block `i`. */
  function BlockWords(data: seq<byte>, i: nat): (Word, Word)
    requires 16 * i + 16 <= |data|
  {
    (Half(Block(data, i), 0, 8), Half(Block(data, i), 8, 16))
  }

  function AllBlocks(data: seq<byte>): (ks: seq<(Word, Word)>)
    ensures |ks| == |data| / 16
  {
    seq(|data| / 16, i requires 0 <= i < |data| / 16 => BlockWords(data, i))
  }

  function Fold(step: (State, Word, Word) -> State, s: State, ks: seq<(Word, Word)>): State
    decreases |ks|, s
  {
    if |ks| == 0 then s
    else
      var (k1, k2) := ks[|ks| - 1];
      step(Fold(step, s, ks[..|ks| - 1]), k1, k2)
  }

  function MixTail(s: State, tail: seq<byte>): State
    requires |tail| < 16
  {
    State(
      if |tail| == 0 then s.h1 else XorWord(s.h1, MixK1(Half(tail, 0, if |tail| < 8 then |tail| else 8))),
      if |tail| <= 8 then s.h2 else XorWord(s.h2, MixK2(Half(tail, 8, |tail|))))
  }

  function FmixFirst(k: Word): Word {
    Mul(XorShift33(k), F1)
  }

  function FmixSecond(k: Word): Word {
    Mul(XorShift33(k), F2)
  }

  function Fmix64(k: Word): Word {
    XorShift33(FmixSecond(FmixFirst(k)))
  }

  /** The second half is added to the first, then the new first half to the second. */
  function AddPair(s: State): State {
    State(Add(s.h1, s.h2), Add(s.h2, Add(s.h1, s.h2)))
  }

  function Finish(s: State, n: Word): State {
    var t := AddPair(State(XorWord(s.h1, n), XorWord(s.h2, n)));
    AddPair(State(Fmix64(t.h1), Fmix64(t.h2)))
  }

  function Sum128(data: seq<byte>, seed: Word): State {
    Finish(MixTail(Fold(Round, State(seed, seed), AllBlocks(data)), data[|data| / 16 * 16..]), |data| % TWO64)
  }

  lemma {:induction false} FoldAppends(step: (State, Word, Word) -> State, s: State, ks: seq<(Word, Word)>,
                                       ls: seq<(Word, Word)>)
    ensures Fold(step, s, ks + ls) == Fold(step, Fold(step, s, ks), ls)
    decreases |ls|
  {
    if |ls| == 0 {
      assert ks + ls == ks;
    } else {
      var n := |ls| - 1;
      FoldAppends(step, s, ks, ls[..n]);
      assert (ks + ls)[..|ks| + n] == ks + ls[..n];
    }
  }

  lemma BlockAppends(data: seq<byte>, more: seq<byte>, i: nat)
    requires |data| % 16 == 0 && 16 * i + 16 <= |data| + |more|
    ensures Block(data + more, i) == if i < |data| / 16 then Block(data, i) else Block(more, i - |data| / 16)
  {}

  /** Absorbing whole blocks and then more data is absorbing all of it, from the front. */
  lemma BlocksAppend(s: State, data: seq<byte>, more: seq<byte>)
    requires |data| % 16 == 0
    ensures Fold(Round, s, AllBlocks(data + more)) == Fold(Round, Fold(Round, s, AllBlocks(data)), AllBlocks(more))
  {
    hide Round, Fold, LittleEndian;
    forall i: nat | 16 * i + 16 <= |data| + |more|
      ensures Block(data + more, i) == if i < |data| / 16 then Block(data, i) else Block(more, i - |data| / 16)
    {
      BlockAppends(data, more, i);
    }
    assert AllBlocks(data + more) == AllBlocks(data) + AllBlocks(more);
    FoldAppends(Round, s, AllBlocks(data), AllBlocks(more));
  }

  // ---------------------------------------------------------------- little-endian words

  lemma {:induction false} LittleEndianInjective(s: seq<byte>, t: seq<byte>)
    requires |s| == |t| && LittleEndian(s) == LittleEndian(t)
    ensures s == t
  {
    if |s| == 0 {
    } else {
      ValInjective(s[0], t[0]);
      LittleEndianInjective(s[1..], t[1..]);
      assert s == [s[0]] + s[1..] && t == [t[0]] + t[1..];
    }
  }

  // ---------------------------------------------------------------- every step has an inverse

  // The inverses of the odd constants modulo 2^64.
  const C1_INVERSE: nat := 0xa984_09e8_82ce_4d7d
  const C2_INVERSE: nat := 0xa81e_14ed_d9de_2c7f
  const F1_INVERSE: nat := 0x4f74_430c_22a5_4005
  const F2_INVERSE: nat := 0x9cb4_b2f8_1293_37db
  const FIVE_INVERSE: nat := 0xcccc_cccc_cccc_cccd

  lemma Inverses()
    ensures C1 * C1_INVERSE % TWO64 == C1_INVERSE * C1 % TWO64 == 1
    ensures C2 * C2_INVERSE % TWO64 == C2_INVERSE * C2 % TWO64 == 1
    ensures F1 * F1_INVERSE % TWO64 == F1_INVERSE * F1 % TWO64 == 1
    ensures F2 * F2_INVERSE % TWO64 == F2_INVERSE * F2 % TWO64 == 1
    ensures 5 * FIVE_INVERSE % TWO64 == FIVE_INVERSE * 5 % TWO64 == 1
  {}

  function UnmixK1(k: Word): Word {
    Mul(Rotl(Mul(k, C2_INVERSE), 33), C1_INVERSE)
  }

  lemma MixK1Back(k: Word)
    ensures UnmixK1(MixK1(k)) == k && MixK1(UnmixK1(k)) == k
  {
    hide Mul, Rotl;
    Inverses();
    MulBack(Rotl(Mul(k, C1), 31), C2, C2_INVERSE);
    RotlBack(Mul(k, C1), 31);
    MulBack(k, C1, C1_INVERSE);
    MulBack(Rotl(Mul(k, C2_INVERSE), 33), C1_INVERSE, C1);
    RotlBack(Mul(k, C2_INVERSE), 33);
    MulBack(k, C2_INVERSE, C2);
  }

  function UnmixK2(k: Word): Word {
    Mul(Rotl(Mul(k, C1_INVERSE), 31), C2_INVERSE)
  }

  lemma MixK2Back(k: Word)
    ensures UnmixK2(MixK2(k)) == k && MixK2(UnmixK2(k)) == k
  {
    hide Mul, Rotl;
    Inverses();
    MulBack(Rotl(Mul(k, C2), 33), C1, C1_INVERSE);
    RotlBack(Mul(k, C2), 33);
    MulBack(k, C2, C2_INVERSE);
    MulBack(Rotl(Mul(k, C1_INVERSE), 31), C2_INVERSE, C2);
    RotlBack(Mul(k, C1_INVERSE), 31);
    MulBack(k, C1_INVERSE, C1);
  }

  function Unscramble(y: Word, r: nat, c: Word, d: Word): Word
    requires 0 < r < 64
  {
    Rotl(Sub(Mul(Sub(y, d), FIVE_INVERSE), c), 64 - r)
  }

  lemma ScrambleBack(x: Word, r: nat, c: Word, d: Word)
    requires 0 < r < 64
    ensures Unscramble(Scramble(x, r, c, d), r, c, d) == x && Scramble(Unscramble(x, r, c, d), r, c, d) == x
  {
    hide Mul, Rotl, Add, Sub;
    Inverses();
    var y := Add(Rotl(x, r), c);
    SubAdd(Mul(y, 5), d);
    MulBack(y, 5, FIVE_INVERSE);
    SubAdd(Rotl(x, r), c);
    RotlBack(x, r);
    var z := Mul(Sub(x, d), FIVE_INVERSE);
    RotlBack(Sub(z, c), 64 - r);
    SubAdd(z, c);
    MulBack(Sub(x, d), FIVE_INVERSE, 5);
    SubAdd(x, d);
  }

  /** The state a block step came from. */
  function Unround(t: State, k1: Word, k2: Word): State {
    var h2 := XorWord(Unscramble(t.h2, 31, t.h1, D2), MixK2(k2));
    State(XorWord(Unscramble(t.h1, 27, h2, D1), MixK1(k1)), h2)
  }

  /** Under any block, a block step is a bijection of the 2^128 states. */
  lemma RoundBijectiveInState(s: State, k1: Word, k2: Word)
    ensures Unround(Round(s, k1, k2), k1, k2) == s && Round(Unround(s, k1, k2), k1, k2) == s
  {
    hide Xor, Scramble, Unscramble, MixK1, MixK2;
    var t := Round(s, k1, k2);
    ScrambleBack(XorWord(s.h2, MixK2(k2)), 31, t.h1, D2);
    XorBack(s.h2, MixK2(k2));
    ScrambleBack(XorWord(s.h1, MixK1(k1)), 27, s.h2, D1);
    XorBack(s.h1, MixK1(k1));
    var u := Unround(s, k1, k2);
    XorBack(Unscramble(s.h1, 27, u.h2, D1), MixK1(k1));
    ScrambleBack(s.h1, 27, u.h2, D1);
    XorBack(Unscramble(s.h2, 31, s.h1, D2), MixK2(k2));
    ScrambleBack(s.h2, 31, s.h1, D2);
  }

  /** The block that takes state `s` to state `t`. */
  function BlockBetween(s: State, t: State): (Word, Word) {
    (UnmixK1(XorWord(Unscramble(t.h1, 27, s.h2, D1), s.h1)), UnmixK2(XorWord(Unscramble(t.h2, 31, t.h1, D2), s.h2)))
  }

  /** From any state, a block step is a bijection from blocks to states. */
  lemma RoundBijectiveInBlock(s: State, t: State, k1: Word, k2: Word)
    ensures BlockBetween(s, Round(s, k1, k2)) == (k1, k2)
    ensures Round(s, BlockBetween(s, t).0, BlockBetween(s, t).1) == t
  {
    hide Xor, Scramble, Unscramble, MixK1, MixK2, UnmixK1, UnmixK2;
    var u := Round(s, k1, k2);
    ScrambleBack(XorWord(s.h1, MixK1(k1)), 27, s.h2, D1);
    XorBack(s.h1, MixK1(k1));
    MixK1Back(k1);
    ScrambleBack(XorWord(s.h2, MixK2(k2)), 31, u.h1, D2);
    XorBack(s.h2, MixK2(k2));
    MixK2Back(k2);
    var a, b := Unscramble(t.h1, 27, s.h2, D1), Unscramble(t.h2, 31, t.h1, D2);
    MixK1Back(XorWord(a, s.h1));
    MixK2Back(XorWord(b, s.h2));
    XorBack(a, s.h1);
    XorBack(b, s.h2);
    XorCommutes(s.h1, XorWord(a, s.h1));
    XorCommutes(s.h2, XorWord(b, s.h2));
    ScrambleBack(t.h1, 27, s.h2, D1);
    ScrambleBack(t.h2, 31, t.h1, D2);
  }

  /** Mixing the same tail in twice restores the state. */
  lemma MixTailTwice(s: State, tail: seq<byte>)
    requires |tail| < 16
    ensures MixTail(MixTail(s, tail), tail) == s
  {
    hide MixK1, MixK2, Half, Xor;
    if |tail| > 0 {
      XorBack(s.h1, MixK1(Half(tail, 0, if |tail| < 8 then |tail| else 8)));
    }
    if |tail| > 8 {
      XorBack(s.h2, MixK2(Half(tail, 8, |tail|)));
    }
  }

  lemma MixTailInjectiveInTail(s: State, x: seq<byte>, y: seq<byte>)
    requires |x| == |y| < 16
    ensures MixTail(s, x) == MixTail(s, y) ==> x == y
  {
    hide MixK1, MixK2, UnmixK1, UnmixK2, Xor;
    if MixTail(s, x) == MixTail(s, y) {
      if |x| > 0 {
        var n := if |x| < 8 then |x| else 8;
        XorBack(s.h1, MixK1(Half(x, 0, n)));
        XorBack(s.h1, MixK1(Half(y, 0, n)));
        MixK1Back(Half(x, 0, n));
        MixK1Back(Half(y, 0, n));
        LittleEndianInjective(x[0..n], y[0..n]);
        if |x| > 8 {
          XorBack(s.h2, MixK2(Half(x, 8, |x|)));
          XorBack(s.h2, MixK2(Half(y, 8, |y|)));
          MixK2Back(Half(x, 8, |x|));
          MixK2Back(Half(y, 8, |y|));
          LittleEndianInjective(x[8..|x|], y[8..|y|]);
        }
        assert x == x[0..n] + x[n..|x|] && y == y[0..n] + y[n..|y|];
      }
    }
  }

  function Unfmix64(k: Word): Word {
    XorShift33(Mul(XorShift33(Mul(XorShift33(k), F2_INVERSE)), F1_INVERSE))
  }

  /** fmix64 is a bijection of the 2^64 words. */
  lemma Fmix64Bijective(k: Word)
    ensures Unfmix64(Fmix64(k)) == k && Fmix64(Unfmix64(k)) == k
  {
    hide Mul, XorShift33;
    Inverses();
    XorShift33Twice(FmixSecond(FmixFirst(k)));
    MulBack(XorShift33(FmixFirst(k)), F2, F2_INVERSE);
    XorShift33Twice(FmixFirst(k));
    MulBack(XorShift33(k), F1, F1_INVERSE);
    XorShift33Twice(k);
    var y := Mul(XorShift33(k), F2_INVERSE);
    XorShift33Twice(Mul(XorShift33(y), F1_INVERSE));
    MulBack(XorShift33(y), F1_INVERSE, F1);
    XorShift33Twice(y);
    MulBack(XorShift33(k), F2_INVERSE, F2);
  }

  function SubPair(s: State): State {
    var h2 := Sub(s.h2, s.h1);
    State(Sub(s.h1, h2), h2)
  }

  lemma AddPairBack(s: State)
    ensures SubPair(AddPair(s)) == s && AddPair(SubPair(s)) == s
  {
    hide Add, Sub;
    SubAdd(s.h2, Add(s.h1, s.h2));
    SubAdd(s.h1, s.h2);
    SubAdd(s.h2, s.h1);
    SubAdd(s.h1, Sub(s.h2, s.h1));
  }

  function Unfinish(s: State, n: Word): State {
    var t := SubPair(s);
    var u := SubPair(State(Unfmix64(t.h1), Unfmix64(t.h2)));
    State(XorWord(u.h1, n), XorWord(u.h2, n))
  }

  /** For any length, finalization is a bijection of the 2^128 states. */
  lemma FinishBijective(s: State, n: Word)
    ensures Unfinish(Finish(s, n), n) == s && Finish(Unfinish(s, n), n) == s
  {
    hide AddPair, SubPair, Fmix64, Unfmix64, Xor;
    var u := State(XorWord(s.h1, n), XorWord(s.h2, n));
    var p := AddPair(u);
    AddPairBack(State(Fmix64(p.h1), Fmix64(p.h2)));
    Fmix64Bijective(p.h1);
    Fmix64Bijective(p.h2);
    AddPairBack(u);
    XorBack(s.h1, n);
    XorBack(s.h2, n);
    var t := SubPair(s);
    var v := SubPair(State(Unfmix64(t.h1), Unfmix64(t.h2)));
    XorBack(v.h1, n);
    XorBack(v.h2, n);
    AddPairBack(State(Unfmix64(t.h1), Unfmix64(t.h2)));
    Fmix64Bijective(t.h1);
    Fmix64Bijective(t.h2);
    AddPairBack(s);
  }

  // ---------------------------------------------------------------- whole inputs

  /** The inputs agree in every block except possibly block `i`. */
  predicate AgreeOutsideBlock(x: seq<byte>, y: seq<byte>, i: nat) {
    |x| == |y| && forall j | 0 <= j < |x| && j / 16 != i :: x[j] == y[j]
  }

  lemma HalvesInjective(b: seq<byte>, c: seq<byte>)
    requires |b| == |c| == 16 && Half(b, 0, 8) == Half(c, 0, 8) && Half(b, 8, 16) == Half(c, 8, 16)
    ensures b == c
  {
    LittleEndianInjective(b[0..8], c[0..8]);
    LittleEndianInjective(b[8..16], c[8..16]);
    assert b == b[0..8] + b[8..16] && c == c[0..8] + c[8..16];
  }

  lemma BlocksAgree(x: seq<byte>, y: seq<byte>, i: nat, j: nat)
    requires AgreeOutsideBlock(x, y, i) && 16 * j + 16 <= |x|
    ensures j != i ==> BlockWords(x, j) == BlockWords(y, j)
    ensures j == i && BlockWords(x, j) == BlockWords(y, j) ==> x == y
  {
    if j != i {
      assert Block(x, j) == Block(y, j);
    } else if BlockWords(x, j) == BlockWords(y, j) {
      HalvesInjective(Block(x, j), Block(y, j));
      forall p | 0 <= p < |x| ensures x[p] == y[p] {
        if p / 16 == i {
          assert Block(x, i)[p - 16 * i] == Block(y, i)[p - 16 * i];
        }
      }
    }
  }

  ghost predicate InjectiveStep(step: (State, Word, Word) -> State) {
    && (forall s, t, a, b :: step(s, a, b) == step(t, a, b) ==> s == t)
    && (forall s, a, b, c, d :: step(s, a, b) == step(s, c, d) ==> a == c && b == d)
  }

  lemma RoundInjective()
    ensures InjectiveStep(Round)
  {
    hide Round, Unround, BlockBetween;
    forall s, t, a, b | Round(s, a, b) == Round(t, a, b) ensures s == t {
      RoundBijectiveInState(s, a, b);
      RoundBijectiveInState(t, a, b);
    }
    forall s, a, b, c, d | Round(s, a, b) == Round(s, c, d) ensures a == c && b == d {
      RoundBijectiveInBlock(s, s, a, b);
      RoundBijectiveInBlock(s, s, c, d);
    }
  }

  /** States driven apart by one differing block stay apart. */
  lemma {:induction false} FoldApart(step: (State, Word, Word) -> State, s: State, ks: seq<(Word, Word)>,
                                     ls: seq<(Word, Word)>, i: nat)
    requires InjectiveStep(step)
    requires i < |ks| == |ls| && ks[i] != ls[i]
    requires forall j | 0 <= j < |ks| && j != i :: ks[j] == ls[j]
    ensures Fold(step, s, ks) != Fold(step, s, ls)
    decreases |ks|
  {
    var n := |ks| - 1;
    if i == n {
      assert ks[..n] == ls[..n];
    } else {
      FoldApart(step, s, ks[..n], ls[..n], i);
    }
  }

  lemma FoldBlocksApart(x: seq<byte>, y: seq<byte>, seed: Word, i: nat)
    requires AgreeOutsideBlock(x, y, i) && x != y
    ensures i < |x| / 16 <==>
            Fold(Round, State(seed, seed), AllBlocks(x)) != Fold(Round, State(seed, seed), AllBlocks(y))
  {
    var ks, ls := AllBlocks(x), AllBlocks(y);
    forall j | 0 <= j < |ks|
      ensures j != i ==> ks[j] == ls[j]
      ensures j == i ==> ks[j] != ls[j]
    {
      BlocksAgree(x, y, i, j);
    }
    if i < |x| / 16 {
      RoundInjective();
      FoldApart(Round, State(seed, seed), ks, ls, i);
    } else {
      assert ks == ls;
    }
  }

  lemma TailsAgree(x: seq<byte>, y: seq<byte>, i: nat)
    requires AgreeOutsideBlock(x, y, i) && x != y
    ensures i < |x| / 16 <==> x[|x| / 16 * 16..] == y[|y| / 16 * 16..]
  {
    var n := |x| / 16 * 16;
    assert x == x[..n] + x[n..] && y == y[..n] + y[n..];
    if i >= |x| / 16 {
      assert x[..n] == y[..n];
    }
  }

  lemma SumApart(s: State, t: State, x: seq<byte>, y: seq<byte>, length: Word)
    requires |x| == |y| < 16 && (s != t <==> x == y)
    ensures Finish(MixTail(s, x), length) != Finish(MixTail(t, y), length)
  {
    hide Finish, Unfinish, MixTail;
    if Finish(MixTail(s, x), length) == Finish(MixTail(t, y), length) {
      FinishBijective(MixTail(s, x), length);
      FinishBijective(MixTail(t, y), length);
      if s != t {
        MixTailTwice(s, x);
        MixTailTwice(t, x);
      } else {
        MixTailInjectiveInTail(s, x, y);
      }
    }
  }

  /** Unequal inputs of one length that differ only inside one aligned 16-byte block, or only in the
      tail, never collide. */
  lemma NoLocalCollision(x: seq<byte>, y: seq<byte>, seed: Word, i: nat)
    requires AgreeOutsideBlock(x, y, i) && x != y
    ensures Sum128(x, seed) != Sum128(y, seed)
  {
    hide Fold, Finish, MixTail, Round;
    FoldBlocksApart(x, y, seed, i);
    TailsAgree(x, y, i);
    SumApart(Fold(Round, State(seed, seed), AllBlocks(x)), Fold(Round, State(seed, seed), AllBlocks(y)),
             x[|x| / 16 * 16..], y[|y| / 16 * 16..], |x| % TWO64);
  }

  // ---------------------------------------------------------------- the imperative form

  /** `x` shifted left by `j` bytes. */
  function Place(x: nat, j: nat): nat {
    x * BigEndian.Pow256(j)
  }

  lemma LessTimes(a: nat, b: nat, p: nat)
    requires a < b && p > 0
    ensures a * p < p * b
  {}

  lemma PlaceBound(s: seq<byte>, j: nat)
    requires j <= |s| <= 8
    ensures Place(LittleEndian(s[j..]), j) < TWO64
  {
    hide LittleEndian, BigEndian.Pow256;
    LittleEndianBound(s[j..]);
    BigEndian.Pow256Split(j, |s|);
    BigEndian.Pow256Monotone(|s|, 8);
    BigEndian.Widths();
    LessTimes(LittleEndian(s[j..]), BigEndian.Pow256(|s| - j), BigEndian.Pow256(j));
  }

  lemma PlaceByteBound(s: seq<byte>, j: nat)
    requires j < |s| <= 8
    ensures Place(Val(s[j]), j) < TWO64
  {
    PlaceBound(s, j);
    MulOrder(Val(s[j]), LittleEndian(s[j..]), BigEndian.Pow256(j));
  }

  lemma Distribute(hi: nat, lo: nat, p: nat)
    ensures hi * (256 * p) + lo * p == (lo + 256 * hi) * p
  {}

  lemma PlaceDisjoint(hi: nat, lo: nat, j: nat)
    requires lo < 256
    ensures Xor(Place(hi, j + 1), Place(lo, j)) == Place(lo + 256 * hi, j)
  {
    var p := BigEndian.Pow256(j);
    BigEndian.Pow256IsShift(j + 1);
    MulOrder(lo, 255, p);
    XorDisjoint(hi, lo * p, 8 * (j + 1));
    Distribute(hi, lo, p);
  }

  /** XORing the next lower byte into place extends a little-endian number by that byte. */
  lemma AbsorbByte(s: seq<byte>, j: nat)
    requires j < |s| <= 8
    ensures Xor(Place(LittleEndian(s[j + 1..]), j + 1), Place(Val(s[j]), j)) == Place(LittleEndian(s[j..]), j)
  {
    assert s[j..][1..] == s[j + 1..];
    PlaceDisjoint(LittleEndian(s[j + 1..]), Val(s[j]), j);
  }

  /** Word number `idx` of the input, or 0 when its eight bytes are not all there. */
  function GetBlock64(data: seq<byte>, idx: nat): Word {
    if 8 * idx + 8 > |data| then 0 else Half(data, 8 * idx, 8 * idx + 8)
  }

  lemma GetBlock64Words(data: seq<byte>, i: nat)
    requires 16 * i + 16 <= |data|
    ensures (GetBlock64(data, 2 * i), GetBlock64(data, 2 * i + 1)) == BlockWords(data, i)
  {
    assert Block(data, i)[0..8] == data[16 * i..16 * i + 8];
    assert Block(data, i)[8..16] == data[16 * i + 8..16 * i + 16];
  }

  /** Cases |tail| .. 1 of the switch for one half: each case falls through to the next lower one,
      so the bytes are absorbed from the last to the first. */
  method AbsorbTail(part: seq<byte>) returns (k: Word)
    requires |part| <= 8
    ensures k == LittleEndian(part)
  {
    k := 0;
    for j := |part| downto 0
      invariant k == Place(LittleEndian(part[j..]), j)
    {
      PlaceBound(part, j);
      PlaceByteBound(part, j);
      AbsorbByte(part, j);
      k := XorWord(k, Place(Val(part[j]), j));
    }
    assert part[0..] == part;
  }

  method MixBlock(k: Word, c: nat, r: nat, d: nat) returns (out: Word)
    requires 0 < r < 64
    ensures out == Mul(Rotl(Mul(k, c), r), d)
  {
    hide Mul, Rotl;
    out := Mul(k, c);
    out := Rotl(out, r);
    out := Mul(out, d);
  }

  method RunRound(a: Word, b: Word, x: Word, y: Word) returns (h1: Word, h2: Word)
    ensures State(h1, h2) == Round(State(a, b), x, y)
  {
    hide Mul, Rotl, Add;
    h1, h2 := a, b;
    var k1 := MixBlock(x, C1, 31, C2);
    h1 := XorWord(h1, k1);
    h1 := Rotl(h1, 27);
    h1 := Add(h1, h2);
    h1 := Add(Mul(h1, 5), D1);
    var k2 := MixBlock(y, C2, 33, C1);
    h2 := XorWord(h2, k2);
    h2 := Rotl(h2, 31);
    h2 := Add(h2, h1);
    h2 := Add(Mul(h2, 5), D2);
  }

  method RunFinish(a: Word, b: Word, length: Word) returns (h1: Word, h2: Word)
    ensures State(h1, h2) == Finish(State(a, b), length)
  {
    hide Add, Fmix64;
    h1, h2 := XorWord(a, length), XorWord(b, length);
    h1 := Add(h1, h2);
    h2 := Add(h2, h1);
    h1 := Fmix64(h1);
    h2 := Fmix64(h2);
    h1 := Add(h1, h2);
    h2 := Add(h2, h1);
  }

  method Murmur3Sum128(data: seq<byte>, seed: Word) returns (h1: Word, h2: Word)
    ensures State(h1, h2) == Sum128(data, seed)
  {
    hide Mul, Rotl, Add, Round, Finish;
    h1, h2 := seed, seed;
    var nblocks := |data| / 16;
    ghost var ks := AllBlocks(data);
    for i := 0 to nblocks
      invariant State(h1, h2) == Fold(Round, State(seed, seed), ks[..i])
    {
      ghost var before := State(h1, h2);
      var k1, k2 := GetBlock64(data, 2 * i), GetBlock64(data, 2 * i + 1);
      h1, h2 := RunRound(h1, h2, k1, k2);
      GetBlock64Words(data, i);
      assert ks[..i + 1][..i] == ks[..i] && ks[..i + 1][i] == (k1, k2);
    }
    assert ks[..nblocks] == ks;

    var tail := data[nblocks * 16..];
    if |tail| > 8 {
      var k2 := AbsorbTail(tail[8..]);
      k2 := MixBlock(k2, C2, 33, C1);
      h2 := XorWord(h2, k2);
      assert tail[8..|tail|] == tail[8..];
    }
    if |tail| > 0 {
      var n := if |tail| < 8 then |tail| else 8;
      var k1 := AbsorbTail(tail[..n]);
      k1 := MixBlock(k1, C1, 31, C2);
      h1 := XorWord(h1, k1);
      assert tail[0..n] == tail[..n];
    }
    h1, h2 := RunFinish(h1, h2, |data| % TWO64);
  }
}
