/** The value of a Bloom filter and what its bits mean (internal/filter/filter.go). */
module Bloom {
  import opened Bits
  import opened Hash

  datatype Filter = Filter(m: nat, k: nat, bits: seq<byte>)

  /** The least number of bytes with room for `m` bits. */
  function BytesFor(m: nat): (n: nat)
    ensures m <= 8 * n < m + 8
  {
    (m + 7) / 8
  }

  predicate WellFormed(f: Filter) {
    f.m > 0 && f.k > 0 && |f.bits| == BytesFor(f.m)
  }

  function Empty(m: nat, k: nat): Filter {
    Filter(m, k, Zeros(BytesFor(m)))
  }

  function SetAll(bits: seq<byte>, ps: seq<nat>): (r: seq<byte>)
    ensures |r| == |bits|
  {
    if |ps| == 0 then bits else PutBit(SetAll(bits, ps[..|ps| - 1]), ps[|ps| - 1], true)
  }

  function ItemPositions(f: Filter, x: Item): seq<nat> {
    Positions(x, f.m, f.k)
  }

  /** The filter after adding `x`. */
  function Insert(f: Filter, x: Item): (r: Filter)
    ensures r.m == f.m && r.k == f.k && |r.bits| == |f.bits|
  {
    Filter(f.m, f.k, SetAll(f.bits, ItemPositions(f, x)))
  }

  function InsertAll(f: Filter, xs: seq<Item>): (r: Filter)
    ensures r.m == f.m && r.k == f.k && |r.bits| == |f.bits|
  {
    if |xs| == 0 then f else Insert(InsertAll(f, xs[..|xs| - 1]), xs[|xs| - 1])
  }

  predicate Contains(f: Filter, x: Item) {
    forall p | p in ItemPositions(f, x) :: GetBit(f.bits, p)
  }

  /** The positions of the set bits. */
  function SetBits(bits: seq<byte>): set<nat> {
    set p: nat | p < 8 * |bits| && GetBit(bits, p)
  }

  ghost predicate Hit(xs: seq<Item>, m: nat, k: nat, p: nat) {
    exists x | x in xs :: p in Positions(x, m, k)
  }

  // ---------------------------------------------------------------- the bits are a set of positions

  lemma SetBitsExtensional(a: seq<byte>, b: seq<byte>)
    requires |a| == |b| && SetBits(a) == SetBits(b)
    ensures a == b
  {
    forall p: nat | p < 8 * |a| ensures GetBit(a, p) == GetBit(b, p) {
      assert p in SetBits(a) <==> p in SetBits(b);
    }
    BitsExtensional(a, b);
  }

  lemma {:induction false} GetSetAll(bits: seq<byte>, ps: seq<nat>, q: nat)
    ensures GetBit(SetAll(bits, ps), q) <==> GetBit(bits, q) || (q in ps && q / 8 < |bits|)
    decreases |ps|
  {
    if |ps| == 0 {
    } else {
      var n := |ps| - 1;
      GetSetAll(bits, ps[..n], q);
      GetPutBit(SetAll(bits, ps[..n]), ps[n], true, q);
      assert ps == ps[..n] + [ps[n]];
    }
  }

  /** The bits after adding a list of items: the old ones and the items' positions, nothing else. */
  lemma {:induction false} GetInsertAll(f: Filter, xs: seq<Item>, q: nat)
    requires WellFormed(f)
    ensures GetBit(InsertAll(f, xs).bits, q) <==> GetBit(f.bits, q) || Hit(xs, f.m, f.k, q)
    decreases |xs|
  {
    hide GetBit, SetAll;
    if |xs| == 0 {
    } else {
      var n := |xs| - 1;
      GetInsertAll(f, xs[..n], q);
      GetSetAll(InsertAll(f, xs[..n]).bits, Positions(xs[n], f.m, f.k), q);
      assert xs == xs[..n] + [xs[n]];
    }
  }

  lemma InsertAllStep(f: Filter, xs: seq<Item>, x: Item)
    ensures InsertAll(f, xs + [x]) == Insert(InsertAll(f, xs), x)
  {
    assert (xs + [x])[..|xs|] == xs;
  }

  /** The bits of a filter built from nothing are exactly the union of its items' positions. */
  lemma BitsAreUnionOfPositions(m: nat, k: nat, xs: seq<Item>)
    requires m > 0 && k > 0
    ensures SetBits(InsertAll(Empty(m, k), xs).bits) == (set x, p | x in xs && p in Positions(x, m, k) :: p)
  {
    forall q: nat
      ensures q in SetBits(InsertAll(Empty(m, k), xs).bits) <==> Hit(xs, m, k, q)
    {
      GetInsertAll(Empty(m, k), xs, q);
      ZerosClear(BytesFor(m), q);
    }
  }

  /** Order and repetition of the added items do not matter. */
  lemma SameItemsSameFilter(f: Filter, xs: seq<Item>, ys: seq<Item>)
    requires WellFormed(f)
    requires forall x :: x in xs <==> x in ys
    ensures InsertAll(f, xs) == InsertAll(f, ys)
  {
    forall p: nat | p < 8 * |f.bits|
      ensures GetBit(InsertAll(f, xs).bits, p) == GetBit(InsertAll(f, ys).bits, p)
    {
      GetInsertAll(f, xs, p);
      GetInsertAll(f, ys, p);
    }
    BitsExtensional(InsertAll(f, xs).bits, InsertAll(f, ys).bits);
  }

  /** Adding an item never makes another one disappear. */
  lemma InsertKeeps(f: Filter, x: Item, y: Item)
    requires WellFormed(f) && Contains(f, y)
    ensures Contains(Insert(f, x), y)
  {
    forall p | p in ItemPositions(f, y) ensures GetBit(Insert(f, x).bits, p) {
      GetSetAll(f.bits, ItemPositions(f, x), p);
    }
  }

  lemma InsertedIsPresent(f: Filter, x: Item)
    requires WellFormed(f)
    ensures Contains(Insert(f, x), x)
  {
    forall p | p in ItemPositions(f, x) ensures GetBit(Insert(f, x).bits, p) {
      GetSetAll(f.bits, ItemPositions(f, x), p);
    }
  }

  /** No false negatives: every added item tests present. */
  lemma NoFalseNegatives(f: Filter, xs: seq<Item>, x: Item)
    requires WellFormed(f) && x in xs
    ensures Contains(InsertAll(f, xs), x)
  {
    forall p | p in ItemPositions(f, x) ensures GetBit(InsertAll(f, xs).bits, p) {
      GetInsertAll(f, xs, p);
    }
  }

  /** Adding `xs` to `f` gives the filter built from `xs` alone exactly when `f` has its parameters and
      every bit of `f` is set by `xs` anyway. */
  lemma AbsorbedIff(f: Filter, m: nat, k: nat, xs: seq<Item>)
    requires WellFormed(f) && m > 0 && k > 0
    ensures InsertAll(f, xs) == InsertAll(Empty(m, k), xs) <==>
            f.m == m && f.k == k && forall p: nat | GetBit(f.bits, p) :: Hit(xs, m, k, p)
  {
    hide Hit, GetBit, BytesFor;
    var a, b := InsertAll(f, xs), InsertAll(Empty(m, k), xs);
    forall p: nat
      ensures GetBit(a.bits, p) <==> GetBit(f.bits, p) || Hit(xs, f.m, f.k, p)
      ensures GetBit(b.bits, p) <==> Hit(xs, m, k, p)
    {
      GetInsertAll(f, xs, p);
      GetInsertAll(Empty(m, k), xs, p);
      ZerosClear(BytesFor(m), p);
    }
    if f.m == m && f.k == k && forall p: nat | GetBit(f.bits, p) :: Hit(xs, m, k, p) {
      BitsExtensional(a.bits, b.bits);
    }
  }

  lemma HitIff(xs: seq<Item>, m: nat, k: nat, p: nat)
    ensures Hit(xs, m, k, p) <==> exists x, j: nat | x in xs && j < k :: Hash.Hash(x, j, m) == p
  {
    hide Hash.Hash;
    if Hit(xs, m, k, p) {
      var x :| x in xs && p in Positions(x, m, k);
      var j :| 0 <= j < k && Positions(x, m, k)[j] == p;
      assert Hash.Hash(x, j, m) == p;
    }
    if exists x, j: nat | x in xs && j < k :: Hash.Hash(x, j, m) == p {
      var x: Item, j: nat :| x in xs && j < k && Hash.Hash(x, j, m) == p;
      assert Positions(x, m, k)[j] == p;
    }
  }

  lemma ContainsByIndex(f: Filter, y: Item)
    ensures Contains(f, y) <==> forall i: nat | i < f.k :: GetBit(f.bits, Hash.Hash(y, i, f.m))
  {
    hide GetBit, Hash.Hash;
    var ps := ItemPositions(f, y);
    if i: nat :| i < f.k && !GetBit(f.bits, Hash.Hash(y, i, f.m)) {
      assert ps[i] in ps;
    }
    if p :| p in ps && !GetBit(f.bits, p) {
      var i :| 0 <= i < f.k && ps[i] == p;
      assert !GetBit(f.bits, Hash.Hash(y, i, f.m));
    }
  }

  /** An item tests present exactly when each of its positions is one of an added item: nothing else is a
      false positive. */
  lemma ContainsIff(m: nat, k: nat, xs: seq<Item>, y: Item)
    requires m > 0 && k > 0
    ensures Contains(InsertAll(Empty(m, k), xs), y) <==>
            forall i: nat | i < k :: exists x, j: nat | x in xs && j < k :: Hash.Hash(x, j, m) == Hash.Hash(y, i, m)
  {
    hide Contains, InsertAll, GetBit, Hit, Hash.Hash;
    var f := InsertAll(Empty(m, k), xs);
    ContainsByIndex(f, y);
    forall i: nat | i < k
      ensures GetBit(f.bits, Hash.Hash(y, i, m)) <==> Hit(xs, m, k, Hash.Hash(y, i, m))
      ensures Hit(xs, m, k, Hash.Hash(y, i, m)) <==>
              exists x, j: nat | x in xs && j < k :: Hash.Hash(x, j, m) == Hash.Hash(y, i, m)
    {
      var p := Hash.Hash(y, i, m);
      GetInsertAll(Empty(m, k), xs, p);
      ZerosClear(BytesFor(m), p);
      HitIff(xs, m, k, p);
    }
    if i: nat :| i < k && !GetBit(f.bits, Hash.Hash(y, i, m)) {
      assert !exists x, j: nat | x in xs && j < k :: Hash.Hash(x, j, m) == Hash.Hash(y, i, m);
    }
  }

  lemma EmptyContainsNothing(m: nat, k: nat, x: Item)
    requires m > 0 && k > 0
    ensures !Contains(Empty(m, k), x)
  {
    var p := Positions(x, m, k)[0];
    ZerosClear(BytesFor(m), p);
    assert p in ItemPositions(Empty(m, k), x);
  }
}
