/** What the operations of a counting Bloom filter do to its counters
    (internal/counting/counting.go:38-137, internal/counting/snapshot.go:115-142). */
module Counting {
  import opened Bits
  import opened Hash
  import opened PackedCounters

  /** The value of a counting filter. */
  datatype Filter = Filter(m: nat, k: nat, width: nat, data: seq<byte>, count: int)

  function MaxCount(width: nat): nat {
    Pow2(width) - 1
  }

  /** The least number of bytes with room for `m` counters. */
  function BytesFor(m: nat, width: nat): (n: nat)
    ensures m * width <= 8 * n < m * width + 8
  {
    (m * width + 7) / 8
  }

  /** The bytes New allocates: the size in bits and its rounding wrap at 2^64. */
  function BytesAllocated(m: nat, width: nat): nat {
    (m * width % TWO64 + 7) % TWO64 / 8
  }

  predicate WellFormed(f: Filter) {
    f.m > 0 && f.k > 0 && 1 <= f.width <= 8 && |f.data| == BytesFor(f.m, f.width)
  }

  function Empty(m: nat, k: nat, width: nat): Filter {
    Filter(m, k, width, Zeros(BytesFor(m, width)), 0)
  }

  /** New allocates room for its counters exactly when the size in bits, rounded up, fits 64 bits; always the
      whole bytes of that size, wrapped. */
  lemma AllocatedIff(m: nat, width: nat)
    ensures BytesAllocated(m, width) == BytesFor(m, width) <==> m * width + 7 < TWO64
    ensures 8 * BytesAllocated(m, width) <= (m * width + 7) % TWO64 < 8 * BytesAllocated(m, width) + 8
  {
    Hash.ModOfMod(m * width, TWO64, 1);
    Hash.SumMod(7, m * width % TWO64, m * width, TWO64);
    var bits := m * width;
    if bits + 7 < TWO64 {
      ModUnique(bits, TWO64, 0, bits);
      ModUnique(bits + 7, TWO64, 0, bits + 7);
    } else {
      assert (bits + 7) / 8 >= TWO64 / 8 > BytesAllocated(m, width);
    }
  }

  predicate AllBelow(ps: seq<nat>, m: nat) {
    forall i | 0 <= i < |ps| :: ps[i] < m
  }

  function Positions(f: Filter, x: Item): (ps: seq<nat>)
    ensures |ps| == f.k
    ensures f.m > 0 ==> AllBelow(ps, f.m)
  {
    Hash.Positions(x, f.m, f.k)
  }

  function View(f: Filter): (c: seq<nat>)
    ensures |c| == f.m
  {
    Counters(f.data, f.m, f.width)
  }

  // ---------------------------------------------------------------- the operations

  /** Each position in turn is read, raised by `delta` in byte-sized arithmetic, and written back. */
  function BumpAll(data: seq<byte>, width: nat, ps: seq<nat>, delta: nat): (r: seq<byte>)
    ensures |r| == |data|
  {
    if |ps| == 0 then data
    else
      var d := BumpAll(data, width, ps[..|ps| - 1], delta);
      var p := ps[|ps| - 1];
      SetCounter(d, width, p, (Counter(d, width, p) + delta) % 256)
  }

  /** No counter of `x` is at its maximum: the check before any increment. */
  predicate CanAdd(f: Filter, x: Item) {
    forall p | p in Positions(f, x) :: Counter(f.data, f.width, p) < MaxCount(f.width)
  }

  /** All counters of `x` are positive: what Test answers, and the check before any decrement. */
  predicate Present(f: Filter, x: Item) {
    forall p | p in Positions(f, x) :: Counter(f.data, f.width, p) != 0
  }

  /** Add; a failed Add changes nothing. */
  function Add(f: Filter, x: Item): Filter {
    if CanAdd(f, x) then f.(data := BumpAll(f.data, f.width, Positions(f, x), 1), count := f.count + 1) else f
  }

  /** Remove: adding 255 is subtracting 1 in a uint8. */
  function Remove(f: Filter, x: Item): Filter {
    if Present(f, x) then f.(data := BumpAll(f.data, f.width, Positions(f, x), 255), count := f.count - 1) else f
  }

  // ---------------------------------------------------------------- their effect on the counters

  function Count(ps: seq<nat>, q: nat): nat {
    if |ps| == 0 then 0 else Count(ps[..|ps| - 1], q) + if ps[|ps| - 1] == q then 1 else 0
  }

  lemma MaxCountBounds(width: nat)
    requires 1 <= width <= 8
    ensures 1 <= MaxCount(width) < Pow2(width) <= 256 && Pow2(width) * Pow2(8 - width) == 256
  {
    Pow2Split(width, 8);
    assert Pow2(8) == 256;
    MulAtLeast(Pow2(width), Pow2(8 - width));
  }

  lemma RoomForAll(f: Filter)
    requires WellFormed(f)
    ensures Fits(f.data, f.m, f.width)
  {}

  /** The byte-sized sum loses nothing modulo 2^width. */
  lemma SumNarrows(v: nat, width: nat)
    requires 1 <= width <= 8
    ensures v % 256 % Pow2(width) == v % Pow2(width)
  {
    MaxCountBounds(width);
    ModOfMod(v, Pow2(width), Pow2(8 - width));
  }

  lemma AddMod(a: nat, b: nat, n: nat)
    requires n > 0
    ensures (a % n + b) % n == (a + b) % n
  {
    SumMod(b, a % n, a, n);
    ModOfMod(a, n, 1);
  }

  /** One more narrowed addition of `delta`. */
  lemma BumpOnce(v: nat, c: nat, delta: nat, n: nat, width: nat)
    requires 1 <= width <= 8 && v == (c + delta * n) % Pow2(width)
    ensures (v + delta) % 256 % Pow2(width) == (c + delta * (n + 1)) % Pow2(width)
  {
    hide Pow2;
    SumNarrows(v + delta, width);
    AddMod(c + delta * n, delta, Pow2(width));
    assert delta * n + delta == delta * (n + 1);
  }

  /** The exact effect of the increments or decrements on every counter: it changes by as many units as
      its position occurs, modulo 2^width; the padding never changes. */
  lemma {:induction false} BumpAllEffect(data: seq<byte>, m: nat, width: nat, ps: seq<nat>, delta: nat, q: nat)
    requires Fits(data, m, width) && 1 <= width <= 8 && q < m && AllBelow(ps, m)
    ensures Counter(BumpAll(data, width, ps, delta), width, q) ==
            (Counter(data, width, q) + delta * Count(ps, q)) % Pow2(width)
    decreases |ps|
  {
    hide Counter, SetCounter, Pow2;
    var c, n := Counter(data, width, q), |ps| - 1;
    if |ps| == 0 {
      ModUnique(c, Pow2(width), 0, c);
    } else {
      var d, p := BumpAll(data, width, ps[..n], delta), ps[n];
      BumpAllEffect(data, m, width, ps[..n], delta, q);
      CounterAfterSet(d, m, width, p, (Counter(d, width, p) + delta) % 256, q);
      if p == q {
        BumpOnce(Counter(d, width, q), c, delta, Count(ps[..n], q), width);
      }
    }
  }

  lemma {:induction false} BumpAllPadding(data: seq<byte>, m: nat, width: nat, ps: seq<nat>, delta: nat)
    requires AllBelow(ps, m)
    ensures SamePadding(BumpAll(data, width, ps, delta), data, m, width)
    decreases |ps|
  {
    hide SetCounter, Counter, GetBit;
    if |ps| == 0 {
    } else {
      var n := |ps| - 1;
      var d := BumpAll(data, width, ps[..n], delta);
      BumpAllPadding(data, m, width, ps[..n], delta);
      PaddingAfterSet(d, m, width, ps[n], (Counter(d, width, ps[n]) + delta) % 256);
    }
  }

  lemma AddEffect(f: Filter, x: Item, q: nat)
    requires WellFormed(f) && CanAdd(f, x) && q < f.m
    ensures Counter(Add(f, x).data, f.width, q) ==
            (Counter(f.data, f.width, q) + Count(Positions(f, x), q)) % Pow2(f.width)
  {
    hide Counter;
    BumpAllEffect(f.data, f.m, f.width, Positions(f, x), 1, q);
  }

  lemma RemoveEffect(f: Filter, x: Item, q: nat)
    requires WellFormed(f) && Present(f, x) && q < f.m
    ensures Counter(Remove(f, x).data, f.width, q) ==
            (Counter(f.data, f.width, q) + 255 * Count(Positions(f, x), q)) % Pow2(f.width)
  {
    hide Counter;
    BumpAllEffect(f.data, f.m, f.width, Positions(f, x), 255, q);
  }

  lemma Times256(w: nat, v: nat, n: nat)
    requires w * v == 256
    ensures w * (v * n) == 256 * n
  {
    assert w * (v * n) == (w * v) * n;
  }

  lemma AddMultiple(a: nat, w: nat, t: nat)
    requires w > 0
    ensures (a + w * t) % w == a % w
  {
    assert a + w * t == w * (a / w + t) + a % w;
    ModUnique(a + w * t, w, a / w + t, a % w);
  }

  /** Adding 255 `n` times is subtracting `n`, modulo 2^width. */
  lemma DecrementMod(h: nat, n: nat, width: nat)
    requires 1 <= width <= 8 && n <= h
    ensures (h % Pow2(width) + 255 * n) % Pow2(width) == (h - n) % Pow2(width)
  {
    hide Pow2;
    var w, v := Pow2(width), Pow2(8 - width);
    MaxCountBounds(width);
    AddMod(h, 255 * n, w);
    Times256(w, v, n);
    AddMultiple(h - n, w, v * n);
  }

  /** `n` increments and `n` decrements cancel modulo 2^width. */
  lemma Cancels(c: nat, n: nat, width: nat)
    requires 1 <= width <= 8 && c < Pow2(width)
    ensures ((c + n) % Pow2(width) + 255 * n) % Pow2(width) == c
  {
    hide Pow2;
    DecrementMod(c + n, n, width);
    ModUnique(c, Pow2(width), 0, c);
  }

  lemma RemoveRestores(f: Filter, x: Item)
    requires WellFormed(f) && CanAdd(f, x) && Present(Add(f, x), x)
    ensures Remove(Add(f, x), x) == f
  {
    hide Counter, BumpAll, CanAdd, Present;
    var g := Add(f, x);
    var h := Remove(g, x);
    forall q | 0 <= q < f.m ensures Counter(h.data, f.width, q) == Counter(f.data, f.width, q) {
      AddEffect(f, x, q);
      RemoveEffect(g, x, q);
      Cancels(Counter(f.data, f.width, q), Count(Positions(f, x), q), f.width);
    }
    BumpAllPadding(f.data, f.m, f.width, Positions(f, x), 1);
    BumpAllPadding(g.data, f.m, f.width, Positions(f, x), 255);
    PackedExtensional(h.data, f.data, f.m, f.width);
  }

  lemma {:induction false} CountIsIndices(ps: seq<nat>, q: nat)
    ensures Count(ps, q) == |set j: nat | j < |ps| && ps[j] == q|
    decreases |ps|
  {
    var all := set j: nat | j < |ps| && ps[j] == q;
    if |ps| == 0 {
      assert all == {};
    } else {
      var n := |ps| - 1;
      var front := set j: nat | j < n && ps[..n][j] == q;
      CountIsIndices(ps[..n], q);
      assert all == if ps[n] == q then front + {n} else front;
    }
  }

  /** How often position `q` occurs is the number of indices the double hash sends to it. */
  lemma CountIsHashes(f: Filter, x: Item, q: nat)
    ensures Count(Positions(f, x), q) == |set j: nat | j < f.k && Hash.Hash(x, j, f.m) == q|
  {
    hide Count, Hash.Hash;
    var ps := Positions(f, x);
    CountIsIndices(ps, q);
    assert (set j: nat | j < |ps| && ps[j] == q) == (set j: nat | j < f.k && Hash.Hash(x, j, f.m) == q);
  }

  /** Add is refused exactly when the counter at one of the item's k hashes is the largest number of its width;
      it then changes nothing. */
  lemma AddRefusedIff(f: Filter, x: Item)
    ensures !CanAdd(f, x) <==>
            exists j: nat :: j < f.k && Counter(f.data, f.width, Hash.Hash(x, j, f.m)) == Pow2(f.width) - 1
    ensures !CanAdd(f, x) ==> Add(f, x) == f
  {
    hide Counter, Pow2, Hash.Hash;
    var ps := Positions(f, x);
    if p :| p in ps && Counter(f.data, f.width, p) >= MaxCount(f.width) {
      var j: nat :| j < f.k && ps[j] == p;
      assert Counter(f.data, f.width, Hash.Hash(x, j, f.m)) == Pow2(f.width) - 1;
    }
    if j: nat :| j < f.k && Counter(f.data, f.width, Hash.Hash(x, j, f.m)) == Pow2(f.width) - 1 {
      assert ps[j] in ps;
    }
  }

  /** An item tests present exactly when the counters at all of its k hashes are positive. */
  lemma PresentIff(f: Filter, x: Item)
    ensures Present(f, x) <==> forall j: nat | j < f.k :: Counter(f.data, f.width, Hash.Hash(x, j, f.m)) > 0
  {
    hide Counter, Hash.Hash;
    var ps := Positions(f, x);
    if p :| p in ps && Counter(f.data, f.width, p) == 0 {
      var j: nat :| j < f.k && ps[j] == p;
      assert Counter(f.data, f.width, Hash.Hash(x, j, f.m)) == 0;
    }
    if j: nat :| j < f.k && Counter(f.data, f.width, Hash.Hash(x, j, f.m)) == 0 {
      assert ps[j] in ps;
    }
  }

  /** A Remove right after the Add of the same item restores every byte and the count exactly when the
      item tests present in between, even when positions repeat. */
  lemma RemoveUndoesAdd(f: Filter, x: Item)
    requires WellFormed(f) && CanAdd(f, x)
    ensures Remove(Add(f, x), x) == f <==> Present(Add(f, x), x)
  {
    if Present(Add(f, x), x) {
      RemoveRestores(f, x);
    }
  }

  /** A freshly added item tests present exactly when none of its counters wrapped to zero. */
  lemma PresentAfterAddIff(f: Filter, x: Item)
    requires WellFormed(f) && CanAdd(f, x)
    ensures Present(Add(f, x), x) <==>
            forall p | p in Positions(f, x) ::
              (Counter(f.data, f.width, p) + Count(Positions(f, x), p)) % Pow2(f.width) != 0
  {
    hide Counter, BumpAll, CanAdd, Count;
    forall p | p in Positions(f, x)
      ensures Counter(Add(f, x).data, f.width, p) ==
              (Counter(f.data, f.width, p) + Count(Positions(f, x), p)) % Pow2(f.width)
    {
      AddEffect(f, x, p);
    }
  }

  // ---------------------------------------------------------------- wrapping counters and sizes

  lemma {:induction false} CountOfConstant(ps: seq<nat>, q: nat)
    requires forall i | 0 <= i < |ps| :: ps[i] == q
    ensures Count(ps, q) == |ps|
  {
    if |ps| == 0 {
    } else {
      CountOfConstant(ps[..|ps| - 1], q);
    }
  }

  /** With one counter of one bit and k = 2, every Add into the empty filter succeeds and its item then
      tests absent: both positions are 0, and the counter wraps from 1 to 0. */
  lemma RepeatedPositionWraps(x: Item)
    ensures var f := Empty(1, 2, 1);
            CanAdd(f, x) && !Present(Add(f, x), x)
  {
    hide BumpAll, SetCounter;
    var f := Empty(1, 2, 1);
    var ps := Positions(f, x);
    ZeroCounters(BytesFor(1, 1), 1, 1);
    assert View(f)[0] == 0;
    CountOfConstant(ps, 0);
    AddEffect(f, x, 0);
    assert ps[0] in ps;
  }

  /** 2^61 counters of 8 bits are allocated no byte at all: every Add succeeds and its item tests absent. */
  lemma WrappedSizeForgets(k: nat, x: Item)
    requires k > 0
    ensures var m := TWO64 / 8;
            var f := Filter(m, k, 8, Zeros(BytesAllocated(m, 8)), 0);
            CanAdd(f, x) && !Present(Add(f, x), x)
  {
    hide Pow2, BumpAll;
    var m := TWO64 / 8;
    var f := Filter(m, k, 8, Zeros(BytesAllocated(m, 8)), 0);
    assert f.data == [] == Zeros(0);
    MaxCountBounds(8);
    forall p | p in Positions(f, x) ensures Counter([], 8, p) == 0 {
      ZeroField(0, p * 8, 8);
    }
    assert BumpAll([], 8, Positions(f, x), 1) == [];
    assert Positions(f, x)[0] in Positions(f, x);
  }

  // ---------------------------------------------------------------- distinct positions

  /** The positions of `x` are pairwise distinct. */
  ghost predicate Simple(f: Filter, x: Item) {
    Distinct(Positions(f, x))
  }

  function Hit(f: Filter, x: Item, q: nat): nat {
    if q in Positions(f, x) then 1 else 0
  }

  lemma {:induction false} CountOfDistinct(ps: seq<nat>, q: nat)
    requires Distinct(ps)
    ensures Count(ps, q) == if q in ps then 1 else 0
    decreases |ps|
  {
    if |ps| == 0 {
    } else {
      var n := |ps| - 1;
      CountOfDistinct(ps[..n], q);
      assert ps == ps[..n] + [ps[n]];
    }
  }

  lemma SimpleHit(f: Filter, x: Item, q: nat)
    requires Simple(f, x)
    ensures Count(Positions(f, x), q) == Hit(f, x, q)
  {
    CountOfDistinct(Positions(f, x), q);
  }

  /** With distinct positions a successful Add raises exactly the item's counters by one, without wrapping. */
  lemma SimpleAdd(f: Filter, x: Item, q: nat)
    requires WellFormed(f) && CanAdd(f, x) && Simple(f, x) && q < f.m
    ensures Counter(Add(f, x).data, f.width, q) == Counter(f.data, f.width, q) + Hit(f, x, q) <= MaxCount(f.width)
  {
    hide Counter, BumpAll;
    var c := Counter(f.data, f.width, q);
    AddEffect(f, x, q);
    CountOfDistinct(Positions(f, x), q);
    ModUnique(c + Hit(f, x, q), Pow2(f.width), 0, c + Hit(f, x, q));
  }

  /** ... and a successful Remove lowers exactly them by one. */
  lemma SimpleRemove(f: Filter, x: Item, q: nat)
    requires WellFormed(f) && Present(f, x) && Simple(f, x) && q < f.m
    ensures Counter(Remove(f, x).data, f.width, q) == Counter(f.data, f.width, q) - Hit(f, x, q)
  {
    hide Counter, BumpAll;
    var c, w := Counter(f.data, f.width, q), Pow2(f.width);
    RemoveEffect(f, x, q);
    CountOfDistinct(Positions(f, x), q);
    MaxCountBounds(f.width);
    if q in Positions(f, x) {
      ModUnique(c + 255, w, Pow2(8 - f.width), c - 1);
    } else {
      ModUnique(c, w, 0, c);
    }
  }

  /** With distinct positions the item always tests present after a successful Add, and its Remove
      restores every byte and the count. */
  lemma SimpleRoundTrip(f: Filter, x: Item)
    requires WellFormed(f) && CanAdd(f, x) && Simple(f, x)
    ensures Present(Add(f, x), x) && Remove(Add(f, x), x) == f
  {
    hide Counter, BumpAll, CanAdd, Simple;
    forall p | p in Positions(f, x) ensures Counter(Add(f, x).data, f.width, p) != 0 {
      SimpleAdd(f, x, p);
    }
    RemoveRestores(f, x);
  }
}
