/** Whole runs of a counting filter, and merging (internal/counting/counting.go:79-137,
    internal/counting/snapshot.go:115-142). */
module CountingRuns {
  import opened Bits
  import opened PackedCounters
  import opened Counting
  import Hash

  datatype Op = AddItem(item: Item) | RemoveItem(item: Item)

  /** The filter, and the items added and not yet removed, with multiplicity. */
  datatype Run = Run(f: Filter, outstanding: seq<Item>)

  function RemoveOne(xs: seq<Item>, x: Item): (r: seq<Item>)
    ensures multiset(r) == multiset(xs) - multiset{x}
  {
    if |xs| == 0 then xs
    else
      var n := |xs| - 1;
      assert xs == xs[..n] + [xs[n]];
      if xs[n] == x then xs[..n] else RemoveOne(xs[..n], x) + [xs[n]]
  }

  function Step(r: Run, op: Op): Run {
    match op
    case AddItem(x) => if CanAdd(r.f, x) then Run(Add(r.f, x), r.outstanding + [x]) else r
    case RemoveItem(x) => if Present(r.f, x) then Run(Remove(r.f, x), RemoveOne(r.outstanding, x)) else r
  }

  function RunOps(m: nat, k: nat, width: nat, ops: seq<Op>): Run {
    if |ops| == 0 then Run(Empty(m, k, width), [])
    else Step(RunOps(m, k, width, ops[..|ops| - 1]), ops[|ops| - 1])
  }

  /** Every item has pairwise distinct positions, and only outstanding items are removed. */
  ghost predicate Disciplined(m: nat, k: nat, width: nat, ops: seq<Op>) {
    |ops| == 0 || (
      var n := |ops| - 1;
      var before := RunOps(m, k, width, ops[..n]);
      Disciplined(m, k, width, ops[..n]) && Simple(before.f, ops[n].item) &&
      (ops[n].RemoveItem? ==> ops[n].item in before.outstanding))
  }

  /** How often the items of `xs` hit position `q`; an item with repeated positions may do so several times. */
  function Hits(f: Filter, xs: seq<Item>, q: nat): nat {
    if |xs| == 0 then 0 else Hits(f, xs[..|xs| - 1], q) + Count(Positions(f, xs[|xs| - 1]), q)
  }

  lemma {:induction false} CountAtLeastOne(ps: seq<nat>, q: nat)
    requires q in ps
    ensures Count(ps, q) >= 1
    decreases |ps|
  {
    var n := |ps| - 1;
    assert ps == ps[..n] + [ps[n]];
    if ps[n] != q {
      CountAtLeastOne(ps[..n], q);
    }
  }

  lemma {:induction false} HitsSameParameters(f: Filter, g: Filter, xs: seq<Item>, q: nat)
    requires f.m == g.m && f.k == g.k
    ensures Hits(f, xs, q) == Hits(g, xs, q)
    decreases |xs|
  {
    if |xs| == 0 {
    } else {
      HitsSameParameters(f, g, xs[..|xs| - 1], q);
    }
  }

  lemma {:induction false} HitsAppend(f: Filter, xs: seq<Item>, ys: seq<Item>, q: nat)
    ensures Hits(f, xs + ys, q) == Hits(f, xs, q) + Hits(f, ys, q)
    decreases |ys|
  {
    hide Count;
    if |ys| == 0 {
      assert xs + ys == xs;
    } else {
      var n := |ys| - 1;
      HitsAppend(f, xs, ys[..n], q);
      assert (xs + ys)[..|xs| + n] == xs + ys[..n];
    }
  }

  lemma HitsOne(f: Filter, x: Item, q: nat)
    ensures Hits(f, [x], q) == Count(Positions(f, x), q)
  {
    hide Count;
    assert [x][..0] == [];
  }

  lemma {:induction false} HitsRemoveOne(f: Filter, xs: seq<Item>, x: Item, q: nat)
    requires x in xs
    ensures Hits(f, RemoveOne(xs, x), q) == Hits(f, xs, q) - Count(Positions(f, x), q)
    decreases |xs|
  {
    hide Count;
    var n := |xs| - 1;
    assert xs == xs[..n] + [xs[n]];
    if xs[n] != x {
      var r := RemoveOne(xs[..n], x);
      HitsRemoveOne(f, xs[..n], x, q);
      assert (r + [xs[n]])[..|r|] == r;
    }
  }

  lemma {:induction false} HitsAtLeast(f: Filter, xs: seq<Item>, x: Item, q: nat)
    requires x in xs
    ensures Hits(f, xs, q) >= Count(Positions(f, x), q)
    decreases |xs|
  {
    hide Count;
    var n := |xs| - 1;
    assert xs == xs[..n] + [xs[n]];
    if xs[n] != x {
      HitsAtLeast(f, xs[..n], x, q);
    }
  }

  /** Each counter is the number of hits of `xs`, without wrapping; the padding is clear. */
  ghost predicate Counts(f: Filter, xs: seq<Item>) {
    && (forall q: nat | q < f.m :: Counter(f.data, f.width, q) == Hits(f, xs, q) <= MaxCount(f.width))
    && SamePadding(f.data, Zeros(|f.data|), f.m, f.width)
  }

  lemma EmptyCounts(m: nat, k: nat, width: nat)
    requires m > 0 && k > 0 && 1 <= width <= 8
    ensures Counts(Empty(m, k, width), [])
  {
    hide Counter;
    var f := Empty(m, k, width);
    ZeroCounters(BytesFor(m, width), m, width);
    MaxCountBounds(width);
    forall q: nat | q < m ensures Counter(f.data, width, q) == 0 {
      assert View(f)[q] == 0;
    }
  }

  lemma AddCounts(f: Filter, xs: seq<Item>, x: Item)
    requires WellFormed(f) && Counts(f, xs) && Simple(f, x) && CanAdd(f, x)
    ensures Counts(Add(f, x), xs + [x])
  {
    hide Counter, BumpAll, CanAdd, Simple, Count, Hit;
    var g := Add(f, x);
    forall q: nat | q < f.m
      ensures Counter(g.data, f.width, q) == Hits(g, xs + [x], q) <= MaxCount(f.width)
    {
      SimpleAdd(f, x, q);
      SimpleHit(f, x, q);
      HitsAppend(f, xs, [x], q);
      HitsOne(f, x, q);
      HitsSameParameters(f, g, xs + [x], q);
    }
    BumpAllPadding(f.data, f.m, f.width, Positions(f, x), 1);
  }

  lemma RemoveCounts(f: Filter, xs: seq<Item>, x: Item)
    requires WellFormed(f) && Counts(f, xs) && Simple(f, x) && Present(f, x) && x in xs
    ensures Counts(Remove(f, x), RemoveOne(xs, x))
  {
    hide Counter, BumpAll, Present, Simple, Count, Hit, RemoveOne;
    var g := Remove(f, x);
    forall q: nat | q < f.m
      ensures Counter(g.data, f.width, q) == Hits(g, RemoveOne(xs, x), q) <= MaxCount(f.width)
    {
      SimpleRemove(f, x, q);
      SimpleHit(f, x, q);
      HitsRemoveOne(f, xs, x, q);
      HitsSameParameters(f, g, RemoveOne(xs, x), q);
    }
    BumpAllPadding(f.data, f.m, f.width, Positions(f, x), 255);
  }

  lemma OutstandingPresent(f: Filter, xs: seq<Item>, x: Item)
    requires f.m > 0 && Counts(f, xs) && x in xs
    ensures Present(f, x)
  {
    hide Counter;
    forall p | p in Positions(f, x) ensures Counter(f.data, f.width, p) != 0 {
      HitsAtLeast(f, xs, x, p);
      CountAtLeastOne(Positions(f, x), p);
    }
  }

  lemma {:induction false} RemoveOneLength(xs: seq<Item>, x: Item)
    requires x in xs
    ensures |RemoveOne(xs, x)| == |xs| - 1
    decreases |xs|
  {
    var n := |xs| - 1;
    assert xs == xs[..n] + [xs[n]];
    if xs[n] != x {
      RemoveOneLength(xs[..n], x);
    }
  }

  /** In every disciplined run each packed counter equals the number of outstanding items that hit it,
      with multiplicity, and never passes the maximum; the padding stays clear, the element count is the
      number of outstanding items, every outstanding item tests present, and so no Remove underflows. */
  lemma {:induction false} RunCounts(m: nat, k: nat, width: nat, ops: seq<Op>)
    requires m > 0 && k > 0 && 1 <= width <= 8 && Disciplined(m, k, width, ops)
    ensures var r := RunOps(m, k, width, ops);
            && WellFormed(r.f) && r.f.m == m && r.f.k == k && r.f.width == width
            && Counts(r.f, r.outstanding)
            && r.f.count == |r.outstanding|
            && (forall x | x in r.outstanding :: Present(r.f, x))
    decreases |ops|
  {
    hide Counts, CanAdd, Present, BumpAll, Simple;
    if |ops| == 0 {
      EmptyCounts(m, k, width);
    } else {
      var n := |ops| - 1;
      var before, x := RunOps(m, k, width, ops[..n]), ops[n].item;
      RunCounts(m, k, width, ops[..n]);
      match ops[n]
      case AddItem(_) =>
        if CanAdd(before.f, x) {
          AddCounts(before.f, before.outstanding, x);
        }
      case RemoveItem(_) =>
        RemoveCounts(before.f, before.outstanding, x);
        RemoveOneLength(before.outstanding, x);
    }
    var r := RunOps(m, k, width, ops);
    forall x | x in r.outstanding ensures Present(r.f, x) {
      OutstandingPresent(r.f, r.outstanding, x);
    }
  }

  // ---------------------------------------------------------------- runs with repeated positions

  /** Only outstanding items are removed; positions may repeat. */
  ghost predicate OutstandingOnly(m: nat, k: nat, width: nat, ops: seq<Op>) {
    |ops| == 0 || (
      var n := |ops| - 1;
      OutstandingOnly(m, k, width, ops[..n]) &&
      (ops[n].RemoveItem? ==> ops[n].item in RunOps(m, k, width, ops[..n]).outstanding))
  }

  /** Each counter is the number of hits of `xs` modulo 2^width; the padding is clear. */
  ghost predicate CountsModulo(f: Filter, xs: seq<Item>) {
    && (forall q: nat | q < f.m :: Counter(f.data, f.width, q) == Hits(f, xs, q) % Pow2(f.width))
    && SamePadding(f.data, Zeros(|f.data|), f.m, f.width)
  }

  lemma EmptyCountsModulo(m: nat, k: nat, width: nat)
    requires m > 0 && k > 0 && 1 <= width <= 8
    ensures CountsModulo(Empty(m, k, width), [])
  {
    hide Counter, Pow2;
    var f := Empty(m, k, width);
    EmptyCounts(m, k, width);
    ModUnique(0, Pow2(width), 0, 0);
  }

  lemma AddCountsModulo(f: Filter, xs: seq<Item>, x: Item)
    requires WellFormed(f) && CountsModulo(f, xs) && CanAdd(f, x)
    ensures CountsModulo(Add(f, x), xs + [x])
  {
    hide Counter, BumpAll, CanAdd, Count, Pow2;
    var g := Add(f, x);
    forall q: nat | q < f.m
      ensures Counter(g.data, f.width, q) == Hits(g, xs + [x], q) % Pow2(f.width)
    {
      AddEffect(f, x, q);
      HitsAppend(f, xs, [x], q);
      HitsOne(f, x, q);
      HitsSameParameters(f, g, xs + [x], q);
      AddMod(Hits(f, xs, q), Count(Positions(f, x), q), Pow2(f.width));
    }
    BumpAllPadding(f.data, f.m, f.width, Positions(f, x), 1);
  }

  lemma RemoveCountsModulo(f: Filter, xs: seq<Item>, x: Item)
    requires WellFormed(f) && CountsModulo(f, xs) && Present(f, x) && x in xs
    ensures CountsModulo(Remove(f, x), RemoveOne(xs, x))
  {
    hide Counter, BumpAll, Present, Count, Pow2, RemoveOne;
    var g := Remove(f, x);
    forall q: nat | q < f.m
      ensures Counter(g.data, f.width, q) == Hits(g, RemoveOne(xs, x), q) % Pow2(f.width)
    {
      RemoveEffect(f, x, q);
      HitsAtLeast(f, xs, x, q);
      HitsRemoveOne(f, xs, x, q);
      HitsSameParameters(f, g, RemoveOne(xs, x), q);
      DecrementMod(Hits(f, xs, q), Count(Positions(f, x), q), f.width);
    }
    BumpAllPadding(f.data, f.m, f.width, Positions(f, x), 255);
  }

  lemma EmptyIsEmpty(m: nat, k: nat, width: nat)
    requires m > 0 && k > 0 && 1 <= width <= 8
    ensures var e := Empty(m, k, width);
            e.m == m && e.k == k && e.width == width && e.count == 0 && WellFormed(e)
  {}

  /** In every run that removes only outstanding items, repeated positions or not, each packed counter is
      the number of hits of the outstanding items modulo 2^width. So at any point an item tests present
      exactly when none of its positions is hit a multiple of 2^width times. */
  lemma {:induction false} RunCountsModulo(m: nat, k: nat, width: nat, ops: seq<Op>)
    requires m > 0 && k > 0 && 1 <= width <= 8 && OutstandingOnly(m, k, width, ops)
    ensures var r := RunOps(m, k, width, ops);
            && WellFormed(r.f) && r.f.m == m && r.f.k == k && r.f.width == width
            && CountsModulo(r.f, r.outstanding) && r.f.count == |r.outstanding|
            && forall x :: Present(r.f, x) <==> forall p | p in Positions(r.f, x) ::
              Hits(r.f, r.outstanding, p) % Pow2(width) != 0
    decreases |ops|
  {
    hide CanAdd, BumpAll, Counter, Hits, Pow2;
    if |ops| == 0 {
      EmptyIsEmpty(m, k, width);
      EmptyCountsModulo(m, k, width);
    } else {
      var n := |ops| - 1;
      var before, x := RunOps(m, k, width, ops[..n]), ops[n].item;
      RunCountsModulo(m, k, width, ops[..n]);
      match ops[n]
      case AddItem(_) =>
        if CanAdd(before.f, x) {
          AddCountsModulo(before.f, before.outstanding, x);
        }
      case RemoveItem(_) =>
        if Present(before.f, x) {
          RemoveCountsModulo(before.f, before.outstanding, x);
          RemoveOneLength(before.outstanding, x);
        }
    }
  }

  /** Equal outstanding multisets, equal bytes: the data never depends on the order of the operations. */
  lemma SameCountsSameBytes(f: Filter, g: Filter, xs: seq<Item>, ys: seq<Item>)
    requires WellFormed(f) && WellFormed(g) && f.m == g.m && f.k == g.k && f.width == g.width
    requires Counts(f, xs) && Counts(g, ys) && forall q: nat | q < f.m :: Hits(f, xs, q) == Hits(g, ys, q)
    ensures f.data == g.data
  {
    hide Counter, Hits;
    forall q: nat | q < f.m ensures View(f)[q] == View(g)[q] {}
    PackedExtensional(f.data, g.data, f.m, f.width);
  }

  /** In a filter of 2^e counters with k at most 2^e, every item with an even number of odd bytes has
      distinct positions, so a run over such items needs no discipline beyond removing what is there. */
  lemma EvenItemsAreSimple(f: Filter, x: Item, e: nat)
    requires e < 64 && f.m == Pow2(e) && f.k <= Pow2(e) && Hash.OddBytes(x) % 2 == 0
    ensures Simple(f, x)
  {
    Hash.EvenItemsAreDistinct(x, e, f.k);
  }

  // ---------------------------------------------------------------- merging

  function Clamp(a: nat, b: nat, max: nat): nat {
    if a + b > max then max else a + b
  }

  function ClampAll(a: seq<nat>, b: seq<nat>, max: nat): (c: seq<nat>)
    requires |a| == |b|
    ensures |c| == |a| && forall i | 0 <= i < |a| :: c[i] == Clamp(a[i], b[i], max)
  {
    seq(|a|, i requires 0 <= i < |a| => Clamp(a[i], b[i], max))
  }

  /** What Merge makes of `f`: the clamped sums in every counter, the padding as it was. */
  ghost predicate IsMerge(f: Filter, g: Filter, h: Filter)
    requires f.m == g.m
  {
    h.m == f.m && h.k == f.k && h.width == f.width && |h.data| == |f.data| && h.count == f.count + g.count
    && View(h) == ClampAll(View(f), View(g), MaxCount(f.width)) && SamePadding(h.data, f.data, f.m, f.width)
  }

  /** Merging is commutative and associative on counters. */
  lemma ClampAlgebra(a: seq<nat>, b: seq<nat>, c: seq<nat>, max: nat)
    requires |a| == |b| == |c|
    ensures ClampAll(a, b, max) == ClampAll(b, a, max)
    ensures ClampAll(ClampAll(a, b, max), c, max) == ClampAll(a, ClampAll(b, c, max), max)
  {
    var l, r := ClampAll(ClampAll(a, b, max), c, max), ClampAll(a, ClampAll(b, c, max), max);
    forall i | 0 <= i < |a| ensures l[i] == r[i] {
      assert ClampAll(a, b, max)[i] == Clamp(a[i], b[i], max) && ClampAll(b, c, max)[i] == Clamp(b[i], c[i], max);
    }
  }

  /** Whatever is present in either input is present in the merge. */
  lemma MergeKeepsPresent(f: Filter, g: Filter, h: Filter, x: Item)
    requires WellFormed(f) && WellFormed(g) && f.m == g.m && f.k == g.k && f.width == g.width && IsMerge(f, g, h)
    requires Present(f, x) || Present(g, x)
    ensures Present(h, x)
  {
    hide Counter;
    MaxCountBounds(f.width);
    forall p | p in Positions(h, x) ensures Counter(h.data, h.width, p) != 0 {
      assert p in Positions(f, x) && p in Positions(g, x);
      assert View(h)[p] == Clamp(View(f)[p], View(g)[p], MaxCount(f.width));
    }
  }

  /** The filter of a list of items, all of whose Adds succeed. */
  function Built(m: nat, k: nat, width: nat, xs: seq<Item>): Filter {
    if |xs| == 0 then Empty(m, k, width) else Add(Built(m, k, width, xs[..|xs| - 1]), xs[|xs| - 1])
  }

  ghost predicate AllSimple(f: Filter, xs: seq<Item>) {
    forall i | 0 <= i < |xs| :: Simple(f, xs[i])
  }

  lemma PrefixHits(e: Filter, xs: seq<Item>, q: nat)
    requires |xs| > 0
    ensures Hits(e, xs[..|xs| - 1], q) <= Hits(e, xs, q)
  {}

  lemma SimpleSameParameters(e: Filter, f: Filter, x: Item)
    requires e.m == f.m && e.k == f.k
    ensures Simple(e, x) == Simple(f, x)
  {
    assert Positions(e, x) == Positions(f, x);
  }

  lemma NextFits(e: Filter, f: Filter, xs: seq<Item>)
    requires |xs| > 0 && WellFormed(f) && Counts(f, xs[..|xs| - 1]) && e.m == f.m && e.k == f.k && e.width == f.width
    requires forall q: nat | q < e.m :: Hits(e, xs, q) <= MaxCount(e.width)
    ensures CanAdd(f, xs[|xs| - 1])
  {
    hide Counter;
    var n := |xs| - 1;
    forall p | p in Positions(f, xs[n]) ensures Counter(f.data, f.width, p) < MaxCount(f.width) {
      HitsSameParameters(e, f, xs[..n], p);
      assert Hits(e, xs, p) <= MaxCount(e.width);
      CountAtLeastOne(Positions(e, xs[n]), p);
    }
  }

  /** Adding a list of items from scratch succeeds, and counts them, if no counter would pass the maximum. */
  lemma {:induction false} BuiltCounts(m: nat, k: nat, width: nat, xs: seq<Item>)
    requires m > 0 && k > 0 && 1 <= width <= 8 && AllSimple(Empty(m, k, width), xs)
    requires forall q: nat | q < m :: Hits(Empty(m, k, width), xs, q) <= MaxCount(width)
    ensures var f := Built(m, k, width, xs);
            WellFormed(f) && f.m == m && f.k == k && f.width == width && f.count == |xs| && Counts(f, xs)
    decreases |xs|
  {
    hide Counter, BumpAll, Count, Hits, Counts, Simple, Empty, CanAdd, MaxCount, Zeros;
    var e := Empty(m, k, width);
    if |xs| == 0 {
      EmptyCounts(m, k, width);
      EmptyIsEmpty(m, k, width);
    } else {
      var n := |xs| - 1;
      var f := Built(m, k, width, xs[..n]);
      forall q: nat | q < m ensures Hits(e, xs[..n], q) <= MaxCount(width) {
        assert Hits(e, xs, q) <= MaxCount(width);
        PrefixHits(e, xs, q);
      }
      BuiltCounts(m, k, width, xs[..n]);
      EmptyIsEmpty(m, k, width);
      NextFits(e, f, xs);
      SimpleSameParameters(e, f, xs[n]);
      AddCounts(f, xs[..n], xs[n]);
      assert xs[..n] + [xs[n]] == xs;
    }
  }

  /** Merging two filters with disciplined histories, when no counter clamps, gives the very bytes of one
      filter to which the outstanding items of both were added. */
  lemma MergeIsJointHistory(f: Filter, g: Filter, h: Filter, xs: seq<Item>, ys: seq<Item>)
    requires WellFormed(f) && WellFormed(g) && f.m == g.m && f.k == g.k && f.width == g.width
    requires Counts(f, xs) && Counts(g, ys) && f.count == |xs| && g.count == |ys| && IsMerge(f, g, h)
    requires AllSimple(Empty(f.m, f.k, f.width), xs + ys)
    requires forall q: nat | q < f.m :: Hits(f, xs, q) + Hits(f, ys, q) <= MaxCount(f.width)
    ensures h == Built(f.m, f.k, f.width, xs + ys)
  {
    hide Counter, BumpAll, Count, Built;
    var e := Empty(f.m, f.k, f.width);
    forall q: nat | q < f.m
      ensures Hits(e, xs + ys, q) == Hits(f, xs, q) + Hits(f, ys, q) && Hits(h, xs + ys, q) == Hits(e, xs + ys, q)
    {
      HitsAppend(e, xs, ys, q);
      HitsSameParameters(e, f, xs, q);
      HitsSameParameters(e, f, ys, q);
      HitsSameParameters(h, e, xs + ys, q);
    }
    BuiltCounts(f.m, f.k, f.width, xs + ys);
    var b := Built(f.m, f.k, f.width, xs + ys);
    forall q: nat | q < f.m
      ensures Counter(h.data, h.width, q) == Hits(h, xs + ys, q) <= MaxCount(h.width) &&
              Hits(h, xs + ys, q) == Hits(b, xs + ys, q)
    {
      HitsSameParameters(g, f, ys, q);
      HitsSameParameters(h, b, xs + ys, q);
      assert View(h)[q] == Clamp(View(f)[q], View(g)[q], MaxCount(f.width));
      assert Counter(f.data, f.width, q) == Hits(f, xs, q) && Counter(g.data, g.width, q) == Hits(g, ys, q);
    }
    SameCountsSameBytes(h, b, xs + ys, xs + ys);
  }
}
