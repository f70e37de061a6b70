/** Counting filters built by adds, removes and merges in any order
    (internal/counting/counting.go:79-137, internal/counting/snapshot.go:115-142). */
module CountingMerges {
  import opened Bits
  import opened PackedCounters
  import opened Counting
  import opened CountingRuns
  import Hash

  // ---------------------------------------------------------------- merging as a function

  /** `data` after merging the first `n` counters. */
  function MergeData(data: seq<byte>, other: seq<byte>, width: nat, n: nat): (r: seq<byte>)
    ensures |r| == |data|
  {
    if n == 0 then data
    else
      var d, q := MergeData(data, other, width, n - 1), n - 1;
      SetCounter(d, width, q, Clamp(Counter(d, width, q), Counter(other, width, q), MaxCount(width)))
  }

  function Merged(f: Filter, g: Filter): Filter {
    f.(data := MergeData(f.data, g.data, f.width, f.m), count := f.count + g.count)
  }

  lemma {:induction false} MergeDataCounter(data: seq<byte>, other: seq<byte>, m: nat, width: nat, n: nat, q: nat)
    requires Fits(data, m, width) && 1 <= width <= 8 && n <= m && q < m
    ensures Counter(MergeData(data, other, width, n), width, q) ==
            if q < n then Clamp(Counter(data, width, q), Counter(other, width, q), MaxCount(width))
            else Counter(data, width, q)
    decreases n
  {
    hide Counter, SetCounter, Pow2;
    if n == 0 {
    } else {
      var d, p := MergeData(data, other, width, n - 1), n - 1;
      var v := Clamp(Counter(d, width, p), Counter(other, width, p), MaxCount(width));
      MergeDataCounter(data, other, m, width, n - 1, q);
      MergeDataCounter(data, other, m, width, n - 1, p);
      CounterAfterSet(d, m, width, p, v, q);
      ModUnique(v, Pow2(width), 0, v);
    }
  }

  lemma {:induction false} MergeDataPadding(data: seq<byte>, other: seq<byte>, m: nat, width: nat, n: nat)
    requires n <= m
    ensures SamePadding(MergeData(data, other, width, n), data, m, width)
    decreases n
  {
    hide Counter, SetCounter, GetBit;
    if n == 0 {
    } else {
      var d, p := MergeData(data, other, width, n - 1), n - 1;
      MergeDataPadding(data, other, m, width, n - 1);
      PaddingAfterSet(d, m, width, p, Clamp(Counter(d, width, p), Counter(other, width, p), MaxCount(width)));
    }
  }

  ghost predicate Mergeable(f: Filter, g: Filter) {
    WellFormed(f) && WellFormed(g) && f.m == g.m && f.k == g.k && f.width == g.width
  }

  /** `Merged` is what Merge makes of `f`, and nothing else is. */
  lemma MergedIsMerge(f: Filter, g: Filter, h: Filter)
    requires Mergeable(f, g)
    ensures IsMerge(f, g, h) <==> h == Merged(f, g)
  {
    hide Counter;
    var r := Merged(f, g);
    RoomForAll(f);
    forall q | 0 <= q < f.m ensures View(r)[q] == Clamp(View(f)[q], View(g)[q], MaxCount(f.width)) {
      MergeDataCounter(f.data, g.data, f.m, f.width, f.m, q);
    }
    MergeDataPadding(f.data, g.data, f.m, f.width, f.m);
    if IsMerge(f, g, h) {
      assert View(h) == View(r);
      PackedExtensional(h.data, r.data, f.m, f.width);
    }
  }

  // ---------------------------------------------------------------- histories

  /** How a filter came about; a merge joins two histories. */
  datatype History =
    | Created
    | AddedTo(before: History, item: Item)
    | RemovedFrom(before: History, item: Item)
    | MergedFrom(into: History, other: History)

  /** The filter, and the items added on either side of any merge and not yet removed. */
  function After(m: nat, k: nat, width: nat, h: History): Run {
    match h
    case Created => Run(Empty(m, k, width), [])
    case AddedTo(g, x) => Step(After(m, k, width, g), AddItem(x))
    case RemovedFrom(g, x) => Step(After(m, k, width, g), RemoveItem(x))
    case MergedFrom(a, b) =>
      var r, s := After(m, k, width, a), After(m, k, width, b);
      Run(Merged(r.f, s.f), r.outstanding + s.outstanding)
  }

  /** What clamping takes away from the sum of two counters. */
  function Clipped(a: nat, b: nat, max: nat): nat {
    a + b - Clamp(a, b, max)
  }

  /** How many hits of position `q` the clamped merges of a history lost. */
  function Lost(m: nat, k: nat, width: nat, h: History, q: nat): nat {
    match h
    case Created => 0
    case AddedTo(g, _) => Lost(m, k, width, g, q)
    case RemovedFrom(g, _) => Lost(m, k, width, g, q)
    case MergedFrom(a, b) =>
      var r, s := After(m, k, width, a), After(m, k, width, b);
      Lost(m, k, width, a, q) + Lost(m, k, width, b, q)
      + Clipped(Counter(r.f.data, width, q), Counter(s.f.data, width, q), MaxCount(width))
  }

  /** Only outstanding items are removed. */
  ghost predicate RemovesOutstanding(m: nat, k: nat, width: nat, h: History) {
    match h
    case Created => true
    case AddedTo(g, _) => RemovesOutstanding(m, k, width, g)
    case RemovedFrom(g, x) => RemovesOutstanding(m, k, width, g) && x in After(m, k, width, g).outstanding
    case MergedFrom(a, b) => RemovesOutstanding(m, k, width, a) && RemovesOutstanding(m, k, width, b)
  }

  /** All items have pairwise distinct positions. */
  ghost predicate SimpleItems(m: nat, k: nat, h: History) {
    match h
    case Created => true
    case AddedTo(g, x) => SimpleItems(m, k, g) && Hash.Distinct(Hash.Positions(x, m, k))
    case RemovedFrom(g, x) => SimpleItems(m, k, g) && Hash.Distinct(Hash.Positions(x, m, k))
    case MergedFrom(a, b) => SimpleItems(m, k, a) && SimpleItems(m, k, b)
  }

  ghost predicate HasShape(f: Filter, m: nat, k: nat, width: nat) {
    WellFormed(f) && f.m == m && f.k == k && f.width == width
  }

  lemma {:induction false} AfterHasShape(m: nat, k: nat, width: nat, h: History)
    requires m > 0 && k > 0 && 1 <= width <= 8
    ensures HasShape(After(m, k, width, h).f, m, k, width)
  {
    hide BumpAll, CanAdd, Present, MergeData, RemoveOne;
    match h
    case Created =>
    case AddedTo(g, _) => AfterHasShape(m, k, width, g);
    case RemovedFrom(g, _) => AfterHasShape(m, k, width, g);
    case MergedFrom(a, b) =>
      AfterHasShape(m, k, width, a);
      AfterHasShape(m, k, width, b);
  }

  lemma {:induction false} AfterCount(m: nat, k: nat, width: nat, h: History)
    requires RemovesOutstanding(m, k, width, h)
    ensures After(m, k, width, h).f.count == |After(m, k, width, h).outstanding|
  {
    hide BumpAll, CanAdd, Present, MergeData, RemoveOne;
    match h
    case Created =>
    case AddedTo(g, _) => AfterCount(m, k, width, g);
    case RemovedFrom(g, x) =>
      AfterCount(m, k, width, g);
      RemoveOneLength(After(m, k, width, g).outstanding, x);
    case MergedFrom(a, b) =>
      AfterCount(m, k, width, a);
      AfterCount(m, k, width, b);
  }

  lemma MergedCounter(f: Filter, g: Filter, q: nat)
    requires Mergeable(f, g) && q < f.m
    ensures var a, b := Counter(f.data, f.width, q), Counter(g.data, f.width, q);
            Counter(Merged(f, g).data, f.width, q) + Clipped(a, b, MaxCount(f.width)) == a + b
  {
    hide Counter, Pow2;
    RoomForAll(f);
    MergeDataCounter(f.data, g.data, f.m, f.width, f.m, q);
  }

  lemma MergedHits(f: Filter, g: Filter, xs: seq<Item>, ys: seq<Item>, q: nat)
    requires f.m == g.m && f.k == g.k
    ensures Hits(Merged(f, g), xs + ys, q) == Hits(f, xs, q) + Hits(g, ys, q)
  {
    hide Count, MergeData;
    var h := Merged(f, g);
    HitsAppend(h, xs, ys, q);
    HitsSameParameters(h, f, xs, q);
    HitsSameParameters(h, g, ys, q);
  }

  lemma AddedHits(f: Filter, g: Filter, xs: seq<Item>, x: Item, q: nat)
    requires f.m == g.m && f.k == g.k
    ensures Hits(g, xs + [x], q) == Hits(f, xs, q) + Count(Positions(f, x), q)
  {
    hide Count;
    HitsAppend(f, xs, [x], q);
    HitsOne(f, x, q);
    HitsSameParameters(f, g, xs + [x], q);
  }

  lemma RemovedHits(f: Filter, g: Filter, xs: seq<Item>, x: Item, q: nat)
    requires f.m == g.m && f.k == g.k && x in xs
    ensures Hits(g, RemoveOne(xs, x), q) == Hits(f, xs, q) - Count(Positions(f, x), q)
  {
    hide Count, RemoveOne;
    HitsRemoveOne(f, xs, x, q);
    HitsSameParameters(f, g, RemoveOne(xs, x), q);
  }

  // ---------------------------------------------------------------- distinct positions

  lemma CreatedCounter(m: nat, k: nat, width: nat, q: nat)
    requires m > 0 && k > 0 && 1 <= width <= 8 && q < m
    ensures Counter(Empty(m, k, width).data, width, q) == 0 == Hits(Empty(m, k, width), [], q)
  {
    hide Counter;
    ZeroCounters(BytesFor(m, width), m, width);
    assert View(Empty(m, k, width))[q] == 0;
  }

  /** Over items with distinct positions each counter is the number of outstanding hits less what the merges
      lost at that position. */
  lemma {:induction false} CounterIsHitsLessLost(m: nat, k: nat, width: nat, h: History, q: nat)
    requires m > 0 && k > 0 && 1 <= width <= 8 && q < m
    requires RemovesOutstanding(m, k, width, h) && SimpleItems(m, k, h)
    ensures var r := After(m, k, width, h);
            Counter(r.f.data, width, q) + Lost(m, k, width, h, q) == Hits(r.f, r.outstanding, q)
  {
    hide Counter, BumpAll, CanAdd, Present, Merged, RemoveOne, Count, Hit, Clipped, MaxCount, Hits, Zeros;
    match h
    case Created =>
      CreatedCounter(m, k, width, q);
    case AddedTo(g, x) =>
      var r := After(m, k, width, g);
      CounterIsHitsLessLost(m, k, width, g, q);
      AfterHasShape(m, k, width, g);
      if CanAdd(r.f, x) {
        SimpleAdd(r.f, x, q);
        SimpleHit(r.f, x, q);
        AddedHits(r.f, Add(r.f, x), r.outstanding, x, q);
      }
    case RemovedFrom(g, x) =>
      var r := After(m, k, width, g);
      CounterIsHitsLessLost(m, k, width, g, q);
      AfterHasShape(m, k, width, g);
      if Present(r.f, x) {
        SimpleRemove(r.f, x, q);
        SimpleHit(r.f, x, q);
        RemovedHits(r.f, Remove(r.f, x), r.outstanding, x, q);
      }
    case MergedFrom(a, b) =>
      var r, s := After(m, k, width, a), After(m, k, width, b);
      CounterIsHitsLessLost(m, k, width, a, q);
      CounterIsHitsLessLost(m, k, width, b, q);
      AfterHasShape(m, k, width, a);
      AfterHasShape(m, k, width, b);
      MergedCounter(r.f, s.f, q);
      MergedHits(r.f, s.f, r.outstanding, s.outstanding, q);
  }

  /** So at any point an item tests present exactly when each of its positions has more outstanding hits than
      the merges lost there. */
  lemma PresentIffMoreHitsThanLost(m: nat, k: nat, width: nat, h: History, x: Item)
    requires m > 0 && k > 0 && 1 <= width <= 8 && RemovesOutstanding(m, k, width, h) && SimpleItems(m, k, h)
    ensures var r := After(m, k, width, h);
            Present(r.f, x) <==>
            forall p | p in Positions(r.f, x) :: Hits(r.f, r.outstanding, p) > Lost(m, k, width, h, p)
  {
    hide Counter, After, Lost, Hits, RemovesOutstanding, SimpleItems;
    var r := After(m, k, width, h);
    AfterHasShape(m, k, width, h);
    forall p | p in Positions(r.f, x)
      ensures Counter(r.f.data, width, p) != 0 <==> Hits(r.f, r.outstanding, p) > Lost(m, k, width, h, p)
    {
      CounterIsHitsLessLost(m, k, width, h, p);
    }
  }

  ghost predicate OnlyAddsAndMerges(h: History) {
    match h
    case Created => true
    case AddedTo(g, _) => OnlyAddsAndMerges(g)
    case RemovedFrom(_, _) => false
    case MergedFrom(a, b) => OnlyAddsAndMerges(a) && OnlyAddsAndMerges(b)
  }

  lemma SaturatedSum(f: Filter, g: Filter, q: nat, a: nat, b: nat)
    requires Mergeable(f, g) && q < f.m
    requires Counter(f.data, f.width, q) == if a < Pow2(f.width) then a else Pow2(f.width) - 1
    requires Counter(g.data, f.width, q) == if b < Pow2(f.width) then b else Pow2(f.width) - 1
    ensures Counter(Merged(f, g).data, f.width, q) == if a + b < Pow2(f.width) then a + b else Pow2(f.width) - 1
  {
    hide Counter, Pow2, Merged;
    MergedCounter(f, g, q);
  }

  /** Without removes, over items with distinct positions, each counter is the number of outstanding hits, or
      the largest number of its width when there are more: merging saturates. */
  lemma {:induction false} CounterSaturates(m: nat, k: nat, width: nat, h: History, q: nat)
    requires m > 0 && k > 0 && 1 <= width <= 8 && q < m && OnlyAddsAndMerges(h) && SimpleItems(m, k, h)
    ensures var r := After(m, k, width, h);
            var hits := Hits(r.f, r.outstanding, q);
            Counter(r.f.data, width, q) == if hits < Pow2(width) then hits else Pow2(width) - 1
  {
    hide Counter, BumpAll, CanAdd, Merged, Count, Hits, Zeros, Pow2;
    match h
    case Created =>
      CreatedCounter(m, k, width, q);
    case AddedTo(g, x) =>
      var r := After(m, k, width, g);
      CounterSaturates(m, k, width, g, q);
      AfterHasShape(m, k, width, g);
      if CanAdd(r.f, x) {
        SimpleAdd(r.f, x, q);
        SimpleHit(r.f, x, q);
        AddedHits(r.f, Add(r.f, x), r.outstanding, x, q);
      }
    case MergedFrom(a, b) =>
      var r, s := After(m, k, width, a), After(m, k, width, b);
      CounterSaturates(m, k, width, a, q);
      CounterSaturates(m, k, width, b, q);
      AfterHasShape(m, k, width, a);
      AfterHasShape(m, k, width, b);
      SaturatedSum(r.f, s.f, q, Hits(r.f, r.outstanding, q), Hits(s.f, s.outstanding, q));
      MergedHits(r.f, s.f, r.outstanding, s.outstanding, q);
  }

  // ---------------------------------------------------------------- repeated positions

  /** Numbers congruent modulo `w` stay so when both grow by `n`. */
  lemma BothGrow(a: nat, b: nat, n: nat, w: nat)
    requires w > 0 && a % w == b % w
    ensures (a + n) % w == (b + n) % w
  {
    AddMod(a, n, w);
    AddMod(b, n, w);
  }

  lemma AddedModulo(c: nat, lost: nat, hits: nat, n: nat, w: nat)
    requires w > 0 && (c + lost) % w == hits % w
    ensures ((c + n) % w + lost) % w == (hits + n) % w
  {
    calc {
      ((c + n) % w + lost) % w;
    == { AddMod(c + n, lost, w); }
      (c + n + lost) % w;
    == { assert c + n + lost == c + lost + n; }
      (c + lost + n) % w;
    == { BothGrow(c + lost, hits, n, w); }
      (hits + n) % w;
    }
  }

  lemma RemovedModulo(c: nat, lost: nat, hits: nat, n: nat, width: nat)
    requires 1 <= width <= 8 && n <= hits && (c + lost) % Pow2(width) == hits % Pow2(width)
    ensures ((c + 255 * n) % Pow2(width) + lost) % Pow2(width) == (hits - n) % Pow2(width)
  {
    hide Pow2;
    AddedModulo(c, lost, hits, 255 * n, Pow2(width));
    AddMod(hits, 255 * n, Pow2(width));
    DecrementMod(hits, n, width);
  }

  lemma SumModulo(a: nat, b: nat, c: nat, d: nat, w: nat)
    requires w > 0 && a % w == c % w && b % w == d % w
    ensures (a + b) % w == (c + d) % w
  {
    AddMod(a, b, w);
    AddMod(b, c % w, w);
    AddMod(d, c % w, w);
    AddMod(c, d, w);
  }

  function Residue(a: nat, width: nat): nat {
    a % Pow2(width)
  }

  lemma AddedResidue(f: Filter, x: Item, q: nat, lost: nat, hits: nat)
    requires WellFormed(f) && CanAdd(f, x) && q < f.m
    requires Residue(Counter(f.data, f.width, q) + lost, f.width) == Residue(hits, f.width)
    ensures Residue(Counter(Add(f, x).data, f.width, q) + lost, f.width) ==
            Residue(hits + Count(Positions(f, x), q), f.width)
  {
    hide Counter, CanAdd, Count, Pow2, Add;
    AddEffect(f, x, q);
    AddedModulo(Counter(f.data, f.width, q), lost, hits, Count(Positions(f, x), q), Pow2(f.width));
  }

  lemma RemovedResidue(f: Filter, x: Item, q: nat, lost: nat, hits: nat)
    requires WellFormed(f) && Present(f, x) && q < f.m && Count(Positions(f, x), q) <= hits
    requires Residue(Counter(f.data, f.width, q) + lost, f.width) == Residue(hits, f.width)
    ensures Residue(Counter(Remove(f, x).data, f.width, q) + lost, f.width) ==
            Residue(hits - Count(Positions(f, x), q), f.width)
  {
    hide Counter, Present, Count, Pow2, Remove;
    RemoveEffect(f, x, q);
    RemovedModulo(Counter(f.data, f.width, q), lost, hits, Count(Positions(f, x), q), f.width);
  }

  /** Counter `q` and the `lost` hits together are the hits of `xs`, modulo 2^width. */
  ghost predicate Balanced(f: Filter, xs: seq<Item>, q: nat, lost: nat) {
    Residue(Counter(f.data, f.width, q) + lost, f.width) == Residue(Hits(f, xs, q), f.width)
  }

  lemma CreatedBalanced(m: nat, k: nat, width: nat, q: nat)
    requires m > 0 && k > 0 && 1 <= width <= 8 && q < m
    ensures Balanced(Empty(m, k, width), [], q, 0)
  {
    hide Counter, Pow2, Zeros;
    CreatedCounter(m, k, width, q);
  }

  lemma AddBalanced(f: Filter, xs: seq<Item>, x: Item, q: nat, lost: nat)
    requires WellFormed(f) && CanAdd(f, x) && q < f.m && Balanced(f, xs, q, lost)
    ensures Balanced(Add(f, x), xs + [x], q, lost)
  {
    hide Counter, BumpAll, CanAdd, Count, Hits, Residue;
    AddedResidue(f, x, q, lost, Hits(f, xs, q));
    AddedHits(f, Add(f, x), xs, x, q);
  }

  lemma RemoveBalanced(f: Filter, xs: seq<Item>, x: Item, q: nat, lost: nat)
    requires WellFormed(f) && Present(f, x) && q < f.m && x in xs && Balanced(f, xs, q, lost)
    ensures Balanced(Remove(f, x), RemoveOne(xs, x), q, lost)
  {
    hide Counter, BumpAll, Present, Count, Hits, Residue, RemoveOne;
    HitsAtLeast(f, xs, x, q);
    RemovedResidue(f, x, q, lost, Hits(f, xs, q));
    RemovedHits(f, Remove(f, x), xs, x, q);
  }

  lemma MergeBalanced(f: Filter, g: Filter, xs: seq<Item>, ys: seq<Item>, q: nat, lostf: nat, lostg: nat)
    requires Mergeable(f, g) && q < f.m && Balanced(f, xs, q, lostf) && Balanced(g, ys, q, lostg)
    ensures var clipped := Clipped(Counter(f.data, f.width, q), Counter(g.data, f.width, q), MaxCount(f.width));
            Balanced(Merged(f, g), xs + ys, q, lostf + lostg + clipped)
  {
    hide Counter, MergeData, Hits, Pow2, MaxCount, Clipped;
    MergedCounter(f, g, q);
    MergedHits(f, g, xs, ys, q);
    SumModulo(Counter(f.data, f.width, q) + lostf, Counter(g.data, f.width, q) + lostg,
              Hits(f, xs, q), Hits(g, ys, q), Pow2(f.width));
  }

  lemma {:induction false} HistoryBalanced(m: nat, k: nat, width: nat, h: History, q: nat)
    requires m > 0 && k > 0 && 1 <= width <= 8 && q < m && RemovesOutstanding(m, k, width, h)
    ensures Balanced(After(m, k, width, h).f, After(m, k, width, h).outstanding, q, Lost(m, k, width, h, q))
  {
    hide Balanced, Add, Remove, CanAdd, Present, Merged, RemoveOne, Clipped, MaxCount, Empty, WellFormed;
    AfterHasShape(m, k, width, h);
    match h
    case Created =>
      CreatedBalanced(m, k, width, q);
    case AddedTo(g, x) =>
      var r := After(m, k, width, g);
      HistoryBalanced(m, k, width, g, q);
      AfterHasShape(m, k, width, g);
      if CanAdd(r.f, x) {
        AddBalanced(r.f, r.outstanding, x, q, Lost(m, k, width, g, q));
      }
    case RemovedFrom(g, x) =>
      var r := After(m, k, width, g);
      HistoryBalanced(m, k, width, g, q);
      AfterHasShape(m, k, width, g);
      if Present(r.f, x) {
        RemoveBalanced(r.f, r.outstanding, x, q, Lost(m, k, width, g, q));
      }
    case MergedFrom(a, b) =>
      var r, s := After(m, k, width, a), After(m, k, width, b);
      HistoryBalanced(m, k, width, a, q);
      HistoryBalanced(m, k, width, b, q);
      AfterHasShape(m, k, width, a);
      AfterHasShape(m, k, width, b);
      MergeBalanced(r.f, s.f, r.outstanding, s.outstanding, q, Lost(m, k, width, a, q), Lost(m, k, width, b, q));
  }

  /** Over any items, repeated positions or not, the same holds modulo 2^width. */
  lemma CounterModulo(m: nat, k: nat, width: nat, h: History, q: nat)
    requires m > 0 && k > 0 && 1 <= width <= 8 && q < m && RemovesOutstanding(m, k, width, h)
    ensures var r := After(m, k, width, h);
            (Counter(r.f.data, width, q) + Lost(m, k, width, h, q)) % Pow2(width) ==
            Hits(r.f, r.outstanding, q) % Pow2(width)
  {
    hide After, Lost, RemovesOutstanding, Counter, Hits, Pow2;
    AfterHasShape(m, k, width, h);
    HistoryBalanced(m, k, width, h, q);
  }

  lemma PresentIffModulo(m: nat, k: nat, width: nat, h: History, x: Item)
    requires m > 0 && k > 0 && 1 <= width <= 8 && RemovesOutstanding(m, k, width, h)
    ensures var r := After(m, k, width, h);
            Present(r.f, x) <==>
            forall p | p in Positions(r.f, x) ::
              Hits(r.f, r.outstanding, p) % Pow2(width) != Lost(m, k, width, h, p) % Pow2(width)
  {
    hide Counter, After, Lost, Hits, RemovesOutstanding, Pow2;
    var r := After(m, k, width, h);
    AfterHasShape(m, k, width, h);
    forall p | p in Positions(r.f, x)
      ensures Counter(r.f.data, width, p) != 0 <==>
              Hits(r.f, r.outstanding, p) % Pow2(width) != Lost(m, k, width, h, p) % Pow2(width)
    {
      var c := Counter(r.f.data, width, p);
      CounterModulo(m, k, width, h, p);
      Hash.DifferenceMod(Lost(m, k, width, h, p), c, Pow2(width));
      ModUnique(c, Pow2(width), 0, c);
    }
  }

  // ---------------------------------------------------------------- a clamped merge

  /** One 1-bit counter and k = 1: two filters that each hold `x` are merged, and `x` is removed once. The
      other `x` is still outstanding, yet it tests absent. */
  lemma ClampedMergeForgets(x: Item)
    ensures var one := AddedTo(Created, x);
            var r := After(1, 1, 1, RemovedFrom(MergedFrom(one, one), x));
            r.outstanding == [x] && !Present(r.f, x)
  {
    hide BumpAll, MergeData, SetCounter;
    var one := AddedTo(Created, x);
    var both := MergedFrom(one, one);
    var e := Empty(1, 1, 1);
    assert Positions(e, x) == [0];
    CreatedCounter(1, 1, 1, 0);
    assert CanAdd(e, x);
    var f := Add(e, x);
    assert After(1, 1, 1, one) == Run(f, [x]);
    AfterHasShape(1, 1, 1, one);
    SimpleAdd(e, x, 0);
    assert Counter(f.data, 1, 0) == 1;
    MergedCounter(f, f, 0);
    var g := Merged(f, f);
    assert Counter(g.data, 1, 0) == 1;
    assert Positions(g, x) == [0];
    AfterHasShape(1, 1, 1, both);
    SimpleRemove(g, x, 0);
    assert [x] + [x] == [x, x] && RemoveOne([x, x], x) == [x];
    assert 0 in Positions(Remove(g, x), x);
  }
}
