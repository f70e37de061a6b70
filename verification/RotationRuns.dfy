/** Partitioned filters with round-robin rotation, over whole runs
    (internal/partition/partition.go:58-160, internal/partition/rotation.go:141-172). */
module RotationRuns {
  import opened Bits
  import opened Bloom
  import Hash

  /** The partition that takes item `x`. */
  function Route(x: Item, n: nat): (i: nat)
    requires n > 0
    ensures i < n
  {
    Hash.Hash(x, 0, n * 1000) % n
  }

  /** It is the first base hash modulo the number of partitions. */
  lemma RouteIsHash(x: Item, n: nat)
    requires n > 0
    ensures Route(x, n) == Hash.Fnv64a(x) % n
  {
    hide Hash.Hash, Hash.Fnv64a, Hash.Fnv64;
    Hash.PositionsMove(x, 0);
    Hash.PositionsReduce(x, 0, n * 1000);
    Hash.ModOfMod(Hash.Fnv64a(x), n, 1000);
  }

  function AddTo(parts: seq<Filter>, x: Item): (r: seq<Filter>)
    ensures |r| == |parts|
  {
    if |parts| == 0 then parts else parts[Route(x, |parts|) := Insert(parts[Route(x, |parts|)], x)]
  }

  /** Filter.Test: the routed partition only. */
  predicate InRouted(parts: seq<Filter>, x: Item) {
    |parts| > 0 && Contains(parts[Route(x, |parts|)], x)
  }

  /** Filter.TestAll, and RotatingFilter.Test: any partition. */
  predicate InAny(parts: seq<Filter>, x: Item) {
    exists i | 0 <= i < |parts| :: Contains(parts[i], x)
  }

  /** The partitions, the one to reset next, and the partitions reset so far. */
  datatype State = State(parts: seq<Filter>, current: nat, history: seq<nat>)

  datatype Op = AddItem(item: Item) | Rotate

  function Fresh(n: nat, m: nat, k: nat): (s: State)
    ensures |s.parts| == n
  {
    State(seq(n, _ => Empty(m, k)), 0, [])
  }

  function RotateOnce(s: State, m: nat, k: nat): (r: State)
    ensures |r.parts| == |s.parts| && (s.current < |s.parts| ==> r.current < |r.parts|)
  {
    if s.current >= |s.parts| then s
    else State(s.parts[s.current := Empty(m, k)], (s.current + 1) % |s.parts|, s.history + [s.current])
  }

  function Step(s: State, m: nat, k: nat, op: Op): (r: State)
    ensures |r.parts| == |s.parts| && (s.current < |s.parts| ==> r.current < |r.parts|)
  {
    match op
    case AddItem(x) => s.(parts := AddTo(s.parts, x))
    case Rotate => RotateOnce(s, m, k)
  }

  function RunFrom(s: State, m: nat, k: nat, ops: seq<Op>): (r: State)
    ensures |r.parts| == |s.parts| && (s.current < |s.parts| ==> r.current < |r.parts|)
  {
    if |ops| == 0 then s else Step(RunFrom(s, m, k, ops[..|ops| - 1]), m, k, ops[|ops| - 1])
  }

  function Rotations(ops: seq<Op>): nat {
    if |ops| == 0 then 0 else Rotations(ops[..|ops| - 1]) + if ops[|ops| - 1].Rotate? then 1 else 0
  }

  ghost predicate Valid(s: State, m: nat, k: nat) {
    m > 0 && k > 0 && s.current < |s.parts| &&
    forall i | 0 <= i < |s.parts| :: s.parts[i].m == m && s.parts[i].k == k && WellFormed(s.parts[i])
  }

  lemma {:induction false} RunValid(s: State, m: nat, k: nat, ops: seq<Op>)
    requires Valid(s, m, k)
    ensures Valid(RunFrom(s, m, k, ops), m, k)
    decreases |ops|
  {
    hide Insert, Contains;
    if |ops| == 0 {
    } else {
      RunValid(s, m, k, ops[..|ops| - 1]);
    }
  }

  lemma ModStep(a: nat, n: nat)
    requires n > 0
    ensures (a % n + 1) % n == (a + 1) % n
  {
    Hash.SumMod(1, a % n, a, n);
    Hash.ModOfMod(a, n, 1);
  }

  /** 0, 1, 2, ... modulo n. */
  function Cycle(t: nat, n: nat): (c: seq<nat>)
    requires n > 0
    ensures |c| == t && forall i | 0 <= i < t :: c[i] == i % n
  {
    seq(t, i requires 0 <= i < t => i % n)
  }

  lemma CycleStep(t: nat, n: nat)
    requires n > 0
    ensures Cycle(0, n) == [] && Cycle(t + 1, n) == Cycle(t, n) + [t % n]
  {}

  /** From a fresh filter the i-th rotation resets partition i mod n, whatever is added in between. */
  lemma {:induction false} RotationOrder(n: nat, m: nat, k: nat, ops: seq<Op>)
    requires n > 0 && m > 0 && k > 0
    ensures var s := RunFrom(Fresh(n, m, k), m, k, ops);
            s.history == Cycle(Rotations(ops), n) && s.current == Rotations(ops) % n
    decreases |ops|
  {
    hide Insert, Cycle, Empty;
    if |ops| == 0 {
      ModUnique(0, n, 0, 0);
      CycleStep(0, n);
    } else {
      var before := ops[..|ops| - 1];
      RotationOrder(n, m, k, before);
      if ops[|ops| - 1].Rotate? {
        ModStep(Rotations(before), n);
        CycleStep(Rotations(before), n);
      }
    }
  }

  // ---------------------------------------------------------------- how long an item stays

  /** How many rotations come before the one that resets partition `i`. */
  function Gap(s: State, i: nat): nat
    requires s.current < |s.parts|
  {
    if i >= s.current then i - s.current else i + |s.parts| - s.current
  }

  lemma GapShrinks(s: State, m: nat, k: nat, i: nat)
    requires Valid(s, m, k) && i < |s.parts| && Gap(s, i) > 0
    ensures s.current != i && Gap(RotateOnce(s, m, k), i) == Gap(s, i) - 1
  {
    ModUnique(s.current, |s.parts|, 0, s.current);
    if s.current + 1 == |s.parts| {
      ModUnique(s.current + 1, |s.parts|, 1, 0);
    } else {
      ModUnique(s.current + 1, |s.parts|, 0, s.current + 1);
    }
  }

  lemma GapSame(s: State, t: State, i: nat)
    requires |s.parts| == |t.parts| && s.current == t.current < |t.parts|
    ensures Gap(s, i) == Gap(t, i)
  {}

  lemma InsertKeepsPart(parts: seq<Filter>, y: Item, x: Item)
    requires InRouted(parts, x) && forall i | 0 <= i < |parts| :: WellFormed(parts[i])
    ensures InRouted(AddTo(parts, y), x)
  {
    hide Contains, Insert;
    if Route(y, |parts|) == Route(x, |parts|) {
      InsertKeeps(parts[Route(x, |parts|)], y, x);
    }
  }

  /** An item in its routed partition stays there, through any additions, until that partition comes up. */
  lemma {:induction false} StaysUntilReset(s: State, m: nat, k: nat, ops: seq<Op>, x: Item)
    requires Valid(s, m, k) && InRouted(s.parts, x) && Rotations(ops) <= Gap(s, Route(x, |s.parts|))
    ensures var r := RunFrom(s, m, k, ops);
            InRouted(r.parts, x) && InAny(r.parts, x) &&
            Gap(r, Route(x, |r.parts|)) == Gap(s, Route(x, |s.parts|)) - Rotations(ops)
    decreases |ops|
  {
    hide Insert, Contains, Route, Gap;
    if |ops| == 0 {
    } else {
      var before := ops[..|ops| - 1];
      var t, i := RunFrom(s, m, k, before), Route(x, |s.parts|);
      StaysUntilReset(s, m, k, before, x);
      RunValid(s, m, k, before);
      match ops[|ops| - 1]
      case AddItem(y) =>
        InsertKeepsPart(t.parts, y, x);
        GapSame(t, t.(parts := AddTo(t.parts, y)), i);
      case Rotate =>
        GapShrinks(t, m, k, i);
    }
  }

  lemma AddedIsRouted(s: State, m: nat, k: nat, x: Item)
    requires Valid(s, m, k)
    ensures InRouted(Step(s, m, k, AddItem(x)).parts, x)
  {
    hide Contains, Insert;
    InsertedIsPresent(s.parts[Route(x, |s.parts|)], x);
  }

  lemma RunOne(s: State, m: nat, k: nat, op: Op)
    ensures RunFrom(s, m, k, [op]) == Step(s, m, k, op)
  {
    hide Step;
    assert [op][..0] == [];
  }

  /** In every run, an added item tests present until its routed partition comes up in the rotation. */
  lemma AddedItemStays(n: nat, m: nat, k: nat, before: seq<Op>, x: Item, after: seq<Op>)
    requires n > 0 && m > 0 && k > 0
    requires Rotations(after) <= Gap(RunFrom(Fresh(n, m, k), m, k, before), Route(x, n))
    ensures var s := RunFrom(Fresh(n, m, k), m, k, before);
            var r := RunFrom(Step(s, m, k, AddItem(x)), m, k, after);
            InRouted(r.parts, x) && InAny(r.parts, x)
  {
    hide Contains, Insert, Route, Gap;
    var s := RunFrom(Fresh(n, m, k), m, k, before);
    RunValid(Fresh(n, m, k), m, k, before);
    RunValid(s, m, k, [AddItem(x)]);
    RunOne(s, m, k, AddItem(x));
    var t := Step(s, m, k, AddItem(x));
    AddedIsRouted(s, m, k, x);
    GapSame(s, t, Route(x, n));
    StaysUntilReset(t, m, k, after, x);
  }

  // ---------------------------------------------------------------- rotations without additions

  function Turns(t: nat): (ops: seq<Op>)
    ensures |ops| == t
  {
    seq(t, _ => Rotate)
  }

  lemma GapZero(s: State, m: nat, k: nat, i: nat)
    requires Valid(s, m, k) && i < |s.parts| && Gap(s, i) == 0
    ensures s.current == i
  {
    ModUnique(s.current, |s.parts|, 0, s.current);
  }

  lemma RotateEffect(s: State, m: nat, k: nat, i: nat)
    requires Valid(s, m, k) && i < |s.parts|
    ensures RotateOnce(s, m, k).parts[i] == if s.current == i then Empty(m, k) else s.parts[i]
  {}

  /** `t` rotations in a row empty exactly the next `t` partitions, and touch no other. */
  lemma {:induction false} TurnsEmpty(s: State, m: nat, k: nat, t: nat, i: nat)
    requires Valid(s, m, k) && i < |s.parts|
    ensures var r := RunFrom(s, m, k, Turns(t));
            r.parts[i] == (if Gap(s, i) < t then Empty(m, k) else s.parts[i]) &&
            (Gap(s, i) >= t ==> Gap(r, i) == Gap(s, i) - t)
    decreases t
  {
    hide Gap, Empty, RotateOnce;
    if t == 0 {
    } else {
      var r := RunFrom(s, m, k, Turns(t - 1));
      assert Turns(t)[..t - 1] == Turns(t - 1);
      TurnsEmpty(s, m, k, t - 1, i);
      RunValid(s, m, k, Turns(t - 1));
      if Gap(s, i) >= t {
        GapShrinks(r, m, k, i);
      } else if Gap(s, i) == t - 1 {
        GapZero(r, m, k, i);
      }
      RotateEffect(r, m, k, i);
    }
  }

  lemma GapBelowCount(s: State, m: nat, k: nat, i: nat)
    requires Valid(s, m, k) && i < |s.parts|
    ensures Gap(s, i) < |s.parts|
  {
    ModUnique(s.current, |s.parts|, 0, s.current);
  }

  /** n rotations in a row forget everything: every item tests absent. */
  lemma FullTurnForgets(s: State, m: nat, k: nat, x: Item)
    requires Valid(s, m, k)
    ensures !InAny(RunFrom(s, m, k, Turns(|s.parts|)).parts, x)
  {
    hide Contains, Gap;
    var r := RunFrom(s, m, k, Turns(|s.parts|));
    forall i | 0 <= i < |s.parts| ensures !Contains(r.parts[i], x) {
      TurnsEmpty(s, m, k, |s.parts|, i);
      GapBelowCount(s, m, k, i);
      EmptyContainsNothing(m, k, x);
    }
  }

  /** With no additions in between, an item found in its routed partition is still found there exactly
      until that partition's turn. */
  lemma RoutedExactlyUntilReset(s: State, m: nat, k: nat, t: nat, x: Item)
    requires Valid(s, m, k) && InRouted(s.parts, x)
    ensures InRouted(RunFrom(s, m, k, Turns(t)).parts, x) <==> t <= Gap(s, Route(x, |s.parts|))
  {
    hide Contains, Gap;
    TurnsEmpty(s, m, k, t, Route(x, |s.parts|));
    EmptyContainsNothing(m, k, x);
  }

  // ---------------------------------------------------------------- what the partitions hold

  /** The items routed to partition `i` of `n` and added since it was last reset; rotation number t resets
      partition t mod n. */
  function Since(ops: seq<Op>, i: nat, n: nat): seq<Item>
    requires n > 0
  {
    if |ops| == 0 then []
    else
      var before := ops[..|ops| - 1];
      match ops[|ops| - 1]
      case AddItem(x) => Since(before, i, n) + if Hash.Fnv64a(x) % n == i then [x] else []
      case Rotate => if Rotations(before) % n == i then [] else Since(before, i, n)
  }

  lemma AddToPart(parts: seq<Filter>, x: Item, i: nat)
    requires i < |parts|
    ensures AddTo(parts, x)[i] == if Hash.Fnv64a(x) % |parts| == i then Insert(parts[i], x) else parts[i]
  {
    hide Insert, Hash.Fnv64a;
    RouteIsHash(x, |parts|);
  }

  lemma AddHolds(s: State, m: nat, k: nat, x: Item, i: nat, held: seq<Item>)
    requires i < |s.parts| && s.parts[i] == InsertAll(Empty(m, k), held)
    ensures Step(s, m, k, AddItem(x)).parts[i] ==
            InsertAll(Empty(m, k), held + if Hash.Fnv64a(x) % |s.parts| == i then [x] else [])
  {
    hide Insert, InsertAll, Empty, AddTo, Hash.Fnv64a;
    AddToPart(s.parts, x, i);
    InsertAllStep(Empty(m, k), held, x);
    assert held + [] == held;
  }

  lemma RotateHolds(s: State, m: nat, k: nat, i: nat)
    requires i < |s.parts| && s.current < |s.parts|
    ensures Step(s, m, k, Rotate).parts[i] ==
            if s.current == i then InsertAll(Empty(m, k), []) else s.parts[i]
  {
    hide Insert, Empty;
  }

  lemma SinceStep(before: seq<Op>, op: Op, i: nat, n: nat)
    requires n > 0
    ensures Since(before + [op], i, n) ==
            match op
            case AddItem(x) => Since(before, i, n) + if Hash.Fnv64a(x) % n == i then [x] else []
            case Rotate => if Rotations(before) % n == i then [] else Since(before, i, n)
  {
    hide Rotations, Hash.Fnv64a;
    assert (before + [op])[..|before|] == before;
  }

  lemma RunStep(s: State, m: nat, k: nat, before: seq<Op>, op: Op)
    ensures RunFrom(s, m, k, before + [op]) == Step(RunFrom(s, m, k, before), m, k, op)
  {
    hide Step;
    assert (before + [op])[..|before|] == before;
  }

  /** In every run from a fresh filter each partition is the filter of the items routed to it and added since
      it was last reset. */
  lemma {:induction false} PartitionHolds(n: nat, m: nat, k: nat, ops: seq<Op>, i: nat)
    requires i < n && m > 0 && k > 0
    ensures RunFrom(Fresh(n, m, k), m, k, ops).parts[i] == InsertAll(Empty(m, k), Since(ops, i, n))
    decreases |ops|
  {
    hide Insert, Empty, Step, Hash.Fnv64a, Rotations, Cycle;
    if |ops| == 0 {
    } else {
      var before, op := ops[..|ops| - 1], ops[|ops| - 1];
      var s := RunFrom(Fresh(n, m, k), m, k, before);
      PartitionHolds(n, m, k, before, i);
      RotationOrder(n, m, k, before);
      assert before + [op] == ops;
      RunStep(Fresh(n, m, k), m, k, before, op);
      SinceStep(before, op, i, n);
      match op
      case AddItem(x) => AddHolds(s, m, k, x, i, Since(before, i, n));
      case Rotate => RotateHolds(s, m, k, i);
    }
  }

  lemma InAnyIff(parts: seq<Filter>, x: Item)
    ensures InAny(parts, x) <==> exists i: nat :: i < |parts| && Contains(parts[i], x)
  {
    hide Contains;
  }

  /** So Test on the routed partition, and on all of them, answers true exactly when every position of the item
      is one of an item that such a partition holds. */
  lemma TestsAnswer(n: nat, m: nat, k: nat, ops: seq<Op>, x: Item)
    requires n > 0 && m > 0 && k > 0
    ensures var parts := RunFrom(Fresh(n, m, k), m, k, ops).parts;
            && (InRouted(parts, x) <==> Contains(InsertAll(Empty(m, k), Since(ops, Hash.Fnv64a(x) % n, n)), x))
            && (InAny(parts, x) <==> exists i: nat :: i < n && Contains(InsertAll(Empty(m, k), Since(ops, i, n)), x))
  {
    hide Contains, InsertAll, Empty, RunFrom, Hash.Fnv64a, Route, Since, Fresh, InAny;
    var parts := RunFrom(Fresh(n, m, k), m, k, ops).parts;
    RouteIsHash(x, n);
    InAnyIff(parts, x);
    PartitionHolds(n, m, k, ops, Hash.Fnv64a(x) % n);
    if i: nat :| i < |parts| && Contains(parts[i], x) {
      PartitionHolds(n, m, k, ops, i);
    }
    if i: nat :| i < n && Contains(InsertAll(Empty(m, k), Since(ops, i, n)), x) {
      PartitionHolds(n, m, k, ops, i);
    }
  }

  // ---------------------------------------------------------------- snapshots

  function Snapshotted(parts: seq<Filter>): (snap: seq<seq<byte>>)
    ensures |snap| == |parts| && forall i | 0 <= i < |parts| :: snap[i] == parts[i].bits
  {
    seq(|parts|, i requires 0 <= i < |parts| => parts[i].bits)
  }

  /** How many parts of a snapshot, from the front, have the length of a partition of `m` bits. */
  function WellSized(snap: seq<seq<byte>>, m: nat): (good: nat)
    ensures good <= |snap|
    ensures forall i | 0 <= i < good :: |snap[i]| == BytesFor(m)
    ensures good < |snap| ==> |snap[good]| != BytesFor(m)
    decreases |snap|
  {
    if |snap| == 0 || |snap[0]| != BytesFor(m) then 0 else 1 + WellSized(snap[1..], m)
  }

  /** `parts` with the bits of the first `good` partitions taken from the snapshot. */
  function Restored(parts: seq<Filter>, m: nat, k: nat, snap: seq<seq<byte>>, good: nat): (r: seq<Filter>)
    requires good <= |snap| == |parts|
    ensures |r| == |parts|
    ensures forall i | 0 <= i < |parts| :: r[i] == if i < good then Filter(m, k, snap[i]) else parts[i]
  {
    seq(|parts|, i requires 0 <= i < |parts| => if i < good then Filter(m, k, snap[i]) else parts[i])
  }

  lemma RestoredNothing(parts: seq<Filter>, m: nat, k: nat, snap: seq<seq<byte>>)
    requires |snap| == |parts|
    ensures Restored(parts, m, k, snap, 0) == parts
  {}

  lemma RestoredStep(parts: seq<Filter>, m: nat, k: nat, snap: seq<seq<byte>>, i: nat)
    requires i < |snap| == |parts|
    ensures Restored(parts, m, k, snap, i + 1) == Restored(parts, m, k, snap, i)[i := Filter(m, k, snap[i])]
  {}

  /** Restore on a snapshot with one part for every partition. */
  function RestoredFrom(s: State, m: nat, k: nat, snap: seq<seq<byte>>): State
    requires |snap| == |s.parts|
  {
    s.(parts := Restored(s.parts, m, k, snap, WellSized(snap, m)))
  }

  lemma SnapshotWellSized(parts: seq<Filter>, m: nat)
    requires forall i | 0 <= i < |parts| :: |parts[i].bits| == BytesFor(m)
    ensures WellSized(Snapshotted(parts), m) == |parts|
  {}

  /** Restoring a snapshot after any later run gives back the partitions of its time; the partition to reset
      next and the history stay those of the later state. */
  lemma RestoreUndoesRun(s: State, m: nat, k: nat, ops: seq<Op>)
    requires Valid(s, m, k)
    ensures var later := RunFrom(s, m, k, ops);
            RestoredFrom(later, m, k, Snapshotted(s.parts)) == State(s.parts, later.current, later.history)
  {
    hide RunFrom, WellSized;
    var later := RunFrom(s, m, k, ops);
    SnapshotWellSized(s.parts, m);
    assert RestoredFrom(later, m, k, Snapshotted(s.parts)).parts == s.parts;
  }
}
