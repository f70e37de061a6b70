/** The partitioned filter object and its rotation (internal/partition/partition.go,
    internal/partition/rotation.go). */
module Partition {
  import opened Bits
  import opened Results
  import opened Bloom
  import opened RotationRuns
  import F = BloomFilter

  datatype Error = InvalidPartitions | InvalidParams | PartitionIndex | LengthMismatch

  class PartitionedFilter {
    const count: nat
    const m: nat
    const k: nat
    const partitions: array<F.BloomFilter>

    /** The bit arrays of the partitions. */
    ghost function Bits(): set<array<byte>>
      reads partitions
    {
      set i | 0 <= i < partitions.Length :: partitions[i].bits
    }

    ghost predicate Valid()
      reads partitions
    {
      && count > 0 && m > 0 && k > 0 && partitions.Length == count
      && (forall i | 0 <= i < count :: partitions[i].Valid() && partitions[i].m == m && partitions[i].k == k)
      && (forall i, j | 0 <= i < j < count :: partitions[i].bits != partitions[j].bits)
      && (forall i | 0 <= i < count :: partitions[i].bits as object != partitions)
    }

    ghost function Parts(): (parts: seq<Filter>)
      requires Valid()
      reads partitions, Bits()
      ensures |parts| == count
      ensures forall i | 0 <= i < count :: parts[i] == partitions[i].Value()
    {
      seq(count, i requires 0 <= i < count && Valid() reads partitions, Bits() => partitions[i].Value())
    }

    constructor (m: nat, k: nat, partitions: array<F.BloomFilter>)
      ensures this.m == m && this.k == k && this.partitions == partitions && this.count == partitions.Length
    {
      this.m, this.k, this.partitions, this.count := m, k, partitions, partitions.Length;
    }

    static method New(n: int, m: nat, k: nat) returns (r: Result<PartitionedFilter, Error>)
      ensures n <= 0 ==> r == Err(InvalidPartitions)
      ensures n > 0 && (m == 0 || k == 0) ==> r == Err(InvalidParams)
      ensures n > 0 && m > 0 && k > 0 ==>
                r.Ok? && fresh(r.value) && fresh(r.value.partitions) && r.value.Valid() && fresh(r.value.Bits()) &&
                r.value.m == m && r.value.k == k && r.value.Parts() == Fresh(n, m, k).parts
    {
      if n <= 0 {
        return Err(InvalidPartitions);
      }
      if m == 0 || k == 0 {
        return Err(InvalidParams);
      }
      var first := F.BloomFilter.New(m, k);
      var parts := new F.BloomFilter[n](_ => first.value);
      for i := 1 to n
        invariant forall j | 0 <= j < i :: fresh(parts[j]) && fresh(parts[j].bits) && parts[j].bits as object != parts
        invariant forall j | 0 <= j < i :: parts[j].Valid() && parts[j].Value() == Empty(m, k)
        invariant forall j, l | 0 <= j < l < i :: parts[j].bits != parts[l].bits
      {
        var bf := F.BloomFilter.New(m, k);
        parts[i] := bf.value;
      }
      var f := new PartitionedFilter(m, k, parts);
      return Ok(f);
    }

    method Add(x: Item)
      requires Valid()
      modifies Bits()
      ensures Valid() && Parts() == AddTo(old(Parts()), x)
    {
      hide Insert;
      ghost var before := Parts();
      var idx := Route(x, count);
      var part := partitions[idx];
      assert part.bits in Bits();
      part.Add(x);
      forall i | 0 <= i < count && i != idx ensures partitions[i].Value() == before[i] {
        assert partitions[i].bits != part.bits;
        assert before[i] == old(partitions[i].Value());
      }
      assert Parts() == before[idx := Insert(before[idx], x)];
    }

    method Test(x: Item) returns (present: bool)
      requires Valid()
      ensures present == InRouted(Parts(), x)
    {
      hide Contains;
      present := partitions[Route(x, count)].Test(x);
    }

    method TestAll(x: Item) returns (present: bool)
      requires Valid()
      ensures present == InAny(Parts(), x)
    {
      hide Contains;
      for i := 0 to count
        invariant forall j | 0 <= j < i :: !Contains(partitions[j].Value(), x)
      {
        var here := partitions[i].Test(x);
        if here {
          assert Contains(Parts()[i], x);
          return true;
        }
      }
      forall i | 0 <= i < count ensures !Contains(Parts()[i], x) {
        assert Parts()[i] == partitions[i].Value();
      }
      return false;
    }

    /** Puts a new filter in place of partition `idx`. */
    method Replace(idx: nat, bf: F.BloomFilter)
      requires Valid() && idx < count
      requires bf.Valid() && bf.m == m && bf.k == k && bf.bits !in Bits() && bf.bits as object != partitions
      modifies partitions
      ensures Valid() && Parts() == old(Parts())[idx := bf.Value()] && Bits() <= old(Bits()) + {bf.bits}
      ensures partitions[..] == old(partitions[..])[idx := bf]
    {
      ghost var before := Parts();
      partitions[idx] := bf;
      forall i | 0 <= i < count && i != idx ensures partitions[i].Value() == before[i] {
        assert before[i] == old(partitions[i].Value());
      }
      assert Parts() == before[idx := bf.Value()];
    }

    method ResetPartition(idx: int) returns (e: Option<Error>)
      requires Valid()
      modifies partitions
      ensures Valid()
      ensures idx < 0 || idx >= count ==> e == Some(PartitionIndex) && Parts() == old(Parts())
      ensures 0 <= idx < count ==> e == None && Parts() == old(Parts())[idx := Empty(m, k)]
      ensures fresh(Bits() - old(Bits()))
    {
      if idx < 0 || idx >= count {
        return Some(PartitionIndex);
      }
      var bf := F.BloomFilter.New(m, k);
      Replace(idx, bf.value);
      return None;
    }

    /** One turn of the loop of Restore. */
    method RestorePartition(idx: nat, bits: seq<byte>) returns (ok: bool)
      requires Valid() && idx < count
      modifies partitions
      ensures Valid() && ok == (|bits| == BytesFor(m))
      ensures Parts() == if ok then old(Parts())[idx := Filter(m, k, bits)] else old(Parts())
      ensures ok ==> fresh(partitions[idx].bits)
      ensures forall i | 0 <= i < count && (!ok || i != idx) :: partitions[i] == old(partitions[i])
    {
      var bf := F.BloomFilter.NewFromParts(m, k, bits);
      ok := bf.Ok?;
      if ok {
        Replace(idx, bf.value);
      }
    }

    /** The loop of Restore: how many partitions were replaced before it stopped. */
    method RestoreAll(snap: seq<seq<byte>>) returns (good: nat)
      requires Valid() && |snap| == count
      modifies partitions
      ensures Valid() && good == WellSized(snap, m) && Parts() == Restored(old(Parts()), m, k, snap, good)
      ensures forall i | 0 <= i < good :: fresh(partitions[i].bits)
      ensures forall i | good <= i < count :: partitions[i] == old(partitions[i])
    {
      hide Restored, Bits, Parts;
      ghost var before := Parts();
      RestoredNothing(before, m, k, snap);
      good := 0;
      while good < count
        invariant Valid() && good <= WellSized(snap, m)
        invariant Parts() == Restored(before, m, k, snap, good)
        invariant forall i | 0 <= i < good :: fresh(partitions[i].bits)
        invariant forall i | good <= i < count :: partitions[i] == old(partitions[i])
        decreases count - good
      {
        RestoredStep(before, m, k, snap, good);
        var ok := RestorePartition(good, snap[good]);
        if !ok {
          return;
        }
        good := good + 1;
      }
    }
  }

  class RotatingFilter {
    const pf: PartitionedFilter
    var current: nat
    /** The partition of each rotation event. */
    var history: seq<nat>

    ghost predicate Valid()
      reads this, pf.partitions
    {
      pf.Valid() && current < pf.count
    }

    ghost function Now(): (s: State)
      requires Valid()
      reads this, pf.partitions, pf.Bits()
    {
      State(pf.Parts(), current, history)
    }

    constructor (pf: PartitionedFilter)
      requires pf.Valid()
      ensures Valid() && this.pf == pf && current == 0 && history == []
    {
      this.pf, current, history := pf, 0, [];
    }

    static method New(n: int, m: nat, k: nat) returns (r: Result<RotatingFilter, Error>)
      ensures n <= 0 ==> r == Err(InvalidPartitions)
      ensures n > 0 && (m == 0 || k == 0) ==> r == Err(InvalidParams)
      ensures n > 0 && m > 0 && k > 0 ==>
                && r.Ok? && r.value.Valid()
                && fresh(r.value) && fresh(r.value.pf.partitions) && fresh(r.value.pf.Bits())
                && r.value.pf.m == m && r.value.pf.k == k && r.value.Now() == Fresh(n, m, k)
    {
      var pf := PartitionedFilter.New(n, m, k);
      if pf.Err? {
        return Err(pf.error);
      }
      var rf := new RotatingFilter(pf.value);
      return Ok(rf);
    }

    method Add(x: Item)
      requires Valid()
      modifies pf.Bits()
      ensures Valid() && Now() == Step(old(Now()), pf.m, pf.k, AddItem(x))
    {
      hide AddTo;
      pf.Add(x);
    }

    method Test(x: Item) returns (present: bool)
      requires Valid()
      ensures present == InAny(Now().parts, x)
    {
      present := pf.TestAll(x);
    }

    /** rotateOnce with the round-robin strategy. */
    method Rotate()
      requires Valid()
      modifies this, pf.partitions
      ensures Valid() && Now() == Step(old(Now()), pf.m, pf.k, RotationRuns.Rotate)
      ensures fresh(pf.Bits() - old(pf.Bits()))
    {
      var n := pf.count;
      var idx := current;
      current := (current + 1) % n;
      history := history + [idx];
      var e := pf.ResetPartition(idx);
    }

    method Snapshot() returns (snap: seq<seq<byte>>)
      requires Valid()
      ensures snap == Snapshotted(Now().parts)
    {
      snap := [];
      for i := 0 to pf.count
        invariant |snap| == i && forall j | 0 <= j < i :: snap[j] == pf.partitions[j].bits[..]
      {
        snap := snap + [pf.partitions[i].bits[..]];
      }
      assert snap == Snapshotted(pf.Parts());
    }

    /** Restore replaces the partitions one by one and stops, half done, at the first part of the wrong
        length; a snapshot of the right shape replaces every partition and nothing else. */
    method Restore(snap: seq<seq<byte>>) returns (e: Option<Error>)
      requires Valid()
      modifies pf.partitions
      ensures Valid()
      ensures |snap| != pf.count ==> e == Some(InvalidPartitions) && Now() == old(Now())
      ensures |snap| == pf.count ==>
                && Now() == RestoredFrom(old(Now()), pf.m, pf.k, snap)
                && e == (if WellSized(snap, pf.m) == pf.count then None else Some(LengthMismatch))
      ensures fresh(pf.Bits() - old(pf.Bits()))
    {
      if |snap| != pf.count {
        return Some(InvalidPartitions);
      }
      var good := pf.RestoreAll(snap);
      return if good == pf.count then None else Some(LengthMismatch);
    }
  }
}
