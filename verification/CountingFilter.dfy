/** The counting filter object (internal/counting/counting.go, internal/counting/snapshot.go:99-142). */
module CountingFilter {
  import opened Bits
  import opened Results
  import opened PackedCounters
  import opened Counting
  import CountingRuns
  import Hash

  datatype Error = InvalidParams | CounterBits | Overflow | Underflow | NilFilter | ParamMismatch

  lemma CountersAfterSet(d: seq<byte>, m: nat, width: nat, i: nat, v: nat)
    requires Fits(d, m, width) && i < m && v <= MaxCount(width) && 1 <= width <= 8
    ensures forall j | 0 <= j < m ::
              Counter(SetCounter(d, width, i, v), width, j) == if j == i then v else Counter(d, width, j)
  {
    hide Counter, SetCounter, Pow2;
    forall j | 0 <= j < m
      ensures Counter(SetCounter(d, width, i, v), width, j) == if j == i then v else Counter(d, width, j)
    {
      CounterAfterSet(d, m, width, i, v, j);
      ModUnique(v, Pow2(width), 0, v);
    }
  }

  class CountingFilter {
    const m: nat
    const k: nat
    const counterBits: nat
    const maxCount: nat
    const data: array<byte>
    var count: int

    ghost predicate Valid()
      reads this
    {
      m > 0 && k > 0 && 1 <= counterBits <= 8 && maxCount == MaxCount(counterBits) &&
      data.Length == BytesFor(m, counterBits)
    }

    ghost function Value(): Filter
      reads this, data
    {
      Filter(m, k, counterBits, data[..], count)
    }

    constructor (m: nat, k: nat, counterBits: nat, data: array<byte>, count: int)
      requires 1 <= counterBits <= 8
      ensures this.m == m && this.k == k && this.counterBits == counterBits && this.data == data && this.count == count
      ensures maxCount == MaxCount(counterBits)
    {
      this.m, this.k, this.counterBits, this.data, this.count := m, k, counterBits, data, count;
      this.maxCount := Pow2(counterBits) - 1;
    }

    /** The filter has room for its counters, and is then empty, exactly when its size fits 64 bits. */
    static method New(m: nat, k: nat, counterBits: nat) returns (r: Result<CountingFilter, Error>)
      ensures m == 0 || k == 0 || counterBits == 0 ==> r == Err(InvalidParams)
      ensures m > 0 && k > 0 && counterBits > 8 ==> r == Err(CounterBits)
      ensures m > 0 && k > 0 && 1 <= counterBits <= 8 ==>
                && r.Ok? && fresh(r.value) && fresh(r.value.data) && r.value.maxCount == MaxCount(counterBits)
                && r.value.Value() == Filter(m, k, counterBits, Zeros(BytesAllocated(m, counterBits)), 0)
                && (r.value.Valid() <==> m * counterBits + 7 < TWO64)
                && (m * counterBits + 7 < TWO64 ==> r.value.Value() == Empty(m, k, counterBits))
    {
      if m == 0 || k == 0 || counterBits == 0 {
        return Err(InvalidParams);
      }
      if counterBits > 8 {
        return Err(CounterBits);
      }
      var totalBits := m * counterBits % TWO64;
      var bytes := new byte[(totalBits + 7) % TWO64 / 8](_ => 0);
      AllocatedIff(m, counterBits);
      assert bytes[..] == Zeros(BytesAllocated(m, counterBits));
      var f := new CountingFilter(m, k, counterBits, bytes, 0);
      return Ok(f);
    }

    // -------------------------------------------------------------- packed access, bit by bit

    /** The accumulated bits are all below bit `i`, so setting bit `i` adds 2^i. */
    method ReadField(bitOffset: nat, n: nat) returns (result: nat)
      ensures result == ReadBits(data[..], bitOffset, n)
    {
      result := 0;
      for i := 0 to n
        invariant result == ReadBits(data[..], bitOffset, i)
      {
        ReadOneMore(data[..], bitOffset, i);
        var byteIdx, bitIdx := (bitOffset + i) / 8, (bitOffset + i) % 8;
        if byteIdx < data.Length && data[byteIdx] & Mask(bitIdx) != 0 {
          result := result + Pow2(i);
        }
      }
    }

    method WriteField(bitOffset: nat, n: nat, val: nat)
      modifies data
      ensures data[..] == WriteBits(old(data[..]), bitOffset, n, val)
    {
      for i := 0 to n
        invariant data[..] == WriteBits(old(data[..]), bitOffset, i, val)
      {
        var byteIdx, bitIdx := (bitOffset + i) / 8, (bitOffset + i) % 8;
        if byteIdx >= data.Length {
          WriteBeyondEnd(old(data[..]), bitOffset, n, val, i);
          break;
        }
        WriteOneMore(old(data[..]), bitOffset, i, val);
        if NatBit(val, i) {
          data[byteIdx] := data[byteIdx] | Mask(bitIdx);
        } else {
          data[byteIdx] := data[byteIdx] & !Mask(bitIdx);
        }
      }
    }

    method GetCounter(pos: nat) returns (v: nat)
      ensures v == Counter(data[..], counterBits, pos)
    {
      v := ReadField(pos * counterBits, counterBits);
    }

    method PutCounter(pos: nat, val: nat)
      modifies data
      ensures data[..] == SetCounter(old(data[..]), counterBits, pos, val)
    {
      WriteField(pos * counterBits, counterBits, val);
    }

    // -------------------------------------------------------------- Add, Remove, Test

    /** The second loop of Add and of Remove. */
    method Bump(ps: seq<nat>, delta: nat)
      modifies data
      ensures data[..] == BumpAll(old(data[..]), counterBits, ps, delta)
    {
      hide SetCounter, Counter;
      for i := 0 to |ps|
        invariant data[..] == BumpAll(old(data[..]), counterBits, ps[..i], delta)
      {
        assert ps[..i + 1][..i] == ps[..i];
        var v := GetCounter(ps[i]);
        PutCounter(ps[i], (v + delta) % 256);
      }
      assert ps[..|ps|] == ps;
    }

    /** The first loop of Add: is every counter of `x` below its maximum? */
    method HasRoom(x: Item) returns (room: bool)
      requires Valid()
      ensures room == CanAdd(Value(), x)
    {
      hide Counter, Pow2;
      var ps := Hash.Positions(x, m, k);
      for i := 0 to |ps|
        invariant forall j | 0 <= j < i :: Counter(data[..], counterBits, ps[j]) < maxCount
      {
        var v := GetCounter(ps[i]);
        if v >= maxCount {
          assert ps[i] in Positions(Value(), x);
          return false;
        }
      }
      return true;
    }

    /** Test, and the first loop of Remove: is every counter of `x` positive? */
    method Test(x: Item) returns (present: bool)
      requires Valid()
      ensures present == Present(Value(), x)
    {
      hide Counter;
      var ps := Hash.Positions(x, m, k);
      for i := 0 to |ps|
        invariant forall j | 0 <= j < i :: Counter(data[..], counterBits, ps[j]) != 0
      {
        var v := GetCounter(ps[i]);
        if v == 0 {
          assert ps[i] in Positions(Value(), x);
          return false;
        }
      }
      return true;
    }

    method AddItem(x: Item) returns (e: Option<Error>)
      requires Valid()
      modifies this, data
      ensures Valid() && Value() == Add(old(Value()), x)
      ensures e == if CanAdd(old(Value()), x) then None else Some(Overflow)
    {
      hide CanAdd, BumpAll;
      var room := HasRoom(x);
      if !room {
        return Some(Overflow);
      }
      Bump(Hash.Positions(x, m, k), 1);
      count := count + 1;
      return None;
    }

    method RemoveItem(x: Item) returns (e: Option<Error>)
      requires Valid()
      modifies this, data
      ensures Valid() && Value() == Remove(old(Value()), x)
      ensures e == if Present(old(Value()), x) then None else Some(Underflow)
    {
      hide Present, BumpAll;
      var present := Test(x);
      if !present {
        return Some(Underflow);
      }
      Bump(Hash.Positions(x, m, k), 255);
      count := count - 1;
      return None;
    }

    method Reset()
      requires Valid()
      modifies this, data
      ensures Valid() && Value() == Empty(m, k, counterBits)
    {
      for i := 0 to data.Length
        invariant forall j | 0 <= j < i :: data[j] == 0
        invariant Valid()
      {
        data[i] := 0;
      }
      count := 0;
      assert data[..] == Zeros(data.Length);
    }

    method Clone() returns (f: CountingFilter)
      requires Valid()
      ensures fresh(f) && fresh(f.data) && f.Valid() && f.Value() == Value()
    {
      var bytes := new byte[data.Length](i requires 0 <= i < data.Length reads data => data[i]);
      assert bytes[..] == data[..];
      f := new CountingFilter(m, k, counterBits, bytes, count);
    }

    // -------------------------------------------------------------- Merge

    /** Merging a filter into itself would deadlock on its own lock, so `other` is another filter. */
    method Merge(other: CountingFilter?) returns (e: Option<Error>)
      requires Valid() && (other != null ==> other.Valid() && other != this && other.data != data)
      modifies this, data
      ensures Valid()
      ensures e == if other == null then Some(NilFilter)
                   else if m != other.m || k != other.k || counterBits != other.counterBits then Some(ParamMismatch)
                   else None
      ensures e.Some? ==> Value() == old(Value())
      ensures e.None? ==> CountingRuns.IsMerge(old(Value()), old(other.Value()), Value())
      ensures e.None? ==>
                forall i | 0 <= i < m ::
                  var sum := Counter(old(data[..]), counterBits, i) + Counter(old(other.data[..]), counterBits, i);
                  Counter(data[..], counterBits, i) == if sum < Pow2(counterBits) then sum else Pow2(counterBits) - 1
    {
      hide Counter, SetCounter, Pow2;
      if other == null {
        return Some(NilFilter);
      }
      if m != other.m || k != other.k || counterBits != other.counterBits {
        return Some(ParamMismatch);
      }
      ghost var before, theirs := View(Value()), View(other.Value());
      RoomForAll(Value());
      for i := 0 to m
        invariant Valid() && count == old(count)
        invariant forall j | 0 <= j < m ::
            Counter(data[..], counterBits, j) ==
            if j < i then CountingRuns.Clamp(before[j], theirs[j], maxCount) else before[j]
        invariant SamePadding(data[..], old(data[..]), m, counterBits)
      {
        var a := GetCounter(i);
        var b := other.GetCounter(i);
        var sum := a + b;
        if sum > maxCount {
          sum := maxCount;
        }
        SetRefines(data[..], m, counterBits, i, sum);
        CountersAfterSet(data[..], m, counterBits, i, sum);
        PutCounter(i, sum);
      }
      count := count + other.count;
      return None;
    }
  }
}
