/** The Bloom filter object (internal/filter/filter.go, internal/filter/ops.go). */
module BloomFilter {
  import opened Bits
  import opened Results
  import opened Hash
  import opened Bloom
  import opened BitAlgebra

  datatype Error = InvalidParams | LengthMismatch | NilFilter | ParamMismatch

  class BloomFilter {
    const m: nat
    const k: nat
    const bits: array<byte>

    ghost predicate Valid() {
      m > 0 && k > 0 && bits.Length == BytesFor(m)
    }

    ghost function Value(): (f: Filter)
      reads bits
    {
      Filter(m, k, bits[..])
    }

    /** A filter of `m` bits over the given array, which it takes over. */
    constructor (m: nat, k: nat, bits: array<byte>)
      ensures this.m == m && this.k == k && this.bits == bits
    {
      this.m, this.k, this.bits := m, k, bits;
    }

    static method New(m: nat, k: nat) returns (r: Result<BloomFilter, Error>)
      ensures m == 0 || k == 0 ==> r == Err(InvalidParams)
      ensures m > 0 && k > 0 ==>
                r.Ok? && fresh(r.value) && fresh(r.value.bits) && r.value.Valid() && r.value.Value() == Empty(m, k)
    {
      if m == 0 || k == 0 {
        return Err(InvalidParams);
      }
      var bits := new byte[(m + 7) / 8](_ => 0);
      var f := new BloomFilter(m, k, bits);
      assert bits[..] == Zeros(BytesFor(m));
      return Ok(f);
    }

    /** Rebuilds a filter around a copy of `bits`. */
    static method NewFromParts(m: nat, k: nat, bits: seq<byte>) returns (r: Result<BloomFilter, Error>)
      ensures m == 0 || k == 0 ==> r == Err(InvalidParams)
      ensures m > 0 && k > 0 && |bits| != BytesFor(m) ==> r == Err(LengthMismatch)
      ensures m > 0 && k > 0 && |bits| == BytesFor(m) ==>
                r.Ok? && fresh(r.value) && fresh(r.value.bits) && r.value.Valid() &&
                r.value.Value() == Filter(m, k, bits)
    {
      if m == 0 || k == 0 {
        return Err(InvalidParams);
      }
      if |bits| != (m + 7) / 8 {
        return Err(LengthMismatch);
      }
      var cp := new byte[|bits|](i requires 0 <= i < |bits| => bits[i]);
      var f := new BloomFilter(m, k, cp);
      assert cp[..] == bits;
      return Ok(f);
    }

    method Set(idx: nat)
      modifies bits
      ensures bits[..] == PutBit(old(bits[..]), idx, true)
    {
      var bi := idx / 8;
      if bi >= bits.Length {
        return;
      }
      bits[bi] := bits[bi] | Mask(idx % 8);
    }

    method Get(idx: nat) returns (on: bool)
      ensures on == GetBit(bits[..], idx)
    {
      var bi := idx / 8;
      if bi >= bits.Length {
        return false;
      }
      return bits[bi] & Mask(idx % 8) != 0;
    }

    method Add(data: Item)
      modifies bits
      ensures Value() == Insert(old(Value()), data)
    {
      ghost var ps := Positions(data, m, k);
      for i := 0 to k
        invariant bits[..] == SetAll(old(bits[..]), ps[..i])
      {
        assert ps[..i + 1][..i] == ps[..i];
        Set(Hash.Hash(data, i, m));
      }
      assert ps[..k] == ps;
    }

    method Test(data: Item) returns (present: bool)
      ensures present == Contains(Value(), data)
    {
      ghost var ps := Positions(data, m, k);
      for i := 0 to k
        invariant forall j | 0 <= j < i :: GetBit(bits[..], ps[j])
      {
        var on := Get(Hash.Hash(data, i, m));
        if !on {
          assert ps[i] in ItemPositions(Value(), data);
          return false;
        }
      }
      return true;
    }

    // ---------------------------------------------------------------- operations

    method Reset()
      modifies bits
      ensures bits[..] == Zeros(bits.Length)
    {
      for i := 0 to bits.Length
        invariant forall j | 0 <= j < i :: bits[j] == 0
      {
        bits[i] := 0;
      }
    }

    method Clone() returns (f: BloomFilter)
      requires Valid()
      ensures fresh(f) && fresh(f.bits) && f.Valid() && f.Value() == Value()
    {
      var cp := new byte[bits.Length](i requires 0 <= i < bits.Length reads bits => bits[i]);
      f := new BloomFilter(m, k, cp);
      assert cp[..] == bits[..];
    }

    /** The parameter checks shared by the binary operations. */
    function Compatible(other: BloomFilter?): (e: Option<Error>)
      ensures e.None? <==> other != null && m == other.m && k == other.k
    {
      if other == null then Some(NilFilter)
      else if m != other.m || k != other.k then Some(ParamMismatch)
      else None
    }

    /** The loop of Union, Intersection, Difference and XOR; `other` may be this filter itself. */
    method CombineWith(op: BitOp, other: BloomFilter?) returns (e: Option<Error>)
      requires Valid() && (other != null ==> other.Valid())
      modifies bits
      ensures e == Compatible(other)
      ensures e.Some? ==> bits[..] == old(bits[..])
      ensures e.None? ==> bits[..] == Combine(op, old(bits[..]), old(other.bits[..]))
    {
      e := Compatible(other);
      if e.Some? {
        return;
      }
      for i := 0 to bits.Length
        invariant forall j | 0 <= j < i :: bits[j] == OnBytes(op, old(bits[j]), old(other.bits[j]))
        invariant forall j | i <= j < bits.Length :: bits[j] == old(bits[j]) && other.bits[j] == old(other.bits[j])
      {
        bits[i] := OnBytes(op, bits[i], other.bits[i]);
      }
    }

    method Union(other: BloomFilter?) returns (e: Option<Error>)
      requires Valid() && (other != null ==> other.Valid())
      modifies bits
      ensures other == null ==> e == Some(NilFilter)
      ensures other != null && (m != other.m || k != other.k) ==> e == Some(ParamMismatch)
      ensures e.Some? ==> bits[..] == old(bits[..])
      ensures other != null && m == other.m && k == other.k ==>
                e == None && bits[..] == Combine(Or, old(bits[..]), old(other.bits[..])) &&
                SetBits(bits[..]) == old(SetBits(bits[..])) + old(SetBits(other.bits[..]))
    {
      ghost var mine, theirs := bits[..], if other == null then [] else other.bits[..];
      e := CombineWith(Or, other);
      if e.None? {
        CombineIsOnSets(Or, mine, theirs);
      }
    }

    method Intersection(other: BloomFilter?) returns (e: Option<Error>)
      requires Valid() && (other != null ==> other.Valid())
      modifies bits
      ensures other == null ==> e == Some(NilFilter)
      ensures other != null && (m != other.m || k != other.k) ==> e == Some(ParamMismatch)
      ensures e.Some? ==> bits[..] == old(bits[..])
      ensures other != null && m == other.m && k == other.k ==>
                e == None && bits[..] == Combine(And, old(bits[..]), old(other.bits[..])) &&
                SetBits(bits[..]) == old(SetBits(bits[..])) * old(SetBits(other.bits[..]))
    {
      ghost var mine, theirs := bits[..], if other == null then [] else other.bits[..];
      e := CombineWith(And, other);
      if e.None? {
        CombineIsOnSets(And, mine, theirs);
      }
    }

    method Difference(other: BloomFilter?) returns (e: Option<Error>)
      requires Valid() && (other != null ==> other.Valid())
      modifies bits
      ensures other == null ==> e == Some(NilFilter)
      ensures other != null && (m != other.m || k != other.k) ==> e == Some(ParamMismatch)
      ensures e.Some? ==> bits[..] == old(bits[..])
      ensures other != null && m == other.m && k == other.k ==>
                e == None && bits[..] == Combine(AndNot, old(bits[..]), old(other.bits[..])) &&
                SetBits(bits[..]) == old(SetBits(bits[..])) - old(SetBits(other.bits[..]))
    {
      ghost var mine, theirs := bits[..], if other == null then [] else other.bits[..];
      e := CombineWith(AndNot, other);
      if e.None? {
        CombineIsOnSets(AndNot, mine, theirs);
      }
    }

    method XOR(other: BloomFilter?) returns (e: Option<Error>)
      requires Valid() && (other != null ==> other.Valid())
      modifies bits
      ensures other == null ==> e == Some(NilFilter)
      ensures other != null && (m != other.m || k != other.k) ==> e == Some(ParamMismatch)
      ensures e.Some? ==> bits[..] == old(bits[..])
      ensures other != null && m == other.m && k == other.k ==>
                e == None && bits[..] == Combine(Xor, old(bits[..]), old(other.bits[..])) &&
                SetBits(bits[..]) == (old(SetBits(bits[..])) - old(SetBits(other.bits[..]))) +
                (old(SetBits(other.bits[..])) - old(SetBits(bits[..])))
    {
      ghost var mine, theirs := bits[..], if other == null then [] else other.bits[..];
      e := CombineWith(Xor, other);
      if e.None? {
        CombineIsOnSets(Xor, mine, theirs);
      }
    }

    method Equals(other: BloomFilter?) returns (same: bool)
      ensures same <==> other != null && Value() == other.Value()
    {
      if other == null {
        return false;
      }
      if m != other.m || k != other.k || bits.Length != other.bits.Length {
        return false;
      }
      for i := 0 to bits.Length
        invariant forall j | 0 <= j < i :: bits[j] == other.bits[j]
      {
        if bits[i] != other.bits[i] {
          assert Value().bits[i] != other.Value().bits[i];
          return false;
        }
      }
      return true;
    }

    /** The number of set positions. */
    method PopCount() returns (count: nat)
      ensures count == |SetBits(bits[..])|
    {
      count := 0;
      for i := 0 to bits.Length
        invariant count == OnesIn(bits[..i])
      {
        var c := PopCnt(bits[i]);
        assert bits[..i + 1][..i] == bits[..i];
        count := count + c;
      }
      assert bits[..bits.Length] == bits[..];
      PopCountIsCardinality(bits[..]);
    }

    method SetBit(pos: nat)
      requires Valid()
      modifies bits
      ensures bits[..] == if pos < m then PutBit(old(bits[..]), pos, true) else old(bits[..])
    {
      if pos >= m {
        return;
      }
      bits[pos / 8] := bits[pos / 8] | Mask(pos % 8);
    }

    method ClearBit(pos: nat)
      requires Valid()
      modifies bits
      ensures bits[..] == if pos < m then PutBit(old(bits[..]), pos, false) else old(bits[..])
    {
      if pos >= m {
        return;
      }
      bits[pos / 8] := bits[pos / 8] & !Mask(pos % 8);
    }
  }
}
