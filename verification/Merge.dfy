/** Combining filters into new ones (internal/merge/merge.go). */
module Merge {
  import opened Bits
  import opened Results
  import opened Bloom
  import opened BitAlgebra
  import F = BloomFilter

  datatype Error = NilFilter | ParamMismatch | EmptyList

  function Check(a: F.BloomFilter?, b: F.BloomFilter?): Option<Error> {
    if a == null || b == null then Some(NilFilter)
    else if a.m != b.m || a.k != b.k then Some(ParamMismatch)
    else None
  }

  ghost predicate ValidOrNull(f: F.BloomFilter?) {
    f != null ==> f.Valid()
  }

  /** Union, Intersection and Difference: a new filter, the inputs untouched. */
  method Combined(op: BitOp, a: F.BloomFilter?, b: F.BloomFilter?) returns (r: Result<F.BloomFilter, Error>)
    requires ValidOrNull(a) && ValidOrNull(b)
    ensures a == null || b == null ==> r == Err(NilFilter)
    ensures a != null && b != null && (a.m != b.m || a.k != b.k) ==> r == Err(ParamMismatch)
    ensures a != null && b != null && a.m == b.m && a.k == b.k ==>
              r.Ok? && fresh(r.value) && fresh(r.value.bits) && r.value.Valid() &&
              r.value.Value() == Filter(a.m, a.k, Combine(op, a.bits[..], b.bits[..]))
  {
    if a == null || b == null {
      return Err(NilFilter);
    }
    if a.m != b.m || a.k != b.k {
      return Err(ParamMismatch);
    }
    var merged := new byte[a.bits.Length](_ => 0);
    for i := 0 to merged.Length
      invariant forall j | 0 <= j < i :: merged[j] == OnBytes(op, a.bits[j], b.bits[j])
    {
      merged[i] := OnBytes(op, a.bits[i], b.bits[i]);
    }
    assert merged[..] == Combine(op, a.bits[..], b.bits[..]);
    var f := F.BloomFilter.NewFromParts(a.m, a.k, merged[..]);
    return Ok(f.value);
  }

  method Union(a: F.BloomFilter?, b: F.BloomFilter?) returns (r: Result<F.BloomFilter, Error>)
    requires ValidOrNull(a) && ValidOrNull(b)
    ensures a == null || b == null ==> r == Err(NilFilter)
    ensures a != null && b != null && (a.m != b.m || a.k != b.k) ==> r == Err(ParamMismatch)
    ensures a != null && b != null && a.m == b.m && a.k == b.k ==>
              r.Ok? && fresh(r.value) && fresh(r.value.bits) && r.value.Valid() &&
              r.value.m == a.m && r.value.k == a.k &&
              SetBits(r.value.bits[..]) == SetBits(a.bits[..]) + SetBits(b.bits[..])
  {
    r := Combined(Or, a, b);
    if r.Ok? {
      CombineIsOnSets(Or, a.bits[..], b.bits[..]);
    }
  }

  method Intersection(a: F.BloomFilter?, b: F.BloomFilter?) returns (r: Result<F.BloomFilter, Error>)
    requires ValidOrNull(a) && ValidOrNull(b)
    ensures a == null || b == null ==> r == Err(NilFilter)
    ensures a != null && b != null && (a.m != b.m || a.k != b.k) ==> r == Err(ParamMismatch)
    ensures a != null && b != null && a.m == b.m && a.k == b.k ==>
              r.Ok? && fresh(r.value) && fresh(r.value.bits) && r.value.Valid() &&
              r.value.m == a.m && r.value.k == a.k &&
              SetBits(r.value.bits[..]) == SetBits(a.bits[..]) * SetBits(b.bits[..])
  {
    r := Combined(And, a, b);
    if r.Ok? {
      CombineIsOnSets(And, a.bits[..], b.bits[..]);
    }
  }

  method Difference(a: F.BloomFilter?, b: F.BloomFilter?) returns (r: Result<F.BloomFilter, Error>)
    requires ValidOrNull(a) && ValidOrNull(b)
    ensures a == null || b == null ==> r == Err(NilFilter)
    ensures a != null && b != null && (a.m != b.m || a.k != b.k) ==> r == Err(ParamMismatch)
    ensures a != null && b != null && a.m == b.m && a.k == b.k ==>
              r.Ok? && fresh(r.value) && fresh(r.value.bits) && r.value.Valid() &&
              r.value.m == a.m && r.value.k == a.k &&
              SetBits(r.value.bits[..]) == SetBits(a.bits[..]) - SetBits(b.bits[..])
  {
    r := Combined(AndNot, a, b);
    if r.Ok? {
      CombineIsOnSets(AndNot, a.bits[..], b.bits[..]);
    }
  }

  // ---------------------------------------------------------------- many filters

  function RestError(first: F.BloomFilter, fs: seq<F.BloomFilter?>): Option<Error> {
    if |fs| == 0 then None
    else
      var before := RestError(first, fs[..|fs| - 1]);
      if before.Some? then before else Check(first, fs[|fs| - 1])
  }

  /** The error UnionMany and IntersectionMany stop with, looking at `fs` from the front. */
  function FirstError(fs: seq<F.BloomFilter?>): Option<Error> {
    if |fs| == 0 then Some(EmptyList)
    else if fs[0] == null then Some(NilFilter)
    else RestError(fs[0], fs[1..])
  }

  lemma {:induction false} ErrorPersists(first: F.BloomFilter, fs: seq<F.BloomFilter?>, n: nat)
    requires n <= |fs| && RestError(first, fs[..n]).Some?
    ensures RestError(first, fs) == RestError(first, fs[..n])
    decreases |fs|
  {
    if n < |fs| {
      assert fs[..|fs| - 1][..n] == fs[..n];
      ErrorPersists(first, fs[..|fs| - 1], n);
    } else {
      assert fs[..n] == fs;
    }
  }

  lemma NoRestError(first: F.BloomFilter)
    ensures RestError(first, []).None?
  {}

  lemma RestErrorStep(first: F.BloomFilter, fs: seq<F.BloomFilter?>, i: nat)
    requires i < |fs| && RestError(first, fs[..i]).None?
    ensures RestError(first, fs[..i + 1]) == Check(first, fs[i])
    ensures Check(first, fs[i]).Some? ==> RestError(first, fs) == Check(first, fs[i])
  {
    assert fs[..i + 1][..i] == fs[..i];
    if Check(first, fs[i]).Some? {
      ErrorPersists(first, fs, i + 1);
    }
  }

  /** Filter `i` of `fs` can be merged with the first. */
  predicate Fits(fs: seq<F.BloomFilter?>, i: nat)
    requires i < |fs|
  {
    fs[0] != null && fs[i] != null && fs[i].m == fs[0].m && fs[i].k == fs[0].k
  }

  lemma {:induction false} NoErrorBefore(fs: seq<F.BloomFilter?>, i: nat)
    requires 0 < i <= |fs| && fs[0] != null && forall j: nat | j < i :: Fits(fs, j)
    ensures RestError(fs[0], fs[1..][..i - 1]).None?
    decreases i
  {
    assert Fits(fs, 0);
    if i == 1 {
    } else {
      NoErrorBefore(fs, i - 1);
      assert Fits(fs, i - 1);
      assert fs[1..][..i - 1][..i - 2] == fs[1..][..i - 2];
    }
  }

  /** No error if all filters fit; else that of the first one that does not: it is nil, or its parameters
      differ. */
  lemma FirstErrorIs(fs: seq<F.BloomFilter?>, i: nat)
    requires i <= |fs| && (forall j: nat | j < i :: Fits(fs, j)) && (i < |fs| ==> !Fits(fs, i))
    ensures FirstError(fs) ==
            if |fs| == 0 then Some(EmptyList)
            else if i == |fs| then None
            else if fs[i] == null then Some(NilFilter)
            else Some(ParamMismatch)
  {
    if i == 0 {
    } else {
      assert Fits(fs, 0);
      NoErrorBefore(fs, i);
      if i < |fs| {
        RestErrorStep(fs[0], fs[1..], i - 1);
        assert Check(fs[0], fs[1..][i - 1]).Some?;
      } else {
        assert fs[1..][..i - 1] == fs[1..];
      }
    }
  }

  /** Every filter of `fs` is there and has the parameters of `first`. */
  ghost predicate AllLike(first: F.BloomFilter, fs: seq<F.BloomFilter?>) {
    first.Valid() &&
    forall i {:trigger fs[i]} | 0 <= i < |fs| :: Check(first, fs[i]).None? && ValidOrNull(fs[i])
  }

  ghost function AllBits(first: F.BloomFilter, fs: seq<F.BloomFilter?>): (r: seq<seq<byte>>)
    requires AllLike(first, fs)
    reads set i | 0 <= i < |fs| && fs[i] != null :: fs[i].bits
    ensures |r| == |fs|
    ensures forall i | 0 <= i < |fs| :: r[i] == fs[i].bits[..]
  {
    if |fs| == 0 then []
    else
      assert fs[|fs| - 1] in fs;
      AllBits(first, fs[..|fs| - 1]) + [fs[|fs| - 1].bits[..]]
  }

  /** One turn of the outer loop: the checks, then the bytes. */
  method MergeOne(op: BitOp, merged: array<byte>, first: F.BloomFilter, f: F.BloomFilter?) returns (e: Option<Error>)
    requires first.Valid() && ValidOrNull(f)
    requires merged.Length == first.bits.Length && (f != null ==> f.bits != merged)
    modifies merged
    ensures e == Check(first, f)
    ensures e.None? ==> merged[..] == Combine(op, old(merged[..]), f.bits[..])
  {
    if f == null {
      return Some(NilFilter);
    }
    if f.m != first.m || f.k != first.k {
      return Some(ParamMismatch);
    }
    for j := 0 to merged.Length
      invariant forall n | 0 <= n < j :: merged[n] == OnBytes(op, old(merged[n]), f.bits[n])
      invariant forall n | j <= n < merged.Length :: merged[n] == old(merged[n])
    {
      merged[j] := OnBytes(op, merged[j], f.bits[j]);
    }
    return None;
  }

  lemma CombineAllAppend(op: BitOp, first: seq<byte>, rest: seq<seq<byte>>, b: seq<byte>)
    ensures CombineAll(op, first, rest + [b]) == Combine(op, CombineAll(op, first, rest), b)
    ensures CombineAll(op, first, []) == first
  {
    assert (rest + [b])[..|rest|] == rest;
  }

  /** The loop of UnionMany and IntersectionMany over the filters after the first. */
  method FoldBits(op: BitOp, first: F.BloomFilter, fs: seq<F.BloomFilter?>)
    returns (e: Option<Error>, merged: array<byte>)
    requires first.Valid() && forall i | 0 <= i < |fs| :: ValidOrNull(fs[i])
    ensures fresh(merged)
    ensures e == RestError(first, fs)
    ensures e.None? ==> AllLike(first, fs) && merged[..] == CombineAll(op, first.bits[..], AllBits(first, fs))
  {
    hide Combine, CombineAll, RestError;
    merged := new byte[first.bits.Length](i requires 0 <= i < first.bits.Length reads first.bits => first.bits[i]);
    ghost var start := first.bits[..];
    ghost var rest := [];
    CombineAllAppend(op, start, [], []);
    NoRestError(first);
    assert merged[..] == start && fs[..0] == [];
    for i := 0 to |fs|
      invariant RestError(first, fs[..i]).None?
      invariant forall j | 0 <= j < i :: fs[j] != null && fs[j].m == first.m && fs[j].k == first.k
      invariant |rest| == i && forall j | 0 <= j < i :: rest[j] == fs[j].bits[..]
      invariant merged[..] == CombineAll(op, start, rest)
    {
      var f := fs[i];
      RestErrorStep(first, fs, i);
      e := MergeOne(op, merged, first, f);
      if e.Some? {
        return;
      }
      CombineAllAppend(op, start, rest, f.bits[..]);
      rest := rest + [f.bits[..]];
    }
    assert fs[..|fs|] == fs;
    assert rest == AllBits(first, fs);
    e := None;
  }

  /** UnionMany (with Or) and IntersectionMany (with And). */
  method CombineMany(op: BitOp, fs: seq<F.BloomFilter?>) returns (r: Result<F.BloomFilter, Error>)
    requires forall i | 0 <= i < |fs| :: ValidOrNull(fs[i])
    ensures FirstError(fs).Some? ==> r == Err(FirstError(fs).value)
    ensures FirstError(fs).None? ==>
              fs[0] != null && AllLike(fs[0], fs[1..]) &&
              r.Ok? && fresh(r.value) && fresh(r.value.bits) && r.value.Valid() &&
              r.value.Value() == Filter(fs[0].m, fs[0].k, CombineAll(op, fs[0].bits[..], AllBits(fs[0], fs[1..])))
  {
    hide CombineAll, RestError, Combine;
    if |fs| == 0 {
      return Err(EmptyList);
    }
    if fs[0] == null {
      return Err(NilFilter);
    }
    var e, merged := FoldBits(op, fs[0], fs[1..]);
    if e.Some? {
      return Err(e.value);
    }
    var made := F.BloomFilter.NewFromParts(fs[0].m, fs[0].k, merged[..]);
    return Ok(made.value);
  }

  // ---------------------------------------------------------------- counts

  lemma OnesInStep(bits: seq<byte>, i: nat)
    requires i < |bits|
    ensures OnesIn(bits[..i + 1]) == OnesIn(bits[..i]) + Ones(bits[i])
    ensures OnesIn(bits[..0]) == 0
  {
    assert bits[..i + 1][..i] == bits[..i];
  }

  lemma CountsAreCardinalities(a: seq<byte>, b: seq<byte>)
    requires |a| == |b|
    ensures OnesIn(Combine(And, a, b)) == |SetBits(a) * SetBits(b)|
    ensures OnesIn(Combine(Or, a, b)) == |SetBits(a) + SetBits(b)|
  {
    PopCountIsCardinality(Combine(And, a, b));
    PopCountIsCardinality(Combine(Or, a, b));
    CombineIsOnSets(And, a, b);
    CombineIsOnSets(Or, a, b);
  }

  /** The set sizes behind Similarity: |A and B| and |A or B|. */
  method SimilarityCounts(a: F.BloomFilter?, b: F.BloomFilter?) returns (r: Result<(nat, nat), Error>)
    requires ValidOrNull(a) && ValidOrNull(b)
    ensures a == null || b == null ==> r == Err(NilFilter)
    ensures a != null && b != null && (a.m != b.m || a.k != b.k) ==> r == Err(ParamMismatch)
    ensures a != null && b != null && a.m == b.m && a.k == b.k ==>
              r == Ok((|SetBits(a.bits[..]) * SetBits(b.bits[..])|, |SetBits(a.bits[..]) + SetBits(b.bits[..])|))
  {
    hide SetBits, Ones;
    if a == null || b == null {
      return Err(NilFilter);
    }
    if a.m != b.m || a.k != b.k {
      return Err(ParamMismatch);
    }
    ghost var both, any := Combine(And, a.bits[..], b.bits[..]), Combine(Or, a.bits[..], b.bits[..]);
    var andCount, orCount := 0, 0;
    for i := 0 to a.bits.Length
      invariant andCount == OnesIn(both[..i]) && orCount == OnesIn(any[..i])
    {
      OnesInStep(both, i);
      OnesInStep(any, i);
      var x := PopCnt(a.bits[i] & b.bits[i]);
      var y := PopCnt(a.bits[i] | b.bits[i]);
      andCount, orCount := andCount + x, orCount + y;
    }
    assert both[..|both|] == both && any[..|any|] == any;
    CountsAreCardinalities(a.bits[..], b.bits[..]);
    return Ok((andCount, orCount));
  }

  method HammingDistance(a: F.BloomFilter?, b: F.BloomFilter?) returns (r: Result<nat, Error>)
    requires ValidOrNull(a) && ValidOrNull(b)
    ensures a == null || b == null ==> r == Err(NilFilter)
    ensures a != null && b != null && (a.m != b.m || a.k != b.k) ==> r == Err(ParamMismatch)
    ensures a != null && b != null && a.m == b.m && a.k == b.k ==>
              r == Ok(Hamming(a.bits[..], b.bits[..])) &&
              r == Ok(|(SetBits(a.bits[..]) - SetBits(b.bits[..])) + (SetBits(b.bits[..]) - SetBits(a.bits[..]))|)
  {
    if a == null || b == null {
      return Err(NilFilter);
    }
    if a.m != b.m || a.k != b.k {
      return Err(ParamMismatch);
    }
    ghost var diff := Combine(Xor, a.bits[..], b.bits[..]);
    var dist := 0;
    for i := 0 to a.bits.Length
      invariant dist == OnesIn(diff[..i])
    {
      assert diff[..i + 1][..i] == diff[..i];
      var x := PopCnt(a.bits[i] ^ b.bits[i]);
      dist := dist + x;
    }
    assert diff[..|diff|] == diff;
    HammingIsSymmetricDifference(a.bits[..], b.bits[..]);
    return Ok(dist);
  }
}
