/** The binary snapshot of a counting filter (internal/counting/snapshot.go:17-97). */
module CountingSnapshot {
  import opened Bits
  import opened Results
  import opened Crc32
  import opened Counting
  import BigEndian
  import Codec
  import C = CountingFilter

  const MAGIC: nat := 0x4342_4631

  datatype Error = NilFilter | TooShort | BadMagic | BadCRC | DataLen

  /** The parameters and the count fit their 32-bit fields. */
  predicate Storable(f: Filter) {
    f.m < TWO32 && f.k < TWO32 && f.width < TWO32 && |f.data| == BytesFor(f.m, f.width)
    && -0x8000_0000 <= f.count < 0x8000_0000
  }

  /** uint32 of an int32, and back. */
  function Unsigned(count: int): (n: nat)
    ensures n < TWO32
  {
    count % TWO32
  }

  function Signed(n: nat): int {
    if n >= 0x8000_0000 then n - TWO32 else n
  }

  function Header(f: Filter): (h: seq<byte>)
    ensures |h| == 20
  {
    BigEndian.Put(MAGIC, 4) + BigEndian.Put(f.m, 4) + BigEndian.Put(f.k, 4) + BigEndian.Put(f.width, 4)
    + BigEndian.Put(Unsigned(f.count), 4)
  }

  function Snapshot(f: Filter): (b: seq<byte>)
    ensures |b| == 24 + |f.data|
  {
    var body := Header(f) + f.data;
    body + BigEndian.Put(ChecksumIEEE(body), 4)
  }

  /** UnmarshalSnapshot; it checks neither that m, k and the counter width are positive nor that the
      width is at most 8. */
  function Restore(b: seq<byte>): Result<Filter, Error> {
    if |b| < 24 then Err(TooShort)
    else if Codec.U32At(b, 0) != MAGIC then Err(BadMagic)
    else
      var m, k, width := Codec.U32At(b, 4), Codec.U32At(b, 8), Codec.U32At(b, 12);
      var count := Signed(Codec.U32At(b, 16));
      var end := 20 + BytesFor(m, width);
      if |b| < end + 4 then Err(DataLen)
      else if Codec.U32At(b, end) != ChecksumIEEE(b[..end]) then Err(BadCRC)
      else Ok(Filter(m, k, width, b[20..end], count))
  }

  lemma Words(a: seq<byte>, b: seq<byte>, c: seq<byte>, d: seq<byte>, e: seq<byte>, data: seq<byte>, crc: seq<byte>,
              rest: seq<byte>)
    requires |a| == |b| == |c| == |d| == |e| == |crc| == 4
    ensures var s := a + b + c + d + e + data + crc + rest;
            var end := 20 + |data|;
            s[0..4] == a && s[4..8] == b && s[8..12] == c && s[12..16] == d && s[16..20] == e
            && s[20..end] == data && s[end..end + 4] == crc && s[..end] == a + b + c + d + e + data
  {}

  lemma SignedUnsigned(count: int)
    requires -0x8000_0000 <= count < 0x8000_0000
    ensures Signed(Unsigned(count)) == count
  {
    if count < 0 {
      ModUnique(count, TWO32, -1, count + TWO32);
    } else {
      ModUnique(count, TWO32, 0, count);
    }
  }

  lemma UnsignedSigned(n: nat)
    requires n < TWO32
    ensures Unsigned(Signed(n)) == n && -0x8000_0000 <= Signed(n) < 0x8000_0000
  {
    if n >= 0x8000_0000 {
      ModUnique(n - TWO32, TWO32, -1, n);
    } else {
      ModUnique(n, TWO32, 0, n);
    }
  }

  lemma UnsignedIs(count: int)
    requires -0x8000_0000 <= count < 0x8000_0000
    ensures Unsigned(count) == if count < 0 then count + 0x1_0000_0000 else count
  {
    if count < 0 {
      ModUnique(count, TWO32, -1, count + TWO32);
    } else {
      ModUnique(count, TWO32, 0, count);
    }
  }

  /** The bytes of a snapshot: "CBF1", m, k, the counter width, the count in two's complement, the counters,
      and the checksum of all of these, with every number most significant byte first. */
  lemma SnapshotBytes(f: Filter)
    requires Storable(f)
    ensures var b, n := Snapshot(f), |f.data|;
            && |b| == n + 24 && b[..4] == [0x43, 0x42, 0x46, 0x31]
            && BigEndian.Holds32(b, 4, f.m) && BigEndian.Holds32(b, 8, f.k) && BigEndian.Holds32(b, 12, f.width)
            && BigEndian.Holds32(b, 16, if f.count < 0 then f.count + 0x1_0000_0000 else f.count)
            && b[20..20 + n] == f.data && BigEndian.Holds32(b, 20 + n, ChecksumIEEE(b[..20 + n]))
  {
    hide BigEndian.Put, BigEndian.Get, BigEndian.Holds32, Codec.U32At, ChecksumIEEE, Unsigned;
    var b, sum := Snapshot(f), ChecksumIEEE(Header(f) + f.data);
    Words(BigEndian.Put(MAGIC, 4), BigEndian.Put(f.m, 4), BigEndian.Put(f.k, 4), BigEndian.Put(f.width, 4),
          BigEndian.Put(Unsigned(f.count), 4), f.data, BigEndian.Put(sum, 4), []);
    assert b + [] == b;
    UnsignedIs(f.count);
    BigEndian.Holds32At(b, 4, f.m);
    BigEndian.Holds32At(b, 8, f.k);
    BigEndian.Holds32At(b, 12, f.width);
    BigEndian.Holds32At(b, 16, Unsigned(f.count));
    BigEndian.Holds32At(b, 20 + |f.data|, sum);
    Codec.U32AtPut(b, 0, MAGIC);
    Codec.U32AtIs(b, 0, [0x43, 0x42, 0x46, 0x31]);
    assert b[0..4] == b[..4];
  }

  /** The error of every blob that is not restored. */
  lemma RestoreErrors(b: seq<byte>)
    ensures Restore(b) == Err(TooShort) <==> |b| < 24
    ensures Restore(b) == Err(BadMagic) <==> |b| >= 24 && b[..4] != [0x43, 0x42, 0x46, 0x31]
    ensures |b| >= 24 && b[..4] == [0x43, 0x42, 0x46, 0x31] ==>
              var m, width := Codec.U32At(b, 4), Codec.U32At(b, 12);
              var end := 20 + (m * width + 7) / 8;
              && (Restore(b) == Err(DataLen) <==> |b| < end + 4)
              && (Restore(b) == Err(BadCRC) <==> |b| >= end + 4 && Codec.U32At(b, end) != ChecksumIEEE(b[..end]))
              && (Restore(b).Ok? <==> |b| >= end + 4 && Codec.U32At(b, end) == ChecksumIEEE(b[..end]))
  {
    hide Codec.U32At, ChecksumIEEE;
    if |b| >= 24 {
      Codec.U32AtIs(b, 0, [0x43, 0x42, 0x46, 0x31]);
      assert b[0..4] == b[..4];
    }
  }

  /** How a snapshot with the given fields, checksum field included, is restored. */
  lemma RestoreFields(f: Filter, sum: nat, rest: seq<byte>)
    requires Storable(f) && sum < TWO32
    ensures Restore(Header(f) + f.data + BigEndian.Put(sum, 4) + rest) ==
            if sum == ChecksumIEEE(Header(f) + f.data) then Ok(f) else Err(BadCRC)
  {
    hide BigEndian.Put, BigEndian.Get, Codec.U32At, ChecksumIEEE, Signed, Unsigned;
    var b := Header(f) + f.data + BigEndian.Put(sum, 4) + rest;
    Words(BigEndian.Put(MAGIC, 4), BigEndian.Put(f.m, 4), BigEndian.Put(f.k, 4), BigEndian.Put(f.width, 4),
          BigEndian.Put(Unsigned(f.count), 4), f.data, BigEndian.Put(sum, 4), rest);
    Codec.U32AtPut(b, 0, MAGIC);
    Codec.U32AtPut(b, 4, f.m);
    Codec.U32AtPut(b, 8, f.k);
    Codec.U32AtPut(b, 12, f.width);
    Codec.U32AtPut(b, 16, Unsigned(f.count));
    Codec.U32AtPut(b, 20 + |f.data|, sum);
    SignedUnsigned(f.count);
  }

  /** Restoring a snapshot, whatever follows it, gives the filter back. */
  lemma RestoreSnapshot(f: Filter, rest: seq<byte>)
    requires Storable(f)
    ensures Restore(Snapshot(f) + rest) == Ok(f)
  {
    hide BigEndian.Put, ChecksumIEEE, Header, Restore;
    RestoreFields(f, ChecksumIEEE(Header(f) + f.data), rest);
  }

  /** The snapshot of `f` was damaged into one with the fields of `g` and checksum field `crc`: the magic
      and size fields are intact, and the damage is confined to four consecutive bytes or to the checksum field. */
  ghost predicate ConfinedDamage(f: Filter, g: Filter, crc: seq<byte>, at: nat) {
    var good, bad := Header(f) + f.data, Header(g) + g.data;
    g.m == f.m && g.width == f.width && |g.data| == |f.data| && |crc| == 4 &&
    (|| g == f
     || (crc == BigEndian.Put(ChecksumIEEE(good), 4) &&
         forall i | 0 <= i < |good| && bad[i] != good[i] :: at <= i < at + 4))
  }

  /** Such damage is always reported, whatever follows the snapshot. */
  lemma DamageRejected(f: Filter, g: Filter, crc: seq<byte>, at: nat, rest: seq<byte>)
    requires Storable(f) && Storable(g) && ConfinedDamage(f, g, crc, at)
    requires Header(g) + g.data + crc != Snapshot(f)
    ensures Restore(Header(g) + g.data + crc + rest) == Err(BadCRC)
  {
    hide BigEndian.Put, BigEndian.Get, ChecksumIEEE, Header, Restore;
    var good, bad := Header(f) + f.data, Header(g) + g.data;
    BigEndian.Get32Bound(crc);
    BigEndian.PutGet(crc);
    RestoreFields(g, BigEndian.Get(crc), rest);
    BigEndian.GetPut32(ChecksumIEEE(good));
    if crc == BigEndian.Put(ChecksumIEEE(good), 4) {
      FourBytesDetected(good, bad, at);
    }
  }

  lemma JoinWords(b: seq<byte>)
    requires |b| >= 20
    ensures b[..20] == b[0..4] + b[4..8] + b[8..12] + b[12..16] + b[16..20]
  {}

  /** Whatever restores starts with the snapshot of the result. */
  lemma SnapshotRestored(b: seq<byte>)
    ensures Restore(b).Ok? ==> Storable(Restore(b).value) && Snapshot(Restore(b).value) <= b
  {
    hide BigEndian.Put, BigEndian.Get, Codec.U32At, ChecksumIEEE, Signed, Unsigned;
    if Restore(b).Ok? {
      var f := Restore(b).value;
      var end := 20 + |f.data|;
      Codec.PutU32At(b, 0);
      Codec.PutU32At(b, 4);
      Codec.PutU32At(b, 8);
      Codec.PutU32At(b, 12);
      Codec.PutU32At(b, 16);
      Codec.PutU32At(b, end);
      UnsignedSigned(Codec.U32At(b, 16));
      JoinWords(b);
      Codec.JoinSlices(b, 20, end);
      Codec.JoinSlices(b, end, end + 4);
    }
  }

  /** MarshalSnapshot, filling its buffer in place. */
  method MarshalSnapshot(cf: C.CountingFilter?) returns (r: Result<array<byte>, Error>)
    requires cf != null ==> cf.Valid()
    ensures cf == null ==> r == Err(NilFilter)
    ensures cf != null ==> r.Ok? && fresh(r.value) && r.value[..] == Snapshot(cf.Value())
  {
    hide BigEndian.Put, ChecksumIEEE, Unsigned;
    if cf == null {
      return Err(NilFilter);
    }
    var data := cf.data[..];
    var total := 20 + |data| + 4;
    var buf := new byte[total](_ => 0);
    Codec.PutUint32(buf, 0, MAGIC);
    Codec.PutUint32(buf, 4, cf.m);
    Codec.PutUint32(buf, 8, cf.k);
    Codec.PutUint32(buf, 12, cf.counterBits);
    Codec.PutUint32(buf, 16, Unsigned(cf.count));
    assert buf[..20] == Header(cf.Value());
    Codec.Copy(buf, 20, data);
    assert buf[..total - 4] == Header(cf.Value()) + data;
    var checksum := ChecksumIEEE(buf[..total - 4]);
    Codec.PutUint32(buf, total - 4, checksum);
    return Ok(buf);
  }
}
