/** The v1 and v2 wire formats of a Bloom filter (internal/codec/codec.go, internal/codec/format.go). */
module Codec {
  import opened Bits
  import opened Results
  import opened Bloom
  import opened Crc32
  import BigEndian
  import F = BloomFilter

  const MAGIC_V1: nat := 0x424C_4D01
  const MAGIC_V2: nat := 0x424C_4D02

  datatype Error = TooShort | BadMagic | UnsupportedVersion | CRCMismatch | BitsTruncated | InvalidParams

  /** The filters the formats can hold: m and k are stored in 32 bits. */
  predicate Storable(f: Filter) {
    WellFormed(f) && f.m < TWO32 && f.k < TWO32
  }

  // ---------------------------------------------------------------- encoding

  function HeaderV2(f: Filter): (h: seq<byte>)
    ensures |h| == 13
  {
    BigEndian.Put(MAGIC_V2, 4) + [2] + BigEndian.Put(f.m, 4) + BigEndian.Put(f.k, 4)
  }

  function Marshalled(f: Filter): (b: seq<byte>)
    ensures |b| == 17 + |f.bits|
  {
    var body := HeaderV2(f) + f.bits;
    body + BigEndian.Put(ChecksumIEEE(body), 4)
  }

  function HeaderV1(f: Filter): (h: seq<byte>)
    ensures |h| == 12
  {
    BigEndian.Put(MAGIC_V1, 4) + BigEndian.Put(f.m, 4) + BigEndian.Put(f.k, 4)
  }

  function MarshalledV1(f: Filter): seq<byte> {
    HeaderV1(f) + f.bits
  }

  // ---------------------------------------------------------------- decoding

  function U32At(b: seq<byte>, at: nat): (n: nat)
    requires at + 4 <= |b|
    ensures n < TWO32
  {
    BigEndian.Get32Bound(b[at..at + 4]);
    BigEndian.Get(b[at..at + 4])
  }

  function FromParts(m: nat, k: nat, bits: seq<byte>): Result<Filter, Error> {
    if m == 0 || k == 0 then Err(InvalidParams) else Ok(Filter(m, k, bits))
  }

  function UnmarshalV1(b: seq<byte>): (r: Result<Filter, Error>)
    ensures r.Ok? ==> Storable(r.value)
  {
    if |b| < 12 then Err(TooShort)
    else
      var m, k := U32At(b, 4), U32At(b, 8);
      if |b| - 12 != BytesFor(m) then Err(BitsTruncated)
      else FromParts(m, k, b[12..])
  }

  function UnmarshalV2(b: seq<byte>): (r: Result<Filter, Error>)
    ensures r.Ok? ==> Storable(r.value)
  {
    if |b| < 17 then Err(TooShort)
    else if b[4] != 2 then Err(UnsupportedVersion)
    else
      var m, k := U32At(b, 5), U32At(b, 9);
      var end := 13 + BytesFor(m);
      if |b| < end + 4 then Err(BitsTruncated)
      else if U32At(b, end) != ChecksumIEEE(b[..end]) then Err(CRCMismatch)
      else FromParts(m, k, b[13..end])
  }

  function Unmarshal(b: seq<byte>): (r: Result<Filter, Error>)
    ensures r.Ok? ==> Storable(r.value)
  {
    if |b| < 4 then Err(TooShort)
    else if U32At(b, 0) == MAGIC_V1 then UnmarshalV1(b)
    else if U32At(b, 0) == MAGIC_V2 then UnmarshalV2(b)
    else Err(BadMagic)
  }

  function ConvertV1ToV2(b: seq<byte>): Result<seq<byte>, Error>
  {
    if |b| < 4 then Err(TooShort)
    else if U32At(b, 0) == MAGIC_V2 then Ok(b)
    else if U32At(b, 0) != MAGIC_V1 then Err(BadMagic)
    else match UnmarshalV1(b)
      case Err(e) => Err(e)
      case Ok(f) => Ok(Marshalled(f))
  }

  // ---------------------------------------------------------------- fields

  lemma U32AtPut(b: seq<byte>, at: nat, n: nat)
    requires at + 4 <= |b| && b[at..at + 4] == BigEndian.Put(n, 4) && n < TWO32
    ensures U32At(b, at) == n
  {
    BigEndian.GetPut32(n);
  }

  lemma PutU32At(b: seq<byte>, at: nat)
    requires at + 4 <= |b|
    ensures BigEndian.Put(U32At(b, at), 4) == b[at..at + 4]
  {
    BigEndian.PutGet(b[at..at + 4]);
  }

  /** A field is read most significant byte first. */
  lemma U32AtNumber(b: seq<byte>, at: nat)
    requires at + 4 <= |b|
    ensures U32At(b, at) ==
            b[at] as nat * 0x100_0000 + b[at + 1] as nat * 0x1_0000 + b[at + 2] as nat * 0x100 + b[at + 3] as nat
  {
    BigEndian.GetFour(b[at..at + 4]);
  }

  /** A field holds the number of four given bytes exactly when it is those bytes. */
  lemma U32AtIs(b: seq<byte>, at: nat, w: seq<byte>)
    requires at + 4 <= |b| && |w| == 4
    ensures U32At(b, at) == w[0] as nat * 0x100_0000 + w[1] as nat * 0x1_0000 + w[2] as nat * 0x100 + w[3] as nat
            <==> b[at..at + 4] == w
  {
    hide BigEndian.Get;
    BigEndian.GetFour(b[at..at + 4]);
    BigEndian.GetFour(w);
    if U32At(b, at) == BigEndian.Get(w) {
      BigEndian.GetInjective(b[at..at + 4], w);
    }
  }

  predicate HasHeaderV2(b: seq<byte>, m: nat, k: nat) {
    |b| >= 13 && U32At(b, 0) == MAGIC_V2 && b[4] == 2 && U32At(b, 5) == m && U32At(b, 9) == k
  }

  predicate HasHeaderV1(b: seq<byte>, m: nat, k: nat) {
    |b| >= 12 && U32At(b, 0) == MAGIC_V1 && U32At(b, 4) == m && U32At(b, 8) == k
  }

  lemma FieldsV2(mg: seq<byte>, v: byte, m: seq<byte>, k: seq<byte>, rest: seq<byte>)
    requires |mg| == |m| == |k| == 4
    ensures var b := mg + [v] + m + k + rest;
            b[0..4] == mg && b[4] == v && b[5..9] == m && b[9..13] == k && b[..13] == mg + [v] + m + k
  {}

  lemma FieldsV1(mg: seq<byte>, m: seq<byte>, k: seq<byte>, rest: seq<byte>)
    requires |mg| == |m| == |k| == 4
    ensures var b := mg + m + k + rest;
            b[0..4] == mg && b[4..8] == m && b[8..12] == k && b[12..] == rest
  {}

  lemma HeaderV2Fields(f: Filter, rest: seq<byte>)
    requires Storable(f)
    ensures HasHeaderV2(HeaderV2(f) + rest, f.m, f.k)
  {
    hide BigEndian.Put, BigEndian.Get, U32At;
    var b := HeaderV2(f) + rest;
    FieldsV2(BigEndian.Put(MAGIC_V2, 4), 2, BigEndian.Put(f.m, 4), BigEndian.Put(f.k, 4), rest);
    U32AtPut(b, 0, MAGIC_V2);
    U32AtPut(b, 5, f.m);
    U32AtPut(b, 9, f.k);
  }

  lemma HeaderV2FromFields(b: seq<byte>, f: Filter)
    requires HasHeaderV2(b, f.m, f.k)
    ensures b[..13] == HeaderV2(f)
  {
    hide BigEndian.Put, BigEndian.Get, U32At;
    PutU32At(b, 0);
    PutU32At(b, 5);
    PutU32At(b, 9);
    assert b == b[0..4] + [b[4]] + b[5..9] + b[9..13] + b[13..];
    FieldsV2(b[0..4], b[4], b[5..9], b[9..13], b[13..]);
  }

  lemma HeaderV1Fields(f: Filter, rest: seq<byte>)
    requires Storable(f)
    ensures HasHeaderV1(HeaderV1(f) + rest, f.m, f.k) && (HeaderV1(f) + rest)[12..] == rest
  {
    hide BigEndian.Put, BigEndian.Get, U32At;
    var b := HeaderV1(f) + rest;
    FieldsV1(BigEndian.Put(MAGIC_V1, 4), BigEndian.Put(f.m, 4), BigEndian.Put(f.k, 4), rest);
    U32AtPut(b, 0, MAGIC_V1);
    U32AtPut(b, 4, f.m);
    U32AtPut(b, 8, f.k);
  }

  lemma HeaderV1FromFields(b: seq<byte>, f: Filter)
    requires HasHeaderV1(b, f.m, f.k)
    ensures b[..12] == HeaderV1(f)
  {
    hide BigEndian.Put, BigEndian.Get, U32At;
    PutU32At(b, 0);
    PutU32At(b, 4);
    PutU32At(b, 8);
    assert b[..12] == b[0..4] + b[4..8] + b[8..12];
  }

  lemma MagicBytes(b: seq<byte>)
    requires |b| >= 4
    ensures U32At(b, 0) == MAGIC_V1 <==> b[..4] == [0x42, 0x4C, 0x4D, 0x01]
    ensures U32At(b, 0) == MAGIC_V2 <==> b[..4] == [0x42, 0x4C, 0x4D, 0x02]
  {
    hide U32At;
    U32AtIs(b, 0, [0x42, 0x4C, 0x4D, 0x01]);
    U32AtIs(b, 0, [0x42, 0x4C, 0x4D, 0x02]);
    assert b[0..4] == b[..4];
  }

  /** The bytes of a v1 blob: "BLM" and 1, m, k, most significant byte first, and the bits. */
  lemma BytesV1(f: Filter)
    requires Storable(f)
    ensures var b := MarshalledV1(f);
            && |b| == 12 + |f.bits| && b[..4] == [0x42, 0x4C, 0x4D, 0x01]
            && BigEndian.Holds32(b, 4, f.m) && BigEndian.Holds32(b, 8, f.k) && b[12..] == f.bits
  {
    hide BigEndian.Put, BigEndian.Get, BigEndian.Holds32, U32At;
    var b := MarshalledV1(f);
    FieldsV1(BigEndian.Put(MAGIC_V1, 4), BigEndian.Put(f.m, 4), BigEndian.Put(f.k, 4), f.bits);
    HeaderV1Fields(f, f.bits);
    MagicBytes(b);
    BigEndian.Holds32At(b, 4, f.m);
    BigEndian.Holds32At(b, 8, f.k);
  }

  /** The four parts of a v2 blob are found again. */
  lemma SplitFour(h: seq<byte>, bits: seq<byte>, crc: seq<byte>, rest: seq<byte>)
    requires |h| == 13 && |crc| == 4
    ensures var b := h + bits + crc + rest;
            var end := 13 + |bits|;
            b == h + (bits + crc + rest) && b[13..end] == bits && b[end..end + 4] == crc && b[..end] == h + bits
  {}

  /** The bytes of a v2 blob: "BLM" and 2, the version 2, m, k, the bits, and the checksum of all of these, with
      every number most significant byte first. */
  lemma BytesV2(f: Filter)
    requires Storable(f)
    ensures var b, n := Marshalled(f), |f.bits|;
            && |b| == 17 + n && b[..5] == [0x42, 0x4C, 0x4D, 0x02, 2]
            && BigEndian.Holds32(b, 5, f.m) && BigEndian.Holds32(b, 9, f.k) && b[13..13 + n] == f.bits
            && BigEndian.Holds32(b, 13 + n, ChecksumIEEE(b[..13 + n]))
  {
    hide BigEndian.Put, BigEndian.Get, BigEndian.Holds32, U32At, ChecksumIEEE;
    var b, sum := Marshalled(f), ChecksumIEEE(HeaderV2(f) + f.bits);
    var crc := BigEndian.Put(sum, 4);
    SplitFour(HeaderV2(f), f.bits, crc, []);
    assert b + [] == b;
    FieldsV2(BigEndian.Put(MAGIC_V2, 4), 2, BigEndian.Put(f.m, 4), BigEndian.Put(f.k, 4), f.bits + crc);
    assert b == HeaderV2(f) + (f.bits + crc);
    HeaderV2Fields(f, f.bits + crc);
    MagicBytes(b);
    assert b[..5] == b[..4] + [b[4]];
    BigEndian.Holds32At(b, 5, f.m);
    BigEndian.Holds32At(b, 9, f.k);
    BigEndian.Holds32At(b, 13 + |f.bits|, sum);
  }

  lemma JoinSlices(b: seq<byte>, i: nat, j: nat)
    requires i <= j <= |b|
    ensures b[..i] + b[i..j] == b[..j] && b[..i] + b[i..] == b
  {}

  // ---------------------------------------------------------------- decode after encode

  /** What Unmarshal answers on a blob with the given header, bits and checksum field. */
  lemma DecodeV2(b: seq<byte>, m: nat, k: nat, bits: seq<byte>, crc: nat)
    requires HasHeaderV2(b, m, k) && m > 0 && k > 0 && |bits| == BytesFor(m)
    requires |b| >= 17 + |bits| && b[13..13 + |bits|] == bits && U32At(b, 13 + |bits|) == crc
    ensures Unmarshal(b) == if crc == ChecksumIEEE(b[..13 + |bits|]) then Ok(Filter(m, k, bits)) else Err(CRCMismatch)
  {}

  /** Decoding an encoded filter, whatever follows it, gives the filter back. */
  lemma UnmarshalMarshalled(f: Filter, rest: seq<byte>)
    requires Storable(f)
    ensures Unmarshal(Marshalled(f) + rest) == Ok(f)
  {
    hide BigEndian.Put, BigEndian.Get, U32At, ChecksumIEEE, Unmarshal, HasHeaderV2;
    var sum := ChecksumIEEE(HeaderV2(f) + f.bits);
    var crc := BigEndian.Put(sum, 4);
    SplitFour(HeaderV2(f), f.bits, crc, rest);
    HeaderV2Fields(f, f.bits + crc + rest);
    U32AtPut(Marshalled(f) + rest, 13 + |f.bits|, sum);
    DecodeV2(Marshalled(f) + rest, f.m, f.k, f.bits, sum);
  }

  lemma UnmarshalMarshalledV1(f: Filter)
    requires Storable(f)
    ensures Unmarshal(MarshalledV1(f)) == Ok(f)
  {
    hide BigEndian.Put, BigEndian.Get;
    HeaderV1Fields(f, f.bits);
  }

  // ---------------------------------------------------------------- encode after decode

  /** A v1 blob that decodes is exactly the encoding of its filter. */
  lemma MarshalUnmarshalledV1(b: seq<byte>)
    requires |b| >= 4 && U32At(b, 0) == MAGIC_V1 && UnmarshalV1(b).Ok?
    ensures MarshalledV1(UnmarshalV1(b).value) == b
  {
    hide BigEndian.Put, BigEndian.Get;
    HeaderV1FromFields(b, UnmarshalV1(b).value);
    JoinSlices(b, 12, 12);
  }

  /** A v2 blob that decodes starts with the encoding of its filter. */
  lemma MarshalUnmarshalledV2(b: seq<byte>)
    requires |b| >= 4 && U32At(b, 0) == MAGIC_V2 && UnmarshalV2(b).Ok?
    ensures Marshalled(UnmarshalV2(b).value) <= b
  {
    hide BigEndian.Put, BigEndian.Get, ChecksumIEEE, HeaderV2;
    var f := UnmarshalV2(b).value;
    var end := 13 + BytesFor(f.m);
    HeaderV2FromFields(b, f);
    PutU32At(b, end);
    JoinSlices(b, 13, end);
    JoinSlices(b, end, end + 4);
  }

  /** Both inversions at once: a blob that decodes starts with the encoding of its filter, and a v1
      blob is nothing more. */
  lemma MarshalUnmarshalled(b: seq<byte>)
    requires Unmarshal(b).Ok?
    ensures U32At(b, 0) == MAGIC_V1 ==> b == MarshalledV1(Unmarshal(b).value)
    ensures U32At(b, 0) == MAGIC_V2 ==> Marshalled(Unmarshal(b).value) <= b
  {
    if U32At(b, 0) == MAGIC_V1 {
      MarshalUnmarshalledV1(b);
    } else {
      MarshalUnmarshalledV2(b);
    }
  }

  lemma MarshalledIsV2(f: Filter)
    requires Storable(f)
    ensures U32At(Marshalled(f), 0) == MAGIC_V2
  {
    hide BigEndian.Put, BigEndian.Get, ChecksumIEEE, U32At, HeaderV2;
    var crc := BigEndian.Put(ChecksumIEEE(HeaderV2(f) + f.bits), 4);
    HeaderV2Fields(f, f.bits + crc);
    SplitFour(HeaderV2(f), f.bits, crc, []);
    assert Marshalled(f) == HeaderV2(f) + (f.bits + crc);
  }

  /** Upgrading succeeds on every blob that decodes, never changes the decoded filter, and yields v2. */
  lemma ConvertPreserves(b: seq<byte>)
    ensures Unmarshal(b).Ok? ==> ConvertV1ToV2(b).Ok?
    ensures ConvertV1ToV2(b).Ok? ==> |ConvertV1ToV2(b).value| >= 4 && U32At(ConvertV1ToV2(b).value, 0) == MAGIC_V2
    ensures ConvertV1ToV2(b).Ok? ==> Unmarshal(ConvertV1ToV2(b).value) == Unmarshal(b)
  {
    hide BigEndian.Put, BigEndian.Get, ChecksumIEEE, Marshalled, UnmarshalV1, UnmarshalV2;
    if |b| >= 4 && U32At(b, 0) == MAGIC_V1 && UnmarshalV1(b).Ok? {
      var f := UnmarshalV1(b).value;
      UnmarshalMarshalled(f, []);
      assert Marshalled(f) + [] == Marshalled(f);
      MarshalledIsV2(f);
    }
  }

  /** Changing up to four consecutive bytes of the bit section of an encoded filter is always noticed. */
  lemma CorruptBitsRejected(f: Filter, bits: seq<byte>, at: nat, rest: seq<byte>)
    requires Storable(f) && |bits| == |f.bits| && bits != f.bits
    requires forall i | 0 <= i < |bits| && bits[i] != f.bits[i] :: at <= i < at + 4
    ensures Unmarshal(HeaderV2(f) + bits + BigEndian.Put(ChecksumIEEE(HeaderV2(f) + f.bits), 4) + rest) ==
            Err(CRCMismatch)
  {
    hide BigEndian.Put, BigEndian.Get, ChecksumIEEE, U32At, Unmarshal, HasHeaderV2;
    var good, bad := HeaderV2(f) + f.bits, HeaderV2(f) + bits;
    var sum := ChecksumIEEE(good);
    var crc := BigEndian.Put(sum, 4);
    SplitFour(HeaderV2(f), bits, crc, rest);
    HeaderV2Fields(f, bits + crc + rest);
    U32AtPut(bad + crc + rest, 13 + |bits|, sum);
    DecodeV2(bad + crc + rest, f.m, f.k, bits, sum);
    assert good[13..] == f.bits && bad[13..] == bits;
    FourBytesDetected(good, bad, at + 13);
  }

  // ---------------------------------------------------------------- inspection

  datatype FormatInfo = FormatInfo(version: nat, headerSize: nat, hasCRC: bool, m: nat, k: nat, bitsLen: nat,
                                   totalLen: nat)

  /** Metadata of a blob; neither the bit section nor the checksum is looked at. */
  function Inspect(b: seq<byte>): Result<FormatInfo, Error> {
    if |b| < 4 then Err(TooShort)
    else if U32At(b, 0) == MAGIC_V1 then
      if |b| < 12 then Err(TooShort)
      else Ok(FormatInfo(1, 12, false, U32At(b, 4), U32At(b, 8), |b| - 12, |b|))
    else if U32At(b, 0) == MAGIC_V2 then
      if |b| < 17 then Err(TooShort)
      else Ok(FormatInfo(2, 13, true, U32At(b, 5), U32At(b, 9), BytesFor(U32At(b, 5)), |b|))
    else Err(BadMagic)
  }

  /** What Inspect answers for every blob. */
  lemma InspectAnswers(b: seq<byte>)
    ensures var v1 := |b| >= 4 && b[..4] == [0x42, 0x4C, 0x4D, 0x01];
            var v2 := |b| >= 4 && b[..4] == [0x42, 0x4C, 0x4D, 0x02];
            && (Inspect(b) == Err(BadMagic) <==> |b| >= 4 && !v1 && !v2)
            && (Inspect(b) == Err(TooShort) <==> |b| < 4 || (v1 && |b| < 12) || (v2 && |b| < 17))
            && (Inspect(b).Ok? <==> (v1 && |b| >= 12) || (v2 && |b| >= 17))
            && (Inspect(b).Ok? ==>
                  var i := Inspect(b).value;
                  && i.totalLen == |b|
                  && (v1 ==> i.version == 1 && i.headerSize == 12 && !i.hasCRC)
                  && (v2 ==> i.version == 2 && i.headerSize == 13 && i.hasCRC))
  {
    hide U32At;
    if |b| >= 4 {
      MagicBytes(b);
    }
  }

  /** Inspect and Unmarshal agree on every blob that decodes: version, parameters, length of the bit section,
      and where it lies. */
  lemma InspectAgrees(b: seq<byte>)
    requires Unmarshal(b).Ok?
    ensures Inspect(b).Ok? &&
            var i, f := Inspect(b).value, Unmarshal(b).value;
            && i.m == f.m && i.k == f.k && i.bitsLen == |f.bits|
            && b[i.headerSize..i.headerSize + i.bitsLen] == f.bits
            && i.headerSize + i.bitsLen + (if i.hasCRC then 4 else 0) <= i.totalLen == |b|
            && (i.version == 1 <==> b == MarshalledV1(f)) && (i.version == 2 <==> Marshalled(f) <= b)
  {
    hide ChecksumIEEE, BigEndian.Put, BigEndian.Get;
    InspectAnswers(b);
    MagicBytes(b);
    MarshalUnmarshalled(b);
    var f := Unmarshal(b).value;
    BytesV1(f);
    BytesV2(f);
  }

  /** The error of every blob that does not decode. */
  lemma UnmarshalErrors(b: seq<byte>)
    ensures var v1 := |b| >= 4 && b[..4] == [0x42, 0x4C, 0x4D, 0x01];
            var v2 := |b| >= 4 && b[..4] == [0x42, 0x4C, 0x4D, 0x02];
            && (Unmarshal(b) == Err(BadMagic) <==> |b| >= 4 && !v1 && !v2)
            && (Unmarshal(b) == Err(TooShort) <==> |b| < 4 || (v1 && |b| < 12) || (v2 && |b| < 17))
            && (Unmarshal(b) == Err(UnsupportedVersion) <==> v2 && |b| >= 17 && b[4] != 2)
            && (v1 && |b| >= 12 ==>
                  var m, k := U32At(b, 4), U32At(b, 8);
                  && (Unmarshal(b) == Err(BitsTruncated) <==> |b| != 12 + (m + 7) / 8)
                  && (Unmarshal(b) == Err(InvalidParams) <==> |b| == 12 + (m + 7) / 8 && (m == 0 || k == 0))
                  && Unmarshal(b) != Err(CRCMismatch))
            && (v2 && |b| >= 17 && b[4] == 2 ==>
                  var m, k := U32At(b, 5), U32At(b, 9);
                  var end := 13 + (m + 7) / 8;
                  && (Unmarshal(b) == Err(BitsTruncated) <==> |b| < end + 4)
                  && (Unmarshal(b) == Err(CRCMismatch) <==> |b| >= end + 4 && U32At(b, end) != ChecksumIEEE(b[..end]))
                  && (Unmarshal(b) == Err(InvalidParams) <==>
                      |b| >= end + 4 && U32At(b, end) == ChecksumIEEE(b[..end]) && (m == 0 || k == 0)))
  {
    hide U32At, ChecksumIEEE;
    if |b| >= 4 {
      MagicBytes(b);
    }
  }

  // ---------------------------------------------------------------- filling the buffer

  method PutUint32(buf: array<byte>, at: nat, v: nat)
    requires at + 4 <= buf.Length
    modifies buf
    ensures buf[..] == old(buf[..at]) + BigEndian.Put(v, 4) + old(buf[at + 4..])
  {
    hide BigEndian.Put, BigEndian.Get;
    var s := BigEndian.Put(v, 4);
    buf[at] := s[0];
    buf[at + 1] := s[1];
    buf[at + 2] := s[2];
    buf[at + 3] := s[3];
  }

  method Copy(buf: array<byte>, at: nat, src: seq<byte>)
    requires at + |src| <= buf.Length
    modifies buf
    ensures buf[..] == old(buf[..at]) + src + old(buf[at + |src|..])
  {
    for i := 0 to |src|
      invariant forall j | 0 <= j < i :: buf[at + j] == src[j]
      invariant forall j | 0 <= j < buf.Length && !(at <= j < at + i) :: buf[j] == old(buf[j])
    {
      buf[at + i] := src[i];
    }
  }

  method Marshal(f: F.BloomFilter?) returns (out: array?<byte>)
    requires f != null ==> f.Valid()
    ensures f == null <==> out == null
    ensures f != null ==> fresh(out) && out[..] == Marshalled(f.Value())
  {
    hide BigEndian.Put, BigEndian.Get, ChecksumIEEE;
    if f == null {
      return null;
    }
    var bits := f.bits[..];
    var total := 13 + |bits| + 4;
    var buf := new byte[total](_ => 0);
    PutUint32(buf, 0, MAGIC_V2);
    buf[4] := 2;
    assert buf[..5] == BigEndian.Put(MAGIC_V2, 4) + [2];
    PutUint32(buf, 5, f.m);
    assert buf[..9] == BigEndian.Put(MAGIC_V2, 4) + [2] + BigEndian.Put(f.m, 4);
    PutUint32(buf, 9, f.k);
    assert buf[..13] == HeaderV2(f.Value());
    Copy(buf, 13, bits);
    assert buf[..total - 4] == HeaderV2(f.Value()) + bits;
    var checksum := ChecksumIEEE(buf[..total - 4]);
    PutUint32(buf, total - 4, checksum);
    return buf;
  }

  method MarshalV1(f: F.BloomFilter?) returns (out: array?<byte>)
    requires f != null ==> f.Valid()
    ensures f == null <==> out == null
    ensures f != null ==> fresh(out) && out[..] == MarshalledV1(f.Value())
  {
    if f == null {
      return null;
    }
    var bits := f.bits[..];
    var buf := new byte[12 + |bits|](_ => 0);
    PutUint32(buf, 0, MAGIC_V1);
    PutUint32(buf, 4, f.m);
    PutUint32(buf, 8, f.k);
    assert buf[..12] == HeaderV1(f.Value());
    Copy(buf, 12, bits);
    return buf;
  }

  /** Unmarshal as an operation: it builds a fresh filter object. */
  method Decode(b: seq<byte>) returns (r: Result<F.BloomFilter, Error>)
    ensures Unmarshal(b).Err? ==> r == Err(Unmarshal(b).error)
    ensures Unmarshal(b).Ok? ==>
              r.Ok? && fresh(r.value) && fresh(r.value.bits) && r.value.Valid() && r.value.Value() == Unmarshal(b).value
  {
    match Unmarshal(b)
    case Err(e) =>
      return Err(e);
    case Ok(f) =>
      var made := F.BloomFilter.NewFromParts(f.m, f.k, f.bits);
      return Ok(made.value);
  }
}
