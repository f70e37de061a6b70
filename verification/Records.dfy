/** Records of the append-only store file and their reader (internal/store/store.go:211-257). */
module Records {
  import opened Bits
  import opened Results
  import opened Crc32
  import BigEndian
  import Codec
  import Framing

  const ADD: byte := 1
  const CHECKPOINT: byte := 2

  datatype Record = Record(typ: byte, payload: seq<byte>)

  /** What the store writes: a known type and a payload whose length fits its 32-bit field. */
  predicate ValidRecord(r: Record) {
    (r.typ == ADD || r.typ == CHECKPOINT) && |r.payload| < TWO32
  }

  /** The part of a record its checksum covers: type, length, payload. */
  function Covered(r: Record): (s: seq<byte>)
    ensures |s| == 5 + |r.payload|
  {
    [r.typ] + BigEndian.Put(|r.payload|, 4) + r.payload
  }

  function EncodeRecord(r: Record): (s: seq<byte>)
    ensures |s| == 9 + |r.payload|
  {
    Covered(r) + BigEndian.Put(ChecksumIEEE(Covered(r)), 4)
  }

  /** One record from the front of `data` with its size, or nothing when it is cut short, of unknown
      type, or fails its checksum. */
  function ParseRecord(data: seq<byte>): Option<(Record, nat)>
  {
    if |data| < 5 then None
    else if data[0] != ADD && data[0] != CHECKPOINT then None
    else
      var pLen := Codec.U32At(data, 1);
      var total := 5 + pLen + 4;
      if |data| < total then None
      else if Codec.U32At(data, 5 + pLen) != ChecksumIEEE(data[..5 + pLen]) then None
      else Some((Record(data[0], data[5..5 + pLen]), total))
  }

  // ---------------------------------------------------------------- the reader inverts the printer

  lemma Layout(head: byte, len: seq<byte>, payload: seq<byte>, crc: seq<byte>, tail: seq<byte>)
    requires |len| == |crc| == 4
    ensures var d := [head] + len + payload + crc + tail;
            var end := 5 + |payload|;
            d[0] == head && d[1..5] == len && d[5..end] == payload && d[end..end + 4] == crc
            && d[..end] == [head] + len + payload && d[..end + 4] == [head] + len + payload + crc
  {}

  /** How a record with the given fields, checksum field included, is read. */
  lemma ParseFields(typ: byte, payload: seq<byte>, crc: nat, tail: seq<byte>)
    requires |payload| < TWO32 && crc < TWO32
    ensures var c := Covered(Record(typ, payload));
            ParseRecord(c + BigEndian.Put(crc, 4) + tail) ==
              if (typ == ADD || typ == CHECKPOINT) && crc == ChecksumIEEE(c)
              then Some((Record(typ, payload), 9 + |payload|)) else None
  {
    hide BigEndian.Put, BigEndian.Get, Codec.U32At, ChecksumIEEE;
    var c := Covered(Record(typ, payload));
    var d := c + BigEndian.Put(crc, 4) + tail;
    Layout(typ, BigEndian.Put(|payload|, 4), payload, BigEndian.Put(crc, 4), tail);
    Codec.U32AtPut(d, 1, |payload|);
    Codec.U32AtPut(d, 5 + |payload|, crc);
  }

  lemma ParseEncoded(r: Record, tail: seq<byte>)
    requires ValidRecord(r)
    ensures ParseRecord(EncodeRecord(r) + tail) == Some((r, |EncodeRecord(r)|))
  {
    hide ParseRecord, BigEndian.Put, ChecksumIEEE, Covered;
    ParseFields(r.typ, r.payload, ChecksumIEEE(Covered(r)), tail);
  }

  lemma JoinRecord(d: seq<byte>, end: nat)
    requires 5 <= end <= |d| - 4
    ensures d[..end + 4] == [d[0]] + d[1..5] + d[5..end] + d[end..end + 4] && d[..end] == [d[0]] + d[1..5] + d[5..end]
  {}

  lemma EncodeParsed(data: seq<byte>)
    requires ParseRecord(data).Some?
    ensures var (r, n) := ParseRecord(data).value;
            ValidRecord(r) && 0 < n <= |data| && EncodeRecord(r) == data[..n]
  {
    hide BigEndian.Put, BigEndian.Get, Codec.U32At, ChecksumIEEE;
    var pLen := Codec.U32At(data, 1);
    Codec.PutU32At(data, 1);
    Codec.PutU32At(data, 5 + pLen);
    JoinRecord(data, 5 + pLen);
  }

  /** The bytes of a record: type 1 for an item and 2 for a checkpoint, length, payload, and the checksum of
      all of these, with both numbers most significant byte first. */
  lemma RecordBytes(r: Record)
    requires ValidRecord(r)
    ensures var e, n := EncodeRecord(r), |r.payload|;
            && |e| == n + 9 && e[0] == r.typ && (r.typ == ADD ==> e[0] == 1) && (r.typ == CHECKPOINT ==> e[0] == 2)
            && BigEndian.Holds32(e, 1, n) && e[5..5 + n] == r.payload
            && BigEndian.Holds32(e, 5 + n, ChecksumIEEE(e[..5 + n]))
  {
    hide BigEndian.Put, BigEndian.Holds32, ChecksumIEEE;
    var sum := ChecksumIEEE(Covered(r));
    Layout(r.typ, BigEndian.Put(|r.payload|, 4), r.payload, BigEndian.Put(sum, 4), []);
    assert EncodeRecord(r) + [] == EncodeRecord(r);
    BigEndian.Holds32At(EncodeRecord(r), 1, |r.payload|);
    BigEndian.Holds32At(EncodeRecord(r), 5 + |r.payload|, sum);
  }

  function RecordFormat(): Framing.Format<Record> {
    Framing.Format(EncodeRecord, ParseRecord, ValidRecord)
  }

  lemma RecordsLawful()
    ensures Framing.Lawful(RecordFormat())
  {
    hide ParseRecord, EncodeRecord, ValidRecord;
    forall r, tail | ValidRecord(r)
      ensures ParseRecord(EncodeRecord(r) + tail) == Some((r, |EncodeRecord(r)|))
    {
      ParseEncoded(r, tail);
    }
    forall b | ParseRecord(b).Some?
      ensures Framing.ReadsBack(RecordFormat(), b, ParseRecord(b).value.0, ParseRecord(b).value.1)
    {
      EncodeParsed(b);
    }
  }

  // ---------------------------------------------------------------- corruption

  /** A damaged copy of the record `r`: same length field, other bytes possibly changed. */
  function Damaged(typ: byte, payload: seq<byte>, crc: seq<byte>): seq<byte> {
    Covered(Record(typ, payload)) + crc
  }

  /** The damage to `r` is confined to its type byte, to four consecutive payload bytes, or to its
      checksum field. */
  predicate ConfinedDamage(r: Record, typ: byte, payload: seq<byte>, crc: seq<byte>, at: nat) {
    var good := BigEndian.Put(ChecksumIEEE(Covered(r)), 4);
    |payload| == |r.payload| && |crc| == 4 &&
    (|| (payload == r.payload && crc == good)
     || (typ == r.typ && crc == good && forall i | 0 <= i < |payload| && payload[i] != r.payload[i] :: at <= i < at + 4)
     || (typ == r.typ && payload == r.payload))
  }

  lemma CoveredDiffers(r: Record, typ: byte, payload: seq<byte>, at: nat)
    requires |payload| == |r.payload| && (typ != r.typ || payload != r.payload)
    requires if payload == r.payload then at == 0
             else
               typ == r.typ && at >= 5 &&
               forall i | 0 <= i < |payload| && payload[i] != r.payload[i] :: at <= i + 5 < at + 4
    ensures var c, c' := Covered(r), Covered(Record(typ, payload));
            c != c' && |c| == |c'| && forall i | 0 <= i < |c| && c[i] != c'[i] :: at <= i < at + 4
  {
    hide BigEndian.Put;
    var c, c' := Covered(r), Covered(Record(typ, payload));
    assert c[5..] == r.payload && c'[5..] == payload && c[0] == r.typ && c'[0] == typ;
    forall i | 0 <= i < |c| && c[i] != c'[i] ensures at <= i < at + 4 {
      if i >= 5 {
        assert c[5..][i - 5] != c'[5..][i - 5];
      }
    }
  }

  /** Such damage is always noticed, whatever follows the record. */
  lemma DamageRejected(r: Record, typ: byte, payload: seq<byte>, crc: seq<byte>, at: nat, tail: seq<byte>)
    requires ValidRecord(r) && ConfinedDamage(r, typ, payload, crc, at)
    requires Damaged(typ, payload, crc) != EncodeRecord(r)
    ensures ParseRecord(Damaged(typ, payload, crc) + tail).None?
  {
    hide BigEndian.Put, BigEndian.Get, ChecksumIEEE, ParseRecord;
    BigEndian.Get32Bound(crc);
    BigEndian.PutGet(crc);
    ParseFields(typ, payload, BigEndian.Get(crc), tail);
    var c, c' := Covered(r), Covered(Record(typ, payload));
    if typ == r.typ && payload == r.payload {
      BigEndian.GetPut32(ChecksumIEEE(c));
    } else {
      BigEndian.GetPut32(ChecksumIEEE(c));
      CoveredDiffers(r, typ, payload, if payload == r.payload then 0 else at + 5);
      FourBytesDetected(c, c', if payload == r.payload then 0 else at + 5);
    }
  }
}
