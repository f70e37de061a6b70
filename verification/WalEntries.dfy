/** Entries of the write-ahead log and their reader (internal/store/wal.go:143-185). */
module WalEntries {
  import opened Bits
  import opened Results
  import opened Crc32
  import BigEndian
  import Codec
  import Framing

  datatype Entry = Entry(seqNo: nat, typ: byte, payload: seq<byte>)

  predicate ValidEntry(e: Entry) {
    e.seqNo < TWO64 && |e.payload| < TWO32
  }

  function Covered(e: Entry): (s: seq<byte>)
    ensures |s| == 13 + |e.payload|
  {
    BigEndian.Put(e.seqNo, 8) + [e.typ] + BigEndian.Put(|e.payload|, 4) + e.payload
  }

  function EncodeEntry(e: Entry): (s: seq<byte>)
    ensures |s| == 17 + |e.payload|
  {
    Covered(e) + BigEndian.Put(ChecksumIEEE(Covered(e)), 4)
  }

  function DecodeEntry(data: seq<byte>): Option<(Entry, nat)>
  {
    if |data| < 17 then None
    else
      var pLen := Codec.U32At(data, 9);
      var total := 13 + pLen + 4;
      if |data| < total then None
      else if Codec.U32At(data, total - 4) != ChecksumIEEE(data[..13 + pLen]) then None
      else Some((Entry(BigEndian.Get(data[0..8]), data[8], data[13..13 + pLen]), total))
  }

  lemma Layout(sn: seq<byte>, typ: byte, len: seq<byte>, payload: seq<byte>, crc: seq<byte>, tail: seq<byte>)
    requires |sn| == 8 && |len| == |crc| == 4
    ensures var d := sn + [typ] + len + payload + crc + tail;
            var end := 13 + |payload|;
            d[0..8] == sn && d[8] == typ && d[9..13] == len && d[13..end] == payload && d[end..end + 4] == crc
            && d[..end] == sn + [typ] + len + payload
  {}

  /** How an entry with the given fields, checksum field included, is read. */
  lemma DecodeFields(e: Entry, crc: nat, tail: seq<byte>)
    requires ValidEntry(e) && crc < TWO32
    ensures DecodeEntry(Covered(e) + BigEndian.Put(crc, 4) + tail) ==
            if crc == ChecksumIEEE(Covered(e)) then Some((e, 17 + |e.payload|)) else None
  {
    hide BigEndian.Put, BigEndian.Get, Codec.U32At, ChecksumIEEE;
    var d := Covered(e) + BigEndian.Put(crc, 4) + tail;
    Layout(BigEndian.Put(e.seqNo, 8), e.typ, BigEndian.Put(|e.payload|, 4), e.payload, BigEndian.Put(crc, 4), tail);
    Codec.U32AtPut(d, 9, |e.payload|);
    Codec.U32AtPut(d, 13 + |e.payload|, crc);
    BigEndian.Widths();
    BigEndian.GetPutExact(e.seqNo, 8);
  }

  lemma DecodeEncoded(e: Entry, tail: seq<byte>)
    requires ValidEntry(e)
    ensures DecodeEntry(EncodeEntry(e) + tail) == Some((e, |EncodeEntry(e)|))
  {
    hide DecodeEntry, BigEndian.Put, ChecksumIEEE, Covered;
    DecodeFields(e, ChecksumIEEE(Covered(e)), tail);
  }

  lemma Join(d: seq<byte>, end: nat)
    requires 13 <= end <= |d| - 4
    ensures d[..end + 4] == d[0..8] + [d[8]] + d[9..13] + d[13..end] + d[end..end + 4]
    ensures d[..end] == d[0..8] + [d[8]] + d[9..13] + d[13..end]
  {}

  lemma EncodeDecoded(data: seq<byte>)
    requires DecodeEntry(data).Some?
    ensures var (e, n) := DecodeEntry(data).value;
            ValidEntry(e) && 0 < n <= |data| && EncodeEntry(e) == data[..n]
  {
    hide BigEndian.Put, BigEndian.Get, Codec.U32At, ChecksumIEEE;
    var pLen := Codec.U32At(data, 9);
    BigEndian.Widths();
    BigEndian.GetBound(data[0..8]);
    BigEndian.PutGet(data[0..8]);
    Codec.PutU32At(data, 9);
    Codec.PutU32At(data, 13 + pLen);
    Join(data, 13 + pLen);
  }

  /** The bytes of an entry: sequence number, type, length, payload, and the checksum of all of these, with
      every number most significant byte first. */
  lemma EntryBytes(e: Entry)
    ensures var b, n := EncodeEntry(e), |e.payload|;
            && |b| == n + 17 && BigEndian.Holds64(b, 0, e.seqNo) && b[8] == e.typ && BigEndian.Holds32(b, 9, n)
            && b[13..13 + n] == e.payload && BigEndian.Holds32(b, 13 + n, ChecksumIEEE(b[..13 + n]))
  {
    hide BigEndian.Put, BigEndian.Holds32, ChecksumIEEE;
    var b, sum := EncodeEntry(e), ChecksumIEEE(Covered(e));
    var sn := BigEndian.Put(e.seqNo, 8);
    Layout(sn, e.typ, BigEndian.Put(|e.payload|, 4), e.payload, BigEndian.Put(sum, 4), []);
    assert b + [] == b;
    BigEndian.Holds32At(b, 9, |e.payload|);
    BigEndian.Holds32At(b, 13 + |e.payload|, sum);
    BigEndian.Holds64At(b, 0, e.seqNo);
  }

  function EntryFormat(): Framing.Format<Entry> {
    Framing.Format(EncodeEntry, DecodeEntry, ValidEntry)
  }

  lemma EntriesLawful()
    ensures Framing.Lawful(EntryFormat())
  {
    hide DecodeEntry, EncodeEntry, ValidEntry;
    forall e, tail | ValidEntry(e)
      ensures DecodeEntry(EncodeEntry(e) + tail) == Some((e, |EncodeEntry(e)|))
    {
      DecodeEncoded(e, tail);
    }
    forall b | DecodeEntry(b).Some?
      ensures Framing.ReadsBack(EntryFormat(), b, DecodeEntry(b).value.0, DecodeEntry(b).value.1)
    {
      EncodeDecoded(b);
    }
  }

  // ---------------------------------------------------------------- corruption

  /** The entry `e` was damaged into one with the fields of `d` and checksum field `crc`: the length field is
      intact, and the damage is confined to four consecutive bytes or to the checksum field. */
  ghost predicate ConfinedDamage(e: Entry, d: Entry, crc: seq<byte>, at: nat) {
    |d.payload| == |e.payload| && |crc| == 4 &&
    (|| d == e
     || (crc == BigEndian.Put(ChecksumIEEE(Covered(e)), 4)
         && forall i | 0 <= i < |Covered(e)| && Covered(d)[i] != Covered(e)[i] :: at <= i < at + 4))
  }

  /** Such damage is always noticed, whatever follows the entry. */
  lemma DamageRejected(e: Entry, d: Entry, crc: seq<byte>, at: nat, tail: seq<byte>)
    requires ValidEntry(e) && ValidEntry(d) && ConfinedDamage(e, d, crc, at)
    requires Covered(d) + crc != EncodeEntry(e)
    ensures DecodeEntry(Covered(d) + crc + tail).None?
  {
    hide BigEndian.Put, BigEndian.Get, ChecksumIEEE, DecodeEntry, Covered;
    BigEndian.Get32Bound(crc);
    BigEndian.PutGet(crc);
    DecodeFields(d, BigEndian.Get(crc), tail);
    BigEndian.GetPut32(ChecksumIEEE(Covered(e)));
    if crc == BigEndian.Put(ChecksumIEEE(Covered(e)), 4) {
      FourBytesDetected(Covered(e), Covered(d), at);
    }
  }
}
