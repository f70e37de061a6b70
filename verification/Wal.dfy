/** The write-ahead log object (internal/store/wal.go:21-140, 187-205). */
module Wal {
  import opened Bits
  import opened Results
  import opened WalEntries
  import opened WalRuns
  import opened Crc32
  import BigEndian
  import Codec
  import Framing
  import S = Store

  /** encodeWALEntry, filling its buffer in place. */
  method EncodeInto(e: Entry) returns (buf: array<byte>)
    ensures fresh(buf) && buf[..] == EncodeEntry(e)
  {
    hide ChecksumIEEE, BigEndian.Put;
    var total := 13 + |e.payload| + 4;
    buf := new byte[total](_ => 0);
    Codec.Copy(buf, 0, BigEndian.Put(e.seqNo, 8));
    buf[8] := e.typ;
    assert buf[..9] == BigEndian.Put(e.seqNo, 8) + [e.typ];
    Codec.PutUint32(buf, 9, |e.payload|);
    assert buf[..13] == BigEndian.Put(e.seqNo, 8) + [e.typ] + BigEndian.Put(|e.payload|, 4);
    Codec.Copy(buf, 13, e.payload);
    assert buf[..total - 4] == Covered(e);
    var checksum := ChecksumIEEE(buf[..total - 4]);
    Codec.PutUint32(buf, total - 4, checksum);
  }

  /** One turn of a reading loop that has read `done` up to byte `pos`. */
  lemma ReadOne(data: seq<byte>, pos: nat, done: seq<Entry>)
    requires pos <= |data| && Entries(data) == done + Entries(data[pos..])
    ensures match DecodeEntry(data[pos..])
            case None => Entries(data) == done
            case Some((e, n)) => 0 < n <= |data| - pos && Entries(data) == done + [e] + Entries(data[pos + n..])
  {
    hide DecodeEntry, EncodeEntry;
    if DecodeEntry(data[pos..]).Some? {
      EncodeDecoded(data[pos..]);
      var (e, n) := DecodeEntry(data[pos..]).value;
      assert data[pos..][n..] == data[pos + n..];
      assert done + ([e] + Entries(data[pos + n..])) == done + [e] + Entries(data[pos + n..]);
    } else {
      assert done + [] == done;
    }
  }

  method ReadAll(file: S.Disk) returns (entries: seq<Entry>)
    ensures entries == Entries(file.data)
  {
    hide DecodeEntry, Entries;
    var data := file.data;
    entries := [];
    var pos := 0;
    assert data[0..] == data;
    while true
      invariant pos <= |data| && Entries(data) == entries + Entries(data[pos..])
      decreases |data| - pos
    {
      ReadOne(data, pos, entries);
      var decoded := DecodeEntry(data[pos..]);
      if decoded.None? {
        break;
      }
      var (entry, n) := decoded.value;
      entries := entries + [entry];
      pos := pos + n;
    }
  }

  /** The largest sequence number in the file. */
  method ReplaySeq(file: S.Disk) returns (maxSeq: nat)
    ensures maxSeq == MaxSeq(Entries(file.data))
  {
    hide DecodeEntry, Entries, MaxSeq;
    var data := file.data;
    maxSeq := 0;
    var pos := 0;
    ghost var done: seq<Entry> := [];
    MaxSeqOfNothing();
    assert data[0..] == data;
    while true
      invariant pos <= |data| && Entries(data) == done + Entries(data[pos..])
      invariant maxSeq == MaxSeq(done)
      decreases |data| - pos
    {
      ReadOne(data, pos, done);
      var decoded := DecodeEntry(data[pos..]);
      if decoded.None? {
        break;
      }
      var (entry, n) := decoded.value;
      MaxSeqAppends(done, entry);
      if entry.seqNo > maxSeq {
        maxSeq := entry.seqNo;
      }
      done := done + [entry];
      pos := pos + n;
    }
  }

  class WAL {
    const file: S.Disk
    const cap: nat
    var seqNo: nat
    var buf: seq<Entry>
    var flushed: nat

    ghost function Now(): State
      reads this, file
    {
      State(file.data, seqNo, buf, cap, flushed)
    }

    /** OpenWAL. */
    constructor (file: S.Disk, bufferSize: int)
      ensures this.file == file && Now() == Opened(file.data, bufferSize)
    {
      this.file := file;
      this.cap := if bufferSize <= 0 then 32 else bufferSize;
      this.buf, this.flushed := [], 0;
      new;
      var last := ReplaySeq(file);
      seqNo := last;
    }

    method Append(typ: byte, payload: seq<byte>)
      modifies this, file
      ensures Now() == Appended(old(Now()), Message(typ, payload))
    {
      seqNo := (seqNo + 1) % TWO64;
      var entry := Entry(seqNo, typ, payload);
      buf := buf + [entry];
      if |buf| >= cap {
        FlushLocked();
      }
    }

    method FlushLocked()
      modifies this, file
      ensures Now() == Flushed(old(Now()))
    {
      hide EncodeEntry;
      ghost var start := file.data;
      assert start + Encoded([]) == start;
      for i := 0 to |buf|
        invariant buf == old(buf) && seqNo == old(seqNo)
        invariant file.data == start + Encoded(buf[..i])
      {
        var data := EncodeInto(buf[i]);
        file.data := file.data + data[..];
        Framing.EncodeAllAppends(EntryFormat(), buf[..i], [buf[i]]);
        Framing.EncodeOne(EntryFormat(), buf[i]);
        assert buf[..i + 1] == buf[..i] + [buf[i]];
        assert start + Encoded(buf[..i]) + EncodeEntry(buf[i]) == start + (Encoded(buf[..i]) + EncodeEntry(buf[i]));
      }
      assert buf[..|buf|] == buf;
      flushed := seqNo;
      buf := [];
    }
  }
}
