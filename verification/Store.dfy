/** The store object over a byte-sequence disk (internal/store/store.go:58-225). */
module Store {
  import opened Bits
  import opened Results
  import opened Bloom
  import opened Records
  import opened StoreLog
  import opened StoreRuns
  import opened Crc32
  import BigEndian
  import Codec
  import F = BloomFilter

  /** The file. */
  class Disk {
    var data: seq<byte>

    constructor ()
      ensures data == []
    {
      data := [];
    }
  }

  datatype Error = InvalidParams | ErrCorruptHeader | ErrNotStore | NilFilterPanic

  // ---------------------------------------------------------------- the loops against the specification

  /** The byte offset of the last checkpoint of a file whose log is `rs`, or -1. */
  function CheckpointOffset(rs: seq<Record>): int {
    if LastCheckpoint(rs) < |rs| then HEADER_SIZE + |LogOf(rs[..LastCheckpoint(rs)])| else -1
  }

  /** The filter variable as the specification sees it. */
  ghost function MemOf(bf: F.BloomFilter?): Mem
    reads if bf == null then {} else {bf.bits}
  {
    if bf == null then Nil else Holding(bf.Value())
  }

  lemma LogOfNothing()
    ensures LogOf([]) == []
  {}

  lemma NoMore(tail: seq<byte>)
    requires ParseRecord(tail).None?
    ensures RecordsOf(tail) == [] && LogEnd(tail) == 0
  {}

  lemma OneMore(data: seq<byte>, p: nat)
    requires p <= |data| && ParseRecord(data[p..]).Some?
    ensures var (rec, size) := ParseRecord(data[p..]).value;
            0 < size <= |data| - p && |EncodeRecord(rec)| == size && ValidRecord(rec)
            && RecordsOf(data[p..]) == [rec] + RecordsOf(data[p + size..])
            && LogEnd(data[p..]) == size + LogEnd(data[p + size..])
  {
    hide EncodeRecord, ParseRecord;
    EncodeParsed(data[p..]);
    var size := ParseRecord(data[p..]).value.1;
    assert data[p..][size..] == data[p + size..];
  }

  lemma CheckpointOffsetStep(done: seq<Record>, r: Record)
    ensures LogOf(done + [r]) == LogOf(done) + EncodeRecord(r)
    ensures CheckpointOffset(done + [r]) ==
            if r.typ == CHECKPOINT then HEADER_SIZE + |LogOf(done)| else CheckpointOffset(done)
  {
    hide EncodeRecord, LogOf;
    LogAppends(done, r);
    assert (done + [r])[..|done|] == done;
    var j := LastCheckpoint(done);
    if j < |done| {
      assert (done + [r])[..j] == done[..j];
    }
  }

  lemma ReplayNothing(m: nat, st: Mem)
    ensures Replay(m, st, []) == st
  {}

  lemma ReplayOneMore(m: nat, done: seq<Record>, r: Record)
    ensures Replay(m, Nil, done + [r]) == Apply(m, Replay(m, Nil, done), r)
  {
    hide Apply;
    assert (done + [r])[..|done|] == done;
  }

  lemma {:induction false} PanicIsFinal(m: nat, xs: seq<Record>, ys: seq<Record>)
    requires Replay(m, Nil, xs).Panicked?
    ensures Replay(m, Nil, xs + ys).Panicked?
    decreases |ys|
  {
    if |ys| == 0 {
      assert xs + ys == xs;
    } else {
      var n := |ys| - 1;
      PanicIsFinal(m, xs, ys[..n]);
      ReplayOneMore(m, xs + ys[..n], ys[n]);
      assert xs + ys == xs + ys[..n] + [ys[n]];
    }
  }

  /** Where the second pass starts, what it reads and where it ends. */
  lemma StartingPoint(log: seq<byte>)
    ensures var rs := RecordsOf(log);
            var at := if CheckpointOffset(rs) >= 0 then CheckpointOffset(rs) - HEADER_SIZE else 0;
            0 <= at <= |log| && RecordsOf(log[at..]) == rs[ReplayStart(rs)..] && at + LogEnd(log[at..]) == LogEnd(log)
  {
    hide EncodeRecord, LogOf, RecordsOf, LogEnd;
    var rs := RecordsOf(log);
    if LastCheckpoint(rs) < |rs| {
      EndsAgree(log, LastCheckpoint(rs));
    } else {
      assert log[0..] == log && rs[0..] == rs;
    }
  }

  // ---------------------------------------------------------------- the object

  class Store {
    const disk: Disk
    const filter: F.BloomFilter?
    const k: nat

    ghost predicate Valid() {
      filter != null && filter.Valid() && k == filter.k
    }

    /** The file and the filter in memory. */
    ghost function State(): Session
      requires Valid()
      reads disk, filter.bits
    {
      Session(disk.data, filter.Value())
    }

    constructor (disk: Disk, filter: F.BloomFilter?, k: nat)
      ensures this.disk == disk && this.filter == filter && this.k == k
    {
      this.disk, this.filter, this.k := disk, filter, k;
    }

    static method Create(disk: Disk, m: nat, k: nat) returns (r: Result<Store, Error>)
      modifies disk
      ensures m == 0 || k == 0 ==> r == Err(InvalidParams) && disk.data == old(disk.data)
      ensures m > 0 && k > 0 ==>
                r.Ok? && fresh(r.value) && r.value.disk == disk && r.value.Valid() &&
                fresh(r.value.filter) && fresh(r.value.filter.bits) && Some(r.value.State()) == Run(m, k, [])
    {
      hide BigEndian.Put, Zeros, Step;
      var bf := F.BloomFilter.New(m, k);
      if bf.Err? {
        return Err(InvalidParams);
      }
      var hdr := new byte[HEADER_SIZE](_ => 0);
      Codec.PutUint32(hdr, 0, FILE_MAGIC);
      Codec.PutUint32(hdr, 4, m);
      disk.data := hdr[..];
      assert disk.data == Header(m);
      var s := new Store(disk, bf.value, k);
      return Ok(s);
    }

    /** encodeRecord, filling its buffer in place. */
    static method EncodeInto(typ: byte, payload: seq<byte>) returns (buf: array<byte>)
      ensures fresh(buf) && buf[..] == EncodeRecord(Record(typ, payload))
    {
      hide ChecksumIEEE, BigEndian.Put;
      buf := new byte[5 + |payload| + 4](_ => 0);
      buf[0] := typ;
      Codec.PutUint32(buf, 1, |payload|);
      Codec.Copy(buf, 5, payload);
      assert buf[..5 + |payload|] == Covered(Record(typ, payload));
      var checksum := ChecksumIEEE(buf[..5 + |payload|]);
      Codec.PutUint32(buf, 5 + |payload|, checksum);
    }

    method WriteRecord(typ: byte, payload: seq<byte>)
      modifies disk
      ensures disk.data == old(disk.data) + EncodeRecord(Record(typ, payload))
    {
      var rec := EncodeInto(typ, payload);
      disk.data := disk.data + rec[..];
    }

    method Add(item: Item)
      requires Valid()
      modifies disk, filter.bits
      ensures Some(State()) == Step(old(State()), AddItem(item))
    {
      hide Insert, EncodeRecord;
      filter.Add(item);
      WriteRecord(ADD, item);
    }

    method Test(item: Item) returns (present: bool)
      requires Valid()
      ensures present == Contains(State().mem, item)
    {
      present := filter.Test(item);
    }

    method Checkpoint()
      requires Valid()
      modifies disk
      ensures Some(State()) == Step(old(State()), WriteCheckpoint)
    {
      hide Codec.Marshalled, EncodeRecord;
      var data := Codec.Marshal(filter);
      WriteRecord(CHECKPOINT, data[..]);
    }

    // -------------------------------------------------------------- Open

    /** The first pass: where the last parseable checkpoint starts, or -1. */
    static method FindLastCheckpoint(data: seq<byte>) returns (lastCheckpoint: int)
      requires |data| >= HEADER_SIZE
      ensures lastCheckpoint == CheckpointOffset(RecordsOf(data[HEADER_SIZE..]))
    {
      hide EncodeRecord, ParseRecord, LogOf, LastCheckpoint;
      var p := HEADER_SIZE;
      lastCheckpoint := -1;
      ghost var done: seq<Record> := [];
      LogOfNothing();
      while true
        invariant HEADER_SIZE <= p <= |data| && p == HEADER_SIZE + |LogOf(done)|
        invariant RecordsOf(data[HEADER_SIZE..]) == done + RecordsOf(data[p..])
        invariant lastCheckpoint == CheckpointOffset(done)
        decreases |data| - p
      {
        var parsed := ParseRecord(data[p..]);
        if parsed.None? {
          NoMore(data[p..]);
          break;
        }
        var (rec, size) := parsed.value;
        OneMore(data, p);
        CheckpointOffsetStep(done, rec);
        if rec.typ == CHECKPOINT {
          lastCheckpoint := p;
        }
        p := p + size;
        assert done + ([rec] + RecordsOf(data[p..])) == done + [rec] + RecordsOf(data[p..]);
        done := done + [rec];
      }
      assert done + [] == done;
    }

    /** The second pass, from byte `start`. */
    static method ReplayFrom(data: seq<byte>, start: nat, m: nat)
      returns (bf: F.BloomFilter?, k: nat, pos: nat, panicked: bool)
      requires start <= |data|
      ensures bf != null ==> fresh(bf) && fresh(bf.bits) && bf.Valid() && k == bf.k
      ensures Replay(m, Nil, RecordsOf(data[start..])).Panicked? <==> panicked
      ensures !panicked ==>
                MemOf(bf) == Replay(m, Nil, RecordsOf(data[start..])) && pos == start + LogEnd(data[start..])
    {
      hide EncodeRecord, ParseRecord, LogEnd, RecordsOf, Replay, Insert, Codec.Unmarshal;
      bf, k, pos, panicked := null, 0, start, false;
      ghost var done: seq<Record> := [];
      ReplayNothing(m, Nil);
      while true
        invariant start <= pos <= |data|
        invariant RecordsOf(data[start..]) == done + RecordsOf(data[pos..])
        invariant start + LogEnd(data[start..]) == pos + LogEnd(data[pos..])
        invariant bf != null ==> fresh(bf) && fresh(bf.bits) && bf.Valid() && k == bf.k
        invariant MemOf(bf) == Replay(m, Nil, done)
        decreases |data| - pos
      {
        var parsed := ParseRecord(data[pos..]);
        if parsed.None? {
          NoMore(data[pos..]);
          break;
        }
        var (rec, size) := parsed.value;
        OneMore(data, pos);
        ReplayOneMore(m, done, rec);
        if rec.typ == CHECKPOINT {
          var restored := Codec.Decode(rec.payload);
          if restored.Ok? {
            bf, k := restored.value, restored.value.k;
          }
        } else {
          if bf == null {
            var made := F.BloomFilter.New(m, 7);
            if made.Err? {
              PanicIsFinal(m, done + [rec], RecordsOf(data[pos + size..]));
              assert done + ([rec] + RecordsOf(data[pos + size..])) == done + [rec] + RecordsOf(data[pos + size..]);
              panicked := true;
              return;
            }
            bf, k := made.value, 7;
          }
          bf.Add(rec.payload);
        }
        pos := pos + size;
        assert done + ([rec] + RecordsOf(data[pos..])) == done + [rec] + RecordsOf(data[pos..]);
        done := done + [rec];
      }
      assert done + [] == done;
      if m > 0 {
        ReplayNeverPanics(m, Nil, done);
      }
    }

    static method Open(disk: Disk) returns (r: Result<Store, Error>)
      modifies disk
      ensures match OpenFile(old(disk.data))
              case CorruptHeader => r == Err(ErrCorruptHeader) && disk.data == old(disk.data)
              case NotStore => r == Err(ErrNotStore) && disk.data == old(disk.data)
              case Panic => r == Err(NilFilterPanic) && disk.data == old(disk.data)
              case Opened(kept, mem) =>
                r.Ok? && fresh(r.value) && r.value.disk == disk && disk.data == kept && MemOf(r.value.filter) == mem
                && (r.value.filter != null ==> fresh(r.value.filter) && fresh(r.value.filter.bits) && r.value.Valid())
    {
      hide Codec.U32At, EncodeRecord, LogOf, RecordsOf, LogEnd, Replay, LastCheckpoint;
      var data := disk.data;
      if |data| < HEADER_SIZE {
        return Err(ErrCorruptHeader);
      }
      if Codec.U32At(data, 0) != FILE_MAGIC {
        return Err(ErrNotStore);
      }
      var m := Codec.U32At(data, 4);
      var pos := HEADER_SIZE;
      var lastCheckpoint := FindLastCheckpoint(data);
      if lastCheckpoint >= 0 {
        pos := lastCheckpoint;
      }
      StartingPoint(data[HEADER_SIZE..]);
      assert data[HEADER_SIZE..][pos - HEADER_SIZE..] == data[pos..];
      var bf, k, end, panicked := ReplayFrom(data, pos, m);
      if panicked {
        return Err(NilFilterPanic);
      }
      if bf == null {
        var made := F.BloomFilter.New(m, 7);
        if made.Ok? {
          bf := made.value;
        }
        k := 7;
      }
      disk.data := data[..end];
      var s := new Store(disk, bf, k);
      return Ok(s);
    }
  }
}
