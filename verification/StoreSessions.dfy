/** Sessions of the store on any file that Open accepts, however it was damaged
    (internal/store/store.go:91-225). */
module StoreSessions {
  import opened Bits
  import opened Results
  import opened Bloom
  import opened Records
  import opened StoreLog
  import opened StoreRuns
  import opened StoreTheorems
  import Codec
  import Framing

  /** Reopening now would keep every byte and give back the filter in memory. */
  ghost predicate Synced(s: Session) {
    OpenFile(s.disk) == Opened(s.disk, Holding(s.mem))
  }

  /** The m field of the header. */
  function HeaderM(disk: seq<byte>): nat {
    if |disk| < HEADER_SIZE then 0 else Codec.U32At(disk, 4)
  }

  /** The operations `ops`, starting from a session that is already open. */
  function RunFrom(s: Session, ops: seq<Op>): Option<Session> {
    if |ops| == 0 then Some(s)
    else match RunFrom(s, ops[..|ops| - 1])
      case None => None
      case Some(t) => Step(t, ops[|ops| - 1])
  }

  // ---------------------------------------------------------------- recovery of one more record

  lemma RecoverAdd(m: nat, rs: seq<Record>, x: Item)
    requires Recover(m, rs).Holding?
    ensures Recover(m, rs + [AddRecord(x)]) == Holding(Insert(Recover(m, rs).filter, x))
  {
    hide Insert, Codec.Unmarshal, Replay;
    var r, start := AddRecord(x), ReplayStart(rs);
    assert (rs + [r])[..|rs|] == rs;
    assert (rs + [r])[start..] == rs[start..] + [r];
    ReplayAppends(m, Nil, rs[start..], [r]);
    ReplayOne(m, Replay(m, Nil, rs[start..]), r);
  }

  lemma RecoverCheckpoint(m: nat, rs: seq<Record>, f: Filter)
    requires Codec.Storable(f)
    ensures Recover(m, rs + [CheckpointRecord(f)]) == Holding(f)
  {
    hide Codec.Unmarshal, Codec.Marshalled, Replay;
    var r := CheckpointRecord(f);
    assert (rs + [r])[|rs|..] == [r];
    ReplayOne(m, Nil, r);
    Codec.UnmarshalMarshalled(f, []);
    assert Codec.Marshalled(f) + [] == Codec.Marshalled(f);
  }

  lemma {:induction false} ReplayStorable(m: nat, rs: seq<Record>)
    requires m < TWO32 && Replay(m, Nil, rs).Holding?
    ensures Codec.Storable(Replay(m, Nil, rs).filter)
    decreases |rs|
  {
    hide Insert, Codec.Unmarshal;
    if |rs| == 0 {
    } else if Replay(m, Nil, rs[..|rs| - 1]).Holding? {
      ReplayStorable(m, rs[..|rs| - 1]);
    }
  }

  lemma RecoverStorable(m: nat, rs: seq<Record>)
    requires m < TWO32 && Recover(m, rs).Holding?
    ensures Codec.Storable(Recover(m, rs).filter)
  {
    hide Replay;
    if Replay(m, Nil, rs[ReplayStart(rs)..]).Holding? {
      ReplayStorable(m, rs[ReplayStart(rs)..]);
    }
  }

  // ---------------------------------------------------------------- one more record in the file

  lemma SameHeader(data: seq<byte>, other: seq<byte>)
    requires HEADER_SIZE <= |data| && HEADER_SIZE <= |other| && data[..HEADER_SIZE] == other[..HEADER_SIZE]
    ensures Codec.U32At(other, 0) == Codec.U32At(data, 0) && Codec.U32At(other, 4) == Codec.U32At(data, 4)
  {
    hide Codec.U32At;
    assert data[0..4] == data[..HEADER_SIZE][0..4] && data[4..8] == data[..HEADER_SIZE][4..8];
    assert other[0..4] == other[..HEADER_SIZE][0..4] && other[4..8] == other[..HEADER_SIZE][4..8];
    SameField(data, other, 0);
    SameField(data, other, 4);
  }

  /** A record appended to a file that Open kept whole is one more record to recover. */
  lemma OpenAppended(data: seq<byte>, r: Record)
    requires OpenFile(data).Opened? && OpenFile(data).kept == data && ValidRecord(r)
    ensures var mem := Recover(HeaderM(data), RecordsOf(data[HEADER_SIZE..]) + [r]);
            OpenFile(data + EncodeRecord(r)) == if mem.Panicked? then Panic else Opened(data + EncodeRecord(r), mem)
  {
    hide Codec.U32At, Recover, RecordsOf, LogEnd, EncodeRecord, ValidRecord;
    var file := data + EncodeRecord(r);
    RecoveredLogIsAppendable(data, r);
    assert file[..HEADER_SIZE] == data[..HEADER_SIZE];
    SameHeader(data, file);
    assert file[..|file|] == file;
  }

  lemma NoFrames(tail: seq<byte>)
    requires ParseRecord(tail).None?
    ensures Framing.Frames(RecordFormat(), tail) == [] && Framing.Consumed(RecordFormat(), tail) == 0
  {}

  /** A record torn off while it was being written is cut off again. */
  lemma OpenTorn(data: seq<byte>, r: Record, c: nat)
    requires OpenFile(data).Opened? && OpenFile(data).kept == data && ValidRecord(r) && c < |EncodeRecord(r)|
    ensures OpenFile(data + EncodeRecord(r)[..c]) == OpenFile(data)
  {
    hide Codec.U32At, Recover, Framing.Lawful, Framing.Frames, Framing.Consumed, EncodeRecord, ParseRecord, ValidRecord;
    var fmt, log, torn := RecordFormat(), data[HEADER_SIZE..], EncodeRecord(r)[..c];
    var file := data + torn;
    RecordsLawful();
    Framing.CutFrameUnreadable(fmt, r, c);
    NoFrames(torn);
    Framing.EncodeFrames(fmt, log);
    assert log[..|log|] == log;
    Framing.FramesOfEncoded(fmt, RecordsOf(log), torn);
    assert RecordsOf(log) + [] == RecordsOf(log);
    assert file[HEADER_SIZE..] == log + torn && file[..HEADER_SIZE] == data[..HEADER_SIZE];
    SameHeader(data, file);
    assert file[..|data|] == data;
  }

  // ---------------------------------------------------------------- steps

  /** The record that an Add or a Checkpoint writes. */
  function Written(s: Session, op: Op): Record
    requires !op.CrashAndOpen?
  {
    match op
    case AddItem(x) => AddRecord(x)
    case WriteCheckpoint => CheckpointRecord(s.mem)
  }

  lemma SyncedStorable(s: Session)
    requires Synced(s)
    ensures |s.disk| >= HEADER_SIZE && Codec.Storable(s.mem)
  {
    hide Recover, RecordsOf, LogEnd;
    RecoverStorable(HeaderM(s.disk), RecordsOf(s.disk[HEADER_SIZE..]));
  }

  lemma WrittenIsValid(s: Session, op: Op)
    requires Codec.Storable(s.mem) && !op.CrashAndOpen? && (op.AddItem? ==> |op.item| < TWO32)
    ensures ValidRecord(Written(s, op))
  {}

  /** In a synced session an Add is durable and a Checkpoint changes nothing: the session stays synced. */
  lemma WriteKeepsSynced(s: Session, op: Op)
    requires Synced(s) && !op.CrashAndOpen? && (op.AddItem? ==> |op.item| < TWO32)
    ensures Step(s, op).Some? && Synced(Step(s, op).value) && HeaderM(Step(s, op).value.disk) == HeaderM(s.disk)
  {
    hide Codec.U32At, Recover, RecordsOf, LogEnd, EncodeRecord, Insert, Codec.Storable, ValidRecord, AddRecord,
         CheckpointRecord;
    var rs := RecordsOf(s.disk[HEADER_SIZE..]);
    SyncedStorable(s);
    WrittenIsValid(s, op);
    OpenAppended(s.disk, Written(s, op));
    assert (s.disk + EncodeRecord(Written(s, op)))[..HEADER_SIZE] == s.disk[..HEADER_SIZE];
    SameHeader(s.disk, s.disk + EncodeRecord(Written(s, op)));
    match op
    case AddItem(x) => RecoverAdd(HeaderM(s.disk), rs, x);
    case WriteCheckpoint => RecoverCheckpoint(HeaderM(s.disk), rs, s.mem);
  }

  /** After a crash the session is synced again; only a header with m = 0 can leave no filter. */
  lemma CrashKeepsSynced(s: Session, cut: nat)
    requires Synced(s)
    ensures match Step(s, CrashAndOpen(cut))
            case Some(t) => Synced(t) && HeaderM(t.disk) == HeaderM(s.disk)
            case None => HeaderM(s.disk) == 0
  {
    hide Codec.U32At, Recover, RecordsOf, LogEnd;
    var d := CutFile(s.disk, cut);
    assert d[..HEADER_SIZE] == s.disk[..HEADER_SIZE];
    SameHeader(s.disk, d);
    RecoveryIsIdempotent(d);
    if HeaderM(d) > 0 {
      RecoverHolds(HeaderM(d), RecordsOf(d[HEADER_SIZE..]));
    }
    if OpenFile(d).Opened? {
      var kept := OpenFile(d).kept;
      assert kept[..HEADER_SIZE] == d[..HEADER_SIZE];
      SameHeader(d, kept);
    }
  }

  // ---------------------------------------------------------------- whole sessions

  /** From any synced session, through any adds, checkpoints, crashes at any byte of the log and
      reopenings, the session stays synced: reopening at any point keeps every byte of the file and gives
      exactly the filter in memory. With a positive m in the header no reopening ever fails. */
  lemma {:induction false} SessionStaysSynced(s: Session, ops: seq<Op>)
    requires Synced(s) && forall op | op in ops && op.AddItem? :: |op.item| < TWO32
    ensures match RunFrom(s, ops)
            case Some(t) => Synced(t) && HeaderM(t.disk) == HeaderM(s.disk)
            case None => HeaderM(s.disk) == 0
    decreases |ops|
  {
    hide Synced, Step, HeaderM;
    if |ops| == 0 {
    } else {
      var n := |ops| - 1;
      SessionStaysSynced(s, ops[..n]);
      if RunFrom(s, ops[..n]).Some? {
        var t := RunFrom(s, ops[..n]).value;
        assert ops[n] in ops;
        if ops[n].CrashAndOpen? {
          CrashKeepsSynced(t, ops[n].cut);
        } else {
          WriteKeepsSynced(t, ops[n]);
        }
      }
    }
  }

  /** Whatever bytes a file holds, once Open accepts it with a filter, every later session on it stays
      synced. The k that the header does not record matters only before the first reopening. */
  lemma OpenedStaysSynced(data: seq<byte>, ops: seq<Op>)
    requires OpenFile(data).Opened? && OpenFile(data).mem.Holding?
    requires forall op | op in ops && op.AddItem? :: |op.item| < TWO32
    ensures var s := Session(OpenFile(data).kept, OpenFile(data).mem.filter);
            Synced(s) &&
            match RunFrom(s, ops)
            case Some(t) => Synced(t)
            case None => HeaderM(s.disk) == 0
  {
    hide OpenFile;
    RecoveryIsIdempotent(data);
    SessionStaysSynced(Session(OpenFile(data).kept, OpenFile(data).mem.filter), ops);
  }

  /** Every write of a synced session is atomic: a crash before its last byte gives back the session before
      it, and a crash after it the session after it. */
  lemma WriteIsAtomic(s: Session, op: Op, cut: nat)
    requires Synced(s) && !op.CrashAndOpen? && (op.AddItem? ==> |op.item| < TWO32)
    requires HEADER_SIZE + cut >= |s.disk|
    ensures Step(s, op).Some? &&
            var t := Step(s, op).value;
            Step(t, CrashAndOpen(cut)) == Some(if HEADER_SIZE + cut < |t.disk| then s else t)
  {
    hide Codec.U32At, OpenFile, EncodeRecord, Insert, Codec.Storable, ValidRecord, AddRecord, CheckpointRecord;
    WriteKeepsSynced(s, op);
    var t, e := Step(s, op).value, EncodeRecord(Written(s, op));
    SyncedStorable(s);
    WrittenIsValid(s, op);
    if HEADER_SIZE + cut < |t.disk| {
      var c := HEADER_SIZE + cut - |s.disk|;
      OpenTorn(s.disk, Written(s, op), c);
      assert CutFile(t.disk, cut) == s.disk + e[..c];
    }
  }
}
