/** Whole runs of the append-only store: any sequence of adds, checkpoints, crashes at any byte of the
    log and reopenings (internal/store/store.go:66-194). */
module StoreRuns {
  import opened Bits
  import opened Results
  import opened Bloom
  import opened Records
  import opened StoreLog
  import Codec
  import Framing

  /** A crash keeps the file header and the first `cut` bytes of the log. */
  datatype Op = AddItem(item: Item) | WriteCheckpoint | CrashAndOpen(cut: nat)

  // ---------------------------------------------------------------- runs over bytes

  /** The file and the filter in memory. */
  datatype Session = Session(disk: seq<byte>, mem: Filter)

  function AddRecord(x: Item): Record {
    Record(ADD, x)
  }

  function CheckpointRecord(f: Filter): Record {
    Record(CHECKPOINT, Codec.Marshalled(f))
  }

  function CutFile(disk: seq<byte>, cut: nat): (d: seq<byte>)
    ensures |d| <= |disk| && (|disk| >= HEADER_SIZE ==> |d| >= HEADER_SIZE)
  {
    if HEADER_SIZE + cut < |disk| then disk[..HEADER_SIZE + cut] else disk
  }

  /** One operation; nothing when Open does not return a usable store. */
  function Step(s: Session, op: Op): Option<Session> {
    match op
    case AddItem(x) => Some(Session(s.disk + EncodeRecord(AddRecord(x)), Insert(s.mem, x)))
    case WriteCheckpoint => Some(Session(s.disk + EncodeRecord(CheckpointRecord(s.mem)), s.mem))
    case CrashAndOpen(cut) =>
      match OpenFile(CutFile(s.disk, cut))
      case Opened(kept, Holding(f)) => Some(Session(kept, f))
      case _ => None
  }

  /** Create followed by `ops`. */
  function Run(m: nat, k: nat, ops: seq<Op>): Option<Session> {
    if |ops| == 0 then Some(Session(Header(m), Empty(m, k)))
    else match Run(m, k, ops[..|ops| - 1])
      case None => None
      case Some(s) => Step(s, ops[|ops| - 1])
  }

  ghost predicate ValidRun(m: nat, k: nat, ops: seq<Op>) {
    0 < m < TWO32 && 0 < k < TWO32 && forall op | op in ops && op.AddItem? :: |op.item| < TWO32
  }

  // ---------------------------------------------------------------- runs over records

  /** The records on disk, and the filter that was in memory after each number of them. */
  datatype Trace = Trace(log: seq<Record>, hist: seq<Filter>)

  function Now(t: Trace): Filter
    requires |t.hist| > 0
  {
    t.hist[|t.hist| - 1]
  }

  function Recovered(m: nat, rs: seq<Record>): Filter {
    match Recover(m, rs)
    case Holding(f) => f
    case _ => Empty(m, 7)
  }

  function StepTrace(m: nat, t: Trace, op: Op): (t': Trace)
    requires |t.hist| == |t.log| + 1
    ensures |t'.hist| == |t'.log| + 1
  {
    match op
    case AddItem(x) => Trace(t.log + [AddRecord(x)], t.hist + [Insert(Now(t), x)])
    case WriteCheckpoint => Trace(t.log + [CheckpointRecord(Now(t))], t.hist + [Now(t)])
    case CrashAndOpen(cut) =>
      var j := Framing.Whole(RecordFormat(), t.log, cut);
      Trace(t.log[..j], t.hist[..j] + [Recovered(m, t.log[..j])])
  }

  function RunTrace(m: nat, k: nat, ops: seq<Op>): (t: Trace)
    ensures |t.hist| == |t.log| + 1
  {
    if |ops| == 0 then Trace([], [Empty(m, k)])
    else StepTrace(m, RunTrace(m, k, ops[..|ops| - 1]), ops[|ops| - 1])
  }

  // ---------------------------------------------------------------- what every run keeps

  predicate HasCheckpoint(rs: seq<Record>) {
    LastCheckpoint(rs) < |rs|
  }

  /** The items of the Add records. */
  function Added(rs: seq<Record>): seq<Item> {
    if |rs| == 0 then []
    else Added(rs[..|rs| - 1]) + if rs[|rs| - 1].typ == ADD then [rs[|rs| - 1].payload] else []
  }

  /** `f` is a filter the session may hold after writing `rs`, where `fs` are the earlier ones. */
  ghost predicate Local(m: nat, rs: seq<Record>, fs: seq<Filter>, f: Filter)
    requires |fs| == |rs|
  {
    && Codec.Storable(f) && f.m == m
    && f == InsertAll(Empty(m, f.k), Added(rs))
    && (HasCheckpoint(rs) || f.k == 7 ==> RecoverInOnePass(m, rs) == Holding(f))
    && (forall i | 0 <= i < |rs| :: ValidRecord(rs[i]))
    && (forall i | 0 <= i < |rs| && rs[i].typ == CHECKPOINT ::
      Codec.Unmarshal(rs[i].payload) == Results.Ok(fs[i]) && fs[i].k == f.k)
  }

  ghost predicate Sound(m: nat, rs: seq<Record>, fs: seq<Filter>) {
    |fs| == |rs| + 1
    && Local(m, rs, fs[..|rs|], fs[|rs|])
    && (|rs| > 0 ==> Sound(m, rs[..|rs| - 1], fs[..|rs|]))
  }

  lemma AddedAppends(rs: seq<Record>, r: Record)
    ensures Added(rs + [r]) == Added(rs) + if r.typ == ADD then [r.payload] else []
  {
    assert (rs + [r])[..|rs|] == rs;
  }

  lemma HasCheckpointAppends(rs: seq<Record>, r: Record)
    ensures HasCheckpoint(rs + [r]) <==> HasCheckpoint(rs) || r.typ == CHECKPOINT
  {
    assert (rs + [r])[..|rs|] == rs;
  }

  lemma OnePassAppends(m: nat, rs: seq<Record>, r: Record)
    requires m > 0
    ensures RecoverInOnePass(m, rs).Holding?
    ensures RecoverInOnePass(m, rs + [r]) ==
            if r.typ != CHECKPOINT then Holding(Insert(RecoverInOnePass(m, rs).filter, r.payload))
            else match Codec.Unmarshal(r.payload) case Ok(f) => Holding(f) case Err(_) => RecoverInOnePass(m, rs)
  {
    hide Codec.Unmarshal, Insert;
    ReplayNeverPanics(m, Nil, rs);
    assert (rs + [r])[..|rs|] == rs;
  }

  /** Replaying additions adds their items to what replay had before. */
  lemma {:induction false} OnePassAfter(m: nat, xs: seq<Record>, ys: seq<Record>)
    requires m > 0 && forall r | r in ys :: r.typ == ADD
    ensures RecoverInOnePass(m, xs).Holding?
    ensures RecoverInOnePass(m, xs + ys) == Holding(InsertAll(RecoverInOnePass(m, xs).filter, Added(ys)))
    decreases |ys|
  {
    hide Insert, RecoverInOnePass;
    if |ys| == 0 {
      assert xs + ys == xs;
      OnePassAppends(m, xs, AddRecord([]));
    } else {
      var n := |ys| - 1;
      OnePassAfter(m, xs, ys[..n]);
      OnePassAppends(m, xs + ys[..n], ys[n]);
      assert xs + ys == xs + ys[..n] + [ys[n]];
      InsertAllStep(RecoverInOnePass(m, xs).filter, Added(ys[..n]), ys[n].payload);
    }
  }

  lemma OnlyAdds(rs: seq<Record>)
    requires !HasCheckpoint(rs) && forall r | r in rs :: ValidRecord(r)
    ensures forall r | r in rs :: r.typ == ADD
  {}

  /** Without checkpoints, replay rebuilds the filter of all added items with the default k. */
  lemma ReplayWithoutCheckpoint(m: nat, rs: seq<Record>)
    requires m > 0 && !HasCheckpoint(rs) && forall r | r in rs :: ValidRecord(r)
    ensures RecoverInOnePass(m, rs) == Holding(InsertAll(Empty(m, 7), Added(rs)))
  {
    hide Insert, InsertAll;
    OnlyAdds(rs);
    OnePassAfter(m, [], rs);
    assert [] + rs == rs;
  }

  lemma LocalAdd(m: nat, rs: seq<Record>, fs: seq<Filter>, f: Filter, x: Item)
    requires 0 < m < TWO32 && |fs| == |rs| && Local(m, rs, fs, f) && |x| < TWO32
    ensures Local(m, rs + [AddRecord(x)], fs + [f], Insert(f, x))
  {
    hide Insert, InsertAll, Codec.Unmarshal, RecoverInOnePass, HasCheckpoint, Added;
    var r := AddRecord(x);
    AddedAppends(rs, r);
    HasCheckpointAppends(rs, r);
    OnePassAppends(m, rs, r);
    InsertAllStep(Empty(m, f.k), Added(rs), x);
  }

  lemma LocalCheckpoint(m: nat, rs: seq<Record>, fs: seq<Filter>, f: Filter)
    requires 0 < m < TWO32 && |fs| == |rs| && Local(m, rs, fs, f)
    ensures Local(m, rs + [CheckpointRecord(f)], fs + [f], f)
  {
    hide Codec.Unmarshal, Codec.Marshalled, Contains, InsertAll, RecoverInOnePass, HasCheckpoint, Added;
    var r := CheckpointRecord(f);
    AddedAppends(rs, r);
    HasCheckpointAppends(rs, r);
    OnePassAppends(m, rs, r);
    Codec.UnmarshalMarshalled(f, []);
    assert Codec.Marshalled(f) + [] == Codec.Marshalled(f);
    assert Added(rs + [r]) == Added(rs);
  }

  lemma CheckpointsDecode(m: nat, rs: seq<Record>, fs: seq<Filter>, f: Filter)
    requires m > 0 && |fs| == |rs| && Local(m, rs, fs, f)
    ensures Recover(m, rs) == RecoverInOnePass(m, rs)
  {
    hide Codec.Unmarshal, Recover, RecoverInOnePass;
    TwoPassesAgree(m, rs);
  }

  /** The filter that Open recovers is one the session may hold; it is the old one exactly when a
      checkpoint covers the log or the old k was the default. */
  lemma LocalRecovered(m: nat, rs: seq<Record>, fs: seq<Filter>, f: Filter)
    requires 0 < m < TWO32 && |fs| == |rs| && Local(m, rs, fs, f)
    ensures Recover(m, rs) == Holding(Recovered(m, rs))
    ensures Local(m, rs, fs, Recovered(m, rs))
    ensures Recovered(m, rs) == f <==> HasCheckpoint(rs) || f.k == 7
  {
    hide Codec.Unmarshal, Contains, InsertAll, Recover;
    CheckpointsDecode(m, rs, fs, f);
    if !HasCheckpoint(rs) {
      ReplayWithoutCheckpoint(m, rs);
    }
  }

  /** Every logged item is present in any filter the session may hold. */
  lemma LocalContains(m: nat, rs: seq<Record>, fs: seq<Filter>, f: Filter, x: Item)
    requires |fs| == |rs| && Local(m, rs, fs, f) && x in Added(rs)
    ensures Contains(f, x)
  {
    NoFalseNegatives(Empty(m, f.k), Added(rs), x);
  }

  lemma {:induction false} SoundPrefix(m: nat, rs: seq<Record>, fs: seq<Filter>, j: nat)
    requires Sound(m, rs, fs) && j <= |rs|
    ensures Sound(m, rs[..j], fs[..j + 1])
    decreases |rs|
  {
    hide Local;
    if j == |rs| {
      assert rs[..j] == rs && fs[..j + 1] == fs;
    } else {
      SoundPrefix(m, rs[..|rs| - 1], fs[..|rs|], j);
      assert rs[..|rs| - 1][..j] == rs[..j] && fs[..|rs|][..j + 1] == fs[..j + 1];
    }
  }

  lemma SoundExtend(m: nat, rs: seq<Record>, fs: seq<Filter>, r: Record, f: Filter)
    requires Sound(m, rs, fs) && Local(m, rs + [r], fs, f)
    ensures Sound(m, rs + [r], fs + [f])
  {
    hide Local;
    assert (rs + [r])[..|rs|] == rs && (fs + [f])[..|rs| + 1] == fs;
  }

  lemma SoundReplaceLast(m: nat, rs: seq<Record>, fs: seq<Filter>, f: Filter)
    requires Sound(m, rs, fs) && Local(m, rs, fs[..|rs|], f)
    ensures Sound(m, rs, fs[..|rs|] + [f])
  {
    hide Local;
    assert (fs[..|rs|] + [f])[..|rs|] == fs[..|rs|];
  }

  lemma StepSound(m: nat, t: Trace, op: Op)
    requires 0 < m < TWO32 && Sound(m, t.log, t.hist)
    requires op.AddItem? ==> |op.item| < TWO32
    ensures Sound(m, StepTrace(m, t, op).log, StepTrace(m, t, op).hist)
  {
    hide Local, Recovered, Framing.Whole, Insert;
    var n := |t.log|;
    assert t.hist[..n] + [t.hist[n]] == t.hist;
    match op
    case AddItem(x) =>
      LocalAdd(m, t.log, t.hist[..n], t.hist[n], x);
      SoundExtend(m, t.log, t.hist, AddRecord(x), Insert(t.hist[n], x));
    case WriteCheckpoint =>
      LocalCheckpoint(m, t.log, t.hist[..n], t.hist[n]);
      SoundExtend(m, t.log, t.hist, CheckpointRecord(t.hist[n]), t.hist[n]);
    case CrashAndOpen(cut) =>
      var j := Framing.Whole(RecordFormat(), t.log, cut);
      SoundPrefix(m, t.log, t.hist, j);
      LocalRecovered(m, t.log[..j], t.hist[..j + 1][..j], t.hist[j]);
      SoundReplaceLast(m, t.log[..j], t.hist[..j + 1], Recovered(m, t.log[..j]));
      assert t.hist[..j + 1][..j] == t.hist[..j];
  }

  lemma EmptyIsLocal(m: nat, k: nat)
    requires 0 < m < TWO32 && 0 < k < TWO32
    ensures Sound(m, [], [Empty(m, k)])
  {}

  /** Every reachable trace is sound. */
  lemma {:induction false} RunSound(m: nat, k: nat, ops: seq<Op>)
    requires ValidRun(m, k, ops)
    ensures Sound(m, RunTrace(m, k, ops).log, RunTrace(m, k, ops).hist)
    decreases |ops|
  {
    hide StepTrace, Sound, Empty;
    if |ops| == 0 {
      EmptyIsLocal(m, k);
    } else {
      var n := |ops| - 1;
      RunSound(m, k, ops[..n]);
      StepSound(m, RunTrace(m, k, ops[..n]), ops[n]);
    }
  }

  // ---------------------------------------------------------------- files and traces agree

  lemma RecoverHolds(m: nat, rs: seq<Record>)
    requires m > 0
    ensures Recover(m, rs) == Holding(Recovered(m, rs))
  {
    ReplayNeverPanics(m, Nil, rs[ReplayStart(rs)..]);
  }

  lemma OpenWritten(m: nat, log: seq<byte>)
    requires 0 < m < TWO32
    ensures OpenFile(Header(m) + log) ==
            Opened(Header(m) + log[..LogEnd(log)], Holding(Recovered(m, RecordsOf(log))))
  {
    hide Codec.U32At, Recover, RecordsOf, Header;
    var d := Header(m) + log;
    HeaderFields(m, log);
    RecoverHolds(m, RecordsOf(log));
    assert d[..HEADER_SIZE + LogEnd(log)] == Header(m) + log[..LogEnd(log)];
  }

  ghost predicate LogValid(rs: seq<Record>) {
    Framing.AllValid(RecordFormat(), rs)
  }

  lemma {:induction false} SoundIsValid(m: nat, rs: seq<Record>, fs: seq<Filter>)
    requires Sound(m, rs, fs)
    ensures LogValid(rs)
  {}

  lemma {:induction false} WholeBeyondEnd(rs: seq<Record>, cut: nat)
    ensures var n := |LogOf(rs)|;
            Framing.Whole(RecordFormat(), rs, cut) == Framing.Whole(RecordFormat(), rs, if cut < n then cut else n)
    decreases |rs|
  {
    hide EncodeRecord;
    if |rs| == 0 {
    } else if cut >= |EncodeRecord(rs[0])| {
      WholeBeyondEnd(rs[1..], cut - |EncodeRecord(rs[0])|);
    }
  }

  lemma LogPrefix(rs: seq<Record>, j: nat)
    requires j <= |rs|
    ensures LogOf(rs[..j]) <= LogOf(rs)
  {
    hide EncodeRecord, Framing.EncodeAll;
    Framing.EncodeAllAppends(RecordFormat(), rs[..j], rs[j..]);
    assert rs == rs[..j] + rs[j..];
  }

  /** Opening a written file after a cut: the records read are those wholly before the cut, the file is
      truncated to the end of the last of them, and the filter is their replay. */
  lemma OpenAfterCut(m: nat, rs: seq<Record>, cut: nat)
    requires 0 < m < TWO32 && LogValid(rs)
    ensures var j := Framing.Whole(RecordFormat(), rs, cut);
            var d := CutFile(Header(m) + LogOf(rs), cut);
            RecordsOf(d[HEADER_SIZE..]) == rs[..j] &&
            OpenFile(d) == Opened(Header(m) + LogOf(rs[..j]), Holding(Recovered(m, rs[..j])))
  {
    hide Framing.Lawful, OpenFile, Recovered, Header, RecordFormat;
    RecordsLawful();
    var fmt, log := RecordFormat(), LogOf(rs);
    var c := if cut < |log| then cut else |log|;
    var j := Framing.Whole(fmt, rs, cut);
    WholeBeyondEnd(rs, cut);
    Framing.CutFrames(fmt, rs, c);
    assert CutFile(Header(m) + log, cut) == Header(m) + log[..c];
    assert (Header(m) + log[..c])[HEADER_SIZE..] == log[..c];
    OpenWritten(m, log[..c]);
    LogPrefix(rs, j);
  }

  lemma RecordsOfLog(rs: seq<Record>)
    requires LogValid(rs)
    ensures RecordsOf(LogOf(rs)) == rs && LogEnd(LogOf(rs)) == |LogOf(rs)|
  {
    hide Framing.Lawful, EncodeRecord, ParseRecord;
    RecordsLawful();
    Framing.FramesOfEncoded(RecordFormat(), rs, []);
    Framing.NothingToRead(RecordFormat());
    assert LogOf(rs) + [] == LogOf(rs) && rs + [] == rs;
  }

  lemma LogAppends(rs: seq<Record>, r: Record)
    ensures LogOf(rs + [r]) == LogOf(rs) + EncodeRecord(r)
  {
    hide EncodeRecord;
    Framing.EncodeAllAppends(RecordFormat(), rs, [r]);
    Framing.EncodeOne(RecordFormat(), r);
  }

  lemma EmptyLog(m: nat)
    ensures Header(m) + LogOf([]) == Header(m)
  {}

  /** The bytes of a run: no run ever fails to reopen, its file is the header and its log, and the
      filter in memory is the last of its history. */
  lemma {:induction false} RunMatchesTrace(m: nat, k: nat, ops: seq<Op>)
    requires ValidRun(m, k, ops)
    ensures var t := RunTrace(m, k, ops);
            Run(m, k, ops) == Some(Session(Header(m) + LogOf(t.log), Now(t)))
    decreases |ops|
  {
    hide Header, LogOf, EncodeRecord, OpenFile, Recovered, CutFile, Framing.Whole, Insert, Sound, AddRecord,
         CheckpointRecord;
    if |ops| == 0 {
      EmptyLog(m);
    } else {
      var n := |ops| - 1;
      var t, op := RunTrace(m, k, ops[..n]), ops[n];
      RunMatchesTrace(m, k, ops[..n]);
      RunSound(m, k, ops[..n]);
      SoundIsValid(m, t.log, t.hist);
      match op
      case AddItem(x) =>
        var r := AddRecord(x);
        LogAppends(t.log, r);
        assert Header(m) + LogOf(t.log) + EncodeRecord(r) == Header(m) + (LogOf(t.log) + EncodeRecord(r));
      case WriteCheckpoint =>
        var r := CheckpointRecord(Now(t));
        LogAppends(t.log, r);
        assert Header(m) + LogOf(t.log) + EncodeRecord(r) == Header(m) + (LogOf(t.log) + EncodeRecord(r));
      case CrashAndOpen(cut) =>
        OpenAfterCut(m, t.log, cut);
    }
  }
}
