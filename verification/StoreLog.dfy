/** The append-only store at the level of whole files and whole runs (internal/store/store.go:66-194):
    what replay computes, what a crash leaves, and what checkpoints may change. */
module StoreLog {
  import opened Bits
  import opened Results
  import opened Bloom
  import opened Records
  import BigEndian
  import Codec
  import Framing

  const FILE_MAGIC: nat := 0x424C_5301
  const HEADER_SIZE: nat := 8
  /** The k that replay assumes when no checkpoint says otherwise. */
  const DEFAULT_K: nat := 7

  // ---------------------------------------------------------------- replay

  /** The filter variable of Open: nil, a filter, or the panic of adding to a nil filter. */
  datatype Mem = Nil | Holding(filter: Filter) | Panicked

  /** The filter is created on first use, with the default k; it stays nil when m is 0. */
  function OrNew(m: nat, st: Mem): Mem {
    if st.Nil? && m > 0 then Holding(Empty(m, DEFAULT_K)) else st
  }

  /** One turn of the replay loop. */
  function Apply(m: nat, st: Mem, r: Record): Mem {
    if st.Panicked? then st
    else if r.typ == CHECKPOINT then
      match Codec.Unmarshal(r.payload)
      case Ok(f) => Holding(f)
      case Err(_) => st
    else
      match OrNew(m, st)
      case Holding(f) => Holding(Insert(f, r.payload))
      case _ => Panicked
  }

  function Replay(m: nat, st: Mem, rs: seq<Record>): Mem {
    if |rs| == 0 then st else Apply(m, Replay(m, st, rs[..|rs| - 1]), rs[|rs| - 1])
  }

  /** The index of the last checkpoint record, or |rs|. */
  function LastCheckpoint(rs: seq<Record>): (j: nat)
    ensures j <= |rs|
    ensures j < |rs| ==> rs[j].typ == CHECKPOINT
    ensures forall i | 0 <= i < |rs| && rs[i].typ == CHECKPOINT :: i <= j < |rs|
  {
    if |rs| == 0 then 0
    else if rs[|rs| - 1].typ == CHECKPOINT then |rs| - 1
    else
      var j := LastCheckpoint(rs[..|rs| - 1]);
      if j == |rs| - 1 then |rs| else j
  }

  function ReplayStart(rs: seq<Record>): (j: nat)
    ensures j <= |rs|
  {
    if LastCheckpoint(rs) < |rs| then LastCheckpoint(rs) else 0
  }

  /** Open's two passes: find the last checkpoint, then replay from it. */
  function Recover(m: nat, rs: seq<Record>): Mem {
    OrNew(m, Replay(m, Nil, rs[ReplayStart(rs)..]))
  }

  /** A single pass over all records. */
  function RecoverInOnePass(m: nat, rs: seq<Record>): Mem {
    OrNew(m, Replay(m, Nil, rs))
  }

  // ---------------------------------------------------------------- files

  function Header(m: nat): (h: seq<byte>)
    ensures |h| == HEADER_SIZE
  {
    BigEndian.Put(FILE_MAGIC, 4) + BigEndian.Put(m, 4)
  }

  function LogOf(rs: seq<Record>): seq<byte> {
    Framing.EncodeAll(RecordFormat(), rs)
  }

  function RecordsOf(log: seq<byte>): seq<Record> {
    Framing.Frames(RecordFormat(), log)
  }

  function LogEnd(log: seq<byte>): (n: nat)
    ensures n <= |log|
  {
    Framing.Consumed(RecordFormat(), log)
  }

  datatype Outcome = Opened(kept: seq<byte>, mem: Mem) | CorruptHeader | NotStore | Panic

  /** Open as a function of the file: what it keeps of the file and the filter it ends with. */
  function OpenFile(data: seq<byte>): Outcome {
    if |data| < HEADER_SIZE then CorruptHeader
    else if Codec.U32At(data, 0) != FILE_MAGIC then NotStore
    else
      var m, log := Codec.U32At(data, 4), data[HEADER_SIZE..];
      var mem := Recover(m, RecordsOf(log));
      if mem.Panicked? then Panic else Opened(data[..HEADER_SIZE + LogEnd(log)], mem)
  }

  lemma HeaderFields(m: nat, log: seq<byte>)
    requires m < TWO32
    ensures var d := Header(m) + log;
            Codec.U32At(d, 0) == FILE_MAGIC && Codec.U32At(d, 4) == m && d[HEADER_SIZE..] == log
  {
    hide BigEndian.Put, BigEndian.Get, Codec.U32At;
    var d := Header(m) + log;
    assert d[0..4] == BigEndian.Put(FILE_MAGIC, 4) && d[4..8] == BigEndian.Put(m, 4);
    Codec.U32AtPut(d, 0, FILE_MAGIC);
    Codec.U32AtPut(d, 4, m);
  }

  /** The bytes of a file header: "BLS", 1, and m most significant byte first. */
  lemma HeaderBytes(m: nat)
    ensures Header(m)[..4] == [0x42, 0x4C, 0x53, 0x01] && BigEndian.Holds32(Header(m), 4, m)
  {
    hide BigEndian.Put, BigEndian.Get, BigEndian.Holds32, Codec.U32At;
    assert Header(m)[0..4] == BigEndian.Put(FILE_MAGIC, 4) && Header(m)[4..8] == BigEndian.Put(m, 4);
    BigEndian.Holds32At(Header(m), 4, m);
    Codec.U32AtPut(Header(m), 0, FILE_MAGIC);
    Codec.U32AtIs(Header(m), 0, [0x42, 0x4C, 0x53, 0x01]);
  }

  // ---------------------------------------------------------------- one pass or two

  lemma {:induction false} ReplayAppends(m: nat, st: Mem, xs: seq<Record>, ys: seq<Record>)
    ensures Replay(m, st, xs + ys) == Replay(m, Replay(m, st, xs), ys)
    decreases |ys|
  {
    hide Apply;
    if |ys| == 0 {
      assert xs + ys == xs;
    } else {
      var n := |ys| - 1;
      ReplayAppends(m, st, xs, ys[..n]);
      assert (xs + ys)[..|xs| + n] == xs + ys[..n];
    }
  }

  lemma {:induction false} ReplayNeverPanics(m: nat, st: Mem, rs: seq<Record>)
    requires m > 0 && !st.Panicked?
    ensures !Replay(m, st, rs).Panicked?
  {
    if |rs| == 0 {
    } else {
      ReplayNeverPanics(m, st, rs[..|rs| - 1]);
    }
  }

  /** The checkpoint replay starts from decodes, if there is one. */
  predicate StartDecodes(rs: seq<Record>) {
    LastCheckpoint(rs) < |rs| ==> Codec.Unmarshal(rs[LastCheckpoint(rs)].payload).Ok?
  }

  lemma ReplayOne(m: nat, st: Mem, r: Record)
    ensures Replay(m, st, [r]) == Apply(m, st, r)
  {
    assert [r][..0] == [];
  }

  /** Starting at the last checkpoint gives what a single pass over the whole log gives. */
  lemma TwoPassesAgree(m: nat, rs: seq<Record>)
    requires m > 0 && StartDecodes(rs)
    ensures Recover(m, rs) == RecoverInOnePass(m, rs)
  {
    hide Replay, Insert, Codec.Unmarshal;
    var j := LastCheckpoint(rs);
    if j < |rs| {
      var f := Codec.Unmarshal(rs[j].payload).value;
      ReplayNeverPanics(m, Nil, rs[..j]);
      ReplayAppends(m, Nil, rs[..j], rs[j..]);
      assert rs == rs[..j] + rs[j..];
      assert rs[j..] == [rs[j]] + rs[j + 1..];
      ReplayAppends(m, Nil, [rs[j]], rs[j + 1..]);
      ReplayAppends(m, Replay(m, Nil, rs[..j]), [rs[j]], rs[j + 1..]);
      ReplayOne(m, Nil, rs[j]);
      ReplayOne(m, Replay(m, Nil, rs[..j]), rs[j]);
    } else {
      assert rs[0..] == rs;
    }
  }

  /** The two passes end at the same byte, wherever the second one starts. */
  lemma EndsAgree(log: seq<byte>, j: nat)
    requires j <= |RecordsOf(log)|
    ensures var start := |LogOf(RecordsOf(log)[..j])|;
            start <= |log| && RecordsOf(log[start..]) == RecordsOf(log)[j..] &&
            start + LogEnd(log[start..]) == LogEnd(log)
  {
    RecordsLawful();
    Framing.FramesFromMiddle(RecordFormat(), log, j);
  }
}
