/** Whole runs of the write-ahead log (internal/store/wal.go:41-140, 187-205). */
module WalRuns {
  import opened Bits
  import opened Results
  import opened WalEntries
  import BigEndian
  import Codec
  import Crc32
  import Framing

  /** The file, the last sequence number, the unflushed entries, the buffer's capacity, and the last
      sequence number flushed in this session. */
  datatype State = State(disk: seq<byte>, seqNo: nat, buf: seq<Entry>, cap: nat, flushed: nat)

  /** What the caller hands to Append. */
  datatype Message = Message(typ: byte, payload: seq<byte>)

  datatype Op = Append(msg: Message) | Flush | Reopen(bufferSize: int)

  function Encoded(es: seq<Entry>): seq<byte> {
    Framing.EncodeAll(EntryFormat(), es)
  }

  /** ReadAll as a function of the file. */
  function Entries(disk: seq<byte>): seq<Entry> {
    Framing.Frames(EntryFormat(), disk)
  }

  /** The file ends with its last entry: there is no torn tail. */
  predicate Clean(disk: seq<byte>) {
    Framing.Consumed(EntryFormat(), disk) == |disk|
  }

  function MaxSeq(es: seq<Entry>): nat {
    if |es| == 0 then 0
    else
      var before, last := MaxSeq(es[..|es| - 1]), es[|es| - 1].seqNo;
      if last > before then last else before
  }

  lemma MaxSeqOfNothing()
    ensures MaxSeq([]) == 0
  {}

  /** The largest sequence number, or 0 when there is none. */
  lemma {:induction false} MaxSeqIsLargest(es: seq<Entry>)
    ensures forall e | e in es :: e.seqNo <= MaxSeq(es)
    ensures MaxSeq(es) == 0 || exists e :: e in es && e.seqNo == MaxSeq(es)
    decreases |es|
  {
    if |es| == 0 {
    } else {
      var n := |es| - 1;
      MaxSeqIsLargest(es[..n]);
      assert es == es[..n] + [es[n]];
      assert es[n] in es;
    }
  }

  lemma MaxSeqAppends(es: seq<Entry>, e: Entry)
    ensures MaxSeq(es + [e]) == if e.seqNo > MaxSeq(es) then e.seqNo else MaxSeq(es)
  {
    assert (es + [e])[..|es|] == es;
  }

  function Capacity(bufferSize: int): (n: nat)
    ensures n > 0
  {
    if bufferSize <= 0 then 32 else bufferSize
  }

  /** OpenWAL: the file is left as it is, even when its tail is torn. */
  function Opened(disk: seq<byte>, bufferSize: int): State {
    State(disk, MaxSeq(Entries(disk)), [], Capacity(bufferSize), 0)
  }

  function Flushed(s: State): State {
    State(s.disk + Encoded(s.buf), s.seqNo, [], s.cap, s.seqNo)
  }

  function Appended(s: State, msg: Message): State {
    var n := (s.seqNo + 1) % TWO64;
    var s' := s.(seqNo := n, buf := s.buf + [Entry(n, msg.typ, msg.payload)]);
    if |s'.buf| >= s.cap then Flushed(s') else s'
  }

  function Step(s: State, op: Op): State {
    match op
    case Append(msg) => Appended(s, msg)
    case Flush => Flushed(s)
    case Reopen(size) => Opened(Flushed(s).disk, size)
  }

  /** OpenWAL on `disk`, then `ops`; Reopen is Close followed by OpenWAL. */
  function Run(disk: seq<byte>, bufferSize: int, ops: seq<Op>): State {
    if |ops| == 0 then Opened(disk, bufferSize)
    else Step(Run(disk, bufferSize, ops[..|ops| - 1]), ops[|ops| - 1])
  }

  function Messages(ops: seq<Op>): seq<Message> {
    if |ops| == 0 then []
    else Messages(ops[..|ops| - 1]) + match ops[|ops| - 1] { case Append(m) => [m] case _ => [] }
  }

  /** The messages with consecutive sequence numbers after `base`. */
  function Numbered(base: nat, msgs: seq<Message>): (es: seq<Entry>)
    ensures |es| == |msgs|
    ensures forall i | 0 <= i < |msgs| :: es[i] == Entry(base + i + 1, msgs[i].typ, msgs[i].payload)
  {
    seq(|msgs|, i requires 0 <= i < |msgs| => Entry(base + i + 1, msgs[i].typ, msgs[i].payload))
  }

  // ---------------------------------------------------------------- what every run keeps

  /** `s` was reached from a clean file holding `prior` by appending `msgs`. */
  ghost predicate Reached(s: State, prior: seq<Entry>, msgs: seq<Message>) {
    var base := MaxSeq(prior);
    && Clean(s.disk)
    && Entries(s.disk) + s.buf == prior + Numbered(base, msgs)
    && s.seqNo == base + |msgs|
    && |s.buf| < s.cap
  }

  lemma {:induction false} MaxSeqNumbered(es: seq<Entry>, msgs: seq<Message>)
    ensures MaxSeq(es + Numbered(MaxSeq(es), msgs)) == MaxSeq(es) + |msgs|
    decreases |msgs|
  {
    var base := MaxSeq(es);
    if |msgs| == 0 {
      assert es + Numbered(base, msgs) == es;
    } else {
      var n := |msgs| - 1;
      MaxSeqNumbered(es, msgs[..n]);
      assert (es + Numbered(base, msgs))[..|es| + n] == es + Numbered(base, msgs[..n]);
    }
  }

  lemma NumberedAppends(base: nat, msgs: seq<Message>, msg: Message)
    ensures Numbered(base, msgs + [msg]) == Numbered(base, msgs) + [Entry(base + |msgs| + 1, msg.typ, msg.payload)]
  {}

  /** Writing valid entries behind a clean file: they are read after the old ones. */
  lemma ReadAfterWrite(disk: seq<byte>, es: seq<Entry>)
    requires Clean(disk) && forall e | e in es :: ValidEntry(e)
    ensures Clean(disk + Encoded(es)) && Entries(disk + Encoded(es)) == Entries(disk) + es
  {
    hide EncodeEntry, DecodeEntry, ValidEntry, Framing.Lawful;
    EntriesLawful();
    var fmt := EntryFormat();
    Framing.EncodeFrames(fmt, disk);
    assert disk[..|disk|] == disk;
    Framing.EncodeAllAppends(fmt, Entries(disk), es);
    Framing.FramesOfEncoded(fmt, Entries(disk) + es, []);
    Framing.NothingToRead(fmt);
    assert Encoded(Entries(disk) + es) + [] == disk + Encoded(es);
    assert Entries(disk) + es + [] == Entries(disk) + es;
  }

  lemma BufValid(s: State, prior: seq<Entry>, msgs: seq<Message>)
    requires Reached(s, prior, msgs) && MaxSeq(prior) + |msgs| < TWO64
    requires forall m | m in msgs :: |m.payload| < TWO32
    requires forall e | e in prior :: ValidEntry(e)
    ensures forall e | e in s.buf :: ValidEntry(e)
  {
    var all := prior + Numbered(MaxSeq(prior), msgs);
    forall e | e in s.buf ensures ValidEntry(e) {
      var i :| 0 <= i < |s.buf| && s.buf[i] == e;
      assert e == all[|Entries(s.disk)| + i];
      if |Entries(s.disk)| + i < |prior| {
        assert e in prior;
      } else {
        assert msgs[|Entries(s.disk)| + i - |prior|] in msgs;
      }
    }
  }

  lemma FlushReaches(s: State, prior: seq<Entry>, msgs: seq<Message>)
    requires Clean(s.disk) && s.cap > 0 && s.seqNo == MaxSeq(prior) + |msgs|
    requires Entries(s.disk) + s.buf == prior + Numbered(MaxSeq(prior), msgs)
    requires forall e | e in s.buf :: ValidEntry(e)
    ensures Reached(Flushed(s), prior, msgs)
  {
    hide Encoded, Entries, Clean, MaxSeq;
    ReadAfterWrite(s.disk, s.buf);
    assert Entries(Flushed(s).disk) + [] == Entries(Flushed(s).disk);
  }

  lemma StepReaches(s: State, prior: seq<Entry>, msgs: seq<Message>, op: Op)
    requires Reached(s, prior, msgs)
    requires forall e | e in prior :: ValidEntry(e)
    requires forall m | m in msgs :: |m.payload| < TWO32
    requires op.Append? ==> |op.msg.payload| < TWO32
    requires MaxSeq(prior) + |msgs| + (if op.Append? then 1 else 0) < TWO64
    ensures Reached(Step(s, op), prior, msgs + if op.Append? then [op.msg] else [])
  {
    hide Encoded, Entries, Clean, MaxSeq, Numbered;
    BufValid(s, prior, msgs);
    match op
    case Append(msg) =>
      var base := MaxSeq(prior);
      var e := Entry(s.seqNo + 1, msg.typ, msg.payload);
      NumberedAppends(base, msgs, msg);
      var s' := s.(seqNo := s.seqNo + 1, buf := s.buf + [e]);
      assert Entries(s.disk) + (s.buf + [e]) == Entries(s.disk) + s.buf + [e];
      assert prior + (Numbered(base, msgs) + [e]) == prior + Numbered(base, msgs) + [e];
      if |s'.buf| >= s.cap {
        FlushReaches(s', prior, msgs + [msg]);
      }
    case Flush =>
      FlushReaches(s, prior, msgs);
      assert msgs + [] == msgs;
    case Reopen(size) =>
      FlushReaches(s, prior, msgs);
      MaxSeqNumbered(prior, msgs);
      assert msgs + [] == msgs;
      assert Entries(Flushed(s).disk) + [] == Entries(Flushed(s).disk);
  }

  lemma {:induction false} MessagesValid(ops: seq<Op>)
    requires forall op | op in ops && op.Append? :: |op.msg.payload| < TWO32
    ensures forall m | m in Messages(ops) :: |m.payload| < TWO32
  {
    if |ops| == 0 {
    } else {
      var n := |ops| - 1;
      MessagesValid(ops[..n]);
      assert ops[n] in ops;
    }
  }

  lemma {:induction false} RunReached(disk: seq<byte>, bufferSize: int, ops: seq<Op>)
    requires Clean(disk)
    requires forall op | op in ops && op.Append? :: |op.msg.payload| < TWO32
    requires MaxSeq(Entries(disk)) + |Messages(ops)| < TWO64
    requires forall e | e in Entries(disk) :: ValidEntry(e)
    ensures Reached(Run(disk, bufferSize, ops), Entries(disk), Messages(ops))
    decreases |ops|
  {
    hide Encoded, Entries, Clean, MaxSeq, Step;
    if |ops| == 0 {
      assert Entries(disk) + [] == Entries(disk) + Numbered(MaxSeq(Entries(disk)), []);
    } else {
      var n := |ops| - 1;
      assert ops[n] in ops;
      MessagesValid(ops[..n]);
      RunReached(disk, bufferSize, ops[..n]);
      StepReaches(Run(disk, bufferSize, ops[..n]), Entries(disk), Messages(ops[..n]), ops[n]);
      assert Messages(ops[..n]) + [] == Messages(ops[..n]);
    }
  }

  lemma EntriesValid(disk: seq<byte>)
    ensures forall e | e in Entries(disk) :: ValidEntry(e)
  {
    hide Framing.Lawful;
    EntriesLawful();
    Framing.EncodeFrames(EntryFormat(), disk);
  }

  /** For a log opened on a cleanly ended file and any run of Append, Flush and Close-and-reopen, the
      entries on disk followed by the buffer are the old entries and then all appended messages in order
      with consecutive sequence numbers; the file stays clean, and fewer than the capacity are pending.
      Reopening therefore resumes the numbering. */
  lemma RunIsConsecutive(disk: seq<byte>, bufferSize: int, ops: seq<Op>)
    requires Clean(disk)
    requires forall op | op in ops && op.Append? :: |op.msg.payload| < TWO32
    requires MaxSeq(Entries(disk)) + |Messages(ops)| < TWO64
    ensures var s := Run(disk, bufferSize, ops);
            var base := MaxSeq(Entries(disk));
            && Entries(s.disk) + s.buf == Entries(disk) + Numbered(base, Messages(ops))
            && s.seqNo == base + |Messages(ops)| && Clean(s.disk) && |s.buf| < s.cap
  {
    hide Run, Encoded, Entries, Clean, MaxSeq, Framing.Lawful, EntryFormat;
    EntriesLawful();
    EntriesValid(disk);
    RunReached(disk, bufferSize, ops);
  }

  /** Cutting a clean file at any byte, ReadAll returns exactly the entries wholly before the cut. */
  lemma CutReadsPrefix(disk: seq<byte>, c: nat)
    requires Clean(disk) && c <= |disk|
    ensures var es := Entries(disk);
            Entries(disk[..c]) == es[..Framing.Whole(EntryFormat(), es, c)]
  {
    hide Framing.Lawful, EncodeEntry, DecodeEntry;
    EntriesLawful();
    Framing.EncodeFrames(EntryFormat(), disk);
    assert disk[..|disk|] == disk;
    Framing.CutFrames(EntryFormat(), Entries(disk), c);
  }

  lemma EncodedEntries(disk: seq<byte>)
    ensures Encoded(Entries(disk)) == disk[..Framing.Consumed(EntryFormat(), disk)]
  {
    hide Framing.Lawful;
    EntriesLawful();
    Framing.EncodeFrames(EntryFormat(), disk);
  }

  /** Entries written behind a file are read back after its old ones, with nothing left over, exactly when
      the file ended cleanly. */
  lemma WrittenIsReadIff(disk: seq<byte>, es: seq<Entry>)
    requires forall e | e in es :: ValidEntry(e)
    ensures Clean(disk) <==> Clean(disk + Encoded(es)) && Entries(disk + Encoded(es)) == Entries(disk) + es
  {
    hide EncodeEntry, DecodeEntry, ValidEntry, Framing.Lawful, Entries;
    var log := disk + Encoded(es);
    if Clean(disk) {
      ReadAfterWrite(disk, es);
    } else {
      EncodedEntries(disk);
      EncodedEntries(log);
      Framing.EncodeAllAppends(EntryFormat(), Entries(disk), es);
    }
  }

  // ---------------------------------------------------------------- runs on any file

  /** The entry that `op` appends, if any. */
  function NewEntries(s: State, op: Op): seq<Entry> {
    match op
    case Append(m) => [Entry((s.seqNo + 1) % TWO64, m.typ, m.payload)]
    case _ => []
  }

  /** The entries a run appends, with the numbers it gives them. */
  function AppendedEntries(disk: seq<byte>, bufferSize: int, ops: seq<Op>): seq<Entry> {
    if |ops| == 0 then []
    else
      var n := |ops| - 1;
      AppendedEntries(disk, bufferSize, ops[..n]) + NewEntries(Run(disk, bufferSize, ops[..n]), ops[n])
  }

  lemma EncodedAppends(es: seq<Entry>, fs: seq<Entry>)
    ensures Encoded(es + fs) == Encoded(es) + Encoded(fs) && Encoded([]) == []
  {
    Framing.EncodeAllAppends(EntryFormat(), es, fs);
  }

  /** One operation moves bytes from the buffer to the file and adds at most the appended entry. */
  lemma StepAppends(s: State, op: Op)
    requires |s.buf| < s.cap
    ensures var t := Step(s, op);
            t.disk + Encoded(t.buf) == s.disk + Encoded(s.buf) + Encoded(NewEntries(s, op)) && |t.buf| < t.cap
  {
    hide Encoded, Entries, MaxSeq;
    EncodedAppends(s.buf, []);
    var added := NewEntries(s, op);
    EncodedAppends(s.buf, added);
    assert s.disk + (Encoded(s.buf) + Encoded(added)) == s.disk + Encoded(s.buf) + Encoded(added);
  }

  /** Whatever the file holds at first, a run only appends to it: the file followed by the encoded buffer is
      the old file followed by the encodings of the appended entries, in order. Fewer entries than the
      capacity are ever pending. */
  lemma {:induction false} RunAppends(disk: seq<byte>, bufferSize: int, ops: seq<Op>)
    ensures var s := Run(disk, bufferSize, ops);
            s.disk + Encoded(s.buf) == disk + Encoded(AppendedEntries(disk, bufferSize, ops)) && |s.buf| < s.cap
    decreases |ops|
  {
    hide Encoded, Entries, MaxSeq, Step;
    EncodedAppends([], []);
    if |ops| == 0 {
    } else {
      var n := |ops| - 1;
      var s, es := Run(disk, bufferSize, ops[..n]), AppendedEntries(disk, bufferSize, ops[..n]);
      var added := NewEntries(s, ops[n]);
      RunAppends(disk, bufferSize, ops[..n]);
      StepAppends(s, ops[n]);
      EncodedAppends(es, added);
      assert disk + (Encoded(es) + Encoded(added)) == disk + Encoded(es) + Encoded(added);
    }
  }

  predicate OnlyAppends(ops: seq<Op>) {
    forall op | op in ops :: op.Append?
  }

  lemma NextRemainder(n: nat, size: nat)
    requires size > 0
    ensures n % size <= n && (n + 1) % size == if n % size + 1 < size then n % size + 1 else 0
  {
    var q, r := n / size, n % size;
    assert n == size * q + r && size * q >= 0;
    if r + 1 < size {
      ModUnique(n + 1, size, q, r + 1);
    } else {
      assert size * (q + 1) == size * q + size;
      ModUnique(n + 1, size, q + 1, 0);
    }
  }

  /** The full groups of `size` entries of `es` are in the file behind `disk`, and the rest is pending. */
  ghost predicate Grouped(s: State, disk: seq<byte>, es: seq<Entry>, size: nat)
    requires size > 0
  {
    var n := |es|;
    var written := n - n % size;
    && 0 <= written && s.cap == size
    && s.disk == disk + Encoded(es[..written]) && s.buf == es[written..]
    && s.flushed == (if written == 0 then 0 else es[written - 1].seqNo)
    && (n > 0 ==> s.seqNo == es[n - 1].seqNo)
  }

  lemma SplitAppend(es: seq<Entry>, e: Entry, written: nat)
    requires written <= |es|
    ensures (es + [e])[..written] == es[..written] && (es + [e])[written..] == es[written..] + [e]
    ensures es[..written] + (es[written..] + [e]) == es + [e]
    ensures (es + [e])[..|es| + 1] == es + [e] && (es + [e])[|es| + 1..] == []
  {}

  lemma AppendKeepsGrouped(s: State, disk: seq<byte>, es: seq<Entry>, size: nat, msg: Message)
    requires size > 0 && Grouped(s, disk, es, size)
    ensures Grouped(Appended(s, msg), disk, es + NewEntries(s, Append(msg)), size)
  {
    hide Encoded;
    var e := NewEntries(s, Append(msg))[0];
    var written := |es| - |es| % size;
    NextRemainder(|es|, size);
    SplitAppend(es, e, written);
    EncodedAppends(es[..written], es[written..] + [e]);
    assert disk + Encoded(es[..written]) + Encoded(es[written..] + [e]) ==
           disk + (Encoded(es[..written]) + Encoded(es[written..] + [e]));
  }

  lemma OpenedGrouped(disk: seq<byte>, bufferSize: int)
    ensures Grouped(Opened(disk, bufferSize), disk, [], if bufferSize <= 0 then 32 else bufferSize)
  {
    hide Entries, MaxSeq;
    EncodedAppends([], []);
    ModUnique(0, if bufferSize <= 0 then 32 else bufferSize, 0, 0);
    assert disk + [] == disk;
  }

  lemma {:induction false} RunGrouped(disk: seq<byte>, bufferSize: int, ops: seq<Op>)
    requires OnlyAppends(ops)
    ensures var es := AppendedEntries(disk, bufferSize, ops);
            |es| == |ops| && Grouped(Run(disk, bufferSize, ops), disk, es, if bufferSize <= 0 then 32 else bufferSize)
    decreases |ops|
  {
    hide Encoded, Entries, MaxSeq, Appended, Grouped;
    if |ops| == 0 {
      OpenedGrouped(disk, bufferSize);
    } else {
      var n := |ops| - 1;
      RunGrouped(disk, bufferSize, ops[..n]);
      assert ops[n].Append?;
      AppendKeepsGrouped(Run(disk, bufferSize, ops[..n]), disk, AppendedEntries(disk, bufferSize, ops[..n]),
                         if bufferSize <= 0 then 32 else bufferSize, ops[n].msg);
    }
  }

  /** Appends alone reach the file only in groups of the buffer size, which is 32 when none is given: after `n`
      of them the first `n - n % size` are in the file, the others are pending, and the last number flushed is
      that of the last entry in the file. */
  lemma AppendsFillBuffer(disk: seq<byte>, bufferSize: int, ops: seq<Op>)
    requires OnlyAppends(ops)
    ensures var s, es := Run(disk, bufferSize, ops), AppendedEntries(disk, bufferSize, ops);
            var n, size := |ops|, if bufferSize <= 0 then 32 else bufferSize;
            var written := n - n % size;
            && |es| == n && 0 <= written && s.disk == disk + Encoded(es[..written]) && s.buf == es[written..]
            && s.flushed == (if written == 0 then 0 else es[written - 1].seqNo)
  {
    hide Run, AppendedEntries, Encoded;
    RunGrouped(disk, bufferSize, ops);
  }

  /** A Flush after any run leaves nothing pending: the file is the old one and all appended entries. */
  lemma FlushWritesAll(disk: seq<byte>, bufferSize: int, ops: seq<Op>)
    ensures var s := Run(disk, bufferSize, ops + [Flush]);
            s.buf == [] && s.disk == disk + Encoded(AppendedEntries(disk, bufferSize, ops)) && s.flushed == s.seqNo
  {
    hide Encoded, Entries, MaxSeq;
    RunAppends(disk, bufferSize, ops);
    assert (ops + [Flush])[..|ops|] == ops;
  }

  ghost predicate SameContents(es: seq<Entry>, msgs: seq<Message>) {
    |es| == |msgs| && forall i | 0 <= i < |es| :: es[i].typ == msgs[i].typ && es[i].payload == msgs[i].payload
  }

  lemma {:induction false} AppendedMessages(disk: seq<byte>, bufferSize: int, ops: seq<Op>)
    ensures SameContents(AppendedEntries(disk, bufferSize, ops), Messages(ops))
    decreases |ops|
  {
    hide Run;
    if |ops| == 0 {
    } else {
      AppendedMessages(disk, bufferSize, ops[..|ops| - 1]);
    }
  }

  lemma {:induction false} SameSize(es: seq<Entry>, fs: seq<Entry>)
    requires |es| == |fs| && forall i | 0 <= i < |es| :: |es[i].payload| == |fs[i].payload|
    ensures |Encoded(es)| == |Encoded(fs)|
    decreases |es|
  {
    hide EncodeEntry;
    if |es| == 0 {
    } else {
      SameSize(es[1..], fs[1..]);
    }
  }

  /** A run reads back as the old entries followed by all appended ones, consecutively numbered and with
      nothing left over, exactly when the log was opened on a file that ended cleanly. */
  lemma RunReadsBackIff(disk: seq<byte>, bufferSize: int, ops: seq<Op>)
    requires forall op | op in ops && op.Append? :: |op.msg.payload| < TWO32
    requires MaxSeq(Entries(disk)) + |Messages(ops)| < TWO64
    ensures var s := Run(disk, bufferSize, ops);
            Clean(disk) <==>
            Clean(s.disk) && Entries(s.disk) + s.buf == Entries(disk) + Numbered(MaxSeq(Entries(disk)), Messages(ops))
  {
    hide Run, Encoded, Entries, MaxSeq, Framing.Lawful, EntryFormat, Messages, AppendedEntries;
    var s, appended := Run(disk, bufferSize, ops), Numbered(MaxSeq(Entries(disk)), Messages(ops));
    if Clean(disk) {
      RunIsConsecutive(disk, bufferSize, ops);
    } else if Clean(s.disk) && Entries(s.disk) + s.buf == Entries(disk) + appended {
      RunAppends(disk, bufferSize, ops);
      AppendedMessages(disk, bufferSize, ops);
      SameSize(AppendedEntries(disk, bufferSize, ops), appended);
      EncodedEntries(s.disk);
      EncodedEntries(disk);
      EncodedAppends(Entries(s.disk), s.buf);
      EncodedAppends(Entries(disk), appended);
    }
  }

  /** An entry damaged in four consecutive bytes outside its length field, or in its checksum field, ends
      reading: exactly the entries before it are read, whatever follows it. */
  lemma DamageEndsReading(before: seq<Entry>, e: Entry, d: Entry, crc: seq<byte>, at: nat, tail: seq<byte>)
    requires (forall b | b in before :: ValidEntry(b)) && ValidEntry(e) && ValidEntry(d) &&
             ConfinedDamage(e, d, crc, at)
    requires Covered(d) + crc != EncodeEntry(e)
    ensures Entries(Encoded(before) + (Covered(d) + crc + tail)) == before
  {
    hide Framing.Lawful, ConfinedDamage, Covered, EncodeEntry, DecodeEntry;
    EntriesLawful();
    DamageRejected(e, d, crc, at, tail);
    Framing.FramesOfEncoded(EntryFormat(), before, Covered(d) + crc + tail);
    assert before + [] == before;
  }

  // ---------------------------------------------------------------- a torn tail

  lemma TooShort(d: seq<byte>)
    requires |d| < 17
    ensures DecodeEntry(d).None?
  {}

  lemma RunOne(disk: seq<byte>, bufferSize: int, op: Op)
    ensures Run(disk, bufferSize, [op]) == Step(Opened(disk, bufferSize), op)
  {
    hide Step;
    assert [op][..0] == [];
  }

  lemma BigFirstByte(d: seq<byte>, at: nat)
    requires at + 4 <= |d|
    ensures Codec.U32At(d, at) >= 0x100_0000 * Val(d[at])
  {
    hide Val;
    var s := d[at..at + 4];
    assert s[..3][..2] == s[..2] && s[..2][..1] == s[..1] && s[..1][..0] == [];
    assert BigEndian.Get(s[..1]) == Val(d[at]);
    assert BigEndian.Get(s[..2]) >= 256 * BigEndian.Get(s[..1]);
    assert BigEndian.Get(s[..3]) >= 256 * BigEndian.Get(s[..2]);
  }

  lemma {:induction false} ReadsZero(off: nat, n: nat)
    ensures ReadBits([0], off, n) == 0
    decreases n
  {
    if n == 0 {
    } else {
      ReadsZero(off + 1, n - 1);
    }
  }

  lemma ValZero()
    ensures Val(0) == 0
  {
    ReadsZero(0, 8);
  }

  /** Read one byte late, the type byte of the entry is taken for the top byte of its length. */
  lemma ShiftedUnreadable(e: Entry)
    requires e.payload == [] && e.typ != 0
    ensures DecodeEntry([0] + EncodeEntry(e)).None?
  {
    hide BigEndian.Get, BigEndian.Put, Crc32.ChecksumIEEE, Val, Codec.U32At;
    var d := [0] + EncodeEntry(e);
    assert d[9] == e.typ;
    BigFirstByte(d, 9);
    ValZero();
    if Val(e.typ) == 0 {
      ValInjective(e.typ, 0);
    }
  }

  /** OpenWAL does not cut a torn tail off, and what is appended behind one can be lost: on a file of one
      stray zero byte, an appended and flushed entry of non-zero type without payload is not read back. */
  lemma TornTailHidesEntries(typ: byte)
    requires typ != 0
    ensures var s := Run([0], 1, [Append(Message(typ, []))]);
            s.buf == [] && !Clean([0]) && Entries(s.disk) == []
  {
    hide EncodeEntry, DecodeEntry, Run;
    var e := Entry(1, typ, []);
    RunOne([0], 1, Append(Message(typ, [])));
    assert DecodeEntry([0]).None? by {
      TooShort([0]);
    }
    Framing.EncodeOne(EntryFormat(), e);
    assert [] + [e] == [e];
    assert Run([0], 1, [Append(Message(typ, []))]).disk == [0] + EncodeEntry(e);
    ShiftedUnreadable(e);
  }
}
