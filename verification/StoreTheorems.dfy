/** What the store promises about crashes, checkpoints and damage (internal/store/store.go). */
module StoreTheorems {
  import opened Bits
  import opened Results
  import opened Bloom
  import opened Records
  import opened StoreLog
  import opened StoreRuns
  import Codec
  import Framing
  import Hash

  // ---------------------------------------------------------------- crashes

  /** Recovering the first `j` records gives the filter that was in memory after them exactly when one of
      them is a checkpoint or that filter had the default k. */
  lemma RecoveredIsHistory(m: nat, t: Trace, j: nat)
    requires 0 < m < TWO32 && Sound(m, t.log, t.hist) && j <= |t.log|
    ensures Recovered(m, t.log[..j]) == t.hist[j] <==> HasCheckpoint(t.log[..j]) || t.hist[j].k == 7
  {
    hide Recovered, Local;
    SoundPrefix(m, t.log, t.hist, j);
    LocalRecovered(m, t.log[..j], t.hist[..j + 1][..j], t.hist[j]);
  }

  ghost predicate AllDefault(fs: seq<Filter>) {
    forall f | f in fs :: f.k == 7
  }

  lemma StepKeepsDefault(m: nat, t: Trace, op: Op)
    requires 0 < m < TWO32 && Sound(m, t.log, t.hist) && AllDefault(t.hist)
    ensures AllDefault(StepTrace(m, t, op).hist)
  {
    hide Recovered, Framing.Whole, Local, HasCheckpoint, Insert;
    assert Now(t) in t.hist;
    if op.CrashAndOpen? {
      var j := Framing.Whole(RecordFormat(), t.log, op.cut);
      RecoveredIsHistory(m, t, j);
      assert t.hist[j] in t.hist;
    }
  }

  lemma OneDefault(f: Filter)
    requires f.k == 7
    ensures AllDefault([f])
  {}

  /** In a store created with the default k, every filter held in memory has the default k. */
  lemma {:induction false} DefaultKStays(m: nat, ops: seq<Op>)
    requires ValidRun(m, 7, ops)
    ensures AllDefault(RunTrace(m, 7, ops).hist)
    decreases |ops|
  {
    hide AllDefault, Sound, StepTrace;
    if |ops| == 0 {
      OneDefault(Empty(m, 7));
    } else {
      var n := |ops| - 1;
      DefaultKStays(m, ops[..n]);
      RunSound(m, 7, ops[..n]);
      StepKeepsDefault(m, RunTrace(m, 7, ops[..n]), ops[n]);
    }
  }

  /** Adding `xs` sets the same positions with `k` hashes as with the default number. */
  ghost predicate SamePositions(m: nat, k: nat, xs: seq<Item>) {
    forall p: nat :: Hit(xs, m, k, p) <==> Hit(xs, m, 7, p)
  }

  lemma LocalIsBuilt(m: nat, rs: seq<Record>, fs: seq<Filter>, f: Filter)
    requires |fs| == |rs| && Local(m, rs, fs, f)
    ensures f.k > 0 && f == InsertAll(Empty(m, f.k), Added(rs))
  {}

  lemma NoCheckpointDefault(m: nat, rs: seq<Record>, fs: seq<Filter>, f: Filter)
    requires 0 < m < TWO32 && |fs| == |rs| && Local(m, rs, fs, f) && !HasCheckpoint(rs)
    ensures Recovered(m, rs).k == 7
  {
    hide InsertAll;
    CheckpointsDecode(m, rs, fs, f);
    ReplayWithoutCheckpoint(m, rs);
  }

  lemma BuiltBits(m: nat, k: nat, l: nat, xs: seq<Item>)
    requires m > 0 && k > 0 && l > 0
    ensures InsertAll(Empty(m, k), xs).bits == InsertAll(Empty(m, l), xs).bits <==>
            forall p: nat :: Hit(xs, m, k, p) <==> Hit(xs, m, l, p)
  {
    hide Hit, GetBit, BytesFor;
    var a, b := InsertAll(Empty(m, k), xs).bits, InsertAll(Empty(m, l), xs).bits;
    forall p: nat
      ensures GetBit(a, p) <==> Hit(xs, m, k, p)
      ensures GetBit(b, p) <==> Hit(xs, m, l, p)
    {
      GetInsertAll(Empty(m, k), xs, p);
      GetInsertAll(Empty(m, l), xs, p);
      ZerosClear(BytesFor(m), p);
    }
    if forall p: nat :: Hit(xs, m, k, p) <==> Hit(xs, m, l, p) {
      BitsExtensional(a, b);
    }
  }

  /** The bits that recovery brings back are those of `f` exactly when a checkpoint covers the log or the
      items set the same positions with the default k. */
  lemma RecoveredBits(m: nat, rs: seq<Record>, fs: seq<Filter>, f: Filter)
    requires 0 < m < TWO32 && |fs| == |rs| && Local(m, rs, fs, f)
    ensures Recovered(m, rs).bits == f.bits <==> HasCheckpoint(rs) || SamePositions(m, f.k, Added(rs))
  {
    hide Local, Recovered, Hit;
    LocalRecovered(m, rs, fs, f);
    if !HasCheckpoint(rs) {
      LocalIsBuilt(m, rs, fs, f);
      LocalIsBuilt(m, rs, fs, Recovered(m, rs));
      NoCheckpointDefault(m, rs, fs, f);
      BuiltBits(m, f.k, 7, Added(rs));
    }
  }

  /** After any run, a crash that keeps any part of the log and a reopening give back exactly the records
      lying wholly before the cut. The recovered filter is the one (m, k and bits) that was in memory
      after those records exactly when one of them is a checkpoint or that filter had the default k; so
      always, when the store was created with the default k. Its bits are the same exactly when one of
      them is a checkpoint or their items set the same positions with the default k. */
  lemma CrashRecoversPrefix(m: nat, k: nat, ops: seq<Op>, cut: nat)
    requires ValidRun(m, k, ops)
    ensures var t := RunTrace(m, k, ops);
            var j := Framing.Whole(RecordFormat(), t.log, cut);
            Run(m, k, ops).Some? &&
            var d := CutFile(Run(m, k, ops).value.disk, cut);
            && |d| >= HEADER_SIZE && RecordsOf(d[HEADER_SIZE..]) == t.log[..j]
            && OpenFile(d) == Opened(Header(m) + LogOf(t.log[..j]), Holding(Recovered(m, t.log[..j])))
    ensures var t := RunTrace(m, k, ops);
            var j := Framing.Whole(RecordFormat(), t.log, cut);
            var f, g := t.hist[j], Recovered(m, t.log[..j]);
            && (g == f <==> HasCheckpoint(t.log[..j]) || f.k == 7)
            && (k == 7 ==> g == f)
            && (g.bits == f.bits <==> HasCheckpoint(t.log[..j]) || SamePositions(m, f.k, Added(t.log[..j])))
  {
    hide Header, LogOf, OpenFile, Recovered, Framing.Whole, Run, RunTrace, CutFile, RecordsOf, Local, SamePositions;
    var t := RunTrace(m, k, ops);
    var j := Framing.Whole(RecordFormat(), t.log, cut);
    RunMatchesTrace(m, k, ops);
    RunSound(m, k, ops);
    SoundIsValid(m, t.log, t.hist);
    OpenAfterCut(m, t.log, cut);
    RecoveredIsHistory(m, t, j);
    SoundPrefix(m, t.log, t.hist, j);
    RecoveredBits(m, t.log[..j], t.hist[..j + 1][..j], t.hist[j]);
    if k == 7 {
      DefaultKStays(m, ops);
    }
  }

  lemma OneAdd(m: nat, k: nat, x: Item)
    ensures var t, rs := RunTrace(m, k, [AddItem(x)]), [AddRecord(x)];
            t.log == rs && t.hist == [Empty(m, k), Insert(Empty(m, k), x)] && Now(t) == t.hist[1]
            && !HasCheckpoint(rs) && Added(rs) == [x]
  {
    hide Insert;
    assert [AddItem(x)][..0] == [] && [AddRecord(x)][..0] == [];
  }

  lemma Pow2Of32()
    ensures Pow2(32) == TWO32
  {
    assert Pow2(8) == 256;
    Pow2Split(8, 16);
    Pow2Split(16, 32);
  }

  lemma SizesFit(e: nat)
    requires 3 <= e < 32
    ensures 8 <= Pow2(e) < TWO32
  {
    Pow2Split(3, e);
    Pow2Split(e, 32);
    Pow2Of32();
    assert Pow2(3) == 8;
    MulAtLeast(8, Pow2(e - 3));
    assert Pow2(32 - e) == 2 * Pow2(31 - e);
    MulAtLeast(Pow2(e), Pow2(32 - e) - 1);
    assert Pow2(e) * Pow2(32 - e) == Pow2(e) * (Pow2(32 - e) - 1) + Pow2(e);
  }

  lemma MorePositions(e: nat, k: nat, x: Item)
    requires 3 <= e < 32 && 0 < k < 7 && Hash.OddBytes(x) % 2 == 0
    ensures !SamePositions(Pow2(e), k, [x])
  {
    hide Hash.OddBytes, Hash.Hash, Pow2;
    var m := Pow2(e);
    SizesFit(e);
    Hash.EvenItemsAreDistinct(x, e, 7);
    var few, all := Hash.Positions(x, m, k), Hash.Positions(x, m, 7);
    var p := all[k];
    assert p !in few by {
      forall i | 0 <= i < k ensures few[i] != p {
        assert few[i] == all[i];
      }
    }
    assert Hit([x], m, 7, p) by {
      assert x in [x] && p in all;
    }
    assert !Hit([x], m, k, p);
  }

  /** A run whose bits really differ: in a filter of 2^e >= 8 bits with fewer hashes than the default, an
      item with an even number of odd bytes sets positions after reopening that it did not set before. */
  lemma RecoveredBitsDiffer(e: nat, k: nat, x: Item)
    requires 3 <= e < 32 && 0 < k < 7 && |x| < TWO32 && Hash.OddBytes(x) % 2 == 0
    ensures Pow2(e) < TWO32 && Run(Pow2(e), k, [AddItem(x)]).Some? &&
            var s := Run(Pow2(e), k, [AddItem(x)]).value;
            match OpenFile(s.disk)
            case Opened(kept, Holding(f)) => kept == s.disk && f.bits != s.mem.bits
            case _ => false
  {
    hide Header, LogOf, OpenFile, Recovered, CutFile, EncodeRecord, RecordsOf, Insert, HasCheckpoint, Hash.OddBytes,
         Pow2, Local;
    var m, ops := Pow2(e), [AddItem(x)];
    SizesFit(e);
    var rs := [AddRecord(x)];
    OneAdd(m, k, x);
    RunMatchesTrace(m, k, ops);
    RunSound(m, k, ops);
    SoundIsValid(m, rs, RunTrace(m, k, ops).hist);
    RecordsOfLog(rs);
    OpenWritten(m, LogOf(rs));
    assert LogOf(rs)[..|LogOf(rs)|] == LogOf(rs);
    var t := RunTrace(m, k, ops);
    SoundPrefix(m, t.log, t.hist, 1);
    assert t.hist[..2][..1] == t.hist[..1];
    RecoveredBits(m, rs, t.hist[..1], t.hist[1]);
    MorePositions(e, k, x);
  }

  /** No committed item is ever lost: across any run, for every starting k, every item whose Add record
      lies wholly before the cut tests present after reopening. */
  lemma CommittedItemsSurvive(m: nat, k: nat, ops: seq<Op>, cut: nat)
    requires ValidRun(m, k, ops)
    ensures var t := RunTrace(m, k, ops);
            Run(m, k, ops).Some? &&
            match OpenFile(CutFile(Run(m, k, ops).value.disk, cut))
            case Opened(_, Holding(f)) =>
              forall x | x in Added(t.log[..Framing.Whole(RecordFormat(), t.log, cut)]) :: Contains(f, x)
            case _ => false
  {
    hide Header, LogOf, OpenFile, Recovered, Framing.Whole, Run, RunTrace, CutFile, RecordsOf, Contains, Added;
    var t := RunTrace(m, k, ops);
    var j := Framing.Whole(RecordFormat(), t.log, cut);
    CrashRecoversPrefix(m, k, ops, cut);
    RunSound(m, k, ops);
    SoundPrefix(m, t.log, t.hist, j);
    LocalRecovered(m, t.log[..j], t.hist[..j + 1][..j], t.hist[j]);
    forall x | x in Added(t.log[..j]) ensures Contains(Recovered(m, t.log[..j]), x) {
      LocalContains(m, t.log[..j], t.hist[..j + 1][..j], Recovered(m, t.log[..j]), x);
    }
  }

  // ---------------------------------------------------------------- checkpoints are only a shortcut

  /** `rs` without the checkpoint records that `keep` does not keep. */
  function Erase(rs: seq<Record>, keep: seq<bool>): seq<Record>
    requires |keep| == |rs|
  {
    if |rs| == 0 then []
    else
      var n := |rs| - 1;
      Erase(rs[..n], keep[..n]) + if rs[n].typ == CHECKPOINT && !keep[n] then [] else [rs[n]]
  }

  /** Every checkpoint of `rs` holds the filter of all items added before it, built with `k` hashes. */
  ghost predicate Exact(m: nat, k: nat, rs: seq<Record>) {
    |rs| == 0 || (
      var n := |rs| - 1;
      Exact(m, k, rs[..n]) && ValidRecord(rs[n]) &&
      (rs[n].typ == CHECKPOINT ==>
         Codec.Unmarshal(rs[n].payload) == Results.Ok(InsertAll(Empty(m, k), Added(rs[..n])))))
  }

  lemma StartDecodesAppends(rs: seq<Record>, r: Record)
    requires if r.typ == CHECKPOINT then Codec.Unmarshal(r.payload).Ok? else StartDecodes(rs)
    ensures StartDecodes(rs + [r])
  {
    hide Codec.Unmarshal;
    assert (rs + [r])[..|rs|] == rs;
    var j := LastCheckpoint(rs);
    if r.typ != CHECKPOINT && j < |rs| {
      assert (rs + [r])[j] == rs[j];
    }
  }

  lemma {:induction false} ExactStartDecodes(m: nat, k: nat, rs: seq<Record>)
    requires Exact(m, k, rs)
    ensures StartDecodes(rs)
    decreases |rs|
  {
    hide Codec.Unmarshal, InsertAll, Added;
    if |rs| == 0 {
    } else {
      var n := |rs| - 1;
      ExactStartDecodes(m, k, rs[..n]);
      StartDecodesAppends(rs[..n], rs[n]);
      assert rs == rs[..n] + [rs[n]];
    }
  }

  lemma {:induction false} ExactIsValid(m: nat, k: nat, rs: seq<Record>)
    requires Exact(m, k, rs)
    ensures forall r | r in rs :: ValidRecord(r)
    decreases |rs|
  {
    hide Codec.Unmarshal, InsertAll, Added, ValidRecord;
    if |rs| == 0 {
    } else {
      var n := |rs| - 1;
      ExactIsValid(m, k, rs[..n]);
      assert rs == rs[..n] + [rs[n]];
    }
  }

  /** A log with exact checkpoints is recovered as the filter of all its items, with the k of the
      checkpoints if there is one and else with the default k. */
  lemma {:induction false} ExactOnePass(m: nat, k: nat, rs: seq<Record>)
    requires m > 0 && Exact(m, k, rs) && HasCheckpoint(rs)
    ensures RecoverInOnePass(m, rs) == Holding(InsertAll(Empty(m, k), Added(rs)))
    decreases |rs|
  {
    hide Insert, InsertAll, Codec.Unmarshal, RecoverInOnePass, Added;
    var n := |rs| - 1;
    assert rs == rs[..n] + [rs[n]];
    OnePassAppends(m, rs[..n], rs[n]);
    AddedAppends(rs[..n], rs[n]);
    HasCheckpointAppends(rs[..n], rs[n]);
    if rs[n].typ == ADD {
      ExactOnePass(m, k, rs[..n]);
      InsertAllStep(Empty(m, k), Added(rs[..n]), rs[n].payload);
    } else {
      assert Added(rs) == Added(rs[..n]);
    }
  }

  lemma ExactRecovers(m: nat, k: nat, rs: seq<Record>)
    requires m > 0 && Exact(m, k, rs)
    ensures Recover(m, rs) == Holding(InsertAll(Empty(m, if HasCheckpoint(rs) then k else 7), Added(rs)))
  {
    hide Insert, InsertAll, Codec.Unmarshal, RecoverInOnePass, Added, Recover;
    ExactStartDecodes(m, k, rs);
    TwoPassesAgree(m, rs);
    if HasCheckpoint(rs) {
      ExactOnePass(m, k, rs);
    } else {
      ExactIsValid(m, k, rs);
      ReplayWithoutCheckpoint(m, rs);
    }
  }

  lemma NoCheckpointInNothing()
    ensures !HasCheckpoint([])
  {}

  lemma {:induction false} EraseExact(m: nat, k: nat, rs: seq<Record>, keep: seq<bool>)
    requires |keep| == |rs| && Exact(m, k, rs)
    ensures Exact(m, k, Erase(rs, keep)) && Added(Erase(rs, keep)) == Added(rs)
    ensures HasCheckpoint(Erase(rs, keep)) ==> HasCheckpoint(rs)
    decreases |rs|
  {
    hide InsertAll, Codec.Unmarshal, HasCheckpoint;
    NoCheckpointInNothing();
    if |rs| == 0 {
    } else {
      var n := |rs| - 1;
      var e := Erase(rs[..n], keep[..n]);
      EraseExact(m, k, rs[..n], keep[..n]);
      AddedAppends(e, rs[n]);
      assert rs == rs[..n] + [rs[n]];
      HasCheckpointAppends(rs[..n], rs[n]);
      HasCheckpointAppends(e, rs[n]);
      assert (e + [rs[n]])[..|e|] == e;
      assert e + [] == e;
    }
  }

  lemma {:induction false} SoundIsExact(m: nat, k: nat, rs: seq<Record>, fs: seq<Filter>)
    requires Sound(m, rs, fs) && forall i | 0 <= i < |rs| && rs[i].typ == CHECKPOINT :: fs[i].k == k
    ensures Exact(m, k, rs)
    decreases |rs|
  {
    hide InsertAll, Codec.Unmarshal, Contains, RecoverInOnePass, HasCheckpoint;
    if |rs| == 0 {
    } else {
      var n := |rs| - 1;
      assert ValidRecord(rs[n]);
      forall i | 0 <= i < n && rs[..n][i].typ == CHECKPOINT ensures fs[..n + 1][i].k == k {
        assert rs[i].typ == CHECKPOINT;
      }
      SoundIsExact(m, k, rs[..n], fs[..n + 1]);
      assert Local(m, rs[..n], fs[..n + 1][..n], fs[..n + 1][n]);
    }
  }

  /** All checkpoints of a written log are exact, with the k of the filter recovered from it. */
  lemma LogIsExact(m: nat, t: Trace)
    requires 0 < m < TWO32 && Sound(m, t.log, t.hist)
    ensures Exact(m, Recovered(m, t.log).k, t.log)
  {
    hide Codec.Unmarshal, InsertAll, Recovered, RecoverInOnePass, HasCheckpoint, Added;
    var n := |t.log|;
    LocalRecovered(m, t.log, t.hist[..n], t.hist[n]);
    SoundIsExact(m, Recovered(m, t.log).k, t.log, t.hist);
  }

  /** Erasing the checkpoints that `keep` does not keep leaves recovery unchanged exactly when the recovered
      filter has the default k or a checkpoint is left. */
  lemma ErasureHarmlessIff(m: nat, t: Trace, keep: seq<bool>)
    requires 0 < m < TWO32 && Sound(m, t.log, t.hist) && |keep| == |t.log|
    ensures Recover(m, Erase(t.log, keep)) == Recover(m, t.log) <==>
            Recovered(m, t.log).k == 7 || HasCheckpoint(Erase(t.log, keep))
  {
    hide Recover, Recovered, InsertAll, Erase, Exact, HasCheckpoint, Sound;
    var k := Recovered(m, t.log).k;
    LogIsExact(m, t);
    RecoverHolds(m, t.log);
    EraseExact(m, k, t.log, keep);
    ExactRecovers(m, k, t.log);
    ExactRecovers(m, k, Erase(t.log, keep));
  }

  lemma {:induction false} EraseEverything(rs: seq<Record>)
    ensures !HasCheckpoint(Erase(rs, seq(|rs|, _ => false)))
    decreases |rs|
  {
    hide HasCheckpoint;
    NoCheckpointInNothing();
    var keep := seq(|rs|, _ => false);
    if |rs| == 0 {
    } else {
      var n := |rs| - 1;
      EraseEverything(rs[..n]);
      assert keep[..n] == seq(n, _ => false);
      HasCheckpointAppends(Erase(rs[..n], keep[..n]), rs[n]);
      assert Erase(rs[..n], keep[..n]) + [] == Erase(rs[..n], keep[..n]);
    }
  }

  /** In the log of any run, erasing some of the checkpoints leaves what Open recovers unchanged exactly when
      the recovered filter has the default k or a checkpoint is left. So every erasure is harmless exactly
      when the recovered filter has the default k, and in a store created with the default k a checkpoint
      only shortens replay. */
  lemma CheckpointErasure(m: nat, k: nat, ops: seq<Op>)
    requires ValidRun(m, k, ops)
    ensures var log := RunTrace(m, k, ops).log;
            forall keep: seq<bool> | |keep| == |log| ::
              Recover(m, Erase(log, keep)) == Recover(m, log) <==>
              Recovered(m, log).k == 7 || HasCheckpoint(Erase(log, keep))
    ensures var log := RunTrace(m, k, ops).log;
            Recovered(m, log).k == 7 <==>
            forall keep: seq<bool> | |keep| == |log| :: Recover(m, Erase(log, keep)) == Recover(m, log)
    ensures k == 7 ==> Recovered(m, RunTrace(m, k, ops).log).k == 7
  {
    hide Erase, Recover, RunTrace, Recovered, HasCheckpoint, Sound;
    var t := RunTrace(m, k, ops);
    RunSound(m, k, ops);
    if k == 7 {
      DefaultKStays(m, ops);
      RecoveredIsHistory(m, t, |t.log|);
      assert t.log[..|t.log|] == t.log;
    }
    forall keep: seq<bool> | |keep| == |t.log|
      ensures Recover(m, Erase(t.log, keep)) == Recover(m, t.log) <==>
              Recovered(m, t.log).k == 7 || HasCheckpoint(Erase(t.log, keep))
    {
      ErasureHarmlessIff(m, t, keep);
    }
    EraseEverything(t.log);
    assert |seq(|t.log|, _ => false)| == |t.log|;
  }

  lemma NoCheckpointAfterLast(rs: seq<Record>)
    requires HasCheckpoint(rs)
    ensures !HasCheckpoint(rs[LastCheckpoint(rs) + 1..])
  {
    var j := LastCheckpoint(rs);
    var rest := rs[j + 1..];
    forall i | 0 <= i < |rest| ensures rest[i].typ != CHECKPOINT {
      assert rest[i] == rs[j + 1 + i];
    }
  }

  /** When the last checkpoint that passes its CRC does not decode, Open forgets everything before it:
      it recovers exactly the items added after it, with the default k. */
  lemma UndecodableCheckpointForgets(m: nat, rs: seq<Record>)
    requires m > 0 && !StartDecodes(rs) && forall r | r in rs :: ValidRecord(r)
    ensures Recover(m, rs) == Holding(InsertAll(Empty(m, 7), Added(rs[LastCheckpoint(rs) + 1..])))
  {
    hide Codec.Unmarshal, Insert, InsertAll;
    var j := LastCheckpoint(rs);
    var rest := rs[j + 1..];
    assert rs[j..] == [rs[j]] + rest;
    ReplayAppends(m, Nil, [rs[j]], rest);
    ReplayOne(m, Nil, rs[j]);
    NoCheckpointAfterLast(rs);
    ReplayWithoutCheckpoint(m, rest);
  }

  lemma {:induction false} OnePassWellFormed(m: nat, rs: seq<Record>)
    requires m > 0
    ensures RecoverInOnePass(m, rs).Holding? && WellFormed(RecoverInOnePass(m, rs).filter)
    decreases |rs|
  {
    hide Insert, Codec.Unmarshal;
    if |rs| == 0 {
    } else {
      var n := |rs| - 1;
      OnePassWellFormed(m, rs[..n]);
      OnePassAppends(m, rs[..n], rs[n]);
      assert rs == rs[..n] + [rs[n]];
    }
  }

  /** Nothing that replay had before the last checkpoint record is missed: that filter has the parameters
      replay starts with, and each of its bits is set again by an item added after the checkpoint. */
  ghost predicate SetAgainLater(m: nat, rs: seq<Record>)
    requires m > 0
  {
    var j := LastCheckpoint(rs);
    HasCheckpoint(rs) &&
    match RecoverInOnePass(m, rs[..j])
    case Holding(g) =>
      g.m == m && g.k == 7 && forall p: nat | GetBit(g.bits, p) :: Hit(Added(rs[j + 1..]), m, 7, p)
    case _ => false
  }

  lemma SkippedCheckpoint(m: nat, rs: seq<Record>)
    requires m > 0 && !StartDecodes(rs) && forall r | r in rs :: ValidRecord(r)
    ensures var j := LastCheckpoint(rs);
            RecoverInOnePass(m, rs[..j]).Holding? &&
            RecoverInOnePass(m, rs) == Holding(InsertAll(RecoverInOnePass(m, rs[..j]).filter, Added(rs[j + 1..])))
  {
    hide Codec.Unmarshal, Insert, InsertAll, RecoverInOnePass;
    var j := LastCheckpoint(rs);
    var rest := rs[j + 1..];
    assert rs == rs[..j] + [rs[j]] + rest;
    OnePassAppends(m, rs[..j], rs[j]);
    NoCheckpointAfterLast(rs);
    OnlyAdds(rest);
    OnePassAfter(m, rs[..j] + [rs[j]], rest);
  }

  /** Starting at the last checkpoint gives what a single pass over the whole log gives, so that an
      undecodable checkpoint is merely skipped, exactly when that checkpoint decodes or everything before
      it is set again later. */
  lemma TwoPassesAgreeIff(m: nat, rs: seq<Record>)
    requires m > 0 && forall r | r in rs :: ValidRecord(r)
    ensures Recover(m, rs) == RecoverInOnePass(m, rs) <==> StartDecodes(rs) || SetAgainLater(m, rs)
  {
    hide Codec.Unmarshal, InsertAll, Recover, RecoverInOnePass, Hit;
    if StartDecodes(rs) {
      TwoPassesAgree(m, rs);
    } else {
      var j := LastCheckpoint(rs);
      UndecodableCheckpointForgets(m, rs);
      SkippedCheckpoint(m, rs);
      OnePassWellFormed(m, rs[..j]);
      AbsorbedIff(RecoverInOnePass(m, rs[..j]).filter, m, 7, Added(rs[j + 1..]));
    }
  }

  /** The same for Open on any file with a valid header and m > 0, whatever bytes follow. */
  lemma OpenIsOnePassIff(data: seq<byte>)
    requires |data| >= HEADER_SIZE && Codec.U32At(data, 0) == FILE_MAGIC && Codec.U32At(data, 4) > 0
    ensures var m, rs := Codec.U32At(data, 4), RecordsOf(data[HEADER_SIZE..]);
            OpenFile(data).Opened? &&
            (OpenFile(data).mem == RecoverInOnePass(m, rs) <==> StartDecodes(rs) || SetAgainLater(m, rs))
  {
    hide Codec.U32At, Recover, RecoverInOnePass, StartDecodes, SetAgainLater, Framing.Lawful, Framing.Frames,
         EncodeRecord, ParseRecord, ValidRecord;
    var m, log := Codec.U32At(data, 4), data[HEADER_SIZE..];
    RecordsLawful();
    Framing.EncodeFrames(RecordFormat(), log);
    RecoverHolds(m, RecordsOf(log));
    TwoPassesAgreeIff(m, RecordsOf(log));
  }

  lemma OnePassOfNothing(m: nat)
    requires m > 0
    ensures RecoverInOnePass(m, []) == Holding(Empty(m, 7))
  {}

  /** A file that fails the condition: one item, then a checkpoint record without payload. Open keeps every
      byte of it and hides the item, which a single pass would have kept. The store never writes one. */
  lemma UndecodableCheckpointHides(m: nat, x: Item)
    requires 0 < m < TWO32 && |x| < TWO32
    ensures var rs := [AddRecord(x), Record(CHECKPOINT, [])];
            RecoverInOnePass(m, rs) == Holding(Insert(Empty(m, 7), x)) &&
            match OpenFile(Header(m) + LogOf(rs))
            case Opened(kept, Holding(f)) => kept == Header(m) + LogOf(rs) && !Contains(f, x)
            case _ => false
  {
    hide Insert, Contains, Recover, RecoverInOnePass, EncodeRecord, Header, LogOf, RecordsOf, OpenFile;
    var a, c := AddRecord(x), Record(CHECKPOINT, []);
    var rs := [a] + [c];
    assert rs == [a, c];
    RecordsOfLog(rs);
    OpenWritten(m, LogOf(rs));
    assert LogOf(rs)[..|LogOf(rs)|] == LogOf(rs);
    assert [] + [a] == [a];
    OnePassAppends(m, [], a);
    OnePassAppends(m, [a], c);
    OnePassOfNothing(m);
    assert rs[2..] == [] && LastCheckpoint(rs) == 1;
    UndecodableCheckpointForgets(m, rs);
    EmptyContainsNothing(m, 7, x);
  }

  // ---------------------------------------------------------------- what Open answers

  /** Open refuses exactly the files shorter than a header, and those that do not start with "BLS" and 1. */
  lemma OpenRefusesIff(data: seq<byte>)
    ensures OpenFile(data).CorruptHeader? <==> |data| < 8
    ensures OpenFile(data).NotStore? <==> |data| >= 8 && data[..4] != [0x42, 0x4C, 0x53, 0x01]
  {
    hide Codec.U32At, Recover;
    if |data| >= 8 {
      Codec.U32AtIs(data, 0, [0x42, 0x4C, 0x53, 0x01]);
      assert data[0..4] == data[..4];
    }
  }

  lemma {:induction false} HoldingStays(m: nat, f: Filter, rs: seq<Record>)
    ensures Replay(m, Holding(f), rs).Holding?
    decreases |rs|
  {
    hide Insert, Codec.Unmarshal;
    if |rs| == 0 {
    } else {
      HoldingStays(m, f, rs[..|rs| - 1]);
    }
  }

  /** Without m and without a checkpoint to start from, the first item to replay meets a nil filter. */
  lemma {:induction false} ReplayWithoutFilter(rs: seq<Record>)
    requires forall r | r in rs :: ValidRecord(r) && (r.typ == CHECKPOINT ==> Codec.Unmarshal(r.payload).Err?)
    ensures Replay(0, Nil, rs) == if Added(rs) == [] then Nil else Panicked
    decreases |rs|
  {
    hide Insert, Codec.Unmarshal;
    if |rs| == 0 {
    } else {
      var n := |rs| - 1;
      assert rs == rs[..n] + [rs[n]];
      ReplayWithoutFilter(rs[..n]);
    }
  }

  lemma NothingDecodes(rs: seq<Record>)
    requires !(HasCheckpoint(rs) && StartDecodes(rs)) && forall r | r in rs :: ValidRecord(r)
    ensures forall r | r in rs[ReplayStart(rs)..] ::
              ValidRecord(r) && (r.typ == CHECKPOINT ==> Codec.Unmarshal(r.payload).Err?)
  {
    hide Codec.Unmarshal;
    var s := ReplayStart(rs);
    forall i | 0 <= i < |rs| - s
      ensures ValidRecord(rs[s..][i]) && (rs[s..][i].typ == CHECKPOINT ==> Codec.Unmarshal(rs[s..][i].payload).Err?)
    {
      assert rs[s..][i] == rs[s + i] && rs[s + i] in rs;
    }
  }

  lemma RecoverHoldsIff(m: nat, rs: seq<Record>)
    requires forall r | r in rs :: ValidRecord(r)
    ensures var start := Added(rs[ReplayStart(rs)..]);
            var started := m > 0 || (HasCheckpoint(rs) && StartDecodes(rs));
            && (Recover(m, rs).Holding? <==> started)
            && (Recover(m, rs).Panicked? <==> !started && start != [])
  {
    hide Codec.Unmarshal, Insert, Replay, Added;
    var rest := rs[ReplayStart(rs)..];
    if m > 0 {
      RecoverHolds(m, rs);
    } else if HasCheckpoint(rs) && StartDecodes(rs) {
      var j := LastCheckpoint(rs);
      assert rest == [rs[j]] + rs[j + 1..];
      ReplayAppends(m, Nil, [rs[j]], rs[j + 1..]);
      ReplayOne(m, Nil, rs[j]);
      HoldingStays(m, Codec.Unmarshal(rs[j].payload).value, rs[j + 1..]);
    } else {
      NothingDecodes(rs);
      ReplayWithoutFilter(rest);
    }
  }

  /** For a file with a valid header, the number in its bytes 4 to 7 is m. Open holds a filter exactly when m
      is positive or the last checkpoint decodes; otherwise it panics exactly when there is an item to replay,
      and else returns a store without a filter. */
  lemma OpenAnswersIff(data: seq<byte>)
    requires |data| >= 8 && data[..4] == [0x42, 0x4C, 0x53, 0x01]
    ensures var rs := RecordsOf(data[8..]);
            var m := data[4] as nat * 0x100_0000 + data[5] as nat * 0x1_0000 + data[6] as nat * 0x100 + data[7] as nat;
            var started := m > 0 || (HasCheckpoint(rs) && StartDecodes(rs));
            && (OpenFile(data).Panic? <==> !started && Added(rs[ReplayStart(rs)..]) != [])
            && (OpenFile(data).Opened? <==> started || Added(rs[ReplayStart(rs)..]) == [])
            && (OpenFile(data).Opened? ==> (OpenFile(data).mem.Holding? <==> started) && !OpenFile(data).mem.Panicked?)
  {
    hide Codec.U32At, Recover, Framing.Lawful, Framing.Frames, EncodeRecord, ParseRecord, Added, ReplayStart;
    OpenRefusesIff(data);
    Codec.U32AtNumber(data, 4);
    RecordsLawful();
    Framing.EncodeFrames(RecordFormat(), data[8..]);
    RecoverHoldsIff(Codec.U32At(data, 4), RecordsOf(data[8..]));
  }

  lemma {:induction false} AddsOnto(m: nat, f: Filter, rs: seq<Record>)
    requires forall r | r in rs :: r.typ == ADD
    ensures Replay(m, Holding(f), rs) == Holding(InsertAll(f, Added(rs)))
    decreases |rs|
  {
    hide Insert;
    if |rs| == 0 {
    } else {
      var n := |rs| - 1;
      assert rs == rs[..n] + [rs[n]];
      AddsOnto(m, f, rs[..n]);
      InsertAllStep(f, Added(rs[..n]), rs[n].payload);
    }
  }

  /** The filter replay starts with: that of the last checkpoint, or an empty one with k = 7. */
  function Base(m: nat, rs: seq<Record>): Filter {
    if HasCheckpoint(rs) && StartDecodes(rs) then Codec.Unmarshal(rs[LastCheckpoint(rs)].payload).value
    else Empty(m, 7)
  }

  /** The records after the last checkpoint, decodable or not. */
  function AfterCheckpoint(rs: seq<Record>): seq<Record> {
    if HasCheckpoint(rs) then rs[LastCheckpoint(rs) + 1..] else rs
  }

  lemma RecoverDecoded(m: nat, rs: seq<Record>)
    requires HasCheckpoint(rs) && StartDecodes(rs) && forall r | r in rs :: ValidRecord(r)
    ensures Recover(m, rs) == Holding(InsertAll(Base(m, rs), Added(AfterCheckpoint(rs))))
  {
    hide Codec.Unmarshal, Insert, InsertAll, Added, Replay, LastCheckpoint;
    var j := LastCheckpoint(rs);
    var rest := rs[j + 1..];
    assert rs[j..] == [rs[j]] + rest;
    ReplayAppends(m, Nil, [rs[j]], rest);
    ReplayOne(m, Nil, rs[j]);
    NoCheckpointAfterLast(rs);
    OnlyAdds(rest);
    AddsOnto(m, Codec.Unmarshal(rs[j].payload).value, rest);
  }

  lemma RecoverIs(m: nat, rs: seq<Record>)
    requires m > 0 || (HasCheckpoint(rs) && StartDecodes(rs))
    requires forall r | r in rs :: ValidRecord(r)
    ensures Recover(m, rs) == Holding(InsertAll(Base(m, rs), Added(AfterCheckpoint(rs))))
  {
    hide Codec.Unmarshal, InsertAll, Added, Replay, LastCheckpoint, Empty;
    if !HasCheckpoint(rs) {
      ReplayWithoutCheckpoint(m, rs);
      assert rs[0..] == rs;
    } else if StartDecodes(rs) {
      RecoverDecoded(m, rs);
    } else {
      UndecodableCheckpointForgets(m, rs);
    }
  }

  /** What Open leaves of any file with a valid header, and the filter it holds. */
  lemma OpenRecovers(data: seq<byte>)
    requires |data| >= 8 && OpenFile(data).Opened? && OpenFile(data).mem.Holding?
    ensures var rs := RecordsOf(data[8..]);
            OpenFile(data) == Opened(data[..8] + LogOf(rs),
                                     Holding(InsertAll(Base(Codec.U32At(data, 4), rs), Added(AfterCheckpoint(rs)))))
  {
    hide Codec.U32At, Recover, Framing.Lawful, Framing.Frames, EncodeRecord, ParseRecord, InsertAll, Base, Added,
         AfterCheckpoint;
    var m, log := Codec.U32At(data, 4), data[8..];
    RecordsLawful();
    Framing.EncodeFrames(RecordFormat(), log);
    assert data[..8 + LogEnd(log)] == data[..8] + log[..LogEnd(log)];
    RecoverHoldsIff(m, RecordsOf(log));
    RecoverIs(m, RecordsOf(log));
  }

  // ---------------------------------------------------------------- recovery of arbitrary files

  lemma SameField(a: seq<byte>, b: seq<byte>, at: nat)
    requires at + 4 <= |a| && at + 4 <= |b| && a[at..at + 4] == b[at..at + 4]
    ensures Codec.U32At(a, at) == Codec.U32At(b, at)
  {}

  lemma KeptPrefix(data: seq<byte>, n: nat)
    requires HEADER_SIZE + n <= |data|
    ensures var kept := data[..HEADER_SIZE + n];
            kept[HEADER_SIZE..] == data[HEADER_SIZE..][..n] &&
            Codec.U32At(kept, 0) == Codec.U32At(data, 0) && Codec.U32At(kept, 4) == Codec.U32At(data, 4)
  {
    hide Codec.U32At;
    var kept := data[..HEADER_SIZE + n];
    assert kept[0..4] == data[0..4] && kept[4..8] == data[4..8];
    SameField(kept, data, 0);
    SameField(kept, data, 4);
  }

  /** Whatever bytes the file holds, reopening what Open left truncates nothing and recovers the same. */
  lemma RecoveryIsIdempotent(data: seq<byte>)
    ensures OpenFile(data).Opened? ==> OpenFile(OpenFile(data).kept) == OpenFile(data)
  {
    hide Codec.U32At, Recover, Framing.Lawful, Framing.Frames, EncodeRecord, ParseRecord;
    if OpenFile(data).Opened? {
      RecordsLawful();
      var log := data[HEADER_SIZE..];
      Framing.RecoveredIsClean(RecordFormat(), log);
      KeptPrefix(data, LogEnd(log));
    }
  }

  /** A record appended after recovering any damaged file is read back after exactly the old records. */
  lemma RecoveredLogIsAppendable(data: seq<byte>, r: Record)
    requires OpenFile(data).Opened? && ValidRecord(r)
    ensures var kept := OpenFile(data).kept;
            |kept| >= HEADER_SIZE &&
            RecordsOf((kept + EncodeRecord(r))[HEADER_SIZE..]) == RecordsOf(data[HEADER_SIZE..]) + [r] &&
            LogEnd((kept + EncodeRecord(r))[HEADER_SIZE..]) == |kept + EncodeRecord(r)| - HEADER_SIZE
  {
    hide Codec.U32At, Recover, Framing.Lawful, Framing.Frames, Framing.Consumed, EncodeRecord, ParseRecord;
    RecordsLawful();
    var log, kept := data[HEADER_SIZE..], OpenFile(data).kept;
    Framing.AppendAfterRecovery(RecordFormat(), log, r);
    assert (kept + EncodeRecord(r))[HEADER_SIZE..] == log[..LogEnd(log)] + EncodeRecord(r);
  }

  /** A record damaged in its type byte, in four consecutive payload bytes or in its checksum field ends
      replay: exactly the records before it are read, whatever follows it. */
  lemma DamageEndsReplay(before: seq<Record>, r: Record, typ: byte, payload: seq<byte>, crc: seq<byte>, at: nat,
                         tail: seq<byte>)
    requires LogValid(before) && ValidRecord(r) && ConfinedDamage(r, typ, payload, crc, at)
    requires Damaged(typ, payload, crc) != EncodeRecord(r)
    ensures var log := LogOf(before) + (Damaged(typ, payload, crc) + tail);
            RecordsOf(log) == before && LogEnd(log) == |LogOf(before)|
  {
    hide Framing.Lawful, ConfinedDamage, Damaged, EncodeRecord, ParseRecord;
    RecordsLawful();
    DamageRejected(r, typ, payload, crc, at, tail);
    var rest := Damaged(typ, payload, crc) + tail;
    Framing.FramesOfEncoded(RecordFormat(), before, rest);
    assert before + [] == before;
  }
}
