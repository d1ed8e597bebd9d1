/** The engine's runs are what a single caller sees of the write-ahead log: each event is a few steps of group commit. */
module EngineOnWal {
  import opened ByteSeqs
  import opened Codec
  import opened Recovery
  import opened GroupCommit
  import opened GroupCommitRuns
  import opened History
  import opened Engine
  import opened EngineRuns

  /** How an engine event is carried out on the log. */
  datatype How =
    | Nothing
    | Appends(t: nat, file: Bytes, buf: Bytes, mid: State, durable: nat)                    // lead, sync, step down
    | Dies(keep: nat, durable: nat)                                                          // between two calls
    | DiesAppending(t: nat, file: Bytes, buf: Bytes, mid: State, keep: nat, durable: nat)    // after the flush
    | ClosesAndOpens(durable: nat)

  /** The call has a record of its own to write. */
  predicate Writes(d: Db, op: Op, now: int) {
    |Exec(d, op, now, true).0.log| > |d.log|
  }

  /**
   * Engine event `e`, met in engine state `r`, takes the log from `s` to `s2`. The engine's crashes say how many records
   * are left; that many the file must hold after it is opened again.
   */
  predicate Does(crc: Checksum, s: State, r: Run, e: Event, how: How, s2: State) {
    match e
    case Call(op, now) =>
      if Writes(r.db, op, now) then
        && how.Appends?
        && Takes(crc, s, Lead(how.t, RecordFor(op, 0), how.file, how.buf), how.mid)
        && Takes(crc, how.mid, SyncDone(how.t, how.durable), s2)
      else s2 == s
    case Restart => how.ClosesAndOpens? && Takes(crc, s, CloseAndOpen(how.durable), s2)
    case Crash(_) =>
      && |s2.st.log| == |After(r, e).db.log|
      && how.Dies? && Takes(crc, s, Step.Crash(how.keep, how.durable), s2)
    case CrashIn(op, now, _) =>
      && |s2.st.log| == |After(r, e).db.log|
      && (how.Dies? || (how.DiesAppending? && Writes(r.db, op, now)))
      && (how.Dies? ==> Takes(crc, s, Step.Crash(how.keep, how.durable), s2))
      && (how.DiesAppending? ==>
            && Takes(crc, s, Lead(how.t, RecordFor(op, 0), how.file, how.buf), how.mid)
            && Takes(crc, how.mid, Step.Crash(how.keep, how.durable), s2))
    case Reset => s2 == Start()
  }

  /** Same log, and the engine counts as durable only what is. */
  ghost predicate Matches(crc: Checksum, s: State, r: Run) {
    Idle(crc, s) && Good(r) && s.st.log == r.db.log && r.durable <= DurableCount(crc, s)
  }

  lemma StartMatches(crc: Checksum)
    ensures Matches(crc, Start(), Run(NEW_DB, 0))
  {
    hide Inv;
    StartInv(crc);
    ReplayNothing();
  }

  lemma RecordAt(op: Op, n: nat)
    ensures RecordFor(op, 0).(pos := n) == RecordFor(op, n)
  {
  }

  lemma CallMatches(crc: Checksum, s: State, r: Run, e: Event, how: How, s2: State)
    requires Matches(crc, s, r) && e.Call? && Does(crc, s, r, e, how, s2)
    ensures Matches(crc, s2, After(r, e))
  {
    hide Takes, Idle, DurableCount, Exec, Replay, Consistent;
    AfterGood(r, e);
    ExecGrows(r.db, e.op, e.now);
    if Writes(r.db, e.op, e.now) {
      SoloAppend(crc, s, how.t, RecordFor(e.op, 0), how.file, how.buf, how.mid, how.durable, s2);
      RecordAt(e.op, |s.st.log| + 1);
    } else {
      SilentCall(r.db, e.op, e.now);
    }
  }

  /** A call that writes nothing leaves log and caches alone. */
  lemma SilentCall(d: Db, op: Op, now: int)
    requires !Writes(d, op, now)
    ensures Exec(d, op, now, true).0 == d
  {
  }

  lemma CrashMatches(crc: Checksum, s: State, r: Run, e: Event, how: How, s2: State)
    requires Matches(crc, s, r) && (e.Crash? || e.CrashIn?) && Does(crc, s, r, e, how, s2)
    ensures Matches(crc, s2, After(r, e))
  {
    hide Takes, Idle, DurableCount, Exec, Replay, Consistent;
    AfterGood(r, e);
    if e.CrashIn? {
      ExecGrows(r.db, e.op, e.now);
    }
    if how.Dies? {
      IdleCrash(crc, s, how.keep, how.durable, s2);
    } else {
      SoloCrash(crc, s, how.t, RecordFor(e.op, 0), how.file, how.buf, how.mid, how.keep, how.durable, s2);
      RecordAt(e.op, |s.st.log| + 1);
    }
    var log := if e.CrashIn? then Exec(r.db, e.op, e.now, true).0.log else r.db.log;
    assert s2.st.log <= log;
    SamePrefix(log, s2.st.log, After(r, e).db.log);
  }

  lemma SamePrefix(log: Log, a: Log, b: Log)
    requires a <= log && b <= log && |a| == |b|
    ensures a == b
  {
    assert a == log[..|a|] && b == log[..|b|];
  }

  /** One event keeps engine and log matched. */
  lemma EventMatches(crc: Checksum, s: State, r: Run, e: Event, how: How, s2: State)
    requires Matches(crc, s, r) && Does(crc, s, r, e, how, s2)
    ensures Matches(crc, s2, After(r, e))
  {
    hide Takes, Idle, DurableCount, Exec, Replay, Good;
    match e
    case Call(_, _) => CallMatches(crc, s, r, e, how, s2);
    case Crash(_) => CrashMatches(crc, s, r, e, how, s2);
    case CrashIn(_, _, _) => CrashMatches(crc, s, r, e, how, s2);
    case Reset => StartMatches(crc);
    case Restart =>
      IdleRestart(crc, s, how.durable, s2);
      AfterGood(r, e);
  }

  /**
   * Whole runs: however the events of an engine are carried out on the group-committed log, the log the engine
   * believes in is the log there is, and what the engine counts as durable is on disk for good.
   */
  lemma {:induction false} EngineRunsOnWal(crc: Checksum, ss: seq<State>, hows: seq<How>, events: seq<Event>)
    requires |ss| == |events| + 1 && |hows| == |events| && ss[0] == Start()
    requires forall i :: 0 <= i < |events| ==> Does(crc, ss[i], Reach(events[..i]), events[i], hows[i], ss[i + 1])
    ensures Matches(crc, ss[|events|], Reach(events))
    decreases |events|
  {
    hide Does, Matches, After;
    if events == [] {
      StartMatches(crc);
    } else {
      var n := |events| - 1;
      var before := events[..n];
      forall i | 0 <= i < n ensures Does(crc, ss[..n + 1][i], Reach(before[..i]), before[i], hows[..n][i], ss[..n + 1][i + 1]) {
        assert before[..i] == events[..i];
      }
      EngineRunsOnWal(crc, ss[..n + 1], hows[..n], before);
      EventMatches(crc, ss[n], Reach(before), events[n], hows[n], ss[n + 1]);
    }
  }

  // ---------------------------------------------------------------- and every run of the engine can happen

  /** The match is exact: what is durable in the file is what the engine counts as durable. */
  ghost predicate MatchesExactly(crc: Checksum, s: State, r: Run) {
    Matches(crc, s, r) && r.durable == DurableCount(crc, s)
  }

  /** The record of the operation has a frame that can be read back. */
  predicate Fits(op: Op) {
    Encodable(RecordFor(op, 0))
  }

  lemma FitsAnywhere(op: Op, pos: nat)
    requires Fits(op) && pos < TWO_64
    ensures Encodable(RecordFor(op, 0).(pos := pos))
  {
  }

  lemma CallPossible(crc: Checksum, s: State, r: Run, e: Event) returns (how: How, s2: State)
    requires MatchesExactly(crc, s, r) && |r.db.log| + 1 < TWO_64 && e.Call? && Fits(e.op)
    ensures Does(crc, s, r, e, how, s2) && MatchesExactly(crc, s2, After(r, e))
  {
    hide Takes, Idle, Exec, Replay, Consistent, Encodable, DurableCount;
    how, s2 := Nothing, s;
    if Writes(r.db, e.op, e.now) {
      IdleFits(crc, s);
      FitsAnywhere(e.op, s.st.next);
      var file, buf, mid, durable;
      file, buf, mid, durable, s2 := SoloAppendPossible(crc, s, 0, RecordFor(e.op, 0));
      how := Appends(0, file, buf, mid, durable);
      SoloAppend(crc, s, 0, RecordFor(e.op, 0), file, buf, mid, durable, s2);
    } else {
      SilentCall(r.db, e.op, e.now);
    }
    CallMatches(crc, s, r, e, how, s2);
  }

  lemma IdleFits(crc: Checksum, s: State)
    requires Idle(crc, s)
    ensures s.durable <= |s.st.file| && s.st.next == |s.st.log| + 1
  {
    hide GroupInv, CallsInv, FileBytes, End;
    DurableFits(crc, s);
  }

  lemma CrashInPossible(crc: Checksum, s: State, r: Run, e: Event) returns (how: How, s2: State)
    requires MatchesExactly(crc, s, r) && |r.db.log| + 1 < TWO_64 && e.CrashIn? && Fits(e.op)
    ensures Does(crc, s, r, e, how, s2) && MatchesExactly(crc, s2, After(r, e))
  {
    hide Takes, Exec, Replay, Encodable, DurableCount, Inv, Consistent;
    var n := |After(r, e).db.log|;
    AfterGrows(r, e);
    ExecGrows(r.db, e.op, e.now);
    if n <= |r.db.log| {
      var keep, durable;
      keep, durable, s2 := CrashPossible(crc, s, n);
      how := Dies(keep, durable);
    } else {
      IdleFits(crc, s);
      FitsAnywhere(e.op, s.st.next);
      var file, buf, mid, _, _ := SoloAppendPossible(crc, s, 0, RecordFor(e.op, 0));
      LeadIs(crc, s, 0, RecordFor(e.op, 0), file, buf, mid);
      var keep, durable;
      keep, durable, s2 := CrashPossible(crc, mid, n);
      how := DiesAppending(0, file, buf, mid, keep, durable);
    }
    CrashMatches(crc, s, r, e, how, s2);
  }

  lemma IdleIsWhole(crc: Checksum, s: State)
    requires Idle(crc, s)
    ensures s.st.file == FileBytes(crc, s.st.log) && HEADER_SIZE <= s.durable
  {
    hide GroupInv, CallsInv, Frame, LogBytes, Encodable;
    assert s.st.file + s.st.buf == s.st.file && s.st.log[..|s.st.log|] == s.st.log;
    DurableFits(crc, s);
  }

  /** The state between flush and fsync: the record is in the file and not durable. */
  lemma LeadIs(crc: Checksum, s: State, t: nat, rec: Record, file: Bytes, buf: Bytes, mid: State)
    requires Idle(crc, s) && Takes(crc, s, Lead(t, rec, file, buf), mid)
    ensures Inv(crc, mid) && !mid.st.broken && mid.st.buf == [] && |mid.st.log| == |s.st.log| + 1
    ensures DurableCount(crc, mid) == DurableCount(crc, s)
  {
    hide Frame, FileBytes, Encodable, GroupInv, CallsInv, DurableCount, StorageInv, End;
    LeadKeeps(crc, s, t, rec, file, buf, mid);
    IdleFits(crc, s);
    var n := |s.st.log|;
    assert mid.st.log[..n] == s.st.log;
    IdleIsWhole(crc, s);
    PrefixIsFile(crc, mid.st.log, n);
    EndMonotone(crc, mid.st.log, n, n + 1);
    assert DurableCount(crc, mid) <= n by { CountIsLargest(crc, mid, n + 1); }
    SameCount(crc, mid, n, s);
  }

  lemma EventPossible(crc: Checksum, s: State, r: Run, e: Event) returns (how: How, s2: State)
    requires MatchesExactly(crc, s, r) && |r.db.log| + 1 < TWO_64 && (e.Call? || e.CrashIn? ==> Fits(e.op))
    ensures Does(crc, s, r, e, how, s2) && MatchesExactly(crc, s2, After(r, e))
  {
    hide Takes, Exec, Replay, Fits, DurableCount, Inv, Consistent;
    match e
    case Call(_, _) => how, s2 := CallPossible(crc, s, r, e);
    case CrashIn(_, _, _) => how, s2 := CrashInPossible(crc, s, r, e);
    case Crash(_) =>
      AfterGrows(r, e);
      var keep, durable;
      keep, durable, s2 := CrashPossible(crc, s, |After(r, e).db.log|);
      how := Dies(keep, durable);
      CrashMatches(crc, s, r, e, how, s2);
    case Restart =>
      s2 := IdleRestartPossible(crc, s);
      how := ClosesAndOpens(s.durable);
      EventMatches(crc, s, r, e, how, s2);
    case Reset =>
      how, s2 := Nothing, Start();
      NothingDurable(crc, Start());
      EventMatches(crc, s, r, e, how, s2);
  }

  /** Every run of the engine, and so every failing one shown for it, is carried out by some run of the log. */
  lemma {:induction false} EngineRunsPossible(crc: Checksum, events: seq<Event>) returns (ss: seq<State>, hows: seq<How>)
    requires |events| < TWO_64 && forall i :: 0 <= i < |events| && (events[i].Call? || events[i].CrashIn?) ==> Fits(events[i].op)
    ensures |ss| == |events| + 1 && |hows| == |events| && ss[0] == Start()
    ensures forall i :: 0 <= i < |events| ==> Does(crc, ss[i], Reach(events[..i]), events[i], hows[i], ss[i + 1])
    ensures MatchesExactly(crc, ss[|events|], Reach(events)) && |LogOf(events)| <= |events|
    decreases |events|
  {
    hide Does, Matches, After, Fits;
    if events == [] {
      ss, hows := [Start()], [];
      StartMatches(crc);
      NothingDurable(crc, Start());
    } else {
      var n := |events| - 1;
      var before := events[..n];
      var ss0, hows0 := EngineRunsPossible(crc, before);
      var how, s2 := EventPossible(crc, ss0[n], Reach(before), events[n]);
      ss, hows := ss0 + [s2], hows0 + [how];
      forall i | 0 <= i < n ensures Does(crc, ss[i], Reach(events[..i]), events[i], hows[i], ss[i + 1]) {
        assert before[..i] == events[..i];
      }
      AtMostOneMore(Reach(before), events[n]);
    }
  }

  lemma AtMostOneMore(r: Run, e: Event)
    ensures |After(r, e).db.log| <= |r.db.log| + 1
  {
    hide Replay;
    if e.Call? || e.CrashIn? {
      ExecGrows(r.db, e.op, e.now);
    }
  }
}
