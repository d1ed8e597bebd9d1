/**
 * What the engine guarantees over whole runs: calls at any clock reading, clean restarts, crashes, resets.
 * Opening a log syncs nothing, so a record that recovery found is as vulnerable to the next crash as before. The run
 * keeps count of the records that are durable: those up to the last Append that returned success.
 */
module EngineRuns {
  import opened ByteSeqs
  import opened Codec
  import opened Recovery
  import opened History
  import opened Engine

  datatype Event =
    | Call(op: Op, now: int)
    | Restart                                  // close and open again
    | Crash(kept: nat)                         // and open again: `kept` records are left, but never less than the durable ones
    | CrashIn(op: Op, now: int, kept: nat)     // the same inside a call, whose own record may be among those left
    | Reset

  datatype Run = Run(db: Db, durable: nat)

  /** What a crash leaves of a log. */
  function Cut(log: Log, durable: nat, kept: nat): (left: Log) {
    var n := if kept < durable then durable else kept;
    if n <= |log| then log[..n] else log
  }

  function After(r: Run, e: Event): (r2: Run) {
    match e
    case Call(op, now) =>
      var db := Exec(r.db, op, now, true).0;
      Run(db, if |db.log| > |r.db.log| then |db.log| else r.durable)
    case Restart => r.(db := Reopened(r.db.log))
    case Crash(kept) => r.(db := Reopened(Cut(r.db.log, r.durable, kept)))
    case CrashIn(op, now, kept) => r.(db := Reopened(Cut(Exec(r.db, op, now, true).0.log, r.durable, kept)))
    case Reset => Run(NEW_DB, 0)
  }

  /** The engine after a run that began with a new database. */
  function Reach(events: seq<Event>): (r: Run) {
    if events == [] then Run(NEW_DB, 0) else After(Reach(events[..|events| - 1]), events[|events| - 1])
  }

  function LogOf(events: seq<Event>): (log: Log) {
    Reach(events).db.log
  }

  predicate NoReset(events: seq<Event>, i: nat, j: nat)
    requires i <= j <= |events|
  {
    forall k :: i <= k < j ==> !events[k].Reset?
  }

  predicate NoCrash(events: seq<Event>, i: nat, j: nat)
    requires i <= j <= |events|
  {
    forall k :: i <= k < j ==> !events[k].Crash? && !events[k].CrashIn?
  }

  lemma ReachStep(events: seq<Event>, i: nat)
    requires i < |events|
    ensures Reach(events[..i + 1]) == After(Reach(events[..i]), events[i])
  {
    assert events[..i + 1][..i] == events[..i];
  }

  lemma ReachSnoc(events: seq<Event>, e: Event)
    ensures Reach(events + [e]) == After(Reach(events), e)
  {
    assert (events + [e])[..|events|] == events;
  }

  // ---------------------------------------------------------------- cache equals replay

  ghost predicate Good(r: Run) {
    Consistent(r.db) && r.durable <= |r.db.log|
  }

  lemma AfterGood(r: Run, e: Event)
    requires Good(r)
    ensures Good(After(r, e))
  {
    hide Exec, ExecOnLog, Replay, Replay1;
    if e.Call? || e.CrashIn? {
      ExecIsHistory(r.db, e.op, e.now);
      ExecGrows(r.db, e.op, e.now);
    }
    ReplayNothing();
  }

  /** A call leaves the log alone or adds its one record. */
  lemma ExecGrows(d: Db, op: Op, now: int)
    ensures var log := Exec(d, op, now, true).0.log;
            log == d.log || log == d.log + [RecordFor(op, |d.log| + 1)]
  {
    hide Replay1, VersionIn;
  }

  lemma {:induction false} RunsAreGood(events: seq<Event>)
    ensures Good(Reach(events))
  {
    hide After;
    if events != [] {
      RunsAreGood(events[..|events| - 1]);
      AfterGood(Reach(events[..|events| - 1]), events[|events| - 1]);
    } else {
      ReplayNothing();
    }
  }

  /** In every reachable state both caches equal a replay of the log. */
  lemma CacheEqualsReplay(events: seq<Event>)
    ensures Reach(events).db.cache == Replay(LogOf(events)) && Numbered(LogOf(events))
  {
    hide Reach, Replay;
    RunsAreGood(events);
  }

  /** So each entry is its key's last record. */
  lemma EntryIsLastRecord(events: seq<Event>, key: Bytes)
    ensures var d := Reach(events).db;
            && (key in d.cache.index <==> Present(d.log, key))
            && (Present(d.log, key) ==>
                  && d.cache.index[key].version == Last(d.log, key)
                  && d.cache.index[key] == EntryOf(d.log[Last(d.log, key) - 1]))
  {
    hide Reach, Replay;
    CacheEqualsReplay(events);
    IndexIsLastRecord(LogOf(events), key);
  }

  lemma RestartIsNothing(r: Run)
    requires Good(r)
    ensures After(r, Restart) == r
  {
  }

  /** A clean restart at any point is invisible: whatever follows has the same states. */
  lemma {:induction false} RestartInvisible(before: seq<Event>, after: seq<Event>)
    ensures Reach(before + [Restart] + after) == Reach(before + after)
  {
    hide Reach, After, Good;
    if after == [] {
      assert before + [Restart] + after == before + [Restart] && before + after == before;
      ReachSnoc(before, Restart);
      RunsAreGood(before);
      RestartIsNothing(Reach(before));
    } else {
      var most, e := after[..|after| - 1], after[|after| - 1];
      RestartInvisible(before, most);
      assert before + [Restart] + after == before + [Restart] + most + [e] && before + after == before + most + [e];
      ReachSnoc(before + [Restart] + most, e);
      ReachSnoc(before + most, e);
    }
  }

  // ---------------------------------------------------------------- what lasts

  lemma AfterGrows(r: Run, e: Event)
    requires Good(r) && !e.Reset?
    ensures r.durable <= After(r, e).durable && r.db.log[..r.durable] <= After(r, e).db.log
    ensures !e.Crash? && !e.CrashIn? ==> r.db.log <= After(r, e).db.log
    ensures |After(r, e).db.log| <= |r.db.log| + 1
  {
    hide Exec, Replay, Consistent;
    if e.Call? || e.CrashIn? {
      ExecGrows(r.db, e.op, e.now);
    }
  }

  /** Without a reset or a crash the log is only ever extended. */
  lemma {:induction false} LogGrows(events: seq<Event>, i: nat, j: nat)
    requires i <= j <= |events| && NoReset(events, i, j) && NoCrash(events, i, j)
    ensures LogOf(events[..i]) <= LogOf(events[..j])
    decreases j
  {
    hide After, Good;
    if i < j {
      LogGrows(events, i, j - 1);
      ReachStep(events, j - 1);
      RunsAreGood(events[..j - 1]);
      AfterGrows(Reach(events[..j - 1]), events[j - 1]);
    }
  }

  /** Without a reset no crash ever takes a durable record. */
  lemma {:induction false} DurableStays(events: seq<Event>, i: nat, j: nat)
    requires i <= j <= |events| && NoReset(events, i, j)
    ensures Reach(events[..i]).durable <= Reach(events[..j]).durable
    ensures Reach(events[..i]).durable <= |LogOf(events[..i])|
    ensures LogOf(events[..i])[..Reach(events[..i]).durable] <= LogOf(events[..j])
    decreases j
  {
    hide After, Consistent;
    RunsAreGood(events[..i]);
    if i < j {
      DurableStays(events, i, j - 1);
      ReachStep(events, j - 1);
      RunsAreGood(events[..j - 1]);
      AfterGrows(Reach(events[..j - 1]), events[j - 1]);
      PrefixesAgree(LogOf(events[..i])[..Reach(events[..i]).durable], LogOf(events[..j - 1]),
                    Reach(events[..j - 1]).durable, LogOf(events[..j]));
    }
  }

  lemma PrefixesAgree(a: Log, b: Log, n: nat, c: Log)
    requires a <= b && |a| <= n <= |b| && b[..n] <= c
    ensures a <= c
  {
    assert a == b[..n][..|a|];
  }

  /** The record at position `p` of the log after `events[..i]` is still there after all of `events`. */
  predicate Kept(events: seq<Event>, i: nat, p: nat)
    requires i <= |events|
  {
    NoReset(events, i, |events|) && (p <= Reach(events[..i]).durable || NoCrash(events, i, |events|))
  }

  lemma KeptStays(events: seq<Event>, i: nat, p: nat)
    requires i <= |events| && Kept(events, i, p) && 1 <= p <= |LogOf(events[..i])|
    ensures p <= |LogOf(events)| && LogOf(events)[p - 1] == LogOf(events[..i])[p - 1]
  {
    hide Reach;
    assert events[..|events|] == events;
    DurableStays(events, i, |events|);
    if p > Reach(events[..i]).durable {
      LogGrows(events, i, |events|);
    }
  }

  /** Event `j` is a call that came back with a record of its own. */
  predicate Appended(events: seq<Event>, j: nat)
    requires j < |events|
  {
    events[j].Call? && |LogOf(events[..j + 1])| > |LogOf(events[..j])|
  }

  /** Some call has appended a record of its own at or after position `p`, and there was no reset since. */
  ghost predicate CoveredByAppend(events: seq<Event>, p: nat) {
    exists j :: 0 <= j < |events| && Appended(events, j) && p <= |LogOf(events[..j + 1])| && NoReset(events, j + 1, |events|)
  }

  lemma DurableAfter(r: Run, e: Event)
    ensures After(r, e).durable ==
            if e.Reset? then 0
            else if e.Call? && |After(r, e).db.log| > |r.db.log| then |After(r, e).db.log|
            else r.durable
  {
    hide Exec, Replay;
  }

  /** Which records are durable, said without the count: those that a later successful Append, or their own, has covered. */
  lemma {:induction false} DurableIff(events: seq<Event>, p: nat)
    requires p > 0
    ensures p <= Reach(events).durable <==> CoveredByAppend(events, p)
  {
    hide After, CoveredByAppend;
    if events == [] {
      NoAppendYet(p);
    } else {
      DurableIff(events[..|events| - 1], p);
      if p <= Reach(events).durable {
        CoveredIfDurable(events, p);
      }
      if CoveredByAppend(events, p) {
        DurableIfCovered(events, p);
      }
    }
  }

  lemma NoAppendYet(p: nat)
    ensures !CoveredByAppend([], p)
  {
  }

  lemma CoveredIfDurable(events: seq<Event>, p: nat)
    requires events != [] && 0 < p <= Reach(events).durable
    requires p <= Reach(events[..|events| - 1]).durable ==> CoveredByAppend(events[..|events| - 1], p)
    ensures CoveredByAppend(events, p)
  {
    hide Reach, After;
    var n := |events| - 1;
    var before := events[..n];
    assert events[..n + 1] == events;
    ReachStep(events, n);
    DurableAfter(Reach(before), events[n]);
    if !Appended(events, n) {
      var j :| 0 <= j < |before| && Appended(before, j) && p <= |LogOf(before[..j + 1])| && NoReset(before, j + 1, |before|);
      CoverShifts(events, j, p);
    } else {
      assert NoReset(events, n + 1, |events|);
    }
  }

  lemma CoverShifts(events: seq<Event>, j: nat, p: nat)
    requires events != [] && j < |events| - 1 && !events[|events| - 1].Reset?
    requires var before := events[..|events| - 1];
             Appended(before, j) && p <= |LogOf(before[..j + 1])| && NoReset(before, j + 1, |before|)
    ensures CoveredByAppend(events, p)
  {
    hide Reach;
    var before := events[..|events| - 1];
    assert before[..j] == events[..j] && before[..j + 1] == events[..j + 1];
    assert Appended(events, j);
    forall k | j + 1 <= k < |events| ensures !events[k].Reset? {
      assert k < |before| ==> events[k] == before[k];
    }
  }

  lemma DurableIfCovered(events: seq<Event>, p: nat)
    requires CoveredByAppend(events, p)
    ensures p <= Reach(events).durable
  {
    hide Reach, After;
    var j :| 0 <= j < |events| && Appended(events, j) && p <= |LogOf(events[..j + 1])| && NoReset(events, j + 1, |events|);
    ReachStep(events, j);
    DurableAfter(Reach(events[..j]), events[j]);
    assert events[..|events|] == events;
    DurableStays(events, j + 1, |events|);
  }

  predicate NoResets(more: seq<Event>) {
    forall k :: 0 <= k < |more| ==> !more[k].Reset?
  }

  /** Nothing that can happen short of a reset removes or changes the record at position `p`. */
  ghost predicate Permanent(events: seq<Event>, p: nat)
    requires 1 <= p <= |LogOf(events)|
  {
    forall more :: NoResets(more) ==>
      p <= |LogOf(events + more)| && LogOf(events + more)[p - 1] == LogOf(events)[p - 1]
  }

  lemma FutureOf(events: seq<Event>, more: seq<Event>)
    ensures (events + more)[..|events|] == events
    ensures NoResets(more) ==> NoReset(events + more, |events|, |events + more|)
  {
  }

  /** A record in the log, recovered ones included, is permanent exactly when a successful Append has covered it. */
  lemma PermanentIff(events: seq<Event>, p: nat)
    requires 1 <= p <= |LogOf(events)|
    ensures Permanent(events, p) <==> CoveredByAppend(events, p)
  {
    hide Reach, CoveredByAppend;
    DurableIff(events, p);
    if p <= Reach(events).durable {
      forall more | NoResets(more)
        ensures p <= |LogOf(events + more)| && LogOf(events + more)[p - 1] == LogOf(events)[p - 1]
      {
        FutureOf(events, more);
        KeptStays(events + more, |events|, p);
      }
    } else {
      WorstCrash(events);
      assert NoResets([Crash(0)]);
    }
  }

  /** The crash that leaves the least. */
  lemma WorstCrash(events: seq<Event>)
    ensures Reach(events).durable <= |LogOf(events)|
    ensures LogOf(events + [Crash(0)]) == LogOf(events)[..Reach(events).durable]
    ensures Reach(events + [Crash(0)]).durable == Reach(events).durable
  {
    hide Consistent;
    RunsAreGood(events);
    ReachSnoc(events, Crash(0));
  }

  /** A put into an empty log: completed, or dying with its record left in the file; and the crash that takes it again. */
  lemma FirstPut(op: Op, now: int)
    requires op.Put?
    ensures var left := Run(Reopened([RecordFor(op, 1)]), 0);
            && After(Run(Reopened([]), 0), Call(op, now)) == left.(durable := 1)
            && After(Run(Reopened([]), 0), CrashIn(op, now, 1)) == left
            && After(left, Crash(0)) == Run(Reopened([]), 0)
  {
    hide Replay, Exec;
    var rec := RecordFor(op, 1);
    ReplayNothing();
    ExecIsHistory(Reopened([]), op, now);
    assert [] + [rec] == [rec] && [rec][..1] == [rec] && [rec][..0] == [];
  }

  /**
   * The input at which a recovered record is lost: the process dies after the flush and before the fsync, the record is
   * recovered and a retry is answered from it, and the next crash takes it away.
   */
  lemma RecoveredRecordLost(op: Op, now: int)
    requires op.Put? && op.idem != []
    ensures LogOf([CrashIn(op, now, 1)]) == [RecordFor(op, 1)]
    ensures Exec(Reach([CrashIn(op, now, 1)]).db, op, now, true).1 == Done(Outcome(1, 1, true))
    ensures LogOf([CrashIn(op, now, 1), Call(op, now), Crash(0)]) == []
  {
    hide Reach, After, Exec;
    var e1, e2 := [CrashIn(op, now, 1)], [CrashIn(op, now, 1), Call(op, now)];
    NewRun([]);
    FirstPut(op, now);
    ReachSnoc([], CrashIn(op, now, 1));
    assert [] + e1 == e1;
    RetryOf(e1, 1, op, now, true);
    ReachSnoc(e1, Call(op, now));
    assert e1 + [Call(op, now)] == e2;
    assert Reach(e2) == Reach(e1) by { SameAfterRetry(Reach(e1), op, now); }
    ReachSnoc(e2, Crash(0));
    assert e2 + [Crash(0)] == [CrashIn(op, now, 1), Call(op, now), Crash(0)];
  }

  lemma SameAfterRetry(r: Run, op: Op, now: int)
    requires Exec(r.db, op, now, true).0 == r.db
    ensures After(r, Call(op, now)) == r
  {
  }

  // ---------------------------------------------------------------- reading what was written

  /** The new record of a call is the one its operation asks for. */
  lemma AppendedIs(events: seq<Event>, i: nat)
    requires i < |events| && Appended(events, i)
    ensures var p := |LogOf(events[..i + 1])|;
            && p == |LogOf(events[..i])| + 1 && p == Reach(events[..i + 1]).durable
            && LogOf(events[..i + 1])[p - 1] == RecordFor(events[i].op, p)
  {
    hide Reach, Exec, Replay;
    ReachStep(events, i);
    ExecGrows(Reach(events[..i]).db, events[i].op, events[i].now);
    DurableAfter(Reach(events[..i]), events[i]);
  }

  /**
   * Reads see completed writes: until another record touches its key, what a call that came back with a position wrote
   * or deleted is what every read finds, at any time and after any restarts and crashes.
   */
  lemma ReadsLastWrite(events: seq<Event>, i: nat, t: int)
    requires i < |events| && Appended(events, i) && NoReset(events, i, |events|)
    requires forall n :: |LogOf(events[..i + 1])| <= n < |LogOf(events)| ==> !Touches(LogOf(events)[n], events[i].op.key)
    ensures Lookup(Reach(events).db.cache.index, events[i].op.key, t) == Leaves(events[i].op, |LogOf(events[..i + 1])|, t)
  {
    hide Reach, Replay, Lookup;
    var p := |LogOf(events[..i + 1])|;
    AppendedIs(events, i);
    KeptStays(events, i + 1, p);
    LastIs(LogOf(events), events[i].op.key, p);
    CacheEqualsReplay(events);
    LookupIsHistory(Reach(events).db, events[i].op.key, t);
  }

  // ---------------------------------------------------------------- exactly-once retries

  ghost predicate UniqueKeys(log: Log) {
    forall i, j :: 0 <= i < j < |log| && log[i].idem != [] ==> log[i].idem != log[j].idem
  }

  lemma AfterUnique(r: Run, e: Event)
    requires Good(r) && UniqueKeys(r.db.log)
    ensures UniqueKeys(After(r, e).db.log)
  {
    hide Replay, Replay1, VersionIn;
    if (e.Call? || e.CrashIn?) && e.op.idem != [] {
      DedupIsLastUse(r.db.log, e.op.idem);
    }
  }

  /** No run ever puts two records with the same idempotency key into the log, retries after crashes included. */
  lemma {:induction false} NoDuplicateCommits(events: seq<Event>)
    ensures UniqueKeys(LogOf(events))
  {
    hide After, Replay;
    if events != [] {
      NoDuplicateCommits(events[..|events| - 1]);
      RunsAreGood(events[..|events| - 1]);
      AfterUnique(Reach(events[..|events| - 1]), events[|events| - 1]);
    }
  }

  /** A call whose idempotency key is in the log returns that record's position and changes nothing. */
  lemma RetryOf(events: seq<Event>, p: nat, op: Op, now: int, ok: bool)
    requires 1 <= p <= |LogOf(events)| && op.idem != [] && LogOf(events)[p - 1].idem == op.idem
    ensures Exec(Reach(events).db, op, now, ok) == (Reach(events).db, Done(Outcome(p, p, true)))
  {
    hide Reach, Replay, Replay1;
    NoDuplicateCommits(events);
    CacheEqualsReplay(events);
    DedupIsLastUse(LogOf(events), op.idem);
    UsedIs(LogOf(events), op.idem, p);
  }

  /**
   * Once a record with idempotency key `op.idem` is at position `p` and durable, every later call with that key, whatever
   * it asks for and whatever happened in between short of a reset, returns `p` and changes nothing. For a record that
   * is not durable the same holds as long as there is no crash.
   */
  lemma RetryReturnsOriginal(events: seq<Event>, i: nat, p: nat, op: Op, now: int, ok: bool)
    requires i <= |events| && Kept(events, i, p)
    requires 1 <= p <= |LogOf(events[..i])| && op.idem != [] && LogOf(events[..i])[p - 1].idem == op.idem
    ensures Exec(Reach(events).db, op, now, ok) == (Reach(events).db, Done(Outcome(p, p, true)))
  {
    hide Reach, Kept, Exec;
    KeptStays(events, i, p);
    RetryOf(events, p, op, now, ok);
  }

  /** A call that came back with a new position is safe to retry forever, across any crashes. */
  lemma CommittedCallRetries(events: seq<Event>, i: nat, op: Op, now: int)
    requires i < |events| && Appended(events, i) && NoReset(events, i, |events|)
    requires op.idem != [] && op.idem == events[i].op.idem
    ensures var p := |LogOf(events[..i + 1])|;
            Exec(Reach(events).db, op, now, true) == (Reach(events).db, Done(Outcome(p, p, true)))
  {
    hide Reach, Exec;
    var p := |LogOf(events[..i + 1])|;
    ReachStep(events, i);
    ExecGrows(Reach(events[..i]).db, events[i].op, events[i].now);
    assert LogOf(events[..i + 1])[p - 1].idem == op.idem;
    RetryReturnsOriginal(events, i + 1, p, op, now, true);
  }

  ghost predicate AlwaysRetried(events: seq<Event>, p: nat, op: Op) {
    forall more :: NoResets(more) ==>
      Exec(Reach(events + more).db, op, 0, true) == (Reach(events + more).db, Done(Outcome(p, p, true)))
  }

  /** Retries of a record in the log are answered from it in every future exactly when a successful Append has covered it. */
  lemma AlwaysRetriedIff(events: seq<Event>, p: nat, op: Op)
    requires 1 <= p <= |LogOf(events)| && op.idem != [] && LogOf(events)[p - 1].idem == op.idem
    ensures AlwaysRetried(events, p, op) <==> CoveredByAppend(events, p)
  {
    hide Reach, CoveredByAppend, Exec;
    DurableIff(events, p);
    if p <= Reach(events).durable {
      forall more | NoResets(more)
        ensures Exec(Reach(events + more).db, op, 0, true) == (Reach(events + more).db, Done(Outcome(p, p, true)))
      {
        FutureOf(events, more);
        RetryReturnsOriginal(events + more, |events|, p, op, 0, true);
      }
    } else {
      var lost := events + [Crash(0)];
      assert NoResets([Crash(0)]);
      WorstCrash(events);
      NoDuplicateCommits(events);
      UsedIs(LogOf(lost), op.idem, 0);
      CacheEqualsReplay(lost);
      ExecIsHistory(Reach(lost).db, op, 0);
    }
  }

  // ---------------------------------------------------------------- compare-and-set

  /**
   * A compare-and-set against version `v > 0` commits exactly when its idempotency key is fresh and the key's last
   * record is the Put at position `v`, not expired at the time of the call.
   */
  lemma CasCommitsIff(events: seq<Event>, op: Op, now: int)
    requires op.Cas? && op.expected > 0
    ensures var log := LogOf(events);
            Commits(Reach(events).db, op, now) <==>
            && (op.idem == [] || Used(log, op.idem) == 0)
            && Last(log, op.key) == op.expected && log[op.expected - 1].kind == KIND_PUT
            && !Expired(EntryOf(log[op.expected - 1]), now)
  {
    hide Reach, Replay, Replay1, Commits;
    CacheEqualsReplay(events);
    CommitsIsHistory(Reach(events).db, op, now);
  }

  /** With version 0 it commits exactly when the idempotency key is fresh and the key is absent, deleted or expired. */
  lemma CasCreatesIff(events: seq<Event>, op: Op, now: int)
    requires op.Cas? && op.expected == 0
    ensures var log := LogOf(events);
            Commits(Reach(events).db, op, now) <==>
            && (op.idem == [] || Used(log, op.idem) == 0)
            && (Present(log, op.key) ==> Expired(EntryOf(log[Last(log, op.key) - 1]), now))
  {
    hide Reach, Replay, Replay1, Commits;
    CacheEqualsReplay(events);
    CommitsIsHistory(Reach(events).db, op, now);
  }

  /**
   * No ABA: let a read have returned version `v` and let that record be durable, or let there be no crash since. A
   * compare-and-set that then commits on `v` meets the very record that was read, and nothing wrote or deleted the key
   * in between.
   */
  lemma NoAba(events: seq<Event>, i: nat, key: Bytes, seen: int, op: Op, now: int)
    requires i <= |events| && op.Cas? && op.key == key && Kept(events, i, op.expected)
    requires var r := Lookup(Reach(events[..i]).db.cache.index, key, seen); r.Found? && r.version == op.expected
    requires Commits(Reach(events).db, op, now)
    ensures 0 < op.expected <= |LogOf(events[..i])| && op.expected <= |LogOf(events)|
    ensures LogOf(events)[op.expected - 1] == LogOf(events[..i])[op.expected - 1]
    ensures forall n :: op.expected <= n < |LogOf(events)| ==> !Touches(LogOf(events)[n], key)
  {
    hide Reach, Replay, Replay1, Exec, Kept;
    ReadVersion(events[..i], key, seen);
    KeptStays(events, i, op.expected);
    CasCommitsIff(events, op, now);
  }

  /** A version that was read is the position of the key's last record, a Put with the value that was read. */
  lemma ReadVersion(events: seq<Event>, key: Bytes, seen: int)
    requires Lookup(Reach(events).db.cache.index, key, seen).Found?
    ensures var r := Lookup(Reach(events).db.cache.index, key, seen);
            && 0 < r.version <= |LogOf(events)| && r.version == Last(LogOf(events), key)
            && LogOf(events)[r.version - 1].value == r.value
  {
    hide Reach, Replay;
    CacheEqualsReplay(events);
    LookupIsHistory(Reach(events).db, key, seen);
  }

  /** Whatever happens short of a reset, a compare-and-set that commits on `v` meets the record that is at `v` now. */
  ghost predicate VersionIdentifies(events: seq<Event>, key: Bytes, v: nat)
    requires 1 <= v <= |LogOf(events)|
  {
    forall more, op: Op, now :: NoResets(more) && op.Cas? && op.key == key && op.expected == v
                                && Commits(Reach(events + more).db, op, now) ==>
      v <= |LogOf(events + more)| && LogOf(events + more)[v - 1] == LogOf(events)[v - 1]
  }

  /** A version that was read identifies its record in every future exactly when a successful Append has covered it. */
  lemma VersionIdentifiesIff(events: seq<Event>, key: Bytes, seen: int)
    requires Lookup(Reach(events).db.cache.index, key, seen).Found?
    ensures var v := Lookup(Reach(events).db.cache.index, key, seen).version;
            && 1 <= v <= |LogOf(events)|
            && (VersionIdentifies(events, key, v) <==> CoveredByAppend(events, v))
  {
    hide Reach, CoveredByAppend, Commits, Lookup;
    var v := Lookup(Reach(events).db.cache.index, key, seen).version;
    ReadVersion(events, key, seen);
    DurableIff(events, v);
    if v <= Reach(events).durable {
      forall more, op: Op, now | NoResets(more) && op.Cas? && op.key == key && op.expected == v
                                 && Commits(Reach(events + more).db, op, now)
        ensures v <= |LogOf(events + more)| && LogOf(events + more)[v - 1] == LogOf(events)[v - 1]
      {
        FutureOf(events, more);
        KeptStays(events + more, |events|, v);
      }
    } else {
      var more, op := AbaAfterCrash(events, key, v);
    }
  }

  /** The failing future: the record at `v` is lost and others take the positions up to `v`, the last of them a Put of the key. */
  lemma AbaAfterCrash(events: seq<Event>, key: Bytes, v: nat) returns (more: seq<Event>, op: Op)
    requires Reach(events).durable < v <= |LogOf(events)|
    ensures NoResets(more) && op.Cas? && op.key == key && op.expected == v && Commits(Reach(events + more).db, op, 0)
    ensures v <= |LogOf(events + more)| && LogOf(events + more)[v - 1] != LogOf(events)[v - 1]
  {
    hide Reach, Commits, Exec;
    var value := LogOf(events)[v - 1].value + [0];
    var put := Put(key, value, 0, []);
    var n := v - Reach(events).durable;
    more := [Crash(0)] + Repeat(Call(put, 0), n);
    op := Cas(key, [], v, 0, []);
    WorstCrash(events);
    assert events + more == events + [Crash(0)] + Repeat(Call(put, 0), n);
    Refill(events + [Crash(0)], put, n);
    var log := LogOf(events + more);
    assert log[v - 1] == RecordFor(put, v);
    LastIs(log, key, v);
    CasCommitsIff(events + more, op, 0);
  }

  function Repeat(e: Event, n: nat): (es: seq<Event>)
    ensures |es| == n && forall i :: 0 <= i < n ==> es[i] == e
  {
    seq(n, _ => e)
  }

  lemma {:induction false} Refill(events: seq<Event>, put: Op, n: nat)
    requires put.Put? && put.idem == []
    ensures var log, log2 := LogOf(events), LogOf(events + Repeat(Call(put, 0), n));
            |log2| == |log| + n && log <= log2 && (n > 0 ==> log2[|log2| - 1] == RecordFor(put, |log2|))
  {
    hide Reach;
    if n == 0 {
      assert events + Repeat(Call(put, 0), n) == events;
    } else {
      Refill(events, put, n - 1);
      var before := events + Repeat(Call(put, 0), n - 1);
      assert events + Repeat(Call(put, 0), n) == before + [Call(put, 0)];
      ReachSnoc(before, Call(put, 0));
    }
  }

  /** The event left a new record in the log. */
  predicate Wrote(events: seq<Event>, i: nat)
    requires i < |events|
  {
    |LogOf(events[..i + 1])| > |LogOf(events[..i])|
  }

  predicate IsCas(e: Event, key: Bytes, v: nat) {
    (e.Call? || e.CrashIn?) && e.op.Cas? && e.op.key == key && e.op.expected == v
  }

  lemma WroteMeansCommits(r: Run, e: Event)
    requires Good(r) && (e.Call? || e.CrashIn?) && |After(r, e).db.log| > |r.db.log|
    ensures Commits(r.db, e.op, e.now) && After(r, e).db.log == r.db.log + [RecordFor(e.op, |r.db.log| + 1)]
  {
    hide Replay, Replay1, Consistent;
  }

  /**
   * Of the compare-and-sets on one key and version, a second one writes only if the record of the first was lost: as
   * long as the log still extends what the first left behind, none does.
   */
  lemma CasWinsOnce(events: seq<Event>, i: nat, j: nat, key: Bytes, v: nat)
    requires i < j < |events| && v > 0
    requires IsCas(events[i], key, v) && IsCas(events[j], key, v) && Wrote(events, i)
    requires LogOf(events[..i + 1]) <= LogOf(events[..j])
    ensures !Wrote(events, j)
  {
    hide Reach, Replay, Replay1, Exec, After, Commits;
    ReachStep(events, i);
    RunsAreGood(events[..i]);
    WroteMeansCommits(Reach(events[..i]), events[i]);
    var n := |LogOf(events[..i])|;
    assert LogOf(events[..j])[n] == RecordFor(events[i].op, n + 1);
    CasCommitsIff(events[..i], events[i].op, events[i].now);
    CasCommitsIff(events[..j], events[j].op, events[j].now);
    ReachStep(events, j);
    RunsAreGood(events[..j]);
    if Wrote(events, j) {
      WroteMeansCommits(Reach(events[..j]), events[j]);
    }
  }

  /** In particular none does once a compare-and-set has returned success, whatever crashes follow. */
  lemma CompletedCasWinsOnce(events: seq<Event>, i: nat, j: nat, key: Bytes, v: nat)
    requires i < j < |events| && v > 0 && NoReset(events, i, j)
    requires IsCas(events[i], key, v) && IsCas(events[j], key, v) && Appended(events, i)
    ensures !Wrote(events, j)
  {
    hide Reach, Exec;
    ReachStep(events, i);
    DurableStays(events, i + 1, j);
    assert LogOf(events[..i + 1])[..|LogOf(events[..i + 1])|] == LogOf(events[..i + 1]);
    CasWinsOnce(events, i, j, key, v);
  }

  /** The input at which two do: the first dies before its fsync, its record is recovered and then lost. */
  lemma CasWinsTwice(key: Bytes, a: Bytes, b: Bytes)
    ensures var events := [Call(Put(key, [], 0, []), 0), CrashIn(Cas(key, a, 1, 0, []), 0, 2), Crash(1),
                           Call(Cas(key, b, 1, 0, []), 0)];
            IsCas(events[1], key, 1) && IsCas(events[3], key, 1) && Wrote(events, 1) && Wrote(events, 3)
  {
    hide Reach, Exec, Replay, After;
    var put, cas1, cas2 := Put(key, [], 0, []), Cas(key, a, 1, 0, []), Cas(key, b, 1, 0, []);
    var events := [Call(put, 0), CrashIn(cas1, 0, 2), Crash(1), Call(cas2, 0)];
    var start := Run(Reopened([RecordFor(put, 1)]), 1);
    NewRun(events[..0]);
    ReachStep(events, 0);
    FirstPut(put, 0);
    ReachStep(events, 1);
    SecondCas(put, cas1);
    ReachStep(events, 2);
    ReachStep(events, 3);
    SecondCas(put, cas2);
  }

  /** A compare-and-set on the first put: completed, or dying with its record left in the file; and the crash that takes it. */
  lemma SecondCas(put: Op, cas: Op)
    requires put.Put? && put.idem == [] && put.expires == 0
    requires cas.Cas? && cas.key == put.key && cas.expected == 1 && cas.idem == []
    ensures var start := Run(Reopened([RecordFor(put, 1)]), 1);
            var both := [RecordFor(put, 1), RecordFor(cas, 2)];
            && After(start, Call(cas, 0)).db.log == both
            && After(start, CrashIn(cas, 0, 2)) == Run(Reopened(both), 1)
            && After(Run(Reopened(both), 1), Crash(1)) == start
  {
    hide Replay, Exec;
    var first := RecordFor(put, 1);
    var both := [first, RecordFor(cas, 2)];
    LastIs([first], put.key, 1);
    ExecIsHistory(Reopened([first]), cas, 0);
    assert [first] + [RecordFor(cas, 2)] == both && both[..2] == both && both[..1] == [first];
  }

  lemma NewRun(events: seq<Event>)
    requires events == []
    ensures Reach(events) == Run(Reopened([]), 0)
  {
  }

  // ---------------------------------------------------------------- down to the bytes

  /** Recovery of a file that is cut somewhere behind its first `durable` records. */
  lemma OpenOfCut(crc: Checksum, log: Log, durable: nat, keep: nat)
    requires WellFormed(log) && durable <= |log|
    requires |FileBytes(crc, log[..durable])| <= keep <= |FileBytes(crc, log)|
    ensures var o := OpenFile(crc, FileBytes(crc, log)[..keep]);
            && o.Opened? && durable <= |o.recs| && o.recs <= log && o.file == FileBytes(crc, o.recs)
  {
    hide Frame, Encodable, LogBytes, Complete, OpenFile;
    RecoveryIsExact(crc, log, keep);
    CompleteIsLargest(crc, log, keep - HEADER_SIZE, durable);
  }

  /**
   * Dying inside a call, at any byte behind the durable records: what recovery then reads from the file makes the engine
   * the outcome of `CrashIn` with the number of records that are complete in what is left.
   */
  lemma CrashOnDisk(crc: Checksum, events: seq<Event>, op: Op, now: int, keep: nat)
    requires var log := Exec(Reach(events).db, op, now, true).0.log;
             && (forall r :: r in log ==> Encodable(r))
             && |FileBytes(crc, Cut(LogOf(events), Reach(events).durable, 0))| <= keep <= |FileBytes(crc, log)|
    ensures var log := Exec(Reach(events).db, op, now, true).0.log;
            var o := OpenFile(crc, FileBytes(crc, log)[..keep]);
            && o.Opened?
            && Reopened(o.recs) == Reach(events + [CrashIn(op, now, |o.recs|)]).db
            && o.file == FileBytes(crc, o.recs)
  {
    hide Encodable, FileBytes, OpenFile, Replay, Exec, ExecOnLog, Reach;
    var r := Reach(events);
    var log := Exec(r.db, op, now, true).0.log;
    RunsAreGood(events);
    ExecIsHistory(r.db, op, now);
    ExecGrows(r.db, op, now);
    assert log[..r.durable] == r.db.log[..r.durable];
    OpenOfCut(crc, log, r.durable, keep);
    var recs := OpenFile(crc, FileBytes(crc, log)[..keep]).recs;
    assert recs == log[..|recs|];
    ReachSnoc(events, CrashIn(op, now, |recs|));
  }
}
