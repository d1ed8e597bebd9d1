/** What group commit guarantees over whole runs: any interleaving of calls, I/O failures, crashes and restarts. */
module GroupCommitRuns {
  import opened ByteSeqs
  import opened Codec
  import opened Recovery
  import opened GroupCommit

  /** `ss` are the states of a run that starts with a new log and takes `steps`. */
  ghost predicate IsRun(crc: Checksum, ss: seq<State>, steps: seq<Step>) {
    && |ss| == |steps| + 1 && ss[0] == Start()
    && forall i :: 0 <= i < |steps| ==> Takes(crc, ss[i], steps[i], ss[i + 1])
  }

  lemma {:induction false} RunKeepsInv(crc: Checksum, ss: seq<State>, steps: seq<Step>, i: nat)
    requires IsRun(crc, ss, steps) && i < |ss|
    ensures Inv(crc, ss[i])
  {
    hide Inv, Takes;
    if i == 0 {
      StartInv(crc);
    } else {
      RunKeepsInv(crc, ss, steps, i - 1);
      StepKeeps(crc, ss[i - 1], steps[i - 1], ss[i]);
    }
  }

  // ---------------------------------------------------------------- acknowledgements

  ghost predicate Extends(a: map<nat, Record>, b: map<nat, Record>) {
    forall p :: p in a ==> p in b && b[p] == a[p]
  }

  /** A step acknowledges at most one record, the one its call buffered, at a position never acknowledged before. */
  lemma AckIsNew(crc: Checksum, s: State, step: Step, s2: State)
    requires Inv(crc, s) && Takes(crc, s, step, s2)
    ensures s2.acked == s.acked ||
            ((step.SyncDone? || step.Wake?) && step.t in s.g.calls
             && var r := s.g.calls[step.t].rec; r.pos !in s.acked && s2.acked == s.acked[r.pos := r])
  {
    hide Frame, FileBytes, End, Encodable, StorageInv, GroupInv, DurableInv, OpenFile;
  }

  /** Acknowledgements are never taken back and never change, whatever happens later. */
  lemma {:induction false} AckedForever(crc: Checksum, ss: seq<State>, steps: seq<Step>, i: nat, j: nat)
    requires IsRun(crc, ss, steps) && i <= j < |ss|
    ensures Extends(ss[i].acked, ss[j].acked)
    decreases j
  {
    hide Inv, Takes;
    if i < j {
      AckedForever(crc, ss, steps, i, j - 1);
      RunKeepsInv(crc, ss, steps, j - 1);
      AckIsNew(crc, ss[j - 1], steps[j - 1], ss[j]);
    }
  }

  /**
   * Crash durability: take any run, any moment `i` in it and any later moment `j` at which the machine goes down,
   * leaving any byte prefix of the file that contains the durable bytes. Recovery succeeds, yields a prefix of the
   * log in assignment order, and every record acknowledged by moment `i` is in it, unchanged, at its position.
   */
  lemma CrashDurability(crc: Checksum, ss: seq<State>, steps: seq<Step>, i: nat, j: nat, keep: nat)
    requires IsRun(crc, ss, steps) && i <= j < |ss| && ss[j].durable <= keep <= |ss[j].st.file|
    ensures var r := OpenFile(crc, ss[j].st.file[..keep]);
            && r.Opened? && r.recs <= ss[j].st.log
            && forall p :: p in ss[i].acked ==> 1 <= p <= |r.recs| && r.recs[p - 1] == ss[i].acked[p]
  {
    hide Takes, StorageInv, OpenFile, FileBytes, End, GroupInv, CallsInv, DurableInv;
    var s := ss[j];
    RunKeepsInv(crc, ss, steps, j);
    AckedForever(crc, ss, steps, i, j);
    WholeFile(crc, s.st);
    ReopenFinds(crc, s, s.st.file[..keep]);
    var r := OpenFile(crc, s.st.file[..keep]);
    forall p | p in ss[i].acked ensures 1 <= p <= |r.recs| && r.recs[p - 1] == ss[i].acked[p] {
      ReopenKeepsAcked(crc, s, r.recs, p);
    }
  }

  /** An acknowledged record stays in the running log at its position: no acknowledged position is ever reused. */
  lemma AckedStaysInLog(crc: Checksum, ss: seq<State>, steps: seq<Step>, i: nat, j: nat, p: nat)
    requires IsRun(crc, ss, steps) && i <= j < |ss| && p in ss[i].acked
    ensures 1 <= p <= |ss[j].st.log| == ss[j].st.next - 1 && ss[j].st.log[p - 1] == ss[i].acked[p]
  {
    hide Takes, FileBytes, End, GroupInv, CallsInv;
    RunKeepsInv(crc, ss, steps, j);
    AckedForever(crc, ss, steps, i, j);
  }

  // ---------------------------------------------------------------- no false acknowledgement

  predicate IsRestart(step: Step) {
    step.Crash? || step.CloseAndOpen?
  }

  /** While the process lives, `flushedSeq`, `pendingSeq` and the durable bytes never decrease and the log only grows. */
  lemma CountersGrow(crc: Checksum, s: State, step: Step, s2: State)
    requires Inv(crc, s) && Takes(crc, s, step, s2) && !IsRestart(step)
    ensures s.g.flushedSeq <= s2.g.flushedSeq && s.g.pendingSeq <= s2.g.pendingSeq
    ensures s.durable <= s2.durable && s.base == s2.base
    ensures s.st.log <= s2.st.log && s.st.byteOffsets <= s2.st.byteOffsets
  {
    hide Frame, FileBytes, End, Encodable, StorageInv, CallsInv, DurableInv, Written;
  }

  /** In every reachable state: no pending error means everything up to `flushedSeq` survives any crash. */
  lemma NoFalseAcknowledgement(crc: Checksum, ss: seq<State>, steps: seq<Step>, i: nat, keep: nat, n: nat)
    requires IsRun(crc, ss, steps) && i < |ss| && ss[i].durable <= keep <= |ss[i].st.file|
    requires !ss[i].g.flushErr && 1 <= n <= ss[i].g.flushedSeq
    ensures var r := OpenFile(crc, ss[i].st.file[..keep]);
            var p := ss[i].base + n;
            r.Opened? && p <= |r.recs| && p <= |ss[i].st.log| && r.recs[p - 1] == ss[i].st.log[p - 1]
  {
    hide Takes, StorageInv, OpenFile, FileBytes, End, GroupInv, CallsInv;
    var s := ss[i];
    RunKeepsInv(crc, ss, steps, i);
    WholeFile(crc, s.st);
    ReopenFinds(crc, s, s.st.file[..keep]);
    EndMonotone(crc, s.st.log, s.base + n, s.base + s.g.flushedSeq);
  }

  // ---------------------------------------------------------------- waiters and leaders

  /** At most one leader; without one nobody is left uncovered; with one, every uncovered waiter is behind it. */
  lemma OneLeaderNoStrandedWaiter(crc: Checksum, ss: seq<State>, steps: seq<Step>, i: nat)
    requires IsRun(crc, ss, steps) && i < |ss|
    ensures var g := ss[i].g;
            && (forall t, u :: IsLeader(g, t) && IsLeader(g, u) ==> t == u)
            && (g.leading <==> exists t :: IsLeader(g, t))
            && (!g.leading ==> g.flushedSeq == g.pendingSeq)
            && (forall t :: t in g.calls && !g.leading ==> g.calls[t].Waiting? && g.flushedSeq >= g.calls[t].mySeq)
  {
    hide Takes, StorageInv, CallsInv, DurableInv;
    RunKeepsInv(crc, ss, steps, i);
    var g := ss[i].g;
    forall t | t in g.calls && !g.leading ensures g.calls[t].Waiting? && g.flushedSeq >= g.calls[t].mySeq {
      assert !IsLeader(g, t);
    }
  }

  /** The steps by which calls in flight move on. */
  predicate MovesOn(step: Step) {
    step.SyncFails? || step.SyncDone? || step.SyncAgain? || step.SyncThenFlushFails? || step.Wake?
  }

  /** How many such steps can still happen before new calls arrive. */
  function Work(g: Group): (w: int) {
    g.pendingSeq - g.flushedSeq + |g.calls|
  }

  /** The steps that end a flush-and-sync round, a first round whose flush fails included. */
  predicate EndsRound(step: Step) {
    step.SyncFails? || step.SyncDone? || step.SyncAgain? || step.SyncThenFlushFails? || step.LeadFlushFails?
  }

  /** Every finished round, successful or not, strictly advances `flushedSeq`. */
  lemma RoundAdvances(crc: Checksum, s: State, step: Step, s2: State)
    requires Inv(crc, s) && Takes(crc, s, step, s2) && EndsRound(step)
    ensures s.g.flushedSeq < s2.g.flushedSeq
  {
    hide Frame, FileBytes, End, Encodable, StorageInv, CallsInv, DurableInv, Written;
    if !step.LeadFlushFails? {
      assert IsLeader(s.g, step.t);
    }
  }

  /** Steps in which an I/O operation fails. */
  predicate Fails(step: Step) {
    step.Reject? || step.LeadFlushFails? || step.SyncFails? || step.SyncThenFlushFails? || step.CloseFails?
  }

  /** Only the end of a round moves `flushedSeq` and decides over the pending error: set by a failure, cleared by success. */
  lemma RoundDecidesError(crc: Checksum, s: State, step: Step, s2: State)
    requires Takes(crc, s, step, s2) && !IsRestart(step)
    ensures s2.g.flushErr == if EndsRound(step) then Fails(step) else s.g.flushErr
    ensures !EndsRound(step) ==> s2.g.flushedSeq == s.g.flushedSeq
  {
    hide Frame, Encodable, Written, WriteFailed;
  }

  /** There is a pending error exactly when the last round that ended, in the life of this process, failed. */
  lemma {:induction false} PendingErrorIff(crc: Checksum, ss: seq<State>, steps: seq<Step>, j: nat)
    requires IsRun(crc, ss, steps) && j < |ss|
    ensures ss[j].g.flushErr <==>
            exists k :: 0 <= k < j && EndsRound(steps[k]) && Fails(steps[k])
                        && forall m :: k < m < j ==> !EndsRound(steps[m]) && !IsRestart(steps[m])
  {
    hide Takes, EndsRound, Fails, IsRestart;
    if j > 0 {
      PendingErrorIff(crc, ss, steps, j - 1);
      if IsRestart(steps[j - 1]) {
        RestartHasNoError(crc, ss[j - 1], steps[j - 1], ss[j]);
      } else {
        RoundDecidesError(crc, ss[j - 1], steps[j - 1], ss[j]);
        if ss[j].g.flushErr && !EndsRound(steps[j - 1]) {
          var k :| 0 <= k < j - 1 && EndsRound(steps[k]) && Fails(steps[k])
                   && forall m :: k < m < j - 1 ==> !EndsRound(steps[m]) && !IsRestart(steps[m]);
          assert forall m :: k < m < j ==> !EndsRound(steps[m]) && !IsRestart(steps[m]);
        }
      }
    }
  }

  lemma RestartHasNoError(crc: Checksum, s: State, step: Step, s2: State)
    requires Takes(crc, s, step, s2) && IsRestart(step)
    ensures !s2.g.flushErr && !EndsRound(step)
  {
    hide OpenFile;
  }

  /** An error that a waiter finds after `flushedSeq` has moved comes from a round that failed since. */
  lemma {:induction false} ErrorHasCause(crc: Checksum, ss: seq<State>, steps: seq<Step>, i: nat, j: nat)
    requires IsRun(crc, ss, steps) && i <= j < |ss| && forall k :: i <= k < j ==> !IsRestart(steps[k])
    requires ss[i].g.flushedSeq != ss[j].g.flushedSeq && ss[j].g.flushErr
    ensures exists k :: i <= k < j && EndsRound(steps[k]) && Fails(steps[k])
    decreases j
  {
    hide Takes, EndsRound, Fails, IsRestart;
    if i < j {
      RoundDecidesError(crc, ss[j - 1], steps[j - 1], ss[j]);
      if !EndsRound(steps[j - 1]) {
        ErrorHasCause(crc, ss, steps, i, j - 1);
      }
    }
  }

  lemma MoveDecreasesWork(crc: Checksum, s: State, step: Step, s2: State)
    requires Inv(crc, s) && Takes(crc, s, step, s2) && MovesOn(step)
    ensures 0 <= Work(s2.g) < Work(s.g)
  {
    hide Frame, FileBytes, End, Encodable, StorageInv, CallsInv, DurableInv, Written;
    StepKeeps(crc, s, step, s2);
    var t := step.t;
    assert t in s.g.calls;
    assert (s.g.calls - {t}).Keys == s.g.calls.Keys - {t};
    if step.SyncAgain? {
      assert s2.g.calls.Keys == s.g.calls.Keys;
    } else {
      assert s2.g.calls == s.g.calls - {t};
    }
    if !step.Wake? {
      RoundAdvances(crc, s, step, s2);
    }
  }

  /** Unless the writer is broken with records still unflushed, the leader's Sync may succeed and the round ends well. */
  lemma LeaderCanSucceed(crc: Checksum, s: State, t: nat) returns (step: Step, s2: State)
    requires Inv(crc, s) && IsLeader(s.g, t) && (!s.st.broken || s.g.calls[t].flushSeq == s.g.pendingSeq)
    ensures (step.SyncDone? || step.SyncAgain?) && Takes(crc, s, step, s2)
  {
    hide Frame, FileBytes, End, Encodable, StorageInv, GroupInv;
    var c := s.g.calls[t];
    var durable := |s.st.file|;
    if c.flushSeq == s.g.pendingSeq {
      step := SyncDone(t, durable);
      s2 := s.(g := SteppedDown(RoundBooked(s.g, c.flushSeq), t), durable := durable,
               acked := s.acked[c.rec.pos := c.rec]);
    } else {
      var st := Flushed(s.st);
      step := SyncAgain(t, durable);
      s2 := s.(st := st, durable := durable,
               g := RoundBegun(RoundBooked(s.g, c.flushSeq), t, c.mySeq, c.rec, |st.file|));
    }
  }

  lemma CoveredCanWake(crc: Checksum, s: State, t: nat) returns (step: Step, s2: State)
    requires Inv(crc, s) && !s.g.leading && t in s.g.calls
    ensures MovesOn(step) && Takes(crc, s, step, s2)
  {
    hide Frame, FileBytes, End, Encodable, StorageInv, CallsInv, DurableInv;
    assert !IsLeader(s.g, t);
    var c := s.g.calls[t];
    step := Wake(t);
    s2 := s.(g := s.g.(calls := s.g.calls - {t}),
             acked := if s.g.flushErr then s.acked else s.acked[c.rec.pos := c.rec]);
  }

  /** As long as a call is in flight some call can move on. */
  lemma SomeoneCanMove(crc: Checksum, s: State) returns (step: Step, s2: State)
    requires Inv(crc, s) && s.g.calls != map[]
    ensures MovesOn(step) && Takes(crc, s, step, s2)
  {
    hide StorageInv, CallsInv, DurableInv;
    if s.g.leading {
      var t :| IsLeader(s.g, t);
      step, s2 := SyncFails(t), s.(g := GivenUp(s.g, t));
    } else {
      var t :| t in s.g.calls;
      step, s2 := CoveredCanWake(crc, s, t);
    }
  }

  /** Once arrivals stop, the calls in flight all return: at most `Work` further steps are possible. */
  lemma {:induction false} CallsDrain(crc: Checksum, ss: seq<State>, steps: seq<Step>, i: nat, j: nat)
    requires IsRun(crc, ss, steps) && i <= j < |ss|
    requires forall k :: i <= k < j ==> MovesOn(steps[k])
    ensures j - i <= Work(ss[i].g)
    ensures j - i == Work(ss[i].g) ==> ss[j].g.calls == map[]
  {
    hide Takes, Inv;
    DrainStep(crc, ss, steps, i, j);
    RunKeepsInv(crc, ss, steps, j);
    if j - i == Work(ss[i].g) && ss[j].g.calls != map[] {
      var step, s2 := SomeoneCanMove(crc, ss[j]);
      MoveDecreasesWork(crc, ss[j], step, s2);
      assert false;
    }
  }

  lemma {:induction false} DrainStep(crc: Checksum, ss: seq<State>, steps: seq<Step>, i: nat, j: nat)
    requires IsRun(crc, ss, steps) && i <= j < |ss|
    requires forall k :: i <= k < j ==> MovesOn(steps[k])
    ensures 0 <= Work(ss[j].g) <= Work(ss[i].g) - (j - i)
    decreases j
  {
    hide Takes;
    RunKeepsInv(crc, ss, steps, j);
    if i < j {
      DrainStep(crc, ss, steps, i, j - 1);
      RunKeepsInv(crc, ss, steps, j - 1);
      MoveDecreasesWork(crc, ss[j - 1], steps[j - 1], ss[j]);
    }
  }

  /** Group commit never costs more flush-and-sync rounds than records were buffered since the file was opened. */
  lemma RoundsBounded(crc: Checksum, ss: seq<State>, steps: seq<Step>, i: nat)
    requires IsRun(crc, ss, steps) && i < |ss|
    ensures ss[i].g.rounds <= ss[i].g.pendingSeq
  {
    hide Takes, StorageInv, CallsInv, DurableInv;
    RunKeepsInv(crc, ss, steps, i);
    var g := ss[i].g;
    if g.leading {
      var t :| IsLeader(g, t);
      assert g.flushedSeq < g.calls[t].flushSeq <= g.pendingSeq;
    }
  }

  // ---------------------------------------------------------------- range reads while calls are in flight

  lemma {:induction false} GrowsBetween(crc: Checksum, ss: seq<State>, steps: seq<Step>, i: nat, j: nat)
    requires IsRun(crc, ss, steps) && i <= j < |ss|
    requires forall k :: i <= k < j ==> !IsRestart(steps[k])
    ensures ss[i].st.byteOffsets <= ss[j].st.byteOffsets && ss[i].st.log <= ss[j].st.log
    decreases j
  {
    hide Takes, Inv;
    if i < j {
      GrowsBetween(crc, ss, steps, i, j - 1);
      RunKeepsInv(crc, ss, steps, j - 1);
      CountersGrow(crc, ss[j - 1], steps[j - 1], ss[j]);
    }
  }

  /** Records whose bytes are all in the file. */
  function InFile(crc: Checksum, st: Storage): (log: Log)
    requires |st.file| >= HEADER_SIZE
  {
    st.log[..Complete(crc, st.log, |st.file| - HEADER_SIZE)]
  }

  /**
   * A range read looks up its offset at moment `i` and reads the file at a later moment `j` of the same process.
   * It returns the contiguous slice from `from` of the records that are complete in the file by then, unless the
   * position was not yet assigned at moment `i`; then it returns nothing.
   */
  lemma ReadRangeDuringAppends(crc: Checksum, ss: seq<State>, steps: seq<Step>, i: nat, j: nat, from: nat, limit: int)
    requires IsRun(crc, ss, steps) && i <= j < |ss| && from <= TWO_63
    requires forall k :: i <= k < j ==> !IsRestart(steps[k])
    ensures |ss[j].st.file| >= HEADER_SIZE
    ensures RangeOf(crc, ss[i].st.byteOffsets, ss[j].st.file, from, limit) ==
            Range(if from <= |ss[i].st.byteOffsets| then Slice(InFile(crc, ss[j].st), from, limit) else [])
  {
    hide Takes, End, Complete, RangeOf, Slice, Frame, FileBytes, Encodable;
    RunKeepsInv(crc, ss, steps, j);
    GrowsBetween(crc, ss, steps, i, j);
    var st := ss[j].st;
    WholeFile(crc, st);
    assert st.file[..|st.file|] == st.file;
    ReadRangeIsSlice(crc, st.log, ss[i].st.byteOffsets, st.file, from, limit);
  }

  /** With index and file of the same moment the slice needs no exception. */
  lemma ReadRangeAtOnce(crc: Checksum, ss: seq<State>, steps: seq<Step>, i: nat, from: nat, limit: int)
    requires IsRun(crc, ss, steps) && i < |ss| && from <= TWO_63
    ensures |ss[i].st.file| >= HEADER_SIZE
    ensures RangeOf(crc, ss[i].st.byteOffsets, ss[i].st.file, from, limit) ==
            Range(Slice(InFile(crc, ss[i].st), from, limit))
  {
    hide Takes, Complete, RangeOf, Frame, FileBytes, Encodable, GroupInv, CallsInv, DurableInv, LogBytes;
    RunKeepsInv(crc, ss, steps, i);
    ReadRangeDuringAppends(crc, ss, steps, i, i, from, limit);
    var st := ss[i].st;
    if |st.byteOffsets| < |st.log| {
      CompleteIsLargest(crc, st.log, |st.file| - HEADER_SIZE, |st.byteOffsets| + 1);
    }
  }

  /** Acknowledged records are always in reach of a range read. */
  lemma AckedInFile(crc: Checksum, ss: seq<State>, steps: seq<Step>, i: nat, p: nat)
    requires IsRun(crc, ss, steps) && i < |ss| && p in ss[i].acked
    ensures |ss[i].st.file| >= HEADER_SIZE
    ensures 1 <= p <= |InFile(crc, ss[i].st)| && InFile(crc, ss[i].st)[p - 1] == ss[i].acked[p]
  {
    hide Takes, Complete, Frame, FileBytes, Encodable, GroupInv, CallsInv, StorageInv, LogBytes;
    RunKeepsInv(crc, ss, steps, i);
    CompleteIsLargest(crc, ss[i].st.log, |ss[i].st.file| - HEADER_SIZE, p);
  }

  // ---------------------------------------------------------------- one caller at a time

  /** Nobody is appending: the state a caller that serializes its appends is in between them. Part of the file may not be durable. */
  ghost predicate Idle(crc: Checksum, s: State) {
    Inv(crc, s) && s.g.calls == map[] && !s.g.leading && !s.st.broken && s.st.buf == []
  }

  /** How many records lie completely within the durable bytes. */
  function DurableCount(crc: Checksum, s: State): (n: nat)
    ensures n <= |s.st.log|
  {
    if s.durable < HEADER_SIZE then 0 else Complete(crc, s.st.log, s.durable - HEADER_SIZE)
  }

  lemma CountIsLargest(crc: Checksum, s: State, n: nat)
    requires n <= |s.st.log| && HEADER_SIZE <= s.durable
    ensures n <= DurableCount(crc, s) <==> End(crc, s.st.log, n) <= s.durable
  {
    hide Complete, LogBytes, Frame;
    CompleteIsLargest(crc, s.st.log, s.durable - HEADER_SIZE, n);
  }

  /** For such a caller a successful Append is one atomic extension of the log, and makes all of it durable. */
  lemma SoloAppend(crc: Checksum, s: State, t: nat, rec: Record, file: Bytes, buf: Bytes, s1: State, durable: nat, s2: State)
    requires Idle(crc, s)
    requires Takes(crc, s, Lead(t, rec, file, buf), s1) && Takes(crc, s1, SyncDone(t, durable), s2)
    ensures Idle(crc, s2) && s2.st.log == s.st.log + [rec.(pos := |s.st.log| + 1)]
    ensures DurableCount(crc, s2) == |s2.st.log|
    ensures s2.acked == s.acked[|s.st.log| + 1 := rec.(pos := |s.st.log| + 1)]
  {
    hide End, Frame, FileBytes, Encodable, GroupInv, CallsInv, DurableCount;
    LeadKeeps(crc, s, t, rec, file, buf, s1);
    SyncDoneKeeps(crc, s1, t, durable, s2);
    assert s1.g.calls - {t} == map[];
    CountIsLargest(crc, s2, |s2.st.log|);
    AllDurable(crc, s2);
  }

  lemma AllDurable(crc: Checksum, s: State)
    requires StorageInv(crc, s.st) && !s.st.broken && s.st.buf == [] && s.durable == |s.st.file|
    ensures End(crc, s.st.log, |s.st.log|) <= s.durable
  {
    hide Frame, LogBytes, Encodable;
    assert s.st.log[..|s.st.log|] == s.st.log;
    assert s.st.file + [] == s.st.file;
  }

  /** On a working disk such an Append is always possible. */
  lemma SoloAppendPossible(crc: Checksum, s: State, t: nat, rec: Record)
    returns (file: Bytes, buf: Bytes, s1: State, durable: nat, s2: State)
    requires Idle(crc, s) && s.durable <= |s.st.file| && Encodable(rec.(pos := s.st.next))
    ensures Takes(crc, s, Lead(t, rec, file, buf), s1) && Takes(crc, s1, SyncDone(t, durable), s2)
  {
    hide Inv, Encodable, Frame;
    var r := Assigned(s.st, rec);
    file, buf := s.st.file, Frame(crc, r);
    assert file + buf == s.st.file + s.st.buf + buf;
    var st := Flushed(Buffered(crc, s.st, r, file, buf));
    var g := s.g.(pendingSeq := s.g.pendingSeq + 1);
    s1 := s.(st := st, g := RoundBegun(g, t, g.pendingSeq, r, |st.file|));
    durable := |st.file|;
    s2 := s1.(g := SteppedDown(RoundBooked(s1.g, g.pendingSeq), t), durable := durable, acked := s1.acked[r.pos := r]);
  }

  /** Reopening what is left of the file keeps a prefix of the log that holds the durable records; they stay durable. */
  lemma ReopenKeepsCount(crc: Checksum, s: State, left: Bytes, durable: nat, s2: State)
    requires Inv(crc, s) && s.durable <= |left| && left <= FileBytes(crc, s.st.log)
    requires Reopens(crc, s, left, durable, s2)
    ensures Idle(crc, s2) && s2.st.log <= s.st.log && s2.acked == s.acked
    ensures DurableCount(crc, s) <= DurableCount(crc, s2)
  {
    hide Frame, Encodable, LogBytes, OpenFile, StorageInv, GroupInv, CallsInv, DurableCount;
    var r := OpenFile(crc, left);
    var n := DurableCount(crc, s);
    ReopenFinds(crc, s, left);
    ReopenKeeps(crc, s, left, durable, s2);
    CountIsLargest(crc, s, n);
    assert s.st.log[..n] == r.recs[..n];
    PrefixIsFile(crc, r.recs, n);
    CountIsLargest(crc, s2, n);
  }

  /**
   * A crash in the middle of an Append, at any byte, leaves a prefix of the log with or without that one record. It may
   * lose records of earlier, unsynced openings too, but never one of the durable records.
   */
  lemma SoloCrash(crc: Checksum, s: State, t: nat, rec: Record, file: Bytes, buf: Bytes, s1: State, keep: nat, durable: nat, s2: State)
    requires Idle(crc, s)
    requires Takes(crc, s, Lead(t, rec, file, buf), s1) && Takes(crc, s1, Crash(keep, durable), s2)
    ensures Idle(crc, s2) && s2.acked == s.acked
    ensures s2.st.log <= s.st.log + [rec.(pos := |s.st.log| + 1)]
    ensures DurableCount(crc, s) <= DurableCount(crc, s2)
  {
    hide Frame, FileBytes, Encodable, GroupInv, CallsInv, OpenFile, Reopens, DurableCount, End;
    LeadKeeps(crc, s, t, rec, file, buf, s1);
    WholeFile(crc, s1.st);
    ReopenKeepsCount(crc, s1, s1.st.file[..keep], durable, s2);
    var n := DurableCount(crc, s);
    CountIsLargest(crc, s, n);
    EndsStable(crc, s.st.log, Assigned(s.st, rec));
    CountIsLargest(crc, s1, n);
  }

  /** A crash between two calls. */
  lemma IdleCrash(crc: Checksum, s: State, keep: nat, durable: nat, s2: State)
    requires Idle(crc, s) && Takes(crc, s, Crash(keep, durable), s2)
    ensures Idle(crc, s2) && s2.acked == s.acked && s2.st.log <= s.st.log
    ensures DurableCount(crc, s) <= DurableCount(crc, s2)
  {
    hide FileBytes, GroupInv, CallsInv, DurableInv, OpenFile, Reopens, StorageInv;
    WholeFile(crc, s.st);
    ReopenKeepsCount(crc, s, s.st.file[..keep], durable, s2);
  }

  /** Any number of records between the durable ones and all that were flushed may be what a crash leaves. */
  lemma CrashPossible(crc: Checksum, s: State, n: nat) returns (keep: nat, durable: nat, s2: State)
    requires Inv(crc, s) && !s.st.broken && s.st.buf == [] && DurableCount(crc, s) <= n <= |s.st.log|
    ensures Takes(crc, s, Crash(keep, durable), s2) && s2.st.log == s.st.log[..n]
    ensures DurableCount(crc, s2) == DurableCount(crc, s)
  {
    hide Frame, Encodable, LogBytes, Complete, OpenFile, GroupInv, CallsInv, DurableInv;
    var log := s.st.log;
    var count := DurableCount(crc, s);
    assert s.st.file + [] == s.st.file;
    assert HEADER_SIZE <= s.durable <= |s.st.file| by { DurableFits(crc, s); }
    keep := if n == count then s.durable else End(crc, log, n);
    CountIsLargest(crc, s, n);
    PrefixIsFile(crc, log, n);
    RecoveryIsExact(crc, log, keep);
    CompleteIs(crc, log, keep, n, count, s);
    var r := OpenFile(crc, s.st.file[..keep]);
    durable := if s.durable <= |r.file| then s.durable else |r.file|;
    s2 := Booted(r, durable, s.acked);
    SameCount(crc, s, n, s2);
  }

  lemma DurableFits(crc: Checksum, s: State)
    requires Inv(crc, s)
    ensures HEADER_SIZE <= s.durable <= |s.st.file|
  {
    hide End, StorageInv, GroupInv, CallsInv;
  }

  lemma CompleteIs(crc: Checksum, log: Log, keep: nat, n: nat, count: nat, s: State)
    requires s.st.log == log && count == DurableCount(crc, s) <= n <= |log| && HEADER_SIZE <= s.durable
    requires keep == if n == count then s.durable else End(crc, log, n)
    ensures Complete(crc, log, keep - HEADER_SIZE) == n
  {
    hide Frame, LogBytes, Complete;
    CompleteIsLargest(crc, log, keep - HEADER_SIZE, n);
    if n < |log| {
      CompleteIsLargest(crc, log, keep - HEADER_SIZE, n + 1);
      EndMonotone(crc, log, n, n + 1);
    }
  }

  /** The count of a shorter log that is durable as far as it goes. */
  lemma SameCount(crc: Checksum, s: State, n: nat, s2: State)
    requires HEADER_SIZE <= s.durable && DurableCount(crc, s) <= n <= |s.st.log| && s2.st.log == s.st.log[..n]
    requires var size := |FileBytes(crc, s2.st.log)|; s2.durable == if s.durable <= size then s.durable else size
    ensures DurableCount(crc, s2) == DurableCount(crc, s)
  {
    hide Frame, LogBytes, Complete, DurableCount;
    var count, count2 := DurableCount(crc, s), DurableCount(crc, s2);
    assert s.st.log[..count] == s2.st.log[..count] && s.st.log[..count2] == s2.st.log[..count2];
    assert HEADER_SIZE <= |FileBytes(crc, s2.st.log)|;
    PrefixIsFile(crc, s2.st.log, count);
    CountIsLargest(crc, s, count);
    CountIsLargest(crc, s2, count);
    CountIsLargest(crc, s2, count2);
    CountIsLargest(crc, s, count2);
  }

  /** A clean restart between two calls changes nothing. */
  lemma IdleRestart(crc: Checksum, s: State, durable: nat, s2: State)
    requires Idle(crc, s) && Takes(crc, s, CloseAndOpen(durable), s2)
    ensures Idle(crc, s2) && s2.acked == s.acked && s2.st.log == s.st.log
    ensures DurableCount(crc, s) <= DurableCount(crc, s2)
  {
    hide Frame, Encodable, LogBytes, Complete, OpenFile, GroupInv, CallsInv, DurableInv, DurableCount;
    var file := s.st.file + s.st.buf;
    assert file == FileBytes(crc, s.st.log) == FileBytes(crc, s.st.log)[..|file|];
    assert s.durable <= |file| by { DurableFits(crc, s); }
    ReopenKeepsCount(crc, s, file, durable, s2);
    RecoveryIsExact(crc, s.st.log, |file|);
    assert s.st.log[..|s.st.log|] == s.st.log;
    CompleteIsLargest(crc, s.st.log, |file| - HEADER_SIZE, |s.st.log|);
  }

  /** And it is always possible, without making anything more durable. */
  lemma IdleRestartPossible(crc: Checksum, s: State) returns (s2: State)
    requires Idle(crc, s)
    ensures Takes(crc, s, CloseAndOpen(s.durable), s2) && s2.st.log == s.st.log
    ensures DurableCount(crc, s2) == DurableCount(crc, s)
  {
    hide Frame, Encodable, LogBytes, Complete, OpenFile, GroupInv, CallsInv, DurableInv, DurableCount;
    var log, file := s.st.log, s.st.file + s.st.buf;
    assert log[..|log|] == log;
    assert file == FileBytes(crc, log) == FileBytes(crc, log)[..|file|];
    assert HEADER_SIZE <= s.durable <= |file| by { DurableFits(crc, s); }
    RecoveryIsExact(crc, log, |file|);
    CompleteIsLargest(crc, log, |file| - HEADER_SIZE, |log|);
    s2 := Booted(OpenFile(crc, file), s.durable, s.acked);
    SameCount(crc, s, |log|, s2);
  }

  /**
   * The input at which recovery alone is no promise: a crash after the flush and before the fsync leaves the record in
   * the file, the log is opened with it, and a second crash loses it. Nothing was acknowledged.
   */
  lemma TwoCrashesLoseRecord(crc: Checksum, rec: Record) returns (ss: seq<State>, steps: seq<Step>)
    requires rec.pos == 1 && Encodable(rec)
    ensures IsRun(crc, ss, steps) && |ss| == 4
    ensures ss[0].st.log == [] && ss[2].st.log == [rec] && ss[3].st.log == []
    ensures Idle(crc, ss[2]) && ss[3].acked == map[]
  {
    hide StorageInv, GroupInv, CallsInv, DurableInv, Encodable, Frame, OpenFile, DurableCount;
    var s0 := Start();
    StartInv(crc);
    var file, buf, s1, _, _ := SoloAppendPossible(crc, s0, 0, rec);
    var size := |s1.st.file|;
    assert s1.st.log == [rec];
    LeadKeeps(crc, s0, 0, rec, file, buf, s1);
    WholeRecord(crc, rec, s1);
    var s2 := Booted(OpenFile(crc, s1.st.file), HEADER_SIZE, map[]);
    assert s1.st.file[..size] == s1.st.file;
    assert Takes(crc, s1, Crash(size, HEADER_SIZE), s2);
    SoloCrash(crc, s0, 0, rec, file, buf, s1, size, HEADER_SIZE, s2);
    NothingDurable(crc, s2);
    var keep, durable, s3 := CrashPossible(crc, s2, 0);
    ss, steps := [s0, s1, s2, s3], [Lead(0, rec, file, buf), Crash(size, HEADER_SIZE), Crash(keep, durable)];
  }

  /**
   * An error says nothing about the record: the leader's first Sync makes it durable, another call arrives meanwhile, and
   * when the second Sync fails the leader answers with that failure. The record is never lost again.
   */
  lemma ErrorThoughDurable(crc: Checksum, a: Record, b: Record) returns (ss: seq<State>, steps: seq<Step>)
    requires a.pos == 1 && b.pos == 2 && Encodable(a) && Encodable(b)
    ensures IsRun(crc, ss, steps) && |steps| == 4 && steps[0].Lead? && steps[0].t == 0 && steps[0].rec == a
    ensures steps[3] == SyncFails(0) && ss[4].acked == map[]
    ensures ss[4].st.log == [a, b] && End(crc, ss[4].st.log, 1) <= ss[4].durable
  {
    hide StorageInv, GroupInv, CallsInv, DurableInv, Encodable, Frame, OpenFile;
    var s0 := Start();
    StartInv(crc);
    var file, buf, s1, _, _ := SoloAppendPossible(crc, s0, 0, a);
    var f := Frame(crc, b);
    assert s1.st.file + f == s1.st.file + s1.st.buf + f;
    var s2 := s1.(st := Buffered(crc, s1.st, b, s1.st.file, f), g := Joined(s1.g, 1, b));
    var size := |s1.st.file|;
    var s3 := s2.(st := Flushed(s2.st), durable := size,
                  g := RoundBegun(RoundBooked(s2.g, 1), 0, 1, a, |Flushed(s2.st).file|));
    var s4 := s3.(g := GivenUp(s3.g, 0));
    assert Takes(crc, s1, Follow(1, b, s1.st.file, f), s2);
    assert Takes(crc, s2, SyncAgain(0, size), s3);
    assert Takes(crc, s3, SyncFails(0), s4);
    assert [a] + [b] == [a, b] && [a, b][..1] == [a];
    LogBytesOne(crc, a);
    FirstInFile(crc, s0, a, file, buf, s1);
    ss := [s0, s1, s2, s3, s4];
    steps := [Lead(0, a, file, buf), Follow(1, b, s1.st.file, f), SyncAgain(0, size), SyncFails(0)];
  }

  lemma FirstInFile(crc: Checksum, s: State, a: Record, file: Bytes, buf: Bytes, s1: State)
    requires s == Start() && Takes(crc, s, Lead(0, a, file, buf), s1)
    ensures |s1.st.file| == HEADER_SIZE + |Frame(crc, a.(pos := 1))|
  {
    hide Frame, Encodable;
  }

  lemma WholeRecord(crc: Checksum, rec: Record, s: State)
    requires StorageInv(crc, s.st) && !s.st.broken && s.st.buf == [] && s.st.log == [rec]
    ensures OpenFile(crc, s.st.file).Opened? && OpenFile(crc, s.st.file).recs == [rec]
    ensures |s.st.file| >= HEADER_SIZE && |OpenFile(crc, s.st.file).file| >= HEADER_SIZE
  {
    hide Frame, Encodable, LogBytes, Complete, OpenFile;
    var file := s.st.file;
    assert file + [] == file && FileBytes(crc, s.st.log)[..|file|] == file;
    RecoveryIsExact(crc, s.st.log, |file|);
    CompleteIsLargest(crc, s.st.log, |file| - HEADER_SIZE, 1);
    assert [rec][..1] == [rec];
  }

  lemma NothingDurable(crc: Checksum, s: State)
    requires s.durable == HEADER_SIZE
    ensures DurableCount(crc, s) == 0
  {
    hide Frame;
  }
}
