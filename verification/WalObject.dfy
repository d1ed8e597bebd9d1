/**
 * The WAL as an object: `Append` with its leader loop and its waiting loop, run among other callers.
 * Whatever happens while the mutex is released is the contract of `Yield`; every call is a path of the transition system.
 */
module WalObject {
  import opened Options
  import opened ByteSeqs
  import opened Codec
  import opened Recovery
  import opened GroupCommit
  import opened GroupCommitRuns

  datatype Result = Appended(pos: nat) | AppendError

  /** A step that some call other than `t` takes while the process lives. */
  predicate ByOther(step: Step, t: nat) {
    match step
    case Reject(_, _, _) => true
    case CloseFails(_, _) => true
    case Crash(_, _) => false
    case CloseAndOpen(_) => false
    case Follow(u, _, _, _) => u != t
    case Lead(u, _, _, _) => u != t
    case LeadFlushFails(u, _, _, _, _, _) => u != t
    case SyncFails(u) => u != t
    case SyncDone(u, _) => u != t
    case SyncAgain(u, _) => u != t
    case SyncThenFlushFails(u, _, _, _) => u != t
    case Wake(u) => u != t
  }

  lemma OtherStep(crc: Checksum, s: State, step: Step, s2: State, t: nat)
    requires Inv(crc, s) && Takes(crc, s, step, s2) && ByOther(step, t)
    ensures t in s.g.calls ==> t in s2.g.calls && s2.g.calls[t] == s.g.calls[t]
    ensures t !in s.g.calls ==> t !in s2.g.calls
    ensures s.g.flushedSeq <= s2.g.flushedSeq
  {
    hide Inv, Frame, FileBytes, Encodable, Written, WriteFailed, Reopens;
    CountersGrow(crc, s, step, s2);
  }

  /** Others moving on leave a call as it is. */
  lemma {:induction false} OthersKeepCall(crc: Checksum, ss: seq<State>, steps: seq<Step>, i: nat, t: nat)
    requires IsRun(crc, ss, steps) && i < |ss| && forall k :: i <= k < |steps| ==> ByOther(steps[k], t)
    ensures var s, s2 := ss[i], ss[|ss| - 1];
            && (t in s.g.calls ==> t in s2.g.calls && s2.g.calls[t] == s.g.calls[t])
            && (t !in s.g.calls ==> t !in s2.g.calls)
            && s.g.flushedSeq <= s2.g.flushedSeq
    decreases |steps| - i
  {
    hide Takes, ByOther;
    if i < |steps| {
      RunKeepsInv(crc, ss, steps, i);
      OtherStep(crc, ss[i], steps[i], ss[i + 1], t);
      OthersKeepCall(crc, ss, steps, i + 1, t);
    }
  }

  lemma RunExtended(crc: Checksum, ss: seq<State>, steps: seq<Step>, step: Step, s2: State)
    requires IsRun(crc, ss, steps) && Takes(crc, ss[|ss| - 1], step, s2)
    ensures IsRun(crc, ss + [s2], steps + [step])
  {
    hide Takes;
  }

  /** How the step, taken in state `s`, ends call `t`: Some(true) with success, Some(false) with an error, None not at all. */
  function Verdict(s: State, step: Step, t: nat): (v: Option<bool>) {
    match step
    case Reject(_, _, _) => Some(false)
    case LeadFlushFails(u, _, _, _, _, _) => if u == t then Some(false) else None
    case SyncFails(u) => if u == t then Some(false) else None
    case SyncThenFlushFails(u, _, _, _) => if u == t then Some(false) else None
    case SyncDone(u, _) => if u == t then Some(true) else None
    case Wake(u) => if u == t then Some(!s.g.flushErr) else None
    case _ => None
  }

  /** The step with which call `t` brings its record to the log. */
  predicate Brings(step: Step, t: nat, rec: Record) {
    || (step.Reject? && step.rec == rec)
    || ((step.Follow? || step.Lead? || step.LeadFlushFails?) && step.t == t && step.rec == rec)
  }

  /** How many steps are I/O failures. */
  function Failures(steps: seq<Step>): (n: nat) {
    if steps == [] then 0
    else Failures(steps[..|steps| - 1]) + if Fails(steps[|steps| - 1]) then 1 else 0
  }

  lemma FailuresSnoc(steps: seq<Step>, step: Step)
    ensures Failures(steps + [step]) == Failures(steps) + if Fails(step) then 1 else 0
  {
    assert (steps + [step])[..|steps|] == steps;
  }

  lemma {:induction false} FailuresGrow(before: seq<Step>, steps: seq<Step>)
    requires before <= steps
    ensures Failures(before) <= Failures(steps)
    ensures (exists k :: |before| <= k < |steps| && Fails(steps[k])) ==> Failures(before) < Failures(steps)
    decreases |steps|
  {
    hide Fails;
    if |before| < |steps| {
      FailuresGrow(before, steps[..|steps| - 1]);
      if k :| |before| <= k < |steps| && Fails(steps[k]) && k < |steps| - 1 {
        assert steps[..|steps| - 1][k] == steps[k];
      }
    } else {
      assert before == steps;
    }
  }

  class Wal {
    const crc: Checksum
    var st: Storage                // positions, offset index, buffered writer, file
    var g: Group                   // group-commit bookkeeping
    // history
    ghost var durable: nat
    ghost var base: nat
    ghost var acked: map<nat, Record>
    ghost var states: seq<State>
    ghost var steps: seq<Step>
    ghost var toCome: nat          // how many calls other threads will still make
    ghost var faults: nat          // how many writes, flushes and syncs have returned an error

    ghost function Current(): (s: State)
      reads this
    {
      State(st, g, durable, base, acked)
    }

    ghost predicate Running()
      reads this
    {
      IsRun(crc, states, steps) && states[|states| - 1] == Current()
    }

    /** The object is the last state of a run of the transition system, in which every failure is that of an I/O operation. */
    ghost predicate Valid()
      reads this
    {
      Running() && faults == Failures(steps)
    }

    /** The last step, taken since there were `before` steps, ended call `t`, and the result says how. */
    ghost predicate Ended(t: nat, r: Result, before: nat)
      reads this
    {
      && before < |steps| < |states|
      && Verdict(states[|steps| - 1], steps[|steps| - 1], t) == Some(r.Appended?)
    }

    constructor (crc: Checksum, ghost toCome: nat)
      ensures Valid() && this.crc == crc && Current() == Start()
    {
      this.crc := crc;
      st := Storage(1, [], HEADER_SIZE, [], false, HEADER, []);
      g := Group(0, 0, false, false, map[], 0);
      durable, base, acked := HEADER_SIZE, 0, map[];
      states, steps := [Start()], [];
      this.toCome := toCome;
      faults := 0;
    }

    /** The object `Open` builds on what recovery found; its history goes on from that of the process before it. */
    constructor Booting(crc: Checksum, r: OpenResult, ghost past: seq<State>, ghost steps: seq<Step>, ghost step: Step,
                        ghost durable: nat, ghost acked: map<nat, Record>, ghost toCome: nat)
      requires r.Opened? && IsRun(crc, past, steps) && Takes(crc, past[|past| - 1], step, Booted(r, durable, acked))
      ensures Valid() && this.crc == crc && states == past + [Current()] && Current() == Booted(r, durable, acked)
    {
      this.crc := crc;
      st := Storage(|r.recs| + 1, r.offsets, |r.file|, [], false, r.file, r.recs);
      g := Group(0, 0, false, false, map[], 0);
      this.durable, base, this.acked := durable, |r.recs|, acked;
      this.states, this.steps := past + [Booted(r, durable, acked)], steps + [step];
      this.toCome := toCome;
      faults := Failures(steps + [step]);
      new;
      hide Takes;
      RunExtended(crc, past, steps, step, Booted(r, durable, acked));
    }

    /**
     * `Open` on what is left of the file of an earlier process: all it closed the file with, or the first `keep` bytes
     * after a crash, which are at least the durable ones. It always succeeds, nothing acknowledged is missing, and the
     * new object carries on the run of the old one.
     */
    static method Open(crc: Checksum, left: Bytes, ghost past: Wal, ghost closed: bool, ghost keep: nat, ghost toCome: nat)
      returns (w: Wal)
      requires past.Valid() && past.crc == crc
      requires closed ==> !past.g.leading && past.g.calls == map[] && !past.st.broken && left == past.st.file + past.st.buf
      requires !closed ==> past.durable <= keep <= |past.st.file| && left == past.st.file[..keep]
      ensures fresh(w) && w.Valid() && w.crc == crc && past.states < w.states && w.acked == past.acked
      ensures w.st.log <= past.st.log && OpenFile(crc, left) == Opened(w.st.log, w.st.byteOffsets, w.st.file)
      ensures forall p :: p in past.acked ==> 1 <= p <= |w.st.log| && w.st.log[p - 1] == past.acked[p]
    {
      hide OpenFile, Inv, IsRun;
      LeftOpens(crc, past.states, past.steps, left, closed, keep);
      var r := OpenFile(crc, left);
      ghost var durable := if past.durable <= |r.file| then past.durable else |r.file|;
      ghost var step := if closed then CloseAndOpen(durable) else Crash(keep, durable);
      w := new Wal.Booting(crc, r, past.states, past.steps, step, durable, past.acked, toCome);
    }

    /** bufio.Writer.Write: any part of the buffer may go to the file, and it may fail for good. */
    method Write(bytes: Bytes) returns (ok: bool)
      modifies this`st, this`faults
      ensures faults == old(faults) + if ok then 0 else 1
      ensures st == old(st).(file := st.file, buf := st.buf, broken := !ok)
      ensures if ok then !old(st).broken && Written(old(st), bytes, st.file, st.buf)
              else WriteFailed(old(st), bytes, st.file, st.buf)
    {
      if st.broken {
        faults := faults + 1;
        return false;
      }
      st := st.(buf := st.buf + bytes);
      assert st.file + st.buf == old(st).file + old(st).buf + bytes;
      return true;
    }

    /** bufio.Writer.Flush. */
    method Flush() returns (ok: bool)
      modifies this`st, this`faults
      ensures faults == old(faults) + if ok then 0 else 1
      ensures ok ==> !old(st).broken && st == Flushed(old(st))
      ensures !ok ==> st == FlushBroken(old(st), st.file, st.buf) && WriteFailed(old(st), [], st.file, st.buf)
    {
      if st.broken {
        faults := faults + 1;
        return false;
      }
      st := st.(file := st.file + st.buf, buf := []);
      return true;
    }

    /** One block under the mutex is complete: it was this step. A failing step has a failed I/O operation in its block. */
    ghost method Took(step: Step)
      requires IsRun(crc, states, steps) && Takes(crc, states[|states| - 1], step, Current())
      requires faults == Failures(steps) + if Fails(step) then 1 else 0
      modifies this`states, this`steps
      ensures Valid() && states == old(states) + [Current()] && steps == old(steps) + [step]
    {
      hide Takes, Fails;
      RunExtended(crc, states, steps, step, Current());
      FailuresSnoc(steps, step);
      states, steps := states + [Current()], steps + [step];
    }

    /** The same for the step that ends a call. */
    ghost method TookLast(step: Step, t: nat, r: Result)
      requires IsRun(crc, states, steps) && Takes(crc, states[|states| - 1], step, Current())
      requires faults == Failures(steps) + if Fails(step) then 1 else 0
      requires Verdict(states[|states| - 1], step, t) == Some(r.Appended?)
      modifies this`states, this`steps
      ensures Valid() && old(states) <= states && steps == old(steps) + [step] && Ended(t, r, |old(steps)|)
    {
      hide Takes, Fails, Verdict;
      Took(step);
    }

    twostate predicate OthersMoved(t: nat)
      reads this
    {
      && old(states) <= states && old(steps) <= steps
      && (forall k :: |old(steps)| <= k < |steps| ==> ByOther(steps[k], t))
      && g.pendingSeq + toCome <= old(g).pendingSeq + old(toCome)
    }

    /** The mutex is released and taken again: other calls do anything they can, but only finitely many arrive. */
    method Yield(ghost t: nat)
      requires Valid()
      modifies this
      ensures Valid() && OthersMoved(t)
    {
    }

    /** file.Sync with the mutex released. */
    method Sync(ghost t: nat) returns (ok: bool, ghost made: nat)
      requires Valid() && IsLeader(g, t)
      modifies this
      ensures Running() && OthersMoved(t) && Inv(crc, Current()) && faults == Failures(steps) + if ok then 0 else 1
      ensures IsLeader(g, t) && g.calls[t] == old(g).calls[t] && old(g).flushedSeq <= g.flushedSeq
      ensures ok ==> SyncMakesDurable(Current(), t, made)
    {
      hide Takes, ByOther, StorageInv, GroupInv;
      ghost var i := |states| - 1;
      Yield(t);
      OthersKeepCall(crc, states, steps, i, t);
      RunKeepsInv(crc, states, steps, |states| - 1);
      ok, made := true, |st.file|;
    }

    /** cond.Wait: a broadcast follows every advance of flushedSeq and nothing else. */
    method Wait(ghost t: nat)
      requires Valid() && t in g.calls && g.calls[t].Waiting? && g.flushedSeq < g.calls[t].mySeq
      modifies this
      ensures Valid() && OthersMoved(t) && g.flushedSeq > old(g).flushedSeq
      ensures t in g.calls && g.calls[t] == old(g).calls[t]
    {
      hide Takes, Inv;
      RunKeepsInv(crc, states, steps, |states| - 1);
      ghost var leader := WaiterHasLeader(crc, Current(), t);
      assert IsLeader(g, leader);
      var u :| u in g.calls && g.calls[u].Syncing?;
      FailStep(crc, Current(), u);
      g := GivenUp(g, u);
      faults := faults + 1;
      Took(SyncFails(u));
    }

    /**
     * The follower's side of `Append`: wait until the record is covered, then report what the last round reported. An
     * error means that an I/O operation has failed meanwhile.
     */
    method Follower(t: nat, mySeq: nat, rec: Record) returns (r: Result)
      requires Valid() && t in g.calls && g.calls[t] == Waiting(mySeq, rec) && g.flushedSeq < mySeq
      modifies this
      ensures Valid() && old(states) <= states && old(steps) <= steps && t !in g.calls
      ensures Ended(t, r, |old(steps)|)
      ensures r.Appended? ==> r.pos == rec.pos && rec.pos in acked && acked[rec.pos] == rec
      ensures r.AppendError? ==> faults > old(faults)
    {
      hide Takes, Inv, ByOther, Verdict, Failures, Fails;
      while g.flushedSeq < mySeq
        invariant Valid() && old(states) <= states && old(steps) <= steps && t in g.calls && g.calls[t] == Waiting(mySeq, rec)
        invariant forall k :: |old(steps)| <= k < |steps| ==> ByOther(steps[k], t)
        decreases mySeq - g.flushedSeq
      {
        Wait(t);
      }
      FailuresGrow(old(steps), steps);
      if g.flushErr {
        CauseSince(t, |old(steps)|);
        assert steps[..|old(steps)|] == old(steps);
      }
      r := Awake(t, rec);
    }

    /** The end of the wait. */
    method Awake(t: nat, rec: Record) returns (r: Result)
      requires Valid() && t in g.calls && g.calls[t].Waiting? && g.calls[t].rec == rec && g.flushedSeq >= g.calls[t].mySeq
      modifies this
      ensures Valid() && old(states) <= states && old(steps) < steps && t !in g.calls && faults == old(faults)
      ensures Ended(t, r, |old(steps)|)
      ensures r.Appended? ==> r.pos == rec.pos && rec.pos in acked && acked[rec.pos] == rec
      ensures r.AppendError? <==> old(g).flushErr
    {
      hide Takes;
      WakeStep(crc, Current(), t);
      if g.flushErr {
        r := AppendError;
      } else {
        acked := acked[rec.pos := rec];
        r := Appended(rec.pos);
      }
      g := g.(calls := g.calls - {t});
      TookLast(Wake(t), t, r);
    }

    /** A pending error that was not there, or that nobody waited for, when there were `i` steps is a new failure. */
    lemma CauseSince(t: nat, i: nat)
      requires Valid() && i < |states| && forall k :: i <= k < |steps| ==> ByOther(steps[k], t)
      requires states[i].g.flushedSeq != g.flushedSeq && g.flushErr
      ensures Failures(steps[..i]) < Failures(steps)
    {
      hide Takes, Inv;
      forall k | i <= k < |steps| ensures !IsRestart(steps[k]) {
        assert ByOther(steps[k], t);
      }
      ErrorHasCause(crc, states, steps, i, |steps|);
      FailuresGrow(steps[..i], steps);
    }

    /**
     * The leader's side: sync, book the round, and go again while records keep arriving. An error means that a Sync or
     * flush of this call has failed.
     */
    method Leader(t: nat, rec: Record) returns (r: Result)
      requires Valid() && IsLeader(g, t) && g.calls[t].rec == rec
      modifies this
      ensures Valid() && old(states) <= states && old(steps) <= steps && t !in g.calls
      ensures Ended(t, r, |old(steps)|)
      ensures r.Appended? ==> r.pos == rec.pos && rec.pos in acked && acked[rec.pos] == rec
      ensures r.AppendError? ==> faults > old(faults)
    {
      hide Takes, ByOther, Inv, SyncMakesDurable, Failures;
      RunKeepsInv(crc, states, steps, |states| - 1);
      LeaderAhead(crc, Current(), t);
      while true
        invariant Valid() && old(states) <= states && old(steps) <= steps && IsLeader(g, t) && g.calls[t].rec == rec
        invariant g.flushedSeq <= g.pendingSeq + toCome
        decreases g.pendingSeq + toCome - g.flushedSeq
      {
        var ok;
        ghost var made;
        ok, made := Sync(t);
        LeaderAhead(crc, Current(), t);
        FailuresGrow(old(steps), steps);
        if !ok {
          FailStep(crc, Current(), t);
          g := GivenUp(g, t);
          TookLast(SyncFails(t), t, AppendError);
          return AppendError;
        }
        if g.pendingSeq == g.calls[t].flushSeq {
          StepDown(t, made);
          return Appended(rec.pos);
        }
        var flushed := NextRound(t, made);
        if !flushed {
          return AppendError;
        }
      }
    }

    /** Nothing new arrived while syncing. */
    method StepDown(t: nat, ghost made: nat)
      requires Valid() && IsLeader(g, t) && g.calls[t].flushSeq == g.pendingSeq && SyncMakesDurable(Current(), t, made)
      modifies this
      ensures Valid() && old(states) <= states && steps == old(steps) + [SyncDone(t, made)] && t !in g.calls
      ensures var rec := old(g).calls[t].rec; rec.pos in acked && acked[rec.pos] == rec
    {
      hide Takes, SyncMakesDurable;
      var c := g.calls[t];
      ghost var s := Current();
      g := g.(flushedSeq := c.flushSeq, flushErr := false);
      durable := made;
      g := g.(leading := false, calls := g.calls - {t});
      acked := acked[c.rec.pos := c.rec];
      DoneStep(crc, s, t, made, Current());
      Took(SyncDone(t, made));
    }

    /** Someone arrived while syncing: book the round and flush again. */
    method NextRound(t: nat, ghost made: nat) returns (flushed: bool)
      requires Valid() && g.leading && IsLeader(g, t) && g.calls[t].flushSeq != g.pendingSeq && SyncMakesDurable(Current(), t, made)
      modifies this
      ensures Valid() && old(states) <= states && old(steps) <= steps && faults == old(faults) + if flushed then 0 else 1
      ensures !flushed ==> t !in g.calls && Ended(t, AppendError, |old(steps)|)
      ensures flushed ==> IsLeader(g, t) && g.calls[t].rec == old(g).calls[t].rec
      ensures flushed ==> g.flushedSeq == old(g).calls[t].flushSeq && g.pendingSeq == old(g).pendingSeq && toCome == old(toCome)
    {
      hide Takes, SyncMakesDurable;
      var c := g.calls[t];
      ghost var s := Current();
      g := g.(flushedSeq := c.flushSeq, flushErr := false);
      durable := made;
      var flushSeq := g.pendingSeq;
      flushed := Flush();
      g := g.(rounds := g.rounds + 1);
      if flushed {
        g := g.(calls := g.calls[t := Syncing(c.mySeq, c.rec, flushSeq, |st.file|)]);
        AgainStep(crc, s, t, made, Current());
        Took(SyncAgain(t, made));
      } else {
        g := g.(leading := false, flushErr := true, flushedSeq := g.pendingSeq, calls := g.calls - {t});
        AgainFailsStep(crc, s, t, made, st.file, st.buf, Current());
        TookLast(SyncThenFlushFails(t, made, st.file, st.buf), t, AppendError);
      }
    }

    /**
     * `Append`. The call brings its record in one step and ends in one step, and answers as that last step says: success
     * means that the record is acknowledged under its position, with all that the runs guarantee; an error means that
     * an I/O operation failed while the call lasted.
     */
    method Append(t: nat, rec: Record) returns (r: Result)
      requires Valid() && t !in g.calls && Encodable(rec.(pos := st.next))
      modifies this
      ensures Valid() && old(states) <= states && old(steps) < steps && t !in g.calls
      ensures Brings(steps[|old(steps)|], t, rec) && Ended(t, r, |old(steps)|)
      ensures r.AppendError? ==> faults > old(faults)
      ensures r.Appended? ==>
                && r.pos == old(st).next && r.pos !in old(acked)
                && r.pos in acked && acked[r.pos] == rec.(pos := r.pos)
    {
      hide Takes, Frame, Encodable, Inv, Failures, Verdict, Fails, Written, WriteFailed, Arrives;
      RunKeepsInv(crc, states, steps, |states| - 1);
      FreshPosition(crc, Current());
      ghost var s := Current();
      var mine := rec.(pos := st.next);
      var frame := Frame(crc, mine);
      var ok := Write(frame);
      st := st.(next := st.next + 1, log := st.log + [mine]);
      if !ok {
        r := Refuse(t, rec, s);
        return;
      }
      st := st.(byteOffsets := st.byteOffsets + [st.writeOffset], writeOffset := st.writeOffset + |frame|);
      g := g.(pendingSeq := g.pendingSeq + 1);
      assert Arrives(crc, s, t, rec, st.file, st.buf) by { ArrivesIf(crc, s, t, rec, st.file, st.buf); }
      if g.leading {
        r := Queue(t, rec, mine, s);
      } else {
        r := FirstRound(t, rec, mine, s);
      }
    }

    /** The buffered write failed. */
    method Refuse(ghost t: nat, ghost rec: Record, ghost s: State) returns (r: Result)
      requires IsRun(crc, states, steps) && states[|states| - 1] == s && faults == Failures(steps) + 1
      requires Encodable(Assigned(s.st, rec)) && WriteFailed(s.st, Frame(crc, Assigned(s.st, rec)), st.file, st.buf)
      requires Current() == s.(st := Refused(s.st, Assigned(s.st, rec), st.file, st.buf))
      modifies this`states, this`steps
      ensures Valid() && old(states) <= states && old(steps) < steps && r == AppendError
      ensures Brings(steps[|old(steps)|], t, rec) && Ended(t, r, |old(steps)|)
    {
      hide Takes, Frame, Encodable, WriteFailed, Failures;
      RejectStep(crc, s, rec, st.file, st.buf, Current());
      r := AppendError;
      TookLast(Reject(rec, st.file, st.buf), t, r);
    }

    /** Someone else is leading: wait behind them. */
    method Queue(t: nat, ghost rec: Record, mine: Record, ghost s: State) returns (r: Result)
      requires IsRun(crc, states, steps) && states[|states| - 1] == s && mine == Assigned(s.st, rec)
      requires faults == Failures(steps)
      requires Arrives(crc, s, t, rec, st.file, st.buf) && s.g.leading
      requires Current() == Arrived(crc, s, rec, st.file, st.buf)
      modifies this
      ensures Valid() && old(states) <= states && old(steps) < steps && t !in g.calls
      ensures Brings(steps[|old(steps)|], t, rec) && Ended(t, r, |old(steps)|)
      ensures r.AppendError? ==> faults > old(faults)
      ensures r.Appended? ==> r.pos == mine.pos && mine.pos in acked && acked[mine.pos] == mine
    {
      hide Takes, Frame, Encodable, Arrives, Failures, Verdict, Inv, Fails;
      assert s.g.flushedSeq <= s.g.pendingSeq by {
        RunKeepsInv(crc, states, steps, |states| - 1);
        NotAhead(crc, s);
      }
      g := g.(calls := g.calls[t := Waiting(g.pendingSeq, mine)]);
      FollowStep(crc, s, t, rec, st.file, st.buf, Current());
      ghost var step := Follow(t, rec, st.file, st.buf);
      assert !Fails(step) by { FollowFailsNot(step); }
      Took(step);
      r := Follower(t, g.pendingSeq, mine);
    }

    /** What an acknowledgement is worth: whatever a crash leaves of the file, recovery finds the record at its position. */
    lemma AcknowledgedSurvives(pos: nat, keep: nat)
      requires Valid() && pos in acked && durable <= keep <= |st.file|
      ensures var r := OpenFile(crc, st.file[..keep]);
              r.Opened? && 1 <= pos <= |r.recs| && r.recs[pos - 1] == acked[pos]
    {
      hide Takes, OpenFile;
      CrashDurability(crc, states, steps, |states| - 1, |states| - 1, keep);
    }

    /** The caller becomes the leader and flushes for the first time. */
    method FirstRound(t: nat, ghost rec: Record, mine: Record, ghost s: State) returns (r: Result)
      requires IsRun(crc, states, steps) && states[|states| - 1] == s && mine == Assigned(s.st, rec)
      requires faults == Failures(steps)
      requires Arrives(crc, s, t, rec, st.file, st.buf) && !s.g.leading
      requires Current() == Arrived(crc, s, rec, st.file, st.buf)
      modifies this
      ensures Valid() && old(states) <= states && old(steps) < steps && t !in g.calls
      ensures Brings(steps[|old(steps)|], t, rec) && Ended(t, r, |old(steps)|)
      ensures r.AppendError? ==> faults > old(faults)
      ensures r.Appended? ==> r.pos == mine.pos && mine.pos in acked && acked[mine.pos] == mine
    {
      hide Takes, Frame, Encodable, Written, Arrives, Failures, Verdict, Fails, Inv;
      ghost var file, buf := st.file, st.buf;
      g := g.(leading := true);
      var flushSeq := g.pendingSeq;
      var flushed := Flush();
      g := g.(rounds := g.rounds + 1);
      if flushed {
        g := g.(calls := g.calls[t := Syncing(flushSeq, mine, flushSeq, |st.file|)]);
        LeadStep(crc, s, t, rec, file, buf, Current());
        ghost var step := Lead(t, rec, file, buf);
        assert !Fails(step) by { FollowFailsNot(step); }
        Took(step);
        r := Leader(t, mine);
      } else {
        g := g.(leading := false, flushErr := true, flushedSeq := g.pendingSeq, calls := g.calls - {t});
        LeadFailsStep(crc, s, t, rec, file, buf, st.file, st.buf, Current());
        r := AppendError;
        LeadFails(t, rec, file, buf);
      }
    }

    ghost method LeadFails(t: nat, rec: Record, file: Bytes, buf: Bytes)
      requires IsRun(crc, states, steps) && faults == Failures(steps) + 1
      requires Takes(crc, states[|states| - 1], LeadFlushFails(t, rec, file, buf, st.file, st.buf), Current())
      modifies this`states, this`steps
      ensures Valid() && old(states) <= states && old(steps) < steps
      ensures Brings(steps[|old(steps)|], t, rec) && Ended(t, AppendError, |old(steps)|)
    {
      hide Takes, Failures;
      TookLast(LeadFlushFails(t, rec, file, buf, st.file, st.buf), t, AppendError);
    }
  }

  lemma FollowFailsNot(step: Step)
    ensures step.Follow? || step.Lead? ==> !Fails(step)
  {
  }

  lemma ArrivesIf(crc: Checksum, s: State, t: nat, rec: Record, file: Bytes, buf: Bytes)
    requires Encodable(Assigned(s.st, rec)) && !s.st.broken && t !in s.g.calls
    requires Written(s.st, Frame(crc, Assigned(s.st, rec)), file, buf)
    ensures Arrives(crc, s, t, rec, file, buf)
  {
  }

  lemma NotAhead(crc: Checksum, s: State)
    requires Inv(crc, s)
    ensures s.g.flushedSeq <= s.g.pendingSeq
  {
    hide StorageInv, CallsInv, DurableInv;
  }

  /** Whatever a process leaves can be opened again and holds what was acknowledged. */
  lemma LeftOpens(crc: Checksum, ss: seq<State>, steps: seq<Step>, left: Bytes, closed: bool, keep: nat)
    requires IsRun(crc, ss, steps)
    requires var s := ss[|ss| - 1];
             && (closed ==> !s.st.broken && left == s.st.file + s.st.buf)
             && (!closed ==> s.durable <= keep <= |s.st.file| && left == s.st.file[..keep])
    ensures var s, r := ss[|ss| - 1], OpenFile(crc, left);
            && r.Opened? && r.recs <= s.st.log
            && forall p :: p in s.acked ==> 1 <= p <= |r.recs| && r.recs[p - 1] == s.acked[p]
  {
    hide Takes, StorageInv, OpenFile, FileBytes, End, GroupInv, CallsInv;
    var s := ss[|ss| - 1];
    RunKeepsInv(crc, ss, steps, |ss| - 1);
    WholeFile(crc, s.st);
    ReopenFinds(crc, s, left);
  }

  // ---------------------------------------------------------------- each block is its step

  lemma WaiterHasLeader(crc: Checksum, s: State, t: nat) returns (u: nat)
    requires Inv(crc, s) && t in s.g.calls && s.g.calls[t].Waiting? && s.g.flushedSeq < s.g.calls[t].mySeq
    ensures IsLeader(s.g, u) && s.g.flushedSeq < s.g.pendingSeq
  {
    hide StorageInv, CallsInv, DurableInv;
    u :| IsLeader(s.g, u);
  }

  /** The leader's round will advance flushedSeq, and nothing is announced that is not pending. */
  lemma LeaderAhead(crc: Checksum, s: State, t: nat)
    requires Inv(crc, s) && IsLeader(s.g, t)
    ensures s.g.leading && s.g.flushedSeq < s.g.calls[t].flushSeq <= s.g.pendingSeq
  {
    hide StorageInv, CallsInv, DurableInv;
  }

  lemma FreshPosition(crc: Checksum, s: State)
    requires Inv(crc, s)
    ensures s.st.next !in s.acked
  {
    hide FileBytes, End, GroupInv, CallsInv;
  }

  lemma FailStep(crc: Checksum, s: State, u: nat)
    requires IsLeader(s.g, u)
    ensures Takes(crc, s, SyncFails(u), s.(g := GivenUp(s.g, u)))
  {
  }

  lemma WakeStep(crc: Checksum, s: State, t: nat)
    requires t in s.g.calls && s.g.calls[t].Waiting? && s.g.flushedSeq >= s.g.calls[t].mySeq
    ensures var c := s.g.calls[t];
            Takes(crc, s, Wake(t), s.(g := s.g.(calls := s.g.calls - {t}),
                                      acked := if s.g.flushErr then s.acked else s.acked[c.rec.pos := c.rec]))
  {
  }

  lemma RejectStep(crc: Checksum, s: State, rec: Record, file: Bytes, buf: Bytes, s2: State)
    requires Encodable(Assigned(s.st, rec)) && WriteFailed(s.st, Frame(crc, Assigned(s.st, rec)), file, buf)
    requires s2 == s.(st := Refused(s.st, Assigned(s.st, rec), file, buf))
    ensures Takes(crc, s, Reject(rec, file, buf), s2)
  {
    hide Frame, Encodable, WriteFailed;
  }

  lemma FollowStep(crc: Checksum, s: State, t: nat, rec: Record, file: Bytes, buf: Bytes, s2: State)
    requires Arrives(crc, s, t, rec, file, buf) && s.g.leading
    requires s2 == s.(st := Buffered(crc, s.st, Assigned(s.st, rec), file, buf), g := Joined(s.g, t, Assigned(s.st, rec)))
    ensures Takes(crc, s, Follow(t, rec, file, buf), s2)
  {
    hide Frame, Encodable, Arrives;
  }

  lemma LeadStep(crc: Checksum, s: State, t: nat, rec: Record, file: Bytes, buf: Bytes, s2: State)
    requires Arrives(crc, s, t, rec, file, buf) && !s.g.leading
    requires var r := Assigned(s.st, rec);
             var st := Flushed(Buffered(crc, s.st, r, file, buf));
             var g := s.g.(pendingSeq := s.g.pendingSeq + 1);
             s2 == s.(st := st, g := RoundBegun(g, t, g.pendingSeq, r, |st.file|))
    ensures Takes(crc, s, Lead(t, rec, file, buf), s2)
  {
    hide Frame, Encodable, Arrives;
  }

  lemma LeadFailsStep(crc: Checksum, s: State, t: nat, rec: Record, file: Bytes, buf: Bytes, file2: Bytes, buf2: Bytes, s2: State)
    requires Arrives(crc, s, t, rec, file, buf) && !s.g.leading
    requires var st := Buffered(crc, s.st, Assigned(s.st, rec), file, buf);
             var g := s.g.(pendingSeq := s.g.pendingSeq + 1, rounds := s.g.rounds + 1);
             WriteFailed(st, [], file2, buf2) && s2 == s.(st := FlushBroken(st, file2, buf2), g := GivenUp(g, t))
    ensures Takes(crc, s, LeadFlushFails(t, rec, file, buf, file2, buf2), s2)
  {
    hide Frame, Encodable, Arrives, WriteFailed;
  }

  lemma DoneStep(crc: Checksum, s: State, t: nat, made: nat, s2: State)
    requires IsLeader(s.g, t) && SyncMakesDurable(s, t, made) && s.g.calls[t].flushSeq == s.g.pendingSeq
    requires var c := s.g.calls[t];
             s2 == s.(g := SteppedDown(RoundBooked(s.g, c.flushSeq), t), durable := made, acked := s.acked[c.rec.pos := c.rec])
    ensures Takes(crc, s, SyncDone(t, made), s2)
  {
  }

  lemma AgainStep(crc: Checksum, s: State, t: nat, made: nat, s2: State)
    requires IsLeader(s.g, t) && SyncMakesDurable(s, t, made) && s.g.calls[t].flushSeq != s.g.pendingSeq && !s.st.broken
    requires var c := s.g.calls[t];
             var st := Flushed(s.st);
             s2 == s.(st := st, durable := made, g := RoundBegun(RoundBooked(s.g, c.flushSeq), t, c.mySeq, c.rec, |st.file|))
    ensures Takes(crc, s, SyncAgain(t, made), s2)
  {
  }

  lemma AgainFailsStep(crc: Checksum, s: State, t: nat, made: nat, file: Bytes, buf: Bytes, s2: State)
    requires IsLeader(s.g, t) && SyncMakesDurable(s, t, made) && s.g.calls[t].flushSeq != s.g.pendingSeq
    requires WriteFailed(s.st, [], file, buf)
    requires s2 == s.(st := FlushBroken(s.st, file, buf), durable := made,
                      g := GivenUp(RoundBooked(s.g, s.g.calls[t].flushSeq).(rounds := s.g.rounds + 1), t))
    ensures Takes(crc, s, SyncThenFlushFails(t, made, file, buf), s2)
  {
    hide WriteFailed;
  }
}
