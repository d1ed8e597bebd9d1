/**
 * A replicated node that restarts: its engine recovers from its own log, and then every command ever committed is
 * delivered to it once more, because the replicated log is never compacted.
 */
module Redelivery {
  import opened ByteSeqs
  import opened History
  import opened Engine
  import opened Replication

  predicate Resets(cmd: Command) {
    cmd.WipeAll? || cmd.LoadSnapshot?
  }

  predicate HasReset(cmds: seq<Command>) {
    exists i :: 0 <= i < |cmds| && Resets(cmds[i])
  }

  /** The command finds nothing to write: it is unknown, a duplicate, or a compare-and-set on another version. */
  predicate Silent(d: Db, cmd: Command, now: int) {
    match cmd
    case Unknown(_) => true
    case Write(op) =>
      || (op.idem != [] && op.idem in d.cache.dedup)
      || (op.Cas? && VersionIn(d.cache.index, op.key, now) != op.expected)
    case WipeAll => false
    case LoadSnapshot(_) => false
  }

  predicate AllSilent(d: Db, cmds: seq<Command>, clock: seq<int>)
    requires |clock| == |cmds|
  {
    forall i :: 0 <= i < |cmds| ==> Silent(d, cmds[i], clock[i])
  }

  lemma ApplyGrows(d: Db, cmd: Command, now: int)
    requires !Resets(cmd)
    ensures var d2 := ApplyTo(d, cmd, now).0;
            && d.cache.dedup.Keys <= d2.cache.dedup.Keys
            && (Silent(d, cmd, now) ==> d2 == d)
            && (!Silent(d, cmd, now) ==> |d2.log| == |d.log| + 1)
            && (cmd.Write? && !cmd.op.Cas? && cmd.op.idem != [] ==> cmd.op.idem in d2.cache.dedup)
  {
  }

  lemma {:induction false} RunGrows(d: Db, cmds: seq<Command>, clock: seq<int>)
    requires |clock| == |cmds| && !HasReset(cmds)
    ensures var d2 := Run(d, cmds, clock).0;
            && |d.log| <= |d2.log| && d.cache.dedup.Keys <= d2.cache.dedup.Keys
            && forall i :: 0 <= i < |cmds| && cmds[i].Write? && !cmds[i].op.Cas? && cmds[i].op.idem != [] ==>
                 cmds[i].op.idem in d2.cache.dedup
    decreases |cmds|
  {
    hide ApplyTo, Silent;
    if cmds != [] {
      NoResetInRest(cmds);
      ApplyGrows(d, cmds[0], clock[0]);
      RunGrows(ApplyTo(d, cmds[0], clock[0]).0, cmds[1..], clock[1..]);
      assert forall i :: 0 < i < |cmds| ==> cmds[i] == cmds[1..][i - 1];
    }
  }

  lemma NoResetInRest(cmds: seq<Command>)
    requires cmds != [] && !HasReset(cmds)
    ensures !Resets(cmds[0]) && !HasReset(cmds[1..])
  {
    assert forall i :: 0 <= i < |cmds[1..]| ==> cmds[1..][i] == cmds[i + 1];
  }

  lemma {:induction false} SilentRun(d: Db, cmds: seq<Command>, clock: seq<int>)
    requires |clock| == |cmds| && AllSilent(d, cmds, clock)
    ensures Run(d, cmds, clock).0 == d
    decreases |cmds|
  {
    hide ApplyTo;
    if cmds != [] {
      assert Silent(d, cmds[0], clock[0]);
      ApplyGrows(d, cmds[0], clock[0]);
      assert forall i :: 0 <= i < |cmds[1..]| ==> cmds[1..][i] == cmds[i + 1] && clock[1..][i] == clock[i + 1];
      SilentRun(d, cmds[1..], clock[1..]);
    }
  }

  /** The first command that does find something to write makes the log longer for good. */
  lemma {:induction false} LoudRun(d: Db, cmds: seq<Command>, clock: seq<int>)
    requires |clock| == |cmds| && !HasReset(cmds) && !AllSilent(d, cmds, clock)
    ensures |Run(d, cmds, clock).0.log| > |d.log|
    decreases |cmds|
  {
    hide ApplyTo, Silent;
    NoResetInRest(cmds);
    ApplyGrows(d, cmds[0], clock[0]);
    if Silent(d, cmds[0], clock[0]) {
      var i :| 0 <= i < |cmds| && !Silent(d, cmds[i], clock[i]);
      assert cmds[1..][i - 1] == cmds[i] && clock[1..][i - 1] == clock[i];
      LoudRun(d, cmds[1..], clock[1..]);
    } else {
      RunGrows(ApplyTo(d, cmds[0], clock[0]).0, cmds[1..], clock[1..]);
    }
  }

  /** With a wipe or a load among the commands, the state they start from does not matter. */
  lemma {:induction false} ResetForgets(d: Db, cmds: seq<Command>, clock: seq<int>, d2: Db, clock2: seq<int>)
    requires |clock| == |clock2| == |cmds| && HasReset(cmds) && Positive(d) && ClockFree(d, cmds)
    ensures Run(d, cmds, clock).0 == Run(d2, cmds, clock2).0
    decreases |cmds|
  {
    hide ClockSensitive, ApplyTo;
    InsensitiveAgrees(d, cmds[0], clock[0], 0);
    ApplyPositive(d, cmds[0], 0);
    if Resets(cmds[0]) {
      ResetIgnores(d, d2, cmds[0], clock[0], clock2[0]);
      Converge(ApplyTo(d, cmds[0], 0).0, cmds[1..], clock[1..], clock2[1..]);
    } else {
      ResetInRest(cmds);
      ResetForgets(ApplyTo(d, cmds[0], 0).0, cmds[1..], clock[1..], ApplyTo(d2, cmds[0], clock2[0]).0, clock2[1..]);
    }
  }

  lemma ResetIgnores(d: Db, d2: Db, cmd: Command, now: int, now2: int)
    requires Resets(cmd)
    ensures ApplyTo(d, cmd, now) == ApplyTo(d2, cmd, now2)
  {
  }

  lemma ResetInRest(cmds: seq<Command>)
    requires HasReset(cmds) && !Resets(cmds[0])
    ensures HasReset(cmds[1..])
  {
    var i :| 0 <= i < |cmds| && Resets(cmds[i]);
    assert cmds[1..][i - 1] == cmds[i];
  }

  /**
   * The node restarts and gets all its commands again. It ends in the state it was in, and so in that of the nodes which
   * did not restart, if and only if the commands include a wipe or a snapshot load, or each finds nothing to write.
   */
  lemma RedeliveryHarmlessIff(cmds: seq<Command>, clock: seq<int>, clock2: seq<int>)
    requires |clock| == |clock2| == |cmds| && ClockFree(NEW_DB, cmds)
    ensures var d := Run(NEW_DB, cmds, clock).0;
            Run(Reopened(d.log), cmds, clock2).0 == d <==> HasReset(cmds) || AllSilent(d, cmds, clock2)
  {
    hide Run, ClockFree, HasReset, AllSilent;
    var d := Run(NEW_DB, cmds, clock).0;
    ReplayNothing();
    RunIsDictated(NEW_DB, cmds, clock);
    ConsistentIsPositive(NEW_DB);
    if HasReset(cmds) {
      ResetForgets(NEW_DB, cmds, clock, d, clock2);
    } else if AllSilent(d, cmds, clock2) {
      SilentRun(d, cmds, clock2);
    } else {
      LoudRun(d, cmds, clock2);
    }
  }

  /** Puts and deletes alone: redelivery is harmless if and only if every one of them carries an idempotency key. */
  lemma WritesRedeliveredIff(cmds: seq<Command>, clock: seq<int>, clock2: seq<int>)
    requires |clock| == |clock2| == |cmds| && forall i :: 0 <= i < |cmds| ==> cmds[i].Write? && !cmds[i].op.Cas?
    ensures var d := Run(NEW_DB, cmds, clock).0;
            Run(Reopened(d.log), cmds, clock2).0 == d <==> forall i :: 0 <= i < |cmds| ==> cmds[i].op.idem != []
  {
    hide Run, ClockFree;
    var d := Run(NEW_DB, cmds, clock).0;
    UnconditionalIsClockFree(NEW_DB, cmds);
    RedeliveryHarmlessIff(cmds, clock, clock2);
    RunGrows(NEW_DB, cmds, clock);
    assert forall i :: 0 <= i < |cmds| && cmds[i].op.idem == [] ==> !Silent(d, cmds[i], clock2[i]);
  }

  lemma {:induction false} UnconditionalIsClockFree(d: Db, cmds: seq<Command>)
    requires forall i :: 0 <= i < |cmds| ==> cmds[i].Write? && !cmds[i].op.Cas?
    ensures ClockFree(d, cmds)
    decreases |cmds|
  {
    hide ApplyTo;
    if cmds != [] {
      UnconditionalIsClockFree(ApplyTo(d, cmds[0], 0).0, cmds[1..]);
    }
  }

  /** The input at which it goes wrong: after one plain Put, a compare-and-set on its version splits the nodes. */
  lemma RedeliverySplits(key: Bytes, value: Bytes, value2: Bytes, now: int)
    ensures var put := Write(Put(key, value, 0, []));
            var cas := Write(Cas(key, value2, 1, 0, []));
            var stayed := Run(NEW_DB, [put], [now]).0;
            var restarted := Run(Reopened(stayed.log), [put], [now]).0;
            && ApplyTo(stayed, cas, now).1 == Replied(Done(Outcome(2, 2, false)))
            && ApplyTo(restarted, cas, now).1 == Replied(Mismatch)
  {
    var put := Write(Put(key, value, 0, []));
    var d := ApplyTo(NEW_DB, put, now).0;
    assert Run(NEW_DB, [put], [now]).0 == d;
    ReplayNothing();
    RunIsDictated(NEW_DB, [put], [now]);
    assert Run(Reopened(d.log), [put], [now]).0 == ApplyTo(d, put, now).0;
  }
}
