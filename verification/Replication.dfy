/** The replicated state machine: commands applied to an engine, convergence of replicas, snapshot and reload. */
module Replication {
  import opened Options
  import opened ByteSeqs
  import opened Recovery
  import opened History
  import opened Engine

  datatype Command =
    | Write(op: Op)
    | WipeAll
    | LoadSnapshot(entries: seq<SnapshotEntry>)
    | Unknown(code: nat)

  datatype Result = Replied(reply: Reply) | Wiped | Loaded | UnknownOp(code: nat)

  function PutOf(e: SnapshotEntry): (op: Op) {
    Put(e.key, e.value, e.expires, [])
  }

  /** Re-applying snapshot entries one by one. */
  function Load(d: Db, entries: seq<SnapshotEntry>): (d2: Db)
    decreases |entries|
  {
    if entries == [] then d else Load(Exec(d, PutOf(entries[0]), 0, true).0, entries[1..])
  }

  /** `FSM.Apply` on a replica whose clock reads `now`, without I/O errors. */
  function ApplyTo(d: Db, cmd: Command, now: int): (r: (Db, Result)) {
    match cmd
    case Write(op) => var (d2, reply) := Exec(d, op, now, true); (d2, Replied(reply))
    case WipeAll => (NEW_DB, Wiped)
    case LoadSnapshot(entries) => (Load(NEW_DB, entries), Loaded)
    case Unknown(code) => (d, UnknownOp(code))
  }

  class Fsm {
    const engine: KvEngine

    constructor (engine: KvEngine)
      ensures this.engine == engine
    {
      this.engine := engine;
    }

    method Apply(cmd: Command, now: int) returns (res: Result)
      modifies engine
      ensures (engine.State(), res) == ApplyTo(old(engine.State()), cmd, now)
    {
      match cmd
      case Write(Put(key, value, expires, idem)) =>
        var reply := engine.ApplyPut(key, value, expires, idem, now, true);
        res := Replied(reply);
      case Write(Delete(key, idem)) =>
        var reply := engine.Remove(key, idem, now, true);
        res := Replied(reply);
      case Write(Cas(key, value, expected, expires, idem)) =>
        var reply := engine.ApplyCompareAndSet(key, value, expected, expires, idem, now, true);
        res := Replied(reply);
      case WipeAll =>
        var _, _ := engine.Reset(None);
        res := Wiped;
      case LoadSnapshot(entries) =>
        Restore(entries, now);
        res := Loaded;
      case Unknown(code) =>
        res := UnknownOp(code);
    }

    /** `loadSnapshot` and `Restore`: wipe, then put the entries back in order. */
    method Restore(entries: seq<SnapshotEntry>, now: int)
      modifies engine
      ensures engine.State() == Load(NEW_DB, entries)
    {
      var _, _ := engine.Reset(None);
      for i := 0 to |entries|
        invariant Load(NEW_DB, entries) == Load(engine.State(), entries[i..])
      {
        assert entries[i..][0] == entries[i] && entries[i..][1..] == entries[i + 1..];
        var e := entries[i];
        var _ := engine.ApplyPut(e.key, e.value, e.expires, [], now, true);
      }
      assert entries[|entries|..] == [];
    }
  }

  // ---------------------------------------------------------------- runs

  /** A replica applies the commands in order; `clock[i]` is what its clock reads at the i-th. */
  function Run(d: Db, cmds: seq<Command>, clock: seq<int>): (r: (Db, seq<Result>))
    requires |clock| == |cmds|
    decreases |cmds|
  {
    if cmds == [] then (d, [])
    else
      var (d1, res) := ApplyTo(d, cmds[0], clock[0]);
      var (d2, rest) := Run(d1, cmds[1..], clock[1..]);
      (d2, [res] + rest)
  }

  // ---------------------------------------------------------------- what commands mean to a reader

  /** One command, through every read and the reply: a write that commits, one that does not, a wipe, an unknown command. */
  lemma CommandIsRead(d: Db, cmd: Command, now: int, key: Bytes, t: int)
    requires !cmd.LoadSnapshot?
    ensures var (d2, res) := ApplyTo(d, cmd, now);
            var read, read2 := Lookup(d.cache.index, key, t), Lookup(d2.cache.index, key, t);
            match cmd
            case Write(op) =>
              if !Commits(d, op, now) then d2 == d
              else
                var pos := |d.log| + 1;
                && res == Replied(Done(Outcome(pos, pos, false))) && |d2.log| == pos
                && read2 == if key == op.key then Leaves(op, pos, t) else read
            case WipeAll => res == Wiped && read2 == Missing && d2.log == [] && d2.cache.dedup == map[]
            case LoadSnapshot(_) => true
            case Unknown(code) => res == UnknownOp(code) && d2 == d
  {
    hide Exec, Commits, Replay1;
    if cmd.Write? {
      if Commits(d, cmd.op, now) {
        CommitIsRead(d, cmd.op, now, t);
        if key != cmd.op.key {
          CommitSparesOthers(d, cmd.op, now, key, t, cmd.op.idem + [0]);
        }
      } else {
        NoCommitNoChange(d, cmd.op, now, true);
      }
    }
  }

  lemma {:induction false} RunSplits(d: Db, a: seq<Command>, b: seq<Command>, clockA: seq<int>, clockB: seq<int>)
    requires |a| == |clockA| && |b| == |clockB|
    ensures var (d1, x) := Run(d, a, clockA);
            var (d2, y) := Run(d1, b, clockB);
            Run(d, a + b, clockA + clockB) == (d2, x + y)
    decreases |a|
  {
    hide ApplyTo;
    if a == [] {
      assert a + b == b && clockA + clockB == clockB;
      var y := Run(d, b, clockB).1;
      assert [] + y == y;
    } else {
      var (d1, res) := ApplyTo(d, a[0], clockA[0]);
      assert (a + b)[1..] == a[1..] + b && (clockA + clockB)[1..] == clockA[1..] + clockB;
      RunSplits(d1, a[1..], b, clockA[1..], clockB);
      var (d2, x) := Run(d1, a[1..], clockA[1..]);
      var y := Run(d2, b, clockB).1;
      assert [res] + (x + y) == [res] + x + y;
    }
  }

  /** The command neither wipes nor loads nor writes the key. */
  predicate Spares(cmd: Command, key: Bytes) {
    cmd.Unknown? || (cmd.Write? && cmd.op.key != key)
  }

  lemma {:induction false} SparedReadsTheSame(d: Db, cmds: seq<Command>, clock: seq<int>, key: Bytes, t: int)
    requires |clock| == |cmds| && forall i :: 0 <= i < |cmds| ==> Spares(cmds[i], key)
    ensures Lookup(Run(d, cmds, clock).0.cache.index, key, t) == Lookup(d.cache.index, key, t)
    decreases |cmds|
  {
    hide ApplyTo, Lookup;
    if cmds != [] {
      CommandIsRead(d, cmds[0], clock[0], key, t);
      assert Spares(cmds[0], key);
      SparedReadsTheSame(ApplyTo(d, cmds[0], clock[0]).0, cmds[1..], clock[1..], key, t);
    }
  }

  /**
   * Every replica that has applied a committed write, and since then nothing that concerns its key, reads what that
   * write asked for, and answered it with the position it is read with.
   */
  lemma ReplicaReadsLastWrite(
    d: Db, before: seq<Command>, op: Op, now: int, after: seq<Command>, clock: seq<int>, clock2: seq<int>, t: int)
    requires |clock| == |before| && |clock2| == |after| && forall i :: 0 <= i < |after| ==> Spares(after[i], op.key)
    requires Commits(Run(d, before, clock).0, op, now)
    ensures var (d2, results) := Run(d, before + [Write(op)] + after, clock + [now] + clock2);
            var pos := |Run(d, before, clock).0.log| + 1;
            && Lookup(d2.cache.index, op.key, t) == Leaves(op, pos, t)
            && |results| > |before| && results[|before|] == Replied(Done(Outcome(pos, pos, false)))
  {
    hide ApplyTo, Lookup, Leaves, Commits, Run;
    var (d0, x) := Run(d, before, clock);
    var (d1, res) := ApplyTo(d0, Write(op), now);
    RunLength(d, before, clock);
    RunOne(d0, Write(op), now);
    RunSplits(d, before, [Write(op)], clock, [now]);
    assert Run(d, before + [Write(op)], clock + [now]) == (d1, x + [res]);
    RunSplits(d, before + [Write(op)], after, clock + [now], clock2);
    CommandIsRead(d0, Write(op), now, op.key, t);
    SparedReadsTheSame(d1, after, clock2, op.key, t);
  }

  lemma RunOne(d: Db, cmd: Command, now: int)
    ensures Run(d, [cmd], [now]) == (ApplyTo(d, cmd, now).0, [ApplyTo(d, cmd, now).1])
  {
    hide ApplyTo;
    var (d2, res) := ApplyTo(d, cmd, now);
    assert [cmd][1..] == [] && [now][1..] == [];
    assert Run(d2, [], []) == (d2, []);
    assert [res] + [] == [res];
  }

  lemma {:induction false} RunLength(d: Db, cmds: seq<Command>, clock: seq<int>)
    requires |clock| == |cmds|
    ensures |Run(d, cmds, clock).1| == |cmds|
    decreases |cmds|
  {
    hide ApplyTo;
    if cmds != [] {
      RunLength(ApplyTo(d, cmds[0], clock[0]).0, cmds[1..], clock[1..]);
    }
  }

  /** What the commands dictate, said on the log alone: writes as a log without caches takes them, wipes and loads start over. */
  function Dictated(log: Log, cmds: seq<Command>, clock: seq<int>): (r: (Log, seq<Result>))
    requires |clock| == |cmds|
    decreases |cmds|
  {
    if cmds == [] then (log, [])
    else
      var (log1, res) :=
        match cmds[0]
        case Write(op) => var (log1, reply) := ExecOnLog(log, op, clock[0]); (log1, Replied(reply))
        case WipeAll => ([], Wiped)
        case LoadSnapshot(entries) => (LoadedLog(entries), Loaded)
        case Unknown(code) => (log, UnknownOp(code));
      var (log2, rest) := Dictated(log1, cmds[1..], clock[1..]);
      (log2, [res] + rest)
  }

  /** A replica's log, caches and answers are what its commands dictate on the log alone. */
  lemma {:induction false} RunIsDictated(d: Db, cmds: seq<Command>, clock: seq<int>)
    requires |clock| == |cmds| && Consistent(d)
    ensures var (log, results) := Dictated(d.log, cmds, clock);
            Run(d, cmds, clock) == (Reopened(log), results) && Consistent(Reopened(log))
    decreases |cmds|
  {
    hide Exec, ExecOnLog, Load, LoadedLog, Replay;
    if cmds != [] {
      ReplayNothing();
      match cmds[0] {
        case Write(op) => ExecIsHistory(d, op, clock[0]);
        case WipeAll =>
        case LoadSnapshot(entries) => ReloadIsReplay(entries);
        case Unknown(_) =>
      }
      RunIsDictated(ApplyTo(d, cmds[0], clock[0]).0, cmds[1..], clock[1..]);
    }
  }

  // ---------------------------------------------------------------- clocks

  /**
   * The one command whose effect depends on the clock: a compare-and-set with a fresh idempotency key that meets an
   * entry carrying an expiry and expects either that entry's version or the key's absence.
   */
  predicate ClockSensitive(d: Db, cmd: Command) {
    && cmd.Write? && cmd.op.Cas?
    && !(cmd.op.idem != [] && cmd.op.idem in d.cache.dedup)
    && cmd.op.key in d.cache.index
    && var e := d.cache.index[cmd.op.key];
       e.expires != 0 && (cmd.op.expected == 0 || cmd.op.expected == e.version)
  }

  /** No command is clock sensitive in the state it meets. */
  predicate ClockFree(d: Db, cmds: seq<Command>)
    decreases |cmds|
  {
    cmds == [] || (!ClockSensitive(d, cmds[0]) && ClockFree(ApplyTo(d, cmds[0], 0).0, cmds[1..]))
  }

  /** Versions in the index are commit positions, hence never 0, and an expiry is 0 or a later time. */
  ghost predicate Positive(d: Db) {
    forall key :: key in d.cache.index ==> d.cache.index[key].version > 0 && d.cache.index[key].expires >= 0
  }

  lemma ConsistentIsPositive(d: Db)
    requires Consistent(d)
    ensures Positive(d)
  {
    forall key | key in d.cache.index ensures d.cache.index[key].version > 0 && d.cache.index[key].expires >= 0 {
      IndexIsLastRecord(d.log, key);
    }
  }

  lemma {:induction false} LoadPositive(d: Db, entries: seq<SnapshotEntry>)
    requires Positive(d)
    ensures Positive(Load(d, entries))
    decreases |entries|
  {
    if entries != [] {
      LoadPositive(Exec(d, PutOf(entries[0]), 0, true).0, entries[1..]);
    }
  }

  lemma ApplyPositive(d: Db, cmd: Command, now: int)
    requires Positive(d)
    ensures Positive(ApplyTo(d, cmd, now).0)
  {
    hide Load;
    if cmd.LoadSnapshot? {
      LoadPositive(NEW_DB, cmd.entries);
    }
  }

  lemma InsensitiveAgrees(d: Db, cmd: Command, now1: int, now2: int)
    requires Positive(d) && !ClockSensitive(d, cmd)
    ensures ApplyTo(d, cmd, now1) == ApplyTo(d, cmd, now2)
  {
    hide Load, Replay1;
  }

  /** One clock reads the expiry itself, the other just after it: the two replies differ. */
  lemma SensitiveDiffers(d: Db, cmd: Command)
    requires Positive(d) && ClockSensitive(d, cmd)
    ensures var e := d.cache.index[cmd.op.key].expires;
            ApplyTo(d, cmd, e).1 != ApplyTo(d, cmd, e + 1).1
  {
    hide Load, Replay1;
  }

  /** Replicas converge whatever their clocks say, when no command is clock sensitive. */
  lemma {:induction false} Converge(d: Db, cmds: seq<Command>, clock1: seq<int>, clock2: seq<int>)
    requires Positive(d) && |clock1| == |clock2| == |cmds| && ClockFree(d, cmds)
    ensures Run(d, cmds, clock1) == Run(d, cmds, clock2)
    decreases |cmds|
  {
    hide ApplyTo, ClockSensitive;
    if cmds != [] {
      InsensitiveAgrees(d, cmds[0], clock1[0], 0);
      InsensitiveAgrees(d, cmds[0], clock2[0], 0);
      ApplyPositive(d, cmds[0], 0);
      Converge(ApplyTo(d, cmds[0], 0).0, cmds[1..], clock1[1..], clock2[1..]);
    }
  }

  /** Readings of a clock that starts at 0 or later and never goes back. */
  ghost predicate Ticking(clock: seq<int>) {
    forall i, j :: 0 <= i <= j < |clock| ==> 0 <= clock[i] <= clock[j]
  }

  /** Otherwise two clocks exist, neither of which ever goes back, under which they return different results. */
  lemma {:induction false} Diverge(d: Db, cmds: seq<Command>) returns (clock1: seq<int>, clock2: seq<int>)
    requires Positive(d) && !ClockFree(d, cmds)
    ensures |clock1| == |clock2| == |cmds| && Ticking(clock1) && Ticking(clock2)
    ensures Run(d, cmds, clock1).1 != Run(d, cmds, clock2).1
    decreases |cmds|
  {
    hide ApplyTo;
    if ClockSensitive(d, cmds[0]) {
      var e := d.cache.index[cmds[0].op.key].expires;
      SensitiveDiffers(d, cmds[0]);
      clock1 := seq(|cmds|, _ => e);
      clock2 := seq(|cmds|, _ => e + 1);
      assert Run(d, cmds, clock1).1[0] != Run(d, cmds, clock2).1[0];
    } else {
      ApplyPositive(d, cmds[0], 0);
      var rest1, rest2 := Diverge(ApplyTo(d, cmds[0], 0).0, cmds[1..]);
      clock1, clock2 := [0] + rest1, [0] + rest2;
      assert clock1[1..] == rest1 && clock2[1..] == rest2;
      assert Run(d, cmds, clock1).1[1..] != Run(d, cmds, clock2).1[1..];
    }
  }

  ghost predicate AgreeForAllClocks(d: Db, cmds: seq<Command>) {
    forall clock1: seq<int>, clock2: seq<int> ::
      |clock1| == |cmds| && |clock2| == |cmds| ==> Run(d, cmds, clock1) == Run(d, cmds, clock2)
  }

  /** The same, for clocks that never go back. */
  ghost predicate AgreeForTickingClocks(d: Db, cmds: seq<Command>) {
    forall clock1: seq<int>, clock2: seq<int> ::
      |clock1| == |cmds| && |clock2| == |cmds| && Ticking(clock1) && Ticking(clock2) ==>
        Run(d, cmds, clock1) == Run(d, cmds, clock2)
  }

  /**
   * Replicas that start from the same consistent state, such as new engines, agree on log, caches and results under
   * all clocks iff the commands are clock free; and that clocks never go back makes no difference.
   */
  lemma ReplicasConvergeIff(d: Db, cmds: seq<Command>)
    requires Consistent(d)
    ensures AgreeForAllClocks(d, cmds) <==> ClockFree(d, cmds)
    ensures AgreeForTickingClocks(d, cmds) <==> ClockFree(d, cmds)
  {
    hide Run, ClockFree, Consistent, Ticking;
    ConsistentIsPositive(d);
    if ClockFree(d, cmds) {
      forall clock1: seq<int>, clock2: seq<int> | |clock1| == |cmds| && |clock2| == |cmds|
        ensures Run(d, cmds, clock1) == Run(d, cmds, clock2)
      {
        Converge(d, cmds, clock1, clock2);
      }
    } else {
      var clock1, clock2 := Diverge(d, cmds);
      assert !AgreeForTickingClocks(d, cmds);
    }
  }

  /** After a wipe or a snapshot load even replicas in unrelated states with unrelated clocks agree from then on. */
  lemma ResetReconciles(d1: Db, d2: Db, cmd: Command, cmds: seq<Command>, clock1: seq<int>, clock2: seq<int>)
    requires (cmd.WipeAll? || cmd.LoadSnapshot?) && |clock1| == |clock2| == |cmds| + 1
    requires ClockFree(ApplyTo(NEW_DB, cmd, 0).0, cmds)
    ensures Run(d1, [cmd] + cmds, clock1) == Run(d2, [cmd] + cmds, clock2)
  {
    var d := ApplyTo(NEW_DB, cmd, 0).0;
    ApplyPositive(NEW_DB, cmd, 0);
    assert ([cmd] + cmds)[1..] == cmds;
    Converge(d, cmds, clock1[1..], clock2[1..]);
  }

  // ---------------------------------------------------------------- snapshot and reload

  /** The log a reload writes: one Put per entry, in order. */
  function LoadedLog(entries: seq<SnapshotEntry>): (log: Log)
    ensures |log| == |entries|
    ensures forall i :: 0 <= i < |entries| ==> log[i] == RecordFor(PutOf(entries[i]), i + 1)
  {
    if entries == [] then []
    else LoadedLog(entries[..|entries| - 1]) + [RecordFor(PutOf(entries[|entries| - 1]), |entries|)]
  }

  lemma LoadStep(done: seq<SnapshotEntry>, e: SnapshotEntry)
    ensures Exec(Reopened(LoadedLog(done)), PutOf(e), 0, true).0 == Reopened(LoadedLog(done + [e]))
  {
    hide Replay, Replay1;
    assert (done + [e])[..|done|] == done;
    ReplayAppend(LoadedLog(done), RecordFor(PutOf(e), |done| + 1));
  }

  lemma {:induction false} LoadIsReplay(done: seq<SnapshotEntry>, entries: seq<SnapshotEntry>)
    ensures Load(Reopened(LoadedLog(done)), entries) == Reopened(LoadedLog(done + entries))
    decreases |entries|
  {
    hide Replay, Replay1, Exec, LoadedLog;
    if entries == [] {
      assert done + entries == done;
    } else {
      LoadStep(done, entries[0]);
      LoadIsReplay(done + [entries[0]], entries[1..]);
      assert done + [entries[0]] + entries[1..] == done + entries;
    }
  }

  lemma NothingLoaded()
    ensures Reopened(LoadedLog([])) == NEW_DB
  {
    hide Replay;
    ReplayNothing();
  }

  lemma LoadedNumbered(entries: seq<SnapshotEntry>)
    ensures Numbered(LoadedLog(entries))
  {
    hide LoadedLog;
  }

  /** A reload leaves the engine exactly as a replay of the reloaded log would. */
  lemma ReloadIsReplay(entries: seq<SnapshotEntry>)
    ensures Load(NEW_DB, entries) == Reopened(LoadedLog(entries)) && Consistent(Load(NEW_DB, entries))
  {
    hide Load, Exec, Replay, Replay1, LoadedLog, Numbered;
    NothingLoaded();
    LoadIsReplay([], entries);
    assert [] + entries == entries;
    LoadedNumbered(entries);
  }

  lemma LastOfLoaded(entries: seq<SnapshotEntry>, i: nat)
    requires forall i, j :: 0 <= i < j < |entries| ==> entries[i].key != entries[j].key
    requires i < |entries|
    ensures Last(LoadedLog(entries), entries[i].key) == i + 1
  {
    hide LoadedLog, Last;
    LastIs(LoadedLog(entries), entries[i].key, i + 1);
  }

  /** With distinct keys each reloaded entry gets its place in the snapshot as its version. */
  lemma LoadedAt(entries: seq<SnapshotEntry>, i: nat)
    requires forall i, j :: 0 <= i < j < |entries| ==> entries[i].key != entries[j].key
    requires i < |entries|
    ensures var index := Load(NEW_DB, entries).cache.index;
            entries[i].key in index && index[entries[i].key] == EntryOf(RecordFor(PutOf(entries[i]), i + 1))
  {
    hide Replay, Replay1, Exec, Load, LoadedLog, Last, Numbered;
    ReloadIsReplay(entries);
    LastOfLoaded(entries, i);
    IndexIsLastRecord(LoadedLog(entries), entries[i].key);
  }

  /** No other key is present. */
  lemma LoadedOnly(entries: seq<SnapshotEntry>, key: Bytes)
    requires key in Load(NEW_DB, entries).cache.index
    ensures exists i :: 0 <= i < |entries| && entries[i].key == key
  {
    hide Replay, Replay1, Exec, Load, LoadedLog, Last;
    ReloadIsReplay(entries);
    IndexIsLastRecord(LoadedLog(entries), key);
    var n := Last(LoadedLog(entries), key);
    assert entries[n - 1].key == key;
  }

  /** The number of the last entry for `key`; 0 if there is none. */
  function LastEntry(entries: seq<SnapshotEntry>, key: Bytes): (n: nat)
    ensures n <= |entries| && (n > 0 ==> entries[n - 1].key == key)
    ensures forall i :: n <= i < |entries| ==> entries[i].key != key
  {
    if entries == [] then 0
    else if entries[|entries| - 1].key == key then |entries|
    else LastEntry(entries[..|entries| - 1], key)
  }

  /** After loading any entries at all, a key reads what its last entry says, with the entry's number as its version. */
  lemma LoadedReads(entries: seq<SnapshotEntry>, key: Bytes, t: int)
    ensures var n := LastEntry(entries, key);
            Lookup(Load(NEW_DB, entries).cache.index, key, t) ==
            if n == 0 then Missing else Live(entries[n - 1].value, entries[n - 1].expires, n, t)
  {
    hide Replay, Replay1, Exec, Load, LoadedLog, Last, LastEntry, Lookup;
    var log, n := LoadedLog(entries), LastEntry(entries, key);
    ReloadIsReplay(entries);
    assert Last(log, key) == n by { LastIs(log, key, n); }
    LookupIsHistory(Load(NEW_DB, entries), key, t);
  }

  /** What a reader can tell apart: the value, or that there is none. */
  function Seen(r: Read): (s: seq<Bytes>) {
    match r
    case Found(value, _) => [value]
    case Missing => []
  }

  /**
   * Snapshot between the times `from` and `to`, reset, reload, in whatever order the snapshot lists its entries:
   * every key reads the same as before at every time from `to` on.
   */
  lemma ReloadPreservesReads(d: Db, out: seq<SnapshotEntry>, from: int, to: int, key: Bytes, now: int)
    requires IsSnapshot(out, d.cache.index, from, to) && to <= now
    ensures Seen(Lookup(Load(NEW_DB, out).cache.index, key, now)) == Seen(Lookup(d.cache.index, key, now))
  {
    hide Load, Replay, Replay1, Exec;
    if key in Load(NEW_DB, out).cache.index {
      LoadedOnly(out, key);
      var i :| 0 <= i < |out| && out[i].key == key;
      LoadedAt(out, i);
    } else if key in d.cache.index && !Expired(d.cache.index[key], to) {
      var i :| 0 <= i < |out| && out[i].key == key;
      LoadedAt(out, i);
      assert false;
    }
  }

  /** The versions after a reload are 1..n, each once. */
  lemma ReloadedVersions(d: Db, out: seq<SnapshotEntry>, from: int, to: int)
    requires IsSnapshot(out, d.cache.index, from, to)
    ensures var index := Load(NEW_DB, out).cache.index;
            && index.Keys == (set i | 0 <= i < |out| :: out[i].key)
            && (forall i :: 0 <= i < |out| ==> index[out[i].key].version == i + 1)
            && (forall a, b :: a in index && b in index && index[a].version == index[b].version ==> a == b)
  {
    hide Load, Replay, Replay1, Exec;
    var index := Load(NEW_DB, out).cache.index;
    forall i | 0 <= i < |out| ensures out[i].key in index && index[out[i].key].version == i + 1 {
      LoadedAt(out, i);
    }
    forall key | key in index ensures exists i :: 0 <= i < |out| && out[i].key == key {
      LoadedOnly(out, key);
    }
  }
}
