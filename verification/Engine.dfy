/** The key-value engine: mutations through the log, the index and dedup caches, reads, and recovery. */
module Engine {
  import opened Options
  import opened ByteSeqs
  import opened Codec
  import opened Recovery
  import opened History

  datatype Op =
    | Put(key: Bytes, value: Bytes, expires: int, idem: Bytes)
    | Delete(key: Bytes, idem: Bytes)
    | Cas(key: Bytes, value: Bytes, expected: nat, expires: int, idem: Bytes)

  datatype Reply = Done(out: Outcome) | Mismatch | AppendFailed

  datatype ResetStep = CloseLog | RemoveFile | OpenLog

  datatype Db = Db(log: Log, cache: Cache)

  datatype Read = Found(value: Bytes, version: nat) | Missing

  const NEW_DB := Db([], EMPTY)

  function RecordFor(op: Op, pos: nat): (r: Record) {
    match op
    case Put(key, value, expires, idem) => Record(pos, KIND_PUT, key, value, expires, idem)
    case Delete(key, idem) => Record(pos, KIND_DELETE, key, [], 0, idem)
    case Cas(key, value, _, expires, idem) => Record(pos, KIND_PUT, key, value, expires, idem)
  }

  function Lookup(index: map<Bytes, Entry>, key: Bytes, now: int): (r: Read) {
    if key in index && !Expired(index[key], now) then Found(index[key].value, index[key].version) else Missing
  }

  function VersionIn(index: map<Bytes, Entry>, key: Bytes, now: int): (v: nat) {
    match Lookup(index, key, now)
    case Found(_, version) => version
    case Missing => 0
  }

  /** One mutation on log and caches. `ok` is whether `Append` returned success; its position is used up either way. */
  function Exec(d: Db, op: Op, now: int, ok: bool): (r: (Db, Reply)) {
    if op.idem != [] && op.idem in d.cache.dedup then (d, Done(d.cache.dedup[op.idem].(deduplicated := true)))
    else if op.Cas? && VersionIn(d.cache.index, op.key, now) != op.expected then (d, Mismatch)
    else
      var rec := RecordFor(op, |d.log| + 1);
      if ok then (Db(d.log + [rec], Replay1(d.cache, rec)), Done(Outcome(rec.pos, rec.pos, false)))
      else (d.(log := d.log + [rec]), AppendFailed)
  }

  function Reopened(log: Log): (d: Db) {
    Db(log, Replay(log))
  }

  ghost predicate Consistent(d: Db) {
    Numbered(d.log) && d.cache == Replay(d.log)
  }

  lemma ReplayNothing()
    ensures Replay([]) == EMPTY && Consistent(NEW_DB)
  {
  }

  // ---------------------------------------------------------------- a reference that knows only the log

  /** The live version of `key` at time `now`, by looking at its last record. */
  function VersionAt(log: Log, key: Bytes, now: int): (v: nat) {
    var n := Last(log, key);
    if Present(log, key) && !Expired(EntryOf(log[n - 1]), now) then n else 0
  }

  function LookupAt(log: Log, key: Bytes, now: int): (r: Read) {
    var v := VersionAt(log, key, now);
    if v > 0 then Found(log[v - 1].value, v) else Missing
  }

  /** What a mutation must do, said without any cache. */
  function ExecOnLog(log: Log, op: Op, now: int): (r: (Log, Reply)) {
    var n := Used(log, op.idem);
    if op.idem != [] && n > 0 then (log, Done(Outcome(n, n, true)))
    else if op.Cas? && VersionAt(log, op.key, now) != op.expected then (log, Mismatch)
    else (log + [RecordFor(op, |log| + 1)], Done(Outcome(|log| + 1, |log| + 1, false)))
  }

  lemma LookupIsHistory(d: Db, key: Bytes, now: int)
    requires Consistent(d)
    ensures Lookup(d.cache.index, key, now) == LookupAt(d.log, key, now)
    ensures VersionIn(d.cache.index, key, now) == VersionAt(d.log, key, now)
  {
    IndexIsLastRecord(d.log, key);
  }

  /** The cached engine computes what the log alone dictates, and leaves its caches equal to a replay. */
  lemma ExecIsHistory(d: Db, op: Op, now: int)
    requires Consistent(d)
    ensures var (log, reply) := ExecOnLog(d.log, op, now);
            Exec(d, op, now, true) == (Reopened(log), reply) && Consistent(Reopened(log))
  {
    LookupIsHistory(d, op.key, now);
    if op.idem != [] {
      DedupIsLastUse(d.log, op.idem);
    }
    ReplayAppend(d.log, RecordFor(op, |d.log| + 1));
  }

  /**
   * After a failed Append whose record is in the log nevertheless, the caches agree with a replay exactly when the
   * mutation was the deletion of an absent key without an idempotency key.
   */
  lemma FailedAppendStaleIff(d: Db, op: Op, now: int)
    requires Consistent(d) && Exec(d, op, now, false).1 == AppendFailed
    ensures var d2 := Exec(d, op, now, false).0;
            Consistent(d2) <==> op.Delete? && op.key !in d.cache.index && op.idem == []
  {
    var rec := RecordFor(op, |d.log| + 1);
    var c2 := Replay(d.log + [rec]);
    ReplayAppend(d.log, rec);
    IndexIsLastRecord(d.log, op.key);
    if !op.Delete? {
      assert c2.index[op.key].version == |d.log| + 1;
    } else if op.idem != [] {
      assert op.idem in c2.dedup && op.idem !in d.cache.dedup;
    } else if op.key in d.cache.index {
      assert op.key !in c2.index;
    } else {
      assert d.cache.index - {op.key} == d.cache.index;
    }
  }

  // ---------------------------------------------------------------- what a mutation does, as a client sees it

  /** Not answered from the dedup table, and not a compare-and-set on another version. */
  predicate Commits(d: Db, op: Op, now: int) {
    !(op.idem != [] && op.idem in d.cache.dedup) && (op.Cas? ==> VersionIn(d.cache.index, op.key, now) == op.expected)
  }

  /** Whether a mutation commits, read off the log. */
  lemma CommitsIsHistory(d: Db, op: Op, now: int)
    requires Consistent(d)
    ensures Commits(d, op, now) <==>
            && (op.idem == [] || Used(d.log, op.idem) == 0)
            && (op.Cas? ==> VersionAt(d.log, op.key, now) == op.expected)
  {
    hide Replay, VersionIn, VersionAt, Lookup;
    LookupIsHistory(d, op.key, now);
    if op.idem != [] {
      DedupIsLastUse(d.log, op.idem);
    }
  }

  /** What a reader finds at time `t` under a key written with this value and expiry at this position. */
  function Live(value: Bytes, expires: int, pos: nat, t: int): (r: Read) {
    if 0 < expires < t then Missing else Found(value, pos)
  }

  /** What a mutation that committed at `pos` leaves to be read at time `t`, if it is the last one of its key. */
  function Leaves(op: Op, pos: nat, t: int): (r: Read) {
    match op
    case Put(_, value, expires, _) => Live(value, expires, pos, t)
    case Delete(_, _) => Missing
    case Cas(_, value, _, expires, _) => Live(value, expires, pos, t)
  }

  /** A mutation that commits is answered with the next position, and its key reads as asked for from then on, at any time `t`. */
  lemma CommitIsRead(d: Db, op: Op, now: int, t: int)
    requires Commits(d, op, now)
    ensures var (d2, reply) := Exec(d, op, now, true);
            var pos := |d.log| + 1;
            && reply == Done(Outcome(pos, pos, false)) && |d2.log| == pos
            && Lookup(d2.cache.index, op.key, t) == Leaves(op, pos, t)
  {
  }

  /** Every other key reads as before, and every other idempotency key is remembered as before. */
  lemma CommitSparesOthers(d: Db, op: Op, now: int, key: Bytes, t: int, id: Bytes)
    requires key != op.key && id != op.idem
    ensures var d2 := Exec(d, op, now, true).0;
            && Lookup(d2.cache.index, key, t) == Lookup(d.cache.index, key, t)
            && (id in d2.cache.dedup <==> id in d.cache.dedup)
            && (id in d.cache.dedup ==> d2.cache.dedup[id] == d.cache.dedup[id])
  {
  }

  /** Whoever uses the idempotency key of a commit again gets its position, marked deduplicated, and changes nothing. */
  lemma CommitIsRemembered(d: Db, op: Op, now: int, again: Op, later: int, ok: bool)
    requires Commits(d, op, now) && op.idem != [] && again.idem == op.idem
    ensures var d2 := Exec(d, op, now, true).0;
            var pos := |d.log| + 1;
            Exec(d2, again, later, ok) == (d2, Done(Outcome(pos, pos, true)))
  {
  }

  /** Anything else changes nothing: a duplicate is answered as the original was, the rest is a version mismatch. */
  lemma NoCommitNoChange(d: Db, op: Op, now: int, ok: bool)
    requires !Commits(d, op, now)
    ensures var (d2, reply) := Exec(d, op, now, ok);
            && d2 == d
            && (op.idem != [] && op.idem in d.cache.dedup ==>
                  reply.Done? && reply.out.deduplicated
                  && reply.out.pos == d.cache.dedup[op.idem].pos && reply.out.version == d.cache.dedup[op.idem].version)
            && (!(op.idem != [] && op.idem in d.cache.dedup) ==> reply == Mismatch)
  {
  }

  /** If the Append fails, no key reads differently and no idempotency key is remembered, but a position is gone. */
  lemma FailedIsNotRead(d: Db, op: Op, now: int)
    requires Commits(d, op, now)
    ensures var (d2, reply) := Exec(d, op, now, false);
            reply == AppendFailed && d2.cache == d.cache && |d2.log| == |d.log| + 1 && d2.log[..|d.log|] == d.log
  {
  }

  /** The record a commit puts into the log, field by field. */
  lemma CommitIsRecorded(d: Db, op: Op, now: int, ok: bool)
    requires Commits(d, op, now)
    ensures var d2 := Exec(d, op, now, ok).0;
            var pos := |d.log| + 1;
            && |d2.log| == pos && d2.log[..|d.log|] == d.log
            && d2.log[|d.log|] ==
               match op
               case Put(key, value, expires, idem) => Record(pos, 1, key, value, expires, idem)
               case Delete(key, idem) => Record(pos, 2, key, [], 0, idem)
               case Cas(key, value, _, expires, idem) => Record(pos, 1, key, value, expires, idem)
  {
  }

  // ---------------------------------------------------------------- snapshots

  datatype SnapshotEntry = SnapshotEntry(key: Bytes, value: Bytes, expires: int)

  /**
   * `out` lists entries of the index, in some order and once each: none that had expired at `from`, and all that had
   * not expired at `to`.
   */
  ghost predicate IsSnapshot(out: seq<SnapshotEntry>, index: map<Bytes, Entry>, from: int, to: int) {
    && (forall i, j :: 0 <= i < j < |out| ==> out[i].key != out[j].key)
    && (forall i :: 0 <= i < |out| ==>
          && out[i].key in index && !Expired(index[out[i].key], from)
          && out[i] == SnapshotEntry(out[i].key, index[out[i].key].value, index[out[i].key].expires))
    && (forall key :: key in index && !Expired(index[key], to) ==> exists i :: 0 <= i < |out| && out[i].key == key)
  }

  /** One more entry is visited, at a time of its own. */
  lemma SnapshotGrows(out: seq<SnapshotEntry>, done: map<Bytes, Entry>, done2: map<Bytes, Entry>, key: Bytes,
                      out2: seq<SnapshotEntry>, now: int, from: int, to: int)
    requires IsSnapshot(out, done, from, to) && key !in done && done2.Keys == done.Keys + {key} && from <= now <= to
    requires forall k :: k in done ==> done2[k] == done[k]
    requires out2 == if Expired(done2[key], now) then out
                     else out + [SnapshotEntry(key, done2[key].value, done2[key].expires)]
    ensures IsSnapshot(out2, done2, from, to)
  {
    forall k | k in done2 && !Expired(done2[k], to) ensures exists i :: 0 <= i < |out2| && out2[i].key == k {
      if k == key {
        assert out2[|out|].key == k;
      } else {
        assert k in done;
        var i :| 0 <= i < |out| && out[i].key == k;
        assert out2[i].key == k;
      }
    }
  }

  // ---------------------------------------------------------------- the engine object

  class KvEngine {
    var log: Log
    var index: map<Bytes, Entry>
    var dedup: map<Bytes, Outcome>

    ghost function State(): (d: Db)
      reads this
    {
      Db(log, Cache(index, dedup))
    }

    /** `Open`: replay every record that recovery found into empty maps. */
    constructor (recs: Log)
      ensures State() == Reopened(recs)
    {
      index := map[];
      dedup := map[];
      log := recs;
      new;
      for i := 0 to |recs|
        invariant log == recs && Cache(index, dedup) == Replay(recs[..i])
      {
        assert recs[..i + 1][..i] == recs[..i];
        ReplayRecord(recs[i]);
      }
      assert recs[..|recs|] == recs;
    }

    method ReplayRecord(rec: Record)
      modifies this
      ensures log == old(log) && Cache(index, dedup) == Replay1(old(Cache(index, dedup)), rec)
    {
      if rec.kind == KIND_PUT {
        index := index[rec.key := Entry(rec.value, rec.pos, if rec.expires > 0 then rec.expires else 0)];
      } else if rec.kind == KIND_DELETE {
        index := index - {rec.key};
      }
      if rec.idem != [] {
        dedup := dedup[rec.idem := Outcome(rec.pos, rec.pos, false)];
      }
    }

    method Get(key: Bytes, now: int) returns (r: Read)
      ensures r == Lookup(index, key, now)
      ensures Consistent(State()) ==> r == LookupAt(log, key, now)
    {
      if key !in index {
        r := Missing;
      } else {
        var ent := index[key];
        r := if Expired(ent, now) then Missing else Found(ent.value, ent.version);
      }
      if Consistent(State()) {
        LookupIsHistory(State(), key, now);
      }
    }

    /** The write-ahead log as its one caller at a time sees it: the position is assigned whether or not the call succeeds. */
    method Append(kind: Byte, key: Bytes, value: Bytes, expires: int, idem: Bytes) returns (pos: nat)
      modifies this`log
      ensures pos == |old(log)| + 1
      ensures log == old(log) + [Record(pos, kind, key, value, expires, idem)]
    {
      pos := |log| + 1;
      log := log + [Record(pos, kind, key, value, expires, idem)];
    }

    method ApplyPut(key: Bytes, value: Bytes, expires: int, idem: Bytes, now: int, ok: bool) returns (reply: Reply)
      modifies this
      ensures (State(), reply) == Exec(old(State()), Put(key, value, expires, idem), now, ok)
      ensures ok && old(Consistent(State())) ==>
                Consistent(State()) && (log, reply) == ExecOnLog(old(log), Put(key, value, expires, idem), now)
    {
      if ok && Consistent(State()) {
        ExecIsHistory(State(), Put(key, value, expires, idem), now);
      }
      if idem != [] && idem in dedup {
        return Done(dedup[idem].(deduplicated := true));
      }
      var pos := Append(KIND_PUT, key, value, expires, idem);
      if !ok {
        return AppendFailed;
      }
      index := index[key := Entry(value, pos, if expires > 0 then expires else 0)];
      var out := Outcome(pos, pos, false);
      if idem != [] {
        dedup := dedup[idem := out];
      }
      return Done(out);
    }

    method Remove(key: Bytes, idem: Bytes, now: int, ok: bool) returns (reply: Reply)
      modifies this
      ensures (State(), reply) == Exec(old(State()), Delete(key, idem), now, ok)
      ensures ok && old(Consistent(State())) ==>
                Consistent(State()) && (log, reply) == ExecOnLog(old(log), Delete(key, idem), now)
    {
      if ok && Consistent(State()) {
        ExecIsHistory(State(), Delete(key, idem), now);
      }
      if idem != [] && idem in dedup {
        return Done(dedup[idem].(deduplicated := true));
      }
      var pos := Append(KIND_DELETE, key, [], 0, idem);
      if !ok {
        return AppendFailed;
      }
      index := index - {key};
      var out := Outcome(pos, pos, false);
      if idem != [] {
        dedup := dedup[idem := out];
      }
      return Done(out);
    }

    method ApplyCompareAndSet(key: Bytes, value: Bytes, expected: nat, expires: int, idem: Bytes, now: int, ok: bool)
      returns (reply: Reply)
      modifies this
      ensures (State(), reply) == Exec(old(State()), Cas(key, value, expected, expires, idem), now, ok)
      ensures ok && old(Consistent(State())) ==>
                Consistent(State()) && (log, reply) == ExecOnLog(old(log), Cas(key, value, expected, expires, idem), now)
    {
      if ok && Consistent(State()) {
        ExecIsHistory(State(), Cas(key, value, expected, expires, idem), now);
      }
      if idem != [] && idem in dedup {
        return Done(dedup[idem].(deduplicated := true));
      }
      var exists_ := key in index;
      if exists_ && Expired(index[key], now) {
        exists_ := false;
      }
      var currentVersion := 0;
      if exists_ {
        currentVersion := index[key].version;
      }
      if currentVersion != expected {
        return Mismatch;
      }
      var pos := Append(KIND_PUT, key, value, expires, idem);
      if !ok {
        return AppendFailed;
      }
      index := index[key := Entry(value, pos, if expires > 0 then expires else 0)];
      var out := Outcome(pos, pos, false);
      if idem != [] {
        dedup := dedup[idem := out];
      }
      return Done(out);
    }

    /** `Snapshot`: the map is walked in an arbitrary order, and the clock is read again for each entry. */
    method Snapshot(clock: nat -> int, ghost from: int, ghost to: int) returns (out: seq<SnapshotEntry>)
      requires forall i: nat :: from <= clock(i) <= to
      ensures IsSnapshot(out, index, from, to)
    {
      out := [];
      var todo, i := index, 0;
      while todo != map[]
        invariant i >= 0 && forall key :: key in todo ==> key in index && todo[key] == index[key]
        invariant IsSnapshot(out, index - todo.Keys, from, to)
        decreases |todo|
      {
        var key :| key in todo;
        var ent := todo[key];
        ghost var before := out;
        if !Expired(ent, clock(i)) {
          out := out + [SnapshotEntry(key, ent.value, ent.expires)];
        }
        SnapshotGrows(before, index - todo.Keys, index - (todo - {key}).Keys, key, out, clock(i), from, to);
        assert (todo - {key}).Keys == todo.Keys - {key};
        todo, i := todo - {key}, i + 1;
      }
      assert index - todo.Keys == index;
    }

    /**
     * `Reset`: close the log, remove its file, create it anew, and empty both maps; `fails` is the step that goes wrong,
     * if one does, and `file` the records of the file afterwards. A failure leaves log and maps in memory as they were,
     * and they are then still those of the file unless it was removed with records in it.
     */
    method Reset(fails: Option<ResetStep>) returns (ok: bool, file: Log)
      modifies this
      ensures ok <==> fails.None?
      ensures State() == if ok then NEW_DB else old(State())
      ensures old(Consistent(State())) ==> (State() == Reopened(file) <==> ok || fails.value != OpenLog || old(log) == [])
    {
      file := log;
      if fails.Some? && fails.value != OpenLog {
        return false, file;
      }
      file := [];
      if fails.Some? {
        return false, file;
      }
      log := [];
      index := map[];
      dedup := map[];
      return true, file;
    }
  }
}
