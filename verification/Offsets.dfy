/** Consumer-group offsets: a durable map that never moves backward. */
module Offsets {
  import opened Options
  import opened ByteSeqs
  import opened Codec
  import opened Recovery

  function EncodeOffset(v: nat): (b: Bytes) {
    PutUint(v, 8)
  }

  /** Reads the first eight bytes; on fewer the program panics. */
  function DecodeOffset(b: Bytes): (v: Option<nat>) {
    if |b| < 8 then None else Some(Uint(b[..8]))
  }

  lemma DecodeOfEncodeOffset(v: nat)
    requires v < TWO_64
    ensures DecodeOffset(EncodeOffset(v)) == Some(v)
  {
    Widths();
    UintOfPut(v, 8);
    assert EncodeOffset(v)[..8] == EncodeOffset(v);
  }

  type Groups = map<Bytes, nat>

  /** The store's `replay` callback over the whole log; None if it panics. */
  function ReplayOffsets(log: Log): (m: Option<Groups>) {
    if log == [] then Some(map[])
    else
      match ReplayOffsets(log[..|log| - 1])
      case None => None
      case Some(m) =>
        var r := log[|log| - 1];
        match DecodeOffset(r.value)
        case None => None
        case Some(v) => Some(m[r.key := v])
  }

  datatype Reply = Committed(offset: nat) | Regression(current: nat) | AppendFailed

  datatype Store = Store(log: Log, offsets: Groups)

  function RecordOf(group: Bytes, offset: nat, pos: nat): (r: Record) {
    Record(pos, KIND_PUT, group, EncodeOffset(offset), 0, [])
  }

  /** `Commit`; `ok` is whether the Append returned success. */
  function Commit(s: Store, group: Bytes, offset: nat, ok: bool): (r: (Store, Reply)) {
    if group in s.offsets && offset < s.offsets[group] then (s, Regression(s.offsets[group]))
    else
      var log := s.log + [RecordOf(group, offset, |s.log| + 1)];
      if ok then (Store(log, s.offsets[group := offset]), Committed(offset))
      else (s.(log := log), AppendFailed)
  }

  /**
   * The answer to a commit and what is stored then: an offset behind the current one is answered with that one and
   * changes nothing; otherwise the offset is stored and returned, or, if the Append fails, the map stays as it was.
   */
  lemma CommitAnswers(s: Store, group: Bytes, offset: nat, ok: bool, other: Bytes)
    ensures var (s2, reply) := Commit(s, group, offset, ok);
            var behind := group in s.offsets && offset < s.offsets[group];
            && (behind ==> reply == Regression(s.offsets[group]) && s2 == s)
            && (!behind && ok ==> reply == Committed(offset) && group in s2.offsets && s2.offsets[group] == offset)
            && (!behind && !ok ==> reply == AppendFailed && s2.offsets == s.offsets)
            && (!behind ==> s2.log == s.log + [Record(|s.log| + 1, 1, group, PutUint(offset, 8), 0, [])])
            && (other != group ==> (other in s2.offsets <==> other in s.offsets)
                                   && (other in s.offsets ==> s2.offsets[other] == s.offsets[other]))
  {
    hide PutUint;
  }

  class OffsetStore {
    var log: Log
    var offsets: Groups

    ghost function State(): (s: Store)
      reads this
    {
      Store(log, offsets)
    }

    constructor (log: Log, offsets: Groups)
      ensures State() == Store(log, offsets)
    {
      this.log := log;
      this.offsets := offsets;
    }

    method CommitOffset(group: Bytes, offset: nat, ok: bool) returns (reply: Reply)
      modifies this
      ensures (State(), reply) == Commit(old(State()), group, offset, ok)
    {
      if group in offsets && offset < offsets[group] {
        return Regression(offsets[group]);
      }
      log := log + [Record(|log| + 1, KIND_PUT, group, EncodeOffset(offset), 0, [])];
      if !ok {
        return AppendFailed;
      }
      offsets := offsets[group := offset];
      return Committed(offset);
    }

    method Fetch(group: Bytes) returns (r: Option<nat>)
      ensures r == if group in offsets then Some(offsets[group]) else None
    {
      r := if group in offsets then Some(offsets[group]) else None;
    }
  }

  /** `Open`: replay every recovered record into an empty map; null stands for the panic on a value that is too short. */
  method OpenStore(recs: Log) returns (s: OffsetStore?)
    ensures s == null <==> ReplayOffsets(recs).None?
    ensures s != null ==> fresh(s) && s.State() == Store(recs, ReplayOffsets(recs).value)
  {
    var offsets: Groups := map[];
    for i := 0 to |recs|
      invariant ReplayOffsets(recs[..i]) == Some(offsets)
    {
      assert recs[..i + 1][..i] == recs[..i];
      var v := DecodeOffset(recs[i].value);
      if v.None? {
        PrefixReplays(recs, i + 1);
        return null;
      }
      offsets := offsets[recs[i].key := v.value];
    }
    assert recs[..|recs|] == recs;
    s := new OffsetStore(recs, offsets);
  }

  lemma {:induction false} PrefixReplays(log: Log, i: nat)
    requires i <= |log|
    ensures ReplayOffsets(log).Some? ==> ReplayOffsets(log[..i]).Some?
    decreases |log|
  {
    if i < |log| {
      PrefixReplays(log[..|log| - 1], i);
      assert log[..|log| - 1][..i] == log[..i];
    } else {
      assert log[..i] == log;
    }
  }

  /** The number of the group's last record; 0 if there is none. */
  function LastOf(log: Log, group: Bytes): (n: nat)
    ensures n <= |log| && (n > 0 ==> log[n - 1].key == group)
    ensures forall i :: n <= i < |log| ==> log[i].key != group
  {
    if log == [] then 0
    else if log[|log| - 1].key == group then |log|
    else LastOf(log[..|log| - 1], group)
  }

  /** On any log at all, opening panics iff some value is too short, and otherwise finds each group's last offset. */
  lemma {:induction false} ReplayIsLast(log: Log, group: Bytes)
    ensures ReplayOffsets(log).None? <==> exists i :: 0 <= i < |log| && |log[i].value| < 8
    ensures ReplayOffsets(log).Some? ==>
              var m, n := ReplayOffsets(log).value, LastOf(log, group);
              (group in m <==> n > 0) && (n > 0 ==> |log[n - 1].value| >= 8 && m[group] == Uint(log[n - 1].value[..8]))
  {
    hide Uint;
    if log != [] {
      var init := log[..|log| - 1];
      ReplayIsLast(init, group);
      assert forall i :: 0 <= i < |init| ==> init[i] == log[i];
    }
  }

  // ---------------------------------------------------------------- runs

  datatype Event =
    | Call(group: Bytes, offset: nat)
    | Restart                                        // close and open again
    | Crash(kept: nat)                               // and open again: `kept` records are left, never less than the durable ones
    | CrashIn(group: Bytes, offset: nat, kept: nat)  // the same inside Commit, whose own record may be among those left

  /** The store, how many of its records are durable, and the offsets acknowledged to clients so far. */
  datatype Run = Run(store: Store, durable: nat, acked: seq<(Bytes, nat)>)

  /** The store that `Open` makes of a log; the empty map if it panics. */
  function Reopen(log: Log): (s: Store) {
    match ReplayOffsets(log)
    case Some(m) => Store(log, m)
    case None => Store(log, map[])
  }

  /** What a crash leaves of a log. */
  function Cut(log: Log, durable: nat, kept: nat): (left: Log) {
    var n := if kept < durable then durable else kept;
    if n <= |log| then log[..n] else log
  }

  function After(r: Run, e: Event): (r2: Run) {
    match e
    case Call(group, offset) =>
      var (s, reply) := Commit(r.store, group, offset, true);
      if reply.Committed? then Run(s, |s.log|, r.acked + [(group, offset)]) else r
    case Restart => r.(store := Reopen(r.store.log))
    case Crash(kept) => r.(store := Reopen(Cut(r.store.log, r.durable, kept)))
    case CrashIn(group, offset, kept) =>
      r.(store := Reopen(Cut(Commit(r.store, group, offset, true).0.log, r.durable, kept)))
  }

  function Reach(events: seq<Event>): (r: Run) {
    if events == [] then Run(Store([], map[]), 0, []) else After(Reach(events[..|events| - 1]), events[|events| - 1])
  }

  lemma ReachSnoc(events: seq<Event>, e: Event)
    ensures Reach(events + [e]) == After(Reach(events), e)
  {
    assert (events + [e])[..|events|] == events;
  }

  predicate IsWord(e: Event) {
    e.Restart? || e.Crash? || e.offset < TWO_64
  }

  /** Offsets are 64-bit words. */
  predicate Words(events: seq<Event>) {
    forall i :: 0 <= i < |events| ==> IsWord(events[i])
  }

  /** The offset a record of the store carries. */
  function OffsetIn(r: Record): (v: nat) {
    match DecodeOffset(r.value)
    case Some(v) => v
    case None => 0
  }

  /** The map holds for each group the greatest offset in the log, and nothing else. */
  ghost predicate HoldsMaxima(log: Log, m: Groups) {
    && (forall i :: 0 <= i < |log| ==> log[i].key in m && OffsetIn(log[i]) <= m[log[i].key])
    && (forall g :: g in m ==> exists i :: 0 <= i < |log| && log[i].key == g && OffsetIn(log[i]) == m[g])
  }

  /** Every stretch of the log from its beginning replays to the maxima of its groups. */
  ghost predicate Rising(log: Log) {
    forall n :: 0 <= n <= |log| ==> ReplayOffsets(log[..n]).Some? && HoldsMaxima(log[..n], ReplayOffsets(log[..n]).value)
  }

  /** One of the first `n` records carries this offset of the group. */
  ghost predicate Held(log: Log, n: nat, group: Bytes, offset: nat)
    requires n <= |log|
  {
    exists k :: 0 <= k < n && log[k].key == group && OffsetIn(log[k]) == offset
  }

  /** Each acknowledged offset is in a durable record. */
  ghost predicate AckedDurable(r: Run) {
    && r.durable <= |r.store.log|
    && forall i :: 0 <= i < |r.acked| ==> Held(r.store.log, r.durable, r.acked[i].0, r.acked[i].1)
  }

  lemma HeldStays(log: Log, n: nat, log2: Log, n2: nat, group: Bytes, offset: nat)
    requires n <= |log| && n <= n2 <= |log2| && log[..n] <= log2 && Held(log, n, group, offset)
    ensures Held(log2, n2, group, offset)
  {
    hide OffsetIn;
    var k :| 0 <= k < n && log[k].key == group && OffsetIn(log[k]) == offset;
    assert log2[k] == log[..n][k];
  }

  ghost predicate Inv(r: Run) {
    Rising(r.store.log) && r.store == Reopen(r.store.log) && AckedDurable(r)
  }

  lemma Whole(log: Log)
    requires Rising(log)
    ensures ReplayOffsets(log) == Some(Reopen(log).offsets) && HoldsMaxima(log, Reopen(log).offsets)
  {
    assert log[..|log|] == log;
  }

  lemma CutRising(log: Log, n: nat)
    requires Rising(log) && n <= |log|
    ensures Rising(log[..n])
  {
    forall k | 0 <= k <= n
      ensures ReplayOffsets(log[..n][..k]).Some? && HoldsMaxima(log[..n][..k], ReplayOffsets(log[..n][..k]).value)
    {
      assert log[..n][..k] == log[..k];
    }
  }

  lemma CommitReplays(log: Log, m: Groups, group: Bytes, offset: nat)
    requires ReplayOffsets(log) == Some(m) && offset < TWO_64
    ensures var rec := RecordOf(group, offset, |log| + 1);
            ReplayOffsets(log + [rec]) == Some(m[group := offset]) && OffsetIn(rec) == offset
  {
    var rec := RecordOf(group, offset, |log| + 1);
    assert (log + [rec])[..|log|] == log;
    DecodeOfEncodeOffset(offset);
  }

  lemma CommitMaxima(log: Log, m: Groups, group: Bytes, offset: nat, rec: Record)
    requires HoldsMaxima(log, m) && (group in m ==> m[group] <= offset)
    requires rec.key == group && OffsetIn(rec) == offset
    ensures HoldsMaxima(log + [rec], m[group := offset])
  {
    hide OffsetIn;
    var log2, m2 := log + [rec], m[group := offset];
    forall g | g in m2 ensures exists i :: 0 <= i < |log2| && log2[i].key == g && OffsetIn(log2[i]) == m2[g] {
      if g == group {
        assert log2[|log|] == rec;
      } else {
        var i :| 0 <= i < |log| && log[i].key == g && OffsetIn(log[i]) == m[g];
        assert log2[i] == log[i];
      }
    }
  }

  /** A commit keeps the log rising, and its store is what opening the new log gives. */
  lemma CommitRises(s: Store, group: Bytes, offset: nat)
    requires Rising(s.log) && s == Reopen(s.log) && offset < TWO_64
    ensures var s2 := Commit(s, group, offset, true).0; Rising(s2.log) && s2 == Reopen(s2.log)
  {
    hide Rising, HoldsMaxima, ReplayOffsets, RecordOf, OffsetIn;
    var s2 := Commit(s, group, offset, true).0;
    if s2 != s {
      var rec := RecordOf(group, offset, |s.log| + 1);
      Whole(s.log);
      CommitReplays(s.log, s.offsets, group, offset);
      OffsetOf(group, offset, |s.log| + 1);
      CommitMaxima(s.log, s.offsets, group, offset, rec);
      RisingSnoc(s.log, rec, s.offsets[group := offset]);
    }
  }

  lemma RisingSnoc(log: Log, rec: Record, m: Groups)
    requires Rising(log) && ReplayOffsets(log + [rec]) == Some(m) && HoldsMaxima(log + [rec], m)
    ensures Rising(log + [rec])
  {
    hide HoldsMaxima, ReplayOffsets;
    var log2 := log + [rec];
    forall n | 0 <= n <= |log2|
      ensures ReplayOffsets(log2[..n]).Some? && HoldsMaxima(log2[..n], ReplayOffsets(log2[..n]).value)
    {
      if n <= |log| {
        assert log2[..n] == log[..n];
      } else {
        assert log2[..n] == log2;
      }
    }
  }

  /** A commit leaves the log alone or adds its one record. */
  lemma CommitGrows(s: Store, group: Bytes, offset: nat)
    ensures var log := Commit(s, group, offset, true).0.log;
            log == s.log || log == s.log + [RecordOf(group, offset, |s.log| + 1)]
  {
    hide RecordOf;
  }

  lemma AfterKeeps(r: Run, e: Event)
    requires Inv(r) && IsWord(e)
    ensures Inv(After(r, e))
    ensures r.durable <= After(r, e).durable && r.store.log[..r.durable] <= After(r, e).store.log
    ensures !e.Crash? && !e.CrashIn? ==> r.store.log <= After(r, e).store.log
  {
    hide Rising, ReplayOffsets, RecordOf, OffsetIn, Commit, Held;
    match e
    case Restart => Whole(r.store.log);
    case Call(group, offset) =>
      CommitRises(r.store, group, offset);
      CallKeepsAcked(r, group, offset);
    case Crash(kept) =>
      CutKeeps(r, r.store.log, kept);
    case CrashIn(group, offset, kept) =>
      CommitRises(r.store, group, offset);
      CommitGrows(r.store, group, offset);
      CutKeeps(r, Commit(r.store, group, offset, true).0.log, kept);
  }

  lemma CallKeepsAcked(r: Run, group: Bytes, offset: nat)
    requires AckedDurable(r) && offset < TWO_64
    ensures AckedDurable(After(r, Call(group, offset)))
    ensures r.durable <= After(r, Call(group, offset)).durable && r.store.log <= After(r, Call(group, offset)).store.log
  {
    hide OffsetIn, RecordOf;
    var r2 := After(r, Call(group, offset));
    var rec := RecordOf(group, offset, |r.store.log| + 1);
    OffsetOf(group, offset, |r.store.log| + 1);
    if r2 != r {
      forall i | 0 <= i < |r2.acked| ensures Held(r2.store.log, r2.durable, r2.acked[i].0, r2.acked[i].1) {
        if i < |r.acked| {
          HeldStays(r.store.log, r.durable, r2.store.log, r2.durable, r.acked[i].0, r.acked[i].1);
        } else {
          assert r2.store.log[|r.store.log|] == rec;
        }
      }
    }
  }

  lemma OffsetOf(group: Bytes, offset: nat, pos: nat)
    requires offset < TWO_64
    ensures OffsetIn(RecordOf(group, offset, pos)) == offset && RecordOf(group, offset, pos).key == group
  {
    DecodeOfEncodeOffset(offset);
  }

  /** A crash keeps every durable record, so what was acknowledged stays. */
  lemma CutKeeps(r: Run, log: Log, kept: nat)
    requires Inv(r) && Rising(log) && r.store.log <= log
    ensures Inv(r.(store := Reopen(Cut(log, r.durable, kept)))) && r.store.log[..r.durable] <= Cut(log, r.durable, kept)
  {
    hide Rising, ReplayOffsets, Held;
    var left := Cut(log, r.durable, kept);
    assert left == log[..|left|];
    CutRising(log, |left|);
    ReopenLog(left);
    forall i | 0 <= i < |r.acked| ensures Held(left, r.durable, r.acked[i].0, r.acked[i].1) {
      HeldStays(r.store.log, r.durable, left, r.durable, r.acked[i].0, r.acked[i].1);
    }
  }

  lemma NewStore()
    ensures Inv(Reach([]))
  {
  }

  /** In every reachable state the log is rising, the map is its replay, and acknowledged offsets are durable. */
  lemma {:induction false} RunsKeep(events: seq<Event>)
    requires Words(events)
    ensures Inv(Reach(events))
  {
    hide After, Inv;
    if events != [] {
      RunsKeep(events[..|events| - 1]);
      AfterKeeps(Reach(events[..|events| - 1]), events[|events| - 1]);
    } else {
      NewStore();
    }
  }

  /**
   * In every reachable state the stored offset of a group is the maximum in its surviving records, and at least every
   * offset ever acknowledged for it, across restarts and any crashes.
   */
  lemma OffsetsAreMaxima(events: seq<Event>)
    requires Words(events)
    ensures var r := Reach(events);
            && HoldsMaxima(r.store.log, r.store.offsets)
            && forall i :: 0 <= i < |r.acked| ==>
                 r.acked[i].0 in r.store.offsets && r.acked[i].1 <= r.store.offsets[r.acked[i].0]
  {
    hide Reach, Rising, ReplayOffsets, OffsetIn;
    RunsKeep(events);
    Whole(Reach(events).store.log);
  }

  predicate NoCrash(events: seq<Event>, i: nat, j: nat)
    requires i <= j <= |events|
  {
    forall k :: i <= k < j ==> !events[k].Crash? && !events[k].CrashIn?
  }

  /** Durable records stay whatever happens, and without a crash all records do. */
  lemma {:induction false} RecordsStay(events: seq<Event>, i: nat, j: nat)
    requires Words(events) && i <= j <= |events|
    ensures Reach(events[..i]).durable <= |Reach(events[..i]).store.log|
    ensures Reach(events[..i]).durable <= Reach(events[..j]).durable
    ensures Reach(events[..i]).store.log[..Reach(events[..i]).durable] <= Reach(events[..j]).store.log
    ensures NoCrash(events, i, j) ==> Reach(events[..i]).store.log <= Reach(events[..j]).store.log
    decreases j
  {
    hide After, Rising, ReplayOffsets;
    RunsKeep(events[..i]);
    if i < j {
      RecordsStay(events, i, j - 1);
      assert events[..j][..j - 1] == events[..j - 1];
      RunsKeep(events[..j - 1]);
      AfterKeeps(Reach(events[..j - 1]), events[j - 1]);
      var log := Reach(events[..i]).store.log[..Reach(events[..i]).durable];
      var n := Reach(events[..j - 1]).durable;
      assert log == Reach(events[..j - 1]).store.log[..n][..|log|];
    }
  }

  /** The group's offset is that of a durable record. */
  ghost predicate Secured(r: Run, group: Bytes)
    requires group in r.store.offsets && r.durable <= |r.store.log|
  {
    Held(r.store.log, r.durable, group, r.store.offsets[group])
  }

  /** No group's offset moves back, as long as a durable record carries it or there is no crash. */
  lemma NeverMovesBack(events: seq<Event>, i: nat, group: Bytes)
    requires Words(events) && i <= |events| && group in Reach(events[..i]).store.offsets
    requires Reach(events[..i]).durable <= |Reach(events[..i]).store.log|
    requires Secured(Reach(events[..i]), group) || NoCrash(events, i, |events|)
    ensures group in Reach(events).store.offsets
    ensures Reach(events[..i]).store.offsets[group] <= Reach(events).store.offsets[group]
  {
    hide Reach, OffsetIn;
    assert events[..|events|] == events;
    OffsetsAreMaxima(events[..i]);
    OffsetsAreMaxima(events);
    RecordsStay(events, i, |events|);
    var r, r2 := Reach(events[..i]), Reach(events);
    var k :| 0 <= k < |r.store.log| && r.store.log[k].key == group && OffsetIn(r.store.log[k]) == r.store.offsets[group]
             && (Secured(r, group) ==> k < r.durable);
    assert r2.store.log[k] == r.store.log[k];
  }

  ghost predicate NeverMovesBackFrom(events: seq<Event>, group: Bytes)
    requires group in Reach(events).store.offsets
  {
    forall more :: Words(more) ==>
      && group in Reach(events + more).store.offsets
      && Reach(events).store.offsets[group] <= Reach(events + more).store.offsets[group]
  }

  /** A group's offset never moves back in any future exactly when a durable record carries it. */
  lemma NeverMovesBackIff(events: seq<Event>, group: Bytes)
    requires Words(events) && group in Reach(events).store.offsets
    ensures Reach(events).durable <= |Reach(events).store.log|
    ensures NeverMovesBackFrom(events, group) <==> Secured(Reach(events), group)
  {
    hide Reach, OffsetIn;
    assert events[..|events|] == events;
    RecordsStay(events, |events|, |events|);
    if Secured(Reach(events), group) {
      forall more | Words(more)
        ensures group in Reach(events + more).store.offsets
                && Reach(events).store.offsets[group] <= Reach(events + more).store.offsets[group]
      {
        assert (events + more)[..|events|] == events;
        NeverMovesBack(events + more, |events|, group);
      }
    } else {
      assert Words([Crash(0)]);
      LeastLeft(events, group);
    }
  }

  /** The worst crash leaves the durable records, whose greatest offset for the group is smaller. */
  lemma LeastLeft(events: seq<Event>, group: Bytes)
    requires Words(events) && group in Reach(events).store.offsets
    requires Reach(events).durable <= |Reach(events).store.log| && !Secured(Reach(events), group)
    ensures var m := Reach(events + [Crash(0)]).store.offsets;
            group in m ==> m[group] < Reach(events).store.offsets[group]
  {
    hide Reach, OffsetIn, Reopen;
    var r, r2 := Reach(events), Reach(events + [Crash(0)]);
    ReachSnoc(events, Crash(0));
    OffsetsAreMaxima(events);
    OffsetsAreMaxima(events + [Crash(0)]);
    assert r2.store.log == r.store.log[..r.durable] by { ReopenLog(r.store.log[..r.durable]); }
    if group in r2.store.offsets {
      var k :| 0 <= k < |r2.store.log| && r2.store.log[k].key == group && OffsetIn(r2.store.log[k]) == r2.store.offsets[group];
      assert r2.store.log[k] == r.store.log[k];
    }
  }

  lemma ReopenLog(log: Log)
    ensures Reopen(log).log == log
  {
  }

  /** An acknowledged offset is behind or at a secured one: the group can never be served less. */
  lemma AcknowledgedStays(events: seq<Event>, i: nat, k: nat)
    requires Words(events) && i <= |events| && k < |Reach(events[..i]).acked|
    ensures var (group, offset) := Reach(events[..i]).acked[k];
            group in Reach(events).store.offsets && offset <= Reach(events).store.offsets[group]
  {
    hide Reach, OffsetIn, Rising;
    assert events[..|events|] == events;
    RunsKeep(events[..i]);
    RecordsStay(events, i, |events|);
    OffsetsAreMaxima(events);
    var r := Reach(events[..i]);
    var n :| 0 <= n < r.durable && r.store.log[n].key == r.acked[k].0 && OffsetIn(r.store.log[n]) == r.acked[k].1;
    assert Reach(events).store.log[n] == r.store.log[..r.durable][n];
  }

  /** The input at which an offset moves back: a commit dies before its fsync, is recovered and served, and then lost. */
  lemma RecoveredOffsetLost(group: Bytes, offset: nat)
    requires offset < TWO_64
    ensures Reach([CrashIn(group, offset, 1)]).store.offsets == map[group := offset]
    ensures Reach([CrashIn(group, offset, 1), Crash(0)]).store.offsets == map[]
  {
    var e1 := [CrashIn(group, offset, 1)];
    var rec := RecordOf(group, offset, 1);
    ReachSnoc([], CrashIn(group, offset, 1));
    assert [] + e1 == e1 && [] + [rec] == [rec] && [rec][..1] == [rec] && [rec][..0] == [];
    CommitReplays([], map[], group, offset);
    assert map[][group := offset] == map[group := offset];
    ReachSnoc(e1, Crash(0));
    assert e1 + [Crash(0)] == [CrashIn(group, offset, 1), Crash(0)];
  }

  /** A commit is refused exactly when it would move the group back behind an earlier record of its log. */
  lemma RefusedIff(events: seq<Event>, group: Bytes, offset: nat)
    requires Words(events)
    ensures var s := Reach(events).store;
            Commit(s, group, offset, true).1.Regression? <==>
            exists i :: 0 <= i < |s.log| && s.log[i].key == group && offset < OffsetIn(s.log[i])
  {
    hide Reach, OffsetIn;
    OffsetsAreMaxima(events);
  }
}
