/** The change stream: pages of the log, and a consumer that follows them while the engine keeps running. */
module Stream {
  import opened ByteSeqs
  import opened Codec
  import opened Recovery
  import opened History
  import opened Engine
  import opened EngineRuns

  // ---------------------------------------------------------------- fetching

  /** `Engine.Fetch` on a log that is completely in its file. */
  function FetchLog(log: Log, from: nat, limit: int): (r: Range) {
    if from > TWO_63 && limit > 0 then IndexOutOfRange else Range(Slice(log, from, limit))
  }

  /** It is what the byte-level range read returns. */
  lemma FetchIsReadRange(crc: Checksum, log: Log, from: nat, limit: int)
    requires WellFormed(log) && |log| < TWO_63 && from < TWO_64
    ensures RangeOf(crc, OffsetsFrom(crc, log, HEADER_SIZE), FileBytes(crc, log), from, limit) == FetchLog(log, from, limit)
  {
    hide RangeOf, Complete, Indexed, OffsetsFrom, FileBytes, WellFormed, Encodable;
    var offsets := OffsetsFrom(crc, log, HEADER_SIZE);
    var file := FileBytes(crc, log);
    if from > TWO_63 && limit > 0 {
      ReadRangePanicsIff(crc, offsets, file, from, limit);
    } else if from > TWO_63 {
      NothingForNoLimit(crc, offsets, file, from, limit);
    } else {
      WholeFileIndexed(crc, log);
      ReadRangeIsSlice(crc, log, offsets, file, from, limit);
      assert log[..|log|] == log;
    }
  }

  lemma WholeFileIndexed(crc: Checksum, log: Log)
    requires WellFormed(log)
    ensures Indexed(crc, log, OffsetsFrom(crc, log, HEADER_SIZE), FileBytes(crc, log))
    ensures |FileBytes(crc, log)| >= HEADER_SIZE && Complete(crc, log, |FileBytes(crc, log)| - HEADER_SIZE) == |log|
  {
    hide LogBytes, Frame, Encodable, OffsetsFrom, Complete;
    forall i | 0 <= i < |log| ensures OffsetsFrom(crc, log, HEADER_SIZE)[i] == End(crc, log, i) {
      OffsetsAt(crc, log, HEADER_SIZE, i);
    }
    assert log[..|log|] == log;
    CompleteIsLargest(crc, log, |LogBytes(crc, log)|, |log|);
  }

  lemma NothingForNoLimit(crc: Checksum, offsets: seq<nat>, file: Bytes, from: nat, limit: int)
    requires limit <= 0 && from < TWO_64
    ensures RangeOf(crc, offsets, file, from, limit) == Range([])
  {
  }

  datatype ChangeKind = PutKind | DeleteKind | Unspecified

  datatype Change = Change(offset: nat, kind: ChangeKind, key: Bytes, value: Bytes)

  datatype Response = Page(changes: seq<Change>, next: nat) | InvalidArgument | Crashed

  const DEFAULT_MAX_RECORDS := 500

  function ToChangeKind(k: Byte): (c: ChangeKind) {
    if k == KIND_PUT then PutKind else if k == KIND_DELETE then DeleteKind else Unspecified
  }

  function ChangeOf(r: Record): (c: Change) {
    Change(r.pos, ToChangeKind(r.kind), r.key, r.value)
  }

  function ChangesOf(log: Log): (cs: seq<Change>)
    ensures |cs| == |log|
    ensures forall i :: 0 <= i < |log| ==> cs[i] == ChangeOf(log[i])
  {
    seq(|log|, i requires 0 <= i < |log| => ChangeOf(log[i]))
  }

  function Limit(max: int): (limit: int)
    ensures limit > 0
  {
    if max <= 0 then DEFAULT_MAX_RECORDS else max
  }

  /** `StreamServer.Fetch`: one page and the offset to ask for next. */
  method Fetch(log: Log, from: nat, max: int) returns (r: Response)
    ensures r == PageOf(log, from, max)
  {
    if from == 0 {
      return InvalidArgument;
    }
    var recs := FetchLog(log, from, Limit(max));
    if !recs.Range? {
      return Crashed;
    }
    var out: seq<Change> := [];
    var nextOffset := from;
    for i := 0 to |recs.recs|
      invariant out == ChangesOf(recs.recs[..i])
      invariant nextOffset == if i == 0 then from else recs.recs[i - 1].pos + 1
    {
      out := out + [Change(recs.recs[i].pos, ToChangeKind(recs.recs[i].kind), recs.recs[i].key, recs.recs[i].value)];
      nextOffset := recs.recs[i].pos + 1;
    }
    assert recs.recs[..|recs.recs|] == recs.recs;
    return Page(out, nextOffset);
  }

  function PageOf(log: Log, from: nat, max: int): (r: Response) {
    if from == 0 then InvalidArgument
    else
      match FetchLog(log, from, Limit(max))
      case Range(recs) => Page(ChangesOf(recs), if recs == [] then from else recs[|recs| - 1].pos + 1)
      case RangeError(_) => Crashed
      case IndexOutOfRange => Crashed
  }

  /** A page starts where it was asked to, is as long as the limit and the log allow, and names the offset right behind it. */
  lemma PageIsContiguous(log: Log, from: nat, max: int)
    requires Numbered(log) && |log| < TWO_63 && 1 <= from <= |log| + 1
    ensures var left := |log| - (from - 1);
            var n := if Limit(max) < left then Limit(max) else left;
            PageOf(log, from, max) == Page(ChangesOf(log[from - 1..from - 1 + n]), from + n)
  {
    if from <= |log| {
      var left := |log| - (from - 1);
      var n := if Limit(max) < left then Limit(max) else left;
      assert Slice(log, from, Limit(max)) == log[from - 1..from - 1 + n];
    }
  }

  /**
   * A page for any request: none from offset 0; otherwise the records from the offset on, 500 at most or as many as were
   * asked for, and the offset right behind them. Offsets above 2^63 make the program panic.
   */
  lemma PageIs(log: Log, from: nat, max: int)
    requires Numbered(log) && |log| < TWO_63
    ensures PageOf(log, from, max) ==
            if from == 0 then InvalidArgument
            else if from > TWO_63 then Crashed
            else if from > |log| then Page([], from)
            else
              var limit := if max > 0 then max else 500;
              var end := if from - 1 + limit < |log| then from - 1 + limit else |log|;
              Page(ChangesOf(log[from - 1..end]), end + 1)
  {
    if 1 <= from <= |log| {
      PageIsContiguous(log, from, max);
    }
  }

  /** What a commit publishes, at the offset that is its version. */
  function ChangeFor(op: Op, pos: nat): (c: Change) {
    match op
    case Put(key, value, _, _) => Change(pos, PutKind, key, value)
    case Delete(key, _) => Change(pos, DeleteKind, key, [])
    case Cas(key, value, _, _, _) => Change(pos, PutKind, key, value)
  }

  /** State and stream move together: a commit is readable at its version and is the one new change, at that offset. */
  lemma CommitIsPublished(d: Db, op: Op, now: int, t: int, max: int)
    requires Consistent(d) && Commits(d, op, now) && |d.log| + 1 < TWO_63
    ensures var (d2, reply) := Exec(d, op, now, true);
            var pos := |d.log| + 1;
            && reply == Done(Outcome(pos, pos, false))
            && Lookup(d2.cache.index, op.key, t) == Leaves(op, pos, t)
            && PageOf(d.log, pos, max) == Page([], pos)
            && PageOf(d2.log, pos, max) == Page([ChangeFor(op, pos)], pos + 1)
  {
    hide Exec, Replay, Lookup, Commits, PageOf;
    var d2 := Exec(d, op, now, true).0;
    CommitIsRead(d, op, now, t);
    CommitIsRecorded(d, op, now, true);
    ExecIsHistory(d, op, now);
    PageIs(d.log, |d.log| + 1, max);
    PageIs(d2.log, |d.log| + 1, max);
    assert d2.log[|d.log|..|d2.log|] == [d2.log[|d.log|]];
    assert ChangesOf([d2.log[|d.log|]]) == [ChangeFor(op, |d.log| + 1)];
  }

  // ---------------------------------------------------------------- a consumer following the stream

  datatype Act = Mutate(e: Event) | Poll(max: int)

  datatype Session = Session(run: Run, next: nat, received: seq<Change>)

  function Acted(s: Session, act: Act): (s2: Session) {
    match act
    case Mutate(e) => s.(run := After(s.run, e))
    case Poll(max) =>
      match PageOf(s.run.db.log, s.next, max)
      case Page(changes, next) => s.(next := next, received := s.received + changes)
      case InvalidArgument => s
      case Crashed => s
  }

  /** The engine runs, the consumer polls from offset 1 on, in any interleaving and with any page limits. */
  function Sessions(acts: seq<Act>): (s: Session) {
    if acts == [] then Session(Run(NEW_DB, 0), 1, []) else Acted(Sessions(acts[..|acts| - 1]), acts[|acts| - 1])
  }

  /** No reset, and fewer actions than a 64-bit signed integer can count. */
  predicate Proper(acts: seq<Act>) {
    |acts| < TWO_63 && forall i :: 0 <= i < |acts| ==> acts[i].Poll? || !acts[i].e.Reset?
  }

  predicate IsCrash(act: Act) {
    act.Mutate? && (act.e.Crash? || act.e.CrashIn?)
  }

  /** No crash takes a record that the consumer has been given. */
  predicate LossFree(acts: seq<Act>) {
    forall i :: 0 <= i < |acts| && IsCrash(acts[i]) ==>
      Sessions(acts[..i]).next <= |Acted(Sessions(acts[..i]), acts[i]).run.db.log| + 1
  }

  /** The pages received so far are exactly the log up to the consumer's position. */
  ghost predicate InStep(s: Session) {
    && Good(s.run)
    && 1 <= s.next <= |s.run.db.log| + 1
    && s.received == ChangesOf(s.run.db.log[..s.next - 1])
  }

  /** A mutation or clean restart keeps the consumer in step; a crash does exactly when it takes nothing already read. */
  lemma MutateInStepIff(s: Session, e: Event)
    requires InStep(s) && !e.Reset?
    ensures var s2 := Acted(s, Mutate(e));
            && |s2.run.db.log| <= |s.run.db.log| + 1
            && (InStep(s2) <==> s.next <= |s2.run.db.log| + 1)
            && (!e.Crash? && !e.CrashIn? ==> InStep(s2))
  {
    hide Replay, ChangesOf, Exec, Consistent;
    AfterGood(s.run, e);
    AfterGrows(s.run, e);
    if e.Call? || e.CrashIn? {
      ExecGrows(s.run.db, e.op, e.now);
    }
    var log2 := After(s.run, e).db.log;
    if s.next <= |log2| + 1 {
      assert log2[..s.next - 1] == s.run.db.log[..s.next - 1];
    }
  }

  lemma PollInStep(s: Session, max: int)
    requires InStep(s) && |s.run.db.log| < TWO_63
    ensures var s2 := Acted(s, Poll(max));
            var left := |s.run.db.log| + 1 - s.next;
            InStep(s2) && s2.run == s.run && s2.next == s.next + if Limit(max) < left then Limit(max) else left
  {
    hide Replay, PageOf;
    var log := s.run.db.log;
    var left := |log| + 1 - s.next;
    var n := if Limit(max) < left then Limit(max) else left;
    PageIsContiguous(log, s.next, max);
    assert log[..s.next - 1] + log[s.next - 1..s.next - 1 + n] == log[..s.next - 1 + n];
  }

  /** Following NextOffset never skips and never repeats, as long as no crash takes a record that was read. */
  lemma {:induction false} StreamIsLogPrefix(acts: seq<Act>)
    requires Proper(acts) && LossFree(acts)
    ensures InStep(Sessions(acts)) && |Sessions(acts).run.db.log| <= |acts|
  {
    hide Acted, InStep;
    if acts == [] {
      StartsInStep();
    } else {
      var before := acts[..|acts| - 1];
      forall i | 0 <= i < |before| ensures before[..i] == acts[..i] {
      }
      StreamIsLogPrefix(before);
      match acts[|acts| - 1]
      case Mutate(e) => MutateInStepIff(Sessions(before), e);
      case Poll(max) => PollInStep(Sessions(before), max);
    }
  }

  lemma StartsInStep()
    ensures InStep(Sessions([])) && |Sessions([]).run.db.log| == 0
  {
  }

  ghost predicate AlwaysInStep(acts: seq<Act>) {
    forall i :: 0 <= i <= |acts| ==> InStep(Sessions(acts[..i]))
  }

  /** The consumer is in step throughout exactly when no crash takes a record that it has been given. */
  lemma StreamIsLogPrefixIff(acts: seq<Act>)
    requires Proper(acts)
    ensures AlwaysInStep(acts) <==> LossFree(acts)
  {
    hide Acted, InStep;
    if LossFree(acts) {
      forall i | 0 <= i <= |acts| ensures InStep(Sessions(acts[..i])) {
        forall k | 0 <= k < i ensures acts[..i][..k] == acts[..k] {
        }
        StreamIsLogPrefix(acts[..i]);
      }
    }
    if AlwaysInStep(acts) {
      forall i | 0 <= i < |acts| && IsCrash(acts[i])
        ensures Sessions(acts[..i]).next <= |Acted(Sessions(acts[..i]), acts[i]).run.db.log| + 1
      {
        assert acts[..i + 1][..i] == acts[..i];
        assert InStep(Sessions(acts[..i])) && InStep(Sessions(acts[..i + 1]));
        MutateInStepIff(Sessions(acts[..i]), acts[i].e);
      }
    }
  }

  /** A consumer is safe from every crash exactly when it has read durable records only. */
  lemma SafeFromCrashesIff(s: Session)
    requires InStep(s)
    ensures (forall e: Event :: e.Crash? || e.CrashIn? ==> InStep(Acted(s, Mutate(e)))) <==> s.next <= s.run.durable + 1
  {
    hide InStep, Acted;
    if s.next <= s.run.durable + 1 {
      forall e: Event | e.Crash? || e.CrashIn? ensures InStep(Acted(s, Mutate(e))) {
        MutateInStepIff(s, e);
        DurableLeft(s, e);
      }
    } else {
      MutateInStepIff(s, Crash(0));
      LeastLeft(s);
      assert !InStep(Acted(s, Mutate(Crash(0))));
    }
  }

  lemma DurableLeft(s: Session, e: Event)
    requires InStep(s) && !e.Reset?
    ensures s.run.durable <= |Acted(s, Mutate(e)).run.db.log|
  {
    hide After, ChangesOf;
    AfterGrows(s.run, e);
  }

  lemma LeastLeft(s: Session)
    requires InStep(s)
    ensures |Acted(s, Mutate(Crash(0))).run.db.log| == s.run.durable
  {
    hide ChangesOf, Replay;
  }

  /** The input at which a consumer falls out of step for good: it reads a recovered record, which a second crash takes. */
  lemma LostReadDiverges(key: Bytes, a: Bytes, b: Bytes)
    ensures var acts := [Mutate(CrashIn(Put(key, a, 0, []), 0, 1)), Poll(1), Mutate(Crash(0)),
                         Mutate(Call(Put(key, b, 0, []), 0)), Poll(1)];
            && Proper(acts)
            && Sessions(acts) == Session(Run(Reopened([Record(1, KIND_PUT, key, b, 0, [])]), 1), 2, [Change(1, PutKind, key, a)])
  {
    hide Sessions, Replay, After, PageOf;
    var opA, opB := Put(key, a, 0, []), Put(key, b, 0, []);
    var recA, recB := RecordFor(opA, 1), RecordFor(opB, 1);
    var acts := [Mutate(CrashIn(opA, 0, 1)), Poll(1), Mutate(Crash(0)), Mutate(Call(opB, 0)), Poll(1)];
    FirstPut(opA, 0);
    FirstPut(opB, 0);
    OnePage(recA);
    OnePage(recB);
    SessionStep(acts, 0);
    SessionStep(acts, 1);
    assert Sessions(acts[..2]) == Session(Run(Reopened([recA]), 0), 2, [Change(1, PutKind, key, a)]);
    SessionStep(acts, 2);
    SessionStep(acts, 3);
    assert Sessions(acts[..4]) == Session(Run(Reopened([recB]), 1), 2, [Change(1, PutKind, key, a)]);
    SessionStep(acts, 4);
    assert acts[..5] == acts;
  }

  lemma OnePage(rec: Record)
    requires rec.pos == 1
    ensures PageOf([rec], 1, 1) == Page([ChangeOf(rec)], 2) && PageOf([rec], 2, 1) == Page([], 2)
  {
    hide PageOf;
    PageIsContiguous([rec], 1, 1);
    PageIsContiguous([rec], 2, 1);
    assert ChangesOf([rec][0..1]) == [ChangeOf(rec)] && ChangesOf([rec][1..1]) == [];
  }

  lemma SessionStep(acts: seq<Act>, i: nat)
    requires i < |acts|
    ensures Sessions(acts[..i + 1]) == Acted(Sessions(acts[..i]), acts[i])
    ensures i == 0 ==> Sessions(acts[..i]) == Session(Run(Reopened([]), 0), 1, [])
  {
    hide Acted;
    ReplayNothing();
    assert acts[..i + 1][..i] == acts[..i];
  }

  /** A consumer that is behind always gets closer. */
  lemma PollAdvances(acts: seq<Act>, max: int)
    requires Proper(acts + [Poll(max)]) && LossFree(acts)
    ensures var s := Sessions(acts);
            var s2 := Sessions(acts + [Poll(max)]);
            s2.run == s.run && (s.next <= |s.run.db.log| ==> s.next < s2.next)
  {
    hide Acted;
    assert (acts + [Poll(max)])[..|acts|] == acts;
    assert forall i :: 0 <= i < |acts| ==> acts[i] == (acts + [Poll(max)])[i];
    StreamIsLogPrefix(acts);
    PollInStep(Sessions(acts), max);
  }

  // ---------------------------------------------------------------- the stream carries the state

  /** What a consumer rebuilds from change records: value and version per key. */
  function Fold(changes: seq<Change>): (m: map<Bytes, (Bytes, nat)>) {
    if changes == [] then map[]
    else
      var m := Fold(changes[..|changes| - 1]);
      var c := changes[|changes| - 1];
      match c.kind
      case PutKind => m[c.key := (c.value, c.offset)]
      case DeleteKind => m - {c.key}
      case Unspecified => m
  }

  function Visible(index: map<Bytes, Entry>): (m: map<Bytes, (Bytes, nat)>) {
    map key | key in index :: (index[key].value, index[key].version)
  }

  lemma {:induction false} FoldIsReplay(log: Log)
    ensures Fold(ChangesOf(log)) == Visible(Replay(log).index)
  {
    if log != [] {
      FoldIsReplay(log[..|log| - 1]);
      assert ChangesOf(log)[..|log| - 1] == ChangesOf(log[..|log| - 1]);
    }
  }

  /** A consumer in step that has caught up has rebuilt every key, value and version in the index, and nothing else. */
  lemma StreamEqualsState(acts: seq<Act>)
    requires Proper(acts) && LossFree(acts) && Sessions(acts).next == |Sessions(acts).run.db.log| + 1
    ensures Fold(Sessions(acts).received) == Visible(Sessions(acts).run.db.cache.index)
  {
    hide Sessions, Fold, Visible, Replay, ChangesOf, LossFree;
    var s := Sessions(acts);
    StreamIsLogPrefix(acts);
    assert s.run.db.log[..s.next - 1] == s.run.db.log;
    FoldIsReplay(s.run.db.log);
  }
}
