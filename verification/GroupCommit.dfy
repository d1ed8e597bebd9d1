/**
 * Group commit: `Append` as a transition system over any number of concurrent calls.
 * Every block the source runs while holding the mutex is one step; the fsync between two such blocks is not.
 *
 * The disk: writes reach the file in order, so the file is always a prefix of what was handed to the writer.
 * A failed write leaves at least one byte unwritten and makes every later write and flush of that writer fail.
 * A successful Sync makes durable at least what was in the file when it started. A crash keeps any byte prefix
 * of the file that contains the durable bytes.
 */
module GroupCommit {
  import opened ByteSeqs
  import opened Codec
  import opened Recovery

  // ---------------------------------------------------------------- state

  /** The WAL's positions and offsets, its buffered writer and the file. */
  datatype Storage = Storage(
    next: nat,
    byteOffsets: seq<nat>,
    writeOffset: nat,
    buf: Bytes,
    broken: bool,     // the writer's sticky error
    file: Bytes,
    log: Log)         // history: every record that was assigned a position, in assignment order

  /** One call of `Append` that has buffered its record and not yet returned. */
  datatype Call =
    | Waiting(mySeq: nat, rec: Record)
    | Syncing(mySeq: nat, rec: Record, flushSeq: nat, start: nat)   // the leader; `start` is the file size its Sync began with

  /** The group-commit bookkeeping. */
  datatype Group = Group(
    pendingSeq: nat,
    flushedSeq: nat,
    flushErr: bool,
    leading: bool,
    calls: map<nat, Call>,
    rounds: nat)      // history: flush-and-sync rounds begun since the file was opened

  datatype State = State(
    st: Storage,
    g: Group,
    durable: nat,               // bytes of the file that survive any crash
    base: nat,                  // history: how many records were recovered when the file was opened
    acked: map<nat, Record>)    // history: what successful calls of Append returned, over all restarts

  // ---------------------------------------------------------------- the blocks under the mutex

  /** The writer takes `bytes`, passing any part of its buffer on to the file. */
  predicate Written(st: Storage, bytes: Bytes, file: Bytes, buf: Bytes) {
    |st.file| <= |file| && file + buf == st.file + st.buf + bytes
  }

  /** A write or flush that fails: some byte never reaches the file, and nothing does once the writer is broken. */
  predicate WriteFailed(st: Storage, bytes: Bytes, file: Bytes, buf: Bytes) {
    if st.broken then file == st.file && buf == st.buf
    else Written(st, bytes, file, buf) && buf != []
  }

  /** The record as `Append` writes it, with its commit position assigned. */
  function Assigned(st: Storage, rec: Record): (r: Record) {
    rec.(pos := st.next)
  }

  /** The record has been buffered and its offset indexed. */
  function Buffered(crc: Checksum, st: Storage, r: Record, file: Bytes, buf: Bytes): (st2: Storage) {
    st.(next := st.next + 1,
        byteOffsets := st.byteOffsets + [st.writeOffset],
        writeOffset := st.writeOffset + |Frame(crc, r)|,
        file := file, buf := buf,
        log := st.log + [r])
  }

  /** The write of the record failed: its position is used up, its offset is not indexed. */
  function Refused(st: Storage, r: Record, file: Bytes, buf: Bytes): (st2: Storage) {
    st.(next := st.next + 1, broken := true, file := file, buf := buf, log := st.log + [r])
  }

  function Flushed(st: Storage): (st2: Storage) {
    st.(file := st.file + st.buf, buf := [])
  }

  function FlushBroken(st: Storage, file: Bytes, buf: Bytes): (st2: Storage) {
    st.(broken := true, file := file, buf := buf)
  }

  /** A follower queues up behind the leader. */
  function Joined(g: Group, t: nat, r: Record): (g2: Group) {
    g.(pendingSeq := g.pendingSeq + 1, calls := g.calls[t := Waiting(g.pendingSeq + 1, r)])
  }

  /** The leader begins a round that covers everything pending. */
  function RoundBegun(g: Group, t: nat, mySeq: nat, r: Record, start: nat): (g2: Group) {
    g.(leading := true, rounds := g.rounds + 1, calls := g.calls[t := Syncing(mySeq, r, g.pendingSeq, start)])
  }

  /** The leader's Sync succeeded. */
  function RoundBooked(g: Group, flushSeq: nat): (g2: Group) {
    g.(flushedSeq := flushSeq, flushErr := false)
  }

  /** The leader gives up: everyone pending is released with the error. */
  function GivenUp(g: Group, t: nat): (g2: Group) {
    g.(leading := false, flushErr := true, flushedSeq := g.pendingSeq, calls := g.calls - {t})
  }

  function SteppedDown(g: Group, t: nat): (g2: Group) {
    g.(leading := false, calls := g.calls - {t})
  }

  /** The WAL right after `Open` found `r`. */
  function Booted(r: OpenResult, durable: nat, acked: map<nat, Record>): (s: State)
    requires r.Opened?
  {
    State(Storage(|r.recs| + 1, r.offsets, |r.file|, [], false, r.file, r.recs),
          Group(0, 0, false, false, map[], 0), durable, |r.recs|, acked)
  }

  // ---------------------------------------------------------------- steps

  datatype Step =
    | Reject(rec: Record, file: Bytes, buf: Bytes)                                  // the buffered write fails
    | Follow(t: nat, rec: Record, file: Bytes, buf: Bytes)                          // buffer and wait
    | Lead(t: nat, rec: Record, file: Bytes, buf: Bytes)                            // buffer, flush, start a Sync
    | LeadFlushFails(t: nat, rec: Record, file: Bytes, buf: Bytes, file2: Bytes, buf2: Bytes)
    | SyncFails(t: nat)
    | SyncDone(t: nat, durable: nat)                                                // nobody new arrived: step down
    | SyncAgain(t: nat, durable: nat)                                               // someone arrived: next round
    | SyncThenFlushFails(t: nat, durable: nat, file: Bytes, buf: Bytes)
    | Wake(t: nat)                                                                  // a follower finds its record covered
    | Crash(keep: nat, durable: nat)                                                // and reopen
    | CloseFails(file: Bytes, buf: Bytes)                                           // the flush in Close fails
    | CloseAndOpen(durable: nat)                                                    // clean restart

  predicate IsLeader(g: Group, t: nat) {
    t in g.calls && g.calls[t].Syncing?
  }

  predicate SyncMakesDurable(s: State, t: nat, durable: nat)
    requires IsLeader(s.g, t)
  {
    s.durable <= durable && s.g.calls[t].start <= durable <= |s.st.file|
  }

  /** `Open` on the bytes that are left; what was durable stays so, up to the truncation. */
  predicate Reopens(crc: Checksum, s: State, left: Bytes, durable: nat, s2: State) {
    var r := OpenFile(crc, left);
    && r.Opened? && (s.durable <= durable || durable == |r.file|) && durable <= |r.file|
    && s2 == Booted(r, durable, s.acked)
  }

  /** A call of `Append` that gets past its buffered write. */
  predicate Arrives(crc: Checksum, s: State, t: nat, rec: Record, file: Bytes, buf: Bytes) {
    && Encodable(Assigned(s.st, rec)) && !s.st.broken && t !in s.g.calls
    && Written(s.st, Frame(crc, Assigned(s.st, rec)), file, buf)
  }

  /** `step` is enabled in `s` and leads to `s2`. */
  predicate Takes(crc: Checksum, s: State, step: Step, s2: State) {
    match step
    case Reject(rec, file, buf) =>
      var r := Assigned(s.st, rec);
      && Encodable(r) && WriteFailed(s.st, Frame(crc, r), file, buf)
      && s2 == s.(st := Refused(s.st, r, file, buf))
    case Follow(t, rec, file, buf) =>
      var r := Assigned(s.st, rec);
      && Arrives(crc, s, t, rec, file, buf) && s.g.leading
      && s2 == s.(st := Buffered(crc, s.st, r, file, buf), g := Joined(s.g, t, r))
    case Lead(t, rec, file, buf) =>
      var r := Assigned(s.st, rec);
      && Arrives(crc, s, t, rec, file, buf) && !s.g.leading
      && var st := Flushed(Buffered(crc, s.st, r, file, buf));
         var g := s.g.(pendingSeq := s.g.pendingSeq + 1);
         s2 == s.(st := st, g := RoundBegun(g, t, g.pendingSeq, r, |st.file|))
    case LeadFlushFails(t, rec, file, buf, file2, buf2) =>
      var r := Assigned(s.st, rec);
      && Arrives(crc, s, t, rec, file, buf) && !s.g.leading
      && var st := Buffered(crc, s.st, r, file, buf);
         var g := s.g.(pendingSeq := s.g.pendingSeq + 1, rounds := s.g.rounds + 1);
         WriteFailed(st, [], file2, buf2) && s2 == s.(st := FlushBroken(st, file2, buf2), g := GivenUp(g, t))
    case SyncFails(t) =>
      IsLeader(s.g, t) && s2 == s.(g := GivenUp(s.g, t))
    case SyncDone(t, durable) =>
      && IsLeader(s.g, t) && SyncMakesDurable(s, t, durable)
      && var c := s.g.calls[t];
         && c.flushSeq == s.g.pendingSeq
         && s2 == s.(g := SteppedDown(RoundBooked(s.g, c.flushSeq), t), durable := durable,
                     acked := s.acked[c.rec.pos := c.rec])
    case SyncAgain(t, durable) =>
      && IsLeader(s.g, t) && SyncMakesDurable(s, t, durable) && !s.st.broken
      && var c := s.g.calls[t];
         var st := Flushed(s.st);
         && c.flushSeq != s.g.pendingSeq
         && s2 == s.(st := st, durable := durable,
                     g := RoundBegun(RoundBooked(s.g, c.flushSeq), t, c.mySeq, c.rec, |st.file|))
    case SyncThenFlushFails(t, durable, file, buf) =>
      && IsLeader(s.g, t) && SyncMakesDurable(s, t, durable) && WriteFailed(s.st, [], file, buf)
      && var c := s.g.calls[t];
         && c.flushSeq != s.g.pendingSeq
         && s2 == s.(st := FlushBroken(s.st, file, buf), durable := durable,
                     g := GivenUp(RoundBooked(s.g, c.flushSeq).(rounds := s.g.rounds + 1), t))
    case Wake(t) =>
      && t in s.g.calls && s.g.calls[t].Waiting? && s.g.flushedSeq >= s.g.calls[t].mySeq
      && var c := s.g.calls[t];
         s2 == s.(g := s.g.(calls := s.g.calls - {t}),
                  acked := if s.g.flushErr then s.acked else s.acked[c.rec.pos := c.rec])
    case Crash(keep, durable) =>
      s.durable <= keep <= |s.st.file| && Reopens(crc, s, s.st.file[..keep], durable, s2)
    case CloseFails(file, buf) =>
      !s.g.leading && WriteFailed(s.st, [], file, buf) && s2 == s.(st := FlushBroken(s.st, file, buf))
    case CloseAndOpen(durable) =>
      // a waiter that Close finds is covered already; waking it after Close would be the same as waking it before
      !s.g.leading && s.g.calls == map[] && !s.st.broken && Reopens(crc, s, s.st.file + s.st.buf, durable, s2)
  }

  /** A new, empty log: the header is written and synced before `Open` returns. */
  function Start(): (s: State) {
    Booted(Opened([], [], HEADER), HEADER_SIZE, map[])
  }

  // ---------------------------------------------------------------- the invariant

  /** Bytes and offset index agree with the log, and no record beyond the index is complete in the file. */
  ghost predicate StorageInv(crc: Checksum, st: Storage) {
    var n := |st.byteOffsets|;
    && WellFormed(st.log) && st.next == |st.log| + 1
    && n <= |st.log|
    && (forall i :: 0 <= i < n ==> st.byteOffsets[i] == End(crc, st.log, i))
    && st.writeOffset == End(crc, st.log, n)
    && (exists rest :: st.file + st.buf + rest == FileBytes(crc, st.log))
    && (!st.broken ==> n == |st.log| && st.file + st.buf == FileBytes(crc, st.log))
    && (n < |st.log| ==> |st.file| < End(crc, st.log, n + 1))
    && HEADER_SIZE <= |st.file|
  }

  /** One leader while `leading`, none otherwise, nobody left behind when there is none, and every round accounted for. */
  ghost predicate GroupInv(g: Group) {
    && g.flushedSeq <= g.pendingSeq
    && (!g.leading ==> g.flushedSeq == g.pendingSeq)
    && (g.leading ==> exists t :: IsLeader(g, t))
    && (forall t :: IsLeader(g, t) ==> g.leading && g.flushedSeq < g.calls[t].flushSeq <= g.pendingSeq)
    && (forall t, u :: IsLeader(g, t) && IsLeader(g, u) ==> t == u)
    && (forall t :: t in g.calls ==> 1 <= g.calls[t].mySeq <= g.pendingSeq)
    && (forall t :: IsLeader(g, t) ==> g.calls[t].mySeq <= g.calls[t].flushSeq)
    && (forall t, u :: t in g.calls && u in g.calls && g.calls[t].mySeq == g.calls[u].mySeq ==> t == u)
    && g.rounds <= g.flushedSeq + if g.leading then 1 else 0
  }

  /** Each call in flight owns the record at its position, and the leader's Sync covers what it will announce. */
  ghost predicate CallsInv(crc: Checksum, s: State) {
    && |s.st.byteOffsets| == s.base + s.g.pendingSeq <= |s.st.log|
    && (forall t :: t in s.g.calls ==>
          var c := s.g.calls[t];
          && 1 <= c.mySeq <= s.g.pendingSeq
          && c.rec == s.st.log[s.base + c.mySeq - 1] && c.rec.pos == s.base + c.mySeq && c.rec.pos !in s.acked
          && (c.Syncing? ==>
                c.flushSeq <= s.g.pendingSeq && End(crc, s.st.log, s.base + c.flushSeq) <= c.start <= |s.st.file|))
  }

  /** `flushErr == nil` means every record up to `flushedSeq` is durable; acknowledged records are durable. */
  ghost predicate DurableInv(crc: Checksum, s: State) {
    && s.base + s.g.flushedSeq <= |s.st.log|
    && HEADER_SIZE <= s.durable <= |s.st.file|
    && (!s.g.flushErr && s.g.flushedSeq > 0 ==> End(crc, s.st.log, s.base + s.g.flushedSeq) <= s.durable)
    && (forall p :: p in s.acked ==>
          1 <= p <= |s.st.log| && s.st.log[p - 1] == s.acked[p] && End(crc, s.st.log, p) <= s.durable)
  }

  ghost predicate Inv(crc: Checksum, s: State) {
    StorageInv(crc, s.st) && GroupInv(s.g) && CallsInv(crc, s) && DurableInv(crc, s)
  }

  // ---------------------------------------------------------------- storage: every block keeps StorageInv

  lemma LongerLog(crc: Checksum, log: Log, r: Record)
    ensures FileBytes(crc, log + [r]) == FileBytes(crc, log) + Frame(crc, r)
    ensures End(crc, log, |log|) == |FileBytes(crc, log)|
    ensures End(crc, log + [r], |log| + 1) == |FileBytes(crc, log)| + |Frame(crc, r)|
  {
    hide Encodable, Frame;
    LogBytesConcat(crc, log, [r]);
    LogBytesOne(crc, r);
    assert log[..|log|] == log && (log + [r])[..|log| + 1] == log + [r];
    assert HEADER + (LogBytes(crc, log) + Frame(crc, r)) == HEADER + LogBytes(crc, log) + Frame(crc, r);
  }

  lemma EndsStable(crc: Checksum, log: Log, r: Record)
    ensures forall n :: 0 <= n <= |log| ==> End(crc, log + [r], n) == End(crc, log, n)
  {
    forall n | 0 <= n <= |log| ensures End(crc, log + [r], n) == End(crc, log, n) {
      EndStable(crc, log, [r], n);
    }
  }

  lemma BufferedInv(crc: Checksum, st: Storage, r: Record, file: Bytes, buf: Bytes)
    requires StorageInv(crc, st) && !st.broken && r.pos == st.next && Encodable(r)
    requires Written(st, Frame(crc, r), file, buf)
    ensures StorageInv(crc, Buffered(crc, st, r, file, buf))
    ensures |st.log| == |st.byteOffsets| && r.pos == |st.log| + 1
  {
    hide Frame, FileBytes, End, Encodable;
    LongerLog(crc, st.log, r);
    EndsStable(crc, st.log, r);
    assert file + buf + [] == file + buf;
  }

  lemma FlushedInv(crc: Checksum, st: Storage)
    requires StorageInv(crc, st) && !st.broken
    ensures StorageInv(crc, Flushed(st))
    ensures |st.log| == |st.byteOffsets| && |Flushed(st).file| == End(crc, st.log, |st.log|)
  {
    hide Frame, Encodable;
    assert st.file + st.buf + [] == st.file + st.buf;
    assert st.log[..|st.log|] == st.log;
  }

  lemma FlushBrokenInv(crc: Checksum, st: Storage, file: Bytes, buf: Bytes)
    requires StorageInv(crc, st) && WriteFailed(st, [], file, buf)
    ensures StorageInv(crc, FlushBroken(st, file, buf)) && |st.file| <= |file|
  {
    hide Frame, FileBytes, End, Encodable;
    assert st.file + st.buf + [] == st.file + st.buf;
  }

  lemma RefusedInv(crc: Checksum, st: Storage, r: Record, file: Bytes, buf: Bytes)
    requires StorageInv(crc, st) && r.pos == st.next && Encodable(r)
    requires WriteFailed(st, Frame(crc, r), file, buf)
    ensures StorageInv(crc, Refused(st, r, file, buf)) && |st.file| <= |file|
  {
    hide Frame, FileBytes, End, Encodable;
    LongerLog(crc, st.log, r);
    EndsStable(crc, st.log, r);
    var rest :| st.file + st.buf + rest == FileBytes(crc, st.log);
    assert st.file + st.buf + (rest + Frame(crc, r)) == st.file + st.buf + rest + Frame(crc, r);
    if !st.broken {
      assert file + buf + [] == file + buf;
    }
    assert |st.file| <= |FileBytes(crc, st.log)|;
  }

  // ---------------------------------------------------------------- group: every block keeps GroupInv

  lemma JoinedInv(g: Group, t: nat, r: Record)
    requires GroupInv(g) && g.leading && t !in g.calls
    ensures GroupInv(Joined(g, t, r))
  {
    var g2 := Joined(g, t, r);
    var u :| IsLeader(g, u);
    assert IsLeader(g2, u);
    assert forall v :: IsLeader(g2, v) ==> IsLeader(g, v) && g2.calls[v] == g.calls[v];
  }

  /** A first round: the new leader was not there before and nobody else leads. */
  lemma LeadInv(g: Group, t: nat, r: Record, start: nat)
    requires GroupInv(g) && !g.leading && t !in g.calls
    ensures GroupInv(RoundBegun(g.(pendingSeq := g.pendingSeq + 1), t, g.pendingSeq + 1, r, start))
  {
    var g2 := RoundBegun(g.(pendingSeq := g.pendingSeq + 1), t, g.pendingSeq + 1, r, start);
    assert IsLeader(g2, t);
    assert forall v :: IsLeader(g2, v) && v != t ==> IsLeader(g, v);
  }

  /** A further round of the same leader. */
  lemma AgainInv(g: Group, t: nat, start: nat)
    requires GroupInv(g) && IsLeader(g, t) && g.calls[t].flushSeq != g.pendingSeq
    ensures var c := g.calls[t];
            GroupInv(RoundBegun(RoundBooked(g, c.flushSeq), t, c.mySeq, c.rec, start))
  {
    var c := g.calls[t];
    var g2 := RoundBegun(RoundBooked(g, c.flushSeq), t, c.mySeq, c.rec, start);
    assert IsLeader(g2, t);
    assert forall v :: IsLeader(g2, v) && v != t ==> IsLeader(g, v);
  }

  /** Without a leader left, with everyone pending released. */
  lemma LeaderlessInv(g: Group, t: nat, g2: Group)
    requires GroupInv(g) && (IsLeader(g, t) || !g.leading)
    requires !g2.leading && g2.flushedSeq == g2.pendingSeq >= g.pendingSeq && g2.calls == g.calls - {t}
    requires g2.rounds <= g2.pendingSeq
    ensures GroupInv(g2)
  {
    assert forall v :: IsLeader(g2, v) ==> IsLeader(g, v);
  }

  lemma WokenInv(g: Group, t: nat)
    requires GroupInv(g) && t in g.calls && g.calls[t].Waiting?
    ensures GroupInv(g.(calls := g.calls - {t}))
  {
    var g2 := g.(calls := g.calls - {t});
    assert forall v :: IsLeader(g2, v) <==> IsLeader(g, v);
  }

  // ---------------------------------------------------------------- calls and durability, step by step

  lemma RejectKeeps(crc: Checksum, s: State, rec: Record, file: Bytes, buf: Bytes, s2: State)
    requires Inv(crc, s) && Takes(crc, s, Reject(rec, file, buf), s2)
    ensures Inv(crc, s2)
  {
    hide Frame, FileBytes, End, Encodable, StorageInv, GroupInv, WriteFailed;
    RefusedInv(crc, s.st, Assigned(s.st, rec), file, buf);
    EndsStable(crc, s.st.log, Assigned(s.st, rec));
  }

  /** The arriving record has been buffered but not yet queued or led. */
  function Arrived(crc: Checksum, s: State, rec: Record, file: Bytes, buf: Bytes): (s1: State) {
    s.(st := Buffered(crc, s.st, Assigned(s.st, rec), file, buf), g := s.g.(pendingSeq := s.g.pendingSeq + 1))
  }

  lemma ArrivedInv(crc: Checksum, s: State, t: nat, rec: Record, file: Bytes, buf: Bytes)
    requires Inv(crc, s) && Arrives(crc, s, t, rec, file, buf)
    ensures var s1 := Arrived(crc, s, rec, file, buf);
            var r := Assigned(s.st, rec);
            && StorageInv(crc, s1.st) && CallsInv(crc, s1) && DurableInv(crc, s1)
            && |s1.st.log| == s1.base + s1.g.pendingSeq
            && r == s1.st.log[s1.base + s1.g.pendingSeq - 1] && r.pos == s1.base + s1.g.pendingSeq && r.pos !in s1.acked
  {
    hide Frame, FileBytes, End, Encodable, StorageInv, GroupInv;
    var r := Assigned(s.st, rec);
    BufferedInv(crc, s.st, r, file, buf);
    EndsStable(crc, s.st.log, r);
  }

  /** A call joins in: its record is in the log, and a leader's Sync starts with the whole log in the file. */
  lemma CallAdded(crc: Checksum, s: State, t: nat, c: Call, g2: Group)
    requires CallsInv(crc, s)
    requires 1 <= c.mySeq <= s.g.pendingSeq && c.rec == s.st.log[s.base + c.mySeq - 1]
    requires c.rec.pos == s.base + c.mySeq && c.rec.pos !in s.acked
    requires c.Syncing? ==> c.flushSeq == s.g.pendingSeq && c.start == |s.st.file|
    requires c.Syncing? ==> End(crc, s.st.log, s.base + s.g.pendingSeq) <= |s.st.file|
    requires g2.pendingSeq == s.g.pendingSeq && g2.calls == s.g.calls[t := c]
    ensures CallsInv(crc, s.(g := g2))
  {
    hide End;
  }

  lemma FollowKeeps(crc: Checksum, s: State, t: nat, rec: Record, file: Bytes, buf: Bytes, s2: State)
    requires Inv(crc, s) && Takes(crc, s, Follow(t, rec, file, buf), s2)
    ensures Inv(crc, s2)
  {
    hide Frame, FileBytes, End, Encodable, StorageInv, GroupInv, CallsInv, Written;
    var r := Assigned(s.st, rec);
    ArrivedInv(crc, s, t, rec, file, buf);
    JoinedInv(s.g, t, r);
    CallAdded(crc, Arrived(crc, s, rec, file, buf), t, Waiting(s.g.pendingSeq + 1, r), s2.g);
  }

  /** Flushing moves the buffer into the file and changes nothing else. */
  lemma FlushKeeps(crc: Checksum, s: State)
    requires StorageInv(crc, s.st) && CallsInv(crc, s) && DurableInv(crc, s) && !s.st.broken
    ensures var s1 := s.(st := Flushed(s.st));
            && StorageInv(crc, s1.st) && CallsInv(crc, s1) && DurableInv(crc, s1)
            && End(crc, s1.st.log, s1.base + s1.g.pendingSeq) == |s1.st.file|
  {
    hide Frame, FileBytes, End, Encodable, StorageInv;
    FlushedInv(crc, s.st);
  }

  lemma LeadKeeps(crc: Checksum, s: State, t: nat, rec: Record, file: Bytes, buf: Bytes, s2: State)
    requires Inv(crc, s) && Takes(crc, s, Lead(t, rec, file, buf), s2)
    ensures Inv(crc, s2)
  {
    hide Frame, FileBytes, End, Encodable, StorageInv, GroupInv, CallsInv, Written;
    var r := Assigned(s.st, rec);
    var s1 := Arrived(crc, s, rec, file, buf);
    ArrivedInv(crc, s, t, rec, file, buf);
    FlushKeeps(crc, s1);
    var s3 := s1.(st := Flushed(s1.st));
    LeadInv(s.g, t, r, |s3.st.file|);
    CallAdded(crc, s3, t, Syncing(s3.g.pendingSeq, r, s3.g.pendingSeq, |s3.st.file|), s2.g);
  }

  /** The leader gives up after its flush failed, or after its Sync did. */
  lemma GiveUpKeeps(crc: Checksum, s: State, t: nat, st: Storage, rounds: nat)
    requires CallsInv(crc, s) && DurableInv(crc, s)
    requires st.log == s.st.log && st.byteOffsets == s.st.byteOffsets && |s.st.file| <= |st.file|
    ensures var s2 := s.(st := st, g := GivenUp(s.g.(rounds := rounds), t));
            CallsInv(crc, s2) && DurableInv(crc, s2)
  {
    hide End;
  }

  lemma LeadFlushFailsKeeps(crc: Checksum, s: State, step: Step, s2: State)
    requires Inv(crc, s) && step.LeadFlushFails? && Takes(crc, s, step, s2)
    ensures Inv(crc, s2)
  {
    hide Frame, FileBytes, End, Encodable, StorageInv, CallsInv, DurableInv, Written;
    var LeadFlushFails(t, rec, file, buf, file2, buf2) := step;
    var s1 := Arrived(crc, s, rec, file, buf);
    ArrivedInv(crc, s, t, rec, file, buf);
    FlushBrokenInv(crc, s1.st, file2, buf2);
    GiveUpKeeps(crc, s1, t, s2.st, s1.g.rounds + 1);
    LeaderlessInv(s.g, t, s2.g);
  }

  lemma SyncFailsKeeps(crc: Checksum, s: State, t: nat, s2: State)
    requires Inv(crc, s) && Takes(crc, s, SyncFails(t), s2)
    ensures Inv(crc, s2)
  {
    hide Frame, FileBytes, End, Encodable, StorageInv, CallsInv, DurableInv;
    GiveUpKeeps(crc, s, t, s.st, s.g.rounds);
    LeaderlessInv(s.g, t, s2.g);
  }

  /** A successful Sync: what it announces is durable. */
  lemma SyncBooked(crc: Checksum, s: State, t: nat, durable: nat)
    requires Inv(crc, s) && IsLeader(s.g, t) && SyncMakesDurable(s, t, durable)
    ensures var s1 := s.(g := RoundBooked(s.g, s.g.calls[t].flushSeq), durable := durable);
            CallsInv(crc, s1) && DurableInv(crc, s1)
    ensures var c := s.g.calls[t];
            1 <= c.rec.pos <= |s.st.log| && s.st.log[c.rec.pos - 1] == c.rec && End(crc, s.st.log, c.rec.pos) <= durable
  {
    hide End, StorageInv;
    var c := s.g.calls[t];
    EndMonotone(crc, s.st.log, s.base + c.mySeq, s.base + c.flushSeq);
  }

  /** Returning success for a record that is durable. */
  lemma AckKeeps(crc: Checksum, s: State, t: nat, g: Group)
    requires CallsInv(crc, s) && DurableInv(crc, s) && t in s.g.calls
    requires forall u :: u in s.g.calls && s.g.calls[u].mySeq == s.g.calls[t].mySeq ==> t == u
    requires var r := s.g.calls[t].rec;
             1 <= r.pos <= |s.st.log| && s.st.log[r.pos - 1] == r && End(crc, s.st.log, r.pos) <= s.durable
    requires g == s.g.(calls := s.g.calls - {t}, leading := g.leading)
    ensures var r := s.g.calls[t].rec;
            var s2 := s.(g := g, acked := s.acked[r.pos := r]);
            CallsInv(crc, s2) && DurableInv(crc, s2)
  {
    hide End;
    var r := s.g.calls[t].rec;
    var s2 := s.(g := g, acked := s.acked[r.pos := r]);
    assert DurableInv(crc, s2);
    forall u | u in s2.g.calls ensures s2.g.calls[u] == s.g.calls[u] && s2.g.calls[u].rec.pos !in s2.acked {
      assert u != t && s.g.calls[u].rec.pos == s.base + s.g.calls[u].mySeq;
    }
  }

  lemma SyncDoneKeeps(crc: Checksum, s: State, t: nat, durable: nat, s2: State)
    requires Inv(crc, s) && Takes(crc, s, SyncDone(t, durable), s2)
    ensures Inv(crc, s2)
  {
    hide Frame, FileBytes, End, Encodable, StorageInv, CallsInv, DurableInv;
    SyncBooked(crc, s, t, durable);
    AckKeeps(crc, s.(g := RoundBooked(s.g, s.g.calls[t].flushSeq), durable := durable), t, s2.g);
    LeaderlessInv(s.g, t, s2.g);
  }

  lemma SameDurable(crc: Checksum, s: State, s2: State)
    requires DurableInv(crc, s) && s2 == s.(g := s2.g)
    requires s2.g.flushedSeq == s.g.flushedSeq && s2.g.flushErr == s.g.flushErr
    ensures DurableInv(crc, s2)
  {
  }

  lemma SyncAgainKeeps(crc: Checksum, s: State, t: nat, durable: nat, s2: State)
    requires Inv(crc, s) && Takes(crc, s, SyncAgain(t, durable), s2)
    ensures Inv(crc, s2)
  {
    hide Frame, FileBytes, End, Encodable, StorageInv, GroupInv, DurableInv;
    var c := s.g.calls[t];
    var s1 := s.(g := RoundBooked(s.g, c.flushSeq), durable := durable);
    SyncBooked(crc, s, t, durable);
    FlushKeeps(crc, s1);
    var s3 := s1.(st := Flushed(s1.st));
    AgainInv(s.g, t, |s3.st.file|);
    CallAdded(crc, s3, t, Syncing(c.mySeq, c.rec, s3.g.pendingSeq, |s3.st.file|), s2.g);
    SameDurable(crc, s3, s2);
  }

  lemma SyncThenFlushFailsKeeps(crc: Checksum, s: State, t: nat, durable: nat, file: Bytes, buf: Bytes, s2: State)
    requires Inv(crc, s) && Takes(crc, s, SyncThenFlushFails(t, durable, file, buf), s2)
    ensures Inv(crc, s2)
  {
    hide Frame, FileBytes, End, Encodable, StorageInv, CallsInv, DurableInv, WriteFailed;
    var s1 := s.(g := RoundBooked(s.g, s.g.calls[t].flushSeq), durable := durable);
    SyncBooked(crc, s, t, durable);
    FlushBrokenInv(crc, s.st, file, buf);
    GiveUpKeeps(crc, s1, t, s2.st, s.g.rounds + 1);
    LeaderlessInv(s.g, t, s2.g);
  }

  /** A follower whose turn has come, when no error is pending, has its record on disk. */
  lemma CoveredIsDurable(crc: Checksum, s: State, t: nat)
    requires Inv(crc, s) && t in s.g.calls && s.g.flushedSeq >= s.g.calls[t].mySeq && !s.g.flushErr
    ensures var r := s.g.calls[t].rec;
            1 <= r.pos <= |s.st.log| && s.st.log[r.pos - 1] == r && End(crc, s.st.log, r.pos) <= s.durable
  {
    hide End, StorageInv;
    EndMonotone(crc, s.st.log, s.g.calls[t].rec.pos, s.base + s.g.flushedSeq);
  }

  lemma WakeKeeps(crc: Checksum, s: State, t: nat, s2: State)
    requires Inv(crc, s) && Takes(crc, s, Wake(t), s2)
    ensures Inv(crc, s2)
  {
    hide Frame, FileBytes, End, Encodable, StorageInv, CallsInv, DurableInv;
    WokenInv(s.g, t);
    if s.g.flushErr {
      WokenWithError(crc, s, t);
    } else {
      CoveredIsDurable(crc, s, t);
      AckKeeps(crc, s, t, s2.g);
    }
  }

  lemma WokenWithError(crc: Checksum, s: State, t: nat)
    requires CallsInv(crc, s) && DurableInv(crc, s)
    ensures var s2 := s.(g := s.g.(calls := s.g.calls - {t}));
            CallsInv(crc, s2) && DurableInv(crc, s2)
  {
    hide End;
  }

  lemma CloseFailsKeeps(crc: Checksum, s: State, file: Bytes, buf: Bytes, s2: State)
    requires Inv(crc, s) && Takes(crc, s, CloseFails(file, buf), s2)
    ensures Inv(crc, s2)
  {
    hide Frame, FileBytes, End, Encodable, StorageInv, GroupInv, WriteFailed;
    FlushBrokenInv(crc, s.st, file, buf);
  }

  // ---------------------------------------------------------------- restarts

  /** What `Open` finds when the file is cut anywhere behind the durable bytes. */
  lemma ReopenFinds(crc: Checksum, s: State, left: Bytes)
    requires Inv(crc, s) && s.durable <= |left| && left <= FileBytes(crc, s.st.log)
    ensures var r := OpenFile(crc, left);
            && r.Opened? && r.recs <= s.st.log
            && r.offsets == OffsetsFrom(crc, r.recs, HEADER_SIZE) && r.file == FileBytes(crc, r.recs)
            && (forall n :: 0 <= n <= |s.st.log| && End(crc, s.st.log, n) <= s.durable ==> n <= |r.recs|)
  {
    hide Frame, Encodable, LogBytes, Complete, OpenFile, FileBytes;
    assert left == FileBytes(crc, s.st.log)[..|left|];
    RecoveryIsExact(crc, s.st.log, |left|);
    forall n | 0 <= n <= |s.st.log| && End(crc, s.st.log, n) <= s.durable
      ensures n <= Complete(crc, s.st.log, |left| - HEADER_SIZE)
    {
      CompleteIsLargest(crc, s.st.log, |left| - HEADER_SIZE, n);
    }
  }

  lemma BootedStorage(crc: Checksum, log: Log)
    requires WellFormed(log)
    ensures var file := FileBytes(crc, log);
            StorageInv(crc, Storage(|log| + 1, OffsetsFrom(crc, log, HEADER_SIZE), |file|, [], false, file, log))
  {
    hide Frame, Encodable, LogBytes;
    var file := FileBytes(crc, log);
    forall i | 0 <= i < |log| ensures OffsetsFrom(crc, log, HEADER_SIZE)[i] == End(crc, log, i) {
      OffsetsAt(crc, log, HEADER_SIZE, i);
    }
    assert log[..|log|] == log;
    assert file + [] + [] == file && file + [] == file;
  }

  lemma ReopenKeeps(crc: Checksum, s: State, left: Bytes, durable: nat, s2: State)
    requires Inv(crc, s) && s.durable <= |left| && left <= FileBytes(crc, s.st.log)
    requires Reopens(crc, s, left, durable, s2)
    ensures Inv(crc, s2)
  {
    hide Frame, Encodable, LogBytes, OpenFile, FileBytes, End, StorageInv, CallsInv;
    var r := OpenFile(crc, left);
    ReopenFinds(crc, s, left);
    PrefixWellFormed(crc, s, r.recs);
    BootedStorage(crc, r.recs);
    forall p | p in s.acked
      ensures 1 <= p <= |r.recs| && r.recs[p - 1] == s.acked[p] && End(crc, r.recs, p) <= durable
    {
      ReopenKeepsAcked(crc, s, r.recs, p);
    }
    BootedCalls(crc, s2);
    assert HEADER_SIZE <= s.durable && HEADER_SIZE <= |r.file| by { HeaderFits(crc, r.recs); }
  }

  lemma HeaderFits(crc: Checksum, log: Log)
    ensures HEADER_SIZE <= |FileBytes(crc, log)|
  {
  }

  lemma PrefixWellFormed(crc: Checksum, s: State, recs: Log)
    requires Inv(crc, s) && recs <= s.st.log
    ensures WellFormed(recs)
  {
    hide Encodable, Frame, FileBytes, End;
  }

  lemma BootedCalls(crc: Checksum, s: State)
    requires s.g == Group(0, 0, false, false, map[], 0) && |s.st.byteOffsets| == s.base == |s.st.log|
    ensures CallsInv(crc, s) && GroupInv(s.g)
  {
  }

  lemma ReopenKeepsAcked(crc: Checksum, s: State, recs: Log, p: nat)
    requires Inv(crc, s) && p in s.acked && recs <= s.st.log
    requires forall n :: 0 <= n <= |s.st.log| && End(crc, s.st.log, n) <= s.durable ==> n <= |recs|
    ensures 1 <= p <= |recs| && recs[p - 1] == s.acked[p]
    ensures End(crc, recs, p) <= s.durable && End(crc, recs, p) <= |FileBytes(crc, recs)|
  {
    hide Frame, Encodable, StorageInv, GroupInv, CallsInv, LogBytes;
    assert s.st.log[..p] == recs[..p];
    PrefixIsFile(crc, recs, p);
  }

  lemma WholeFile(crc: Checksum, st: Storage)
    requires StorageInv(crc, st)
    ensures forall k :: 0 <= k <= |st.file| ==> st.file[..k] <= FileBytes(crc, st.log)
    ensures !st.broken ==> st.file + st.buf <= FileBytes(crc, st.log)
  {
    hide Frame, FileBytes, End, Encodable;
    var rest :| st.file + st.buf + rest == FileBytes(crc, st.log);
    assert st.file + (st.buf + rest) == FileBytes(crc, st.log);
  }

  lemma CrashKeeps(crc: Checksum, s: State, keep: nat, durable: nat, s2: State)
    requires Inv(crc, s) && Takes(crc, s, Crash(keep, durable), s2)
    ensures Inv(crc, s2)
  {
    hide StorageInv, FileBytes, Reopens;
    WholeFile(crc, s.st);
    ReopenKeeps(crc, s, s.st.file[..keep], durable, s2);
  }

  lemma CloseAndOpenKeeps(crc: Checksum, s: State, durable: nat, s2: State)
    requires Inv(crc, s) && Takes(crc, s, CloseAndOpen(durable), s2)
    ensures Inv(crc, s2)
  {
    hide StorageInv, FileBytes, Reopens;
    WholeFile(crc, s.st);
    ReopenKeeps(crc, s, s.st.file + s.st.buf, durable, s2);
  }

  // ---------------------------------------------------------------- the step theorem

  lemma StartInv(crc: Checksum)
    ensures Inv(crc, Start())
  {
    hide StorageInv, Frame, Encodable;
    assert LogBytes(crc, []) == [];
    assert HEADER + [] == HEADER;
    BootedStorage(crc, []);
    BootedCalls(crc, Start());
  }

  /** Every step of every call, every I/O failure and every restart keeps the invariant. */
  lemma StepKeeps(crc: Checksum, s: State, step: Step, s2: State)
    requires Inv(crc, s) && Takes(crc, s, step, s2)
    ensures Inv(crc, s2)
  {
    hide Inv, Takes;
    match step
    case Reject(rec, file, buf) => RejectKeeps(crc, s, rec, file, buf, s2);
    case Follow(t, rec, file, buf) => FollowKeeps(crc, s, t, rec, file, buf, s2);
    case Lead(t, rec, file, buf) => LeadKeeps(crc, s, t, rec, file, buf, s2);
    case LeadFlushFails(_, _, _, _, _, _) => LeadFlushFailsKeeps(crc, s, step, s2);
    case SyncFails(t) => SyncFailsKeeps(crc, s, t, s2);
    case SyncDone(t, durable) => SyncDoneKeeps(crc, s, t, durable, s2);
    case SyncAgain(t, durable) => SyncAgainKeeps(crc, s, t, durable, s2);
    case SyncThenFlushFails(t, durable, file, buf) => SyncThenFlushFailsKeeps(crc, s, t, durable, file, buf, s2);
    case Wake(t) => WakeKeeps(crc, s, t, s2);
    case Crash(keep, durable) => CrashKeeps(crc, s, keep, durable, s2);
    case CloseFails(file, buf) => CloseFailsKeeps(crc, s, file, buf, s2);
    case CloseAndOpen(durable) => CloseAndOpenKeeps(crc, s, durable, s2);
  }
}
