/** The engine's state as a function of its log: replay, and what replay means record by record. */
module History {
  import opened ByteSeqs
  import opened Codec
  import opened Recovery

  datatype Entry = Entry(value: Bytes, version: nat, expires: nat)   // expires 0 = never

  datatype Outcome = Outcome(pos: nat, version: nat, deduplicated: bool)

  /** The two in-memory maps of the engine. */
  datatype Cache = Cache(index: map<Bytes, Entry>, dedup: map<Bytes, Outcome>)

  const EMPTY := Cache(map[], map[])

  /** A clock reading is Unix nanoseconds. */
  predicate Expired(e: Entry, now: int) {
    e.expires != 0 && now > e.expires
  }

  function EntryOf(r: Record): (e: Entry) {
    Entry(r.value, r.pos, if r.expires > 0 then r.expires else 0)
  }

  /** The engine's `replay` callback. */
  function Replay1(c: Cache, r: Record): (c2: Cache) {
    Cache(
      if r.kind == KIND_PUT then c.index[r.key := EntryOf(r)]
      else if r.kind == KIND_DELETE then c.index - {r.key}
      else c.index,
      if r.idem != [] then c.dedup[r.idem := Outcome(r.pos, r.pos, false)] else c.dedup)
  }

  function Replay(log: Log): (c: Cache) {
    if log == [] then EMPTY else Replay1(Replay(log[..|log| - 1]), log[|log| - 1])
  }

  lemma ReplayAppend(log: Log, r: Record)
    ensures Replay(log + [r]) == Replay1(Replay(log), r)
  {
    assert (log + [r])[..|log|] == log;
  }

  /** The position of a record is its place in the log. */
  ghost predicate Numbered(log: Log) {
    forall i :: 0 <= i < |log| ==> log[i].pos == i + 1
  }

  // ---------------------------------------------------------------- the same facts read off the log

  predicate Touches(r: Record, key: Bytes) {
    r.key == key && (r.kind == KIND_PUT || r.kind == KIND_DELETE)
  }

  /** The number of the last record that wrote or deleted `key`; 0 if there is none. */
  function Last(log: Log, key: Bytes): (n: nat)
    ensures n <= |log|
    ensures n > 0 ==> Touches(log[n - 1], key)
    ensures forall i :: n <= i < |log| ==> !Touches(log[i], key)
  {
    if log == [] then 0
    else if Touches(log[|log| - 1], key) then |log|
    else Last(log[..|log| - 1], key)
  }

  /** The number of the last record that carries idempotency key `id`; 0 if there is none. */
  function Used(log: Log, id: Bytes): (n: nat)
    ensures n <= |log|
    ensures n > 0 ==> log[n - 1].idem == id
    ensures forall i :: n <= i < |log| ==> log[i].idem != id
  {
    if log == [] then 0
    else if log[|log| - 1].idem == id then |log|
    else Used(log[..|log| - 1], id)
  }

  /** `key` was last written, not deleted. */
  predicate Present(log: Log, key: Bytes) {
    Last(log, key) > 0 && log[Last(log, key) - 1].kind == KIND_PUT
  }

  /** The index holds exactly the keys whose last record is a Put, with that record's value, position and expiry. */
  lemma {:induction false} IndexIsLastRecord(log: Log, key: Bytes)
    requires Numbered(log)
    ensures key in Replay(log).index <==> Present(log, key)
    ensures Present(log, key) ==>
              var n := Last(log, key);
              Replay(log).index[key] == EntryOf(log[n - 1]) && Replay(log).index[key].version == n
  {
    if log != [] {
      IndexIsLastRecord(log[..|log| - 1], key);
    }
  }

  /** The dedup table holds exactly the idempotency keys in the log, with the position of their last use. */
  lemma {:induction false} DedupIsLastUse(log: Log, id: Bytes)
    requires Numbered(log) && id != []
    ensures id in Replay(log).dedup <==> Used(log, id) > 0
    ensures Used(log, id) > 0 ==> Replay(log).dedup[id] == Outcome(Used(log, id), Used(log, id), false)
  {
    if log != [] {
      DedupIsLastUse(log[..|log| - 1], id);
    }
  }

  /** Searching from the end finds the unique such number. */
  lemma LastIs(log: Log, key: Bytes, n: nat)
    requires n <= |log|
    requires n > 0 ==> Touches(log[n - 1], key)
    requires forall i :: n <= i < |log| ==> !Touches(log[i], key)
    ensures Last(log, key) == n
  {
  }

  lemma UsedIs(log: Log, id: Bytes, n: nat)
    requires n <= |log|
    requires n > 0 ==> log[n - 1].idem == id
    requires forall i :: n <= i < |log| ==> log[i].idem != id
    ensures Used(log, id) == n
  {
  }
}
