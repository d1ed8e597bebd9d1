/** The RESP server: commands dispatched to the engine, and the plain map a session is indistinguishable from. */
module RespServer {
  import opened Options
  import opened ByteSeqs
  import opened History
  import opened Engine
  import opened Resp

  datatype ErrorKind =
    | WrongArgs(name: Bytes)
    | InvalidExpire
    | UnsupportedOption
    | UnknownCommand(name: Bytes)
    | EngineError

  datatype Answer = Pong | Stored | Value(data: Bytes) | Null | Integer(n: nat) | Failure(error: ErrorKind)

  /** Library functions the server calls; everything below holds whatever they compute. */
  datatype Env = Env(
    upper: Bytes -> Bytes,          // strings.ToUpper
    isEx: Bytes -> bool,            // strings.EqualFold with "EX"
    expiry: (int, int) -> int,      // absolute expiry of a TTL in seconds, given the clock reading
    text: ErrorKind -> Bytes,       // wording of an error reply
    disk: nat -> bool)              // whether the Append that assigns this position succeeds

  const PING: Bytes := [80, 73, 78, 71]

  const GET: Bytes := [71, 69, 84]

  const SET: Bytes := [83, 69, 84]

  const DEL: Bytes := [68, 69, 76]

  /** The bytes of a text; anything outside ASCII is a question mark. */
  function Ascii(s: string): (b: Bytes) {
    seq(|s|, i requires 0 <= i < |s| => if s[i] < 128 as char then s[i] as int else 63)
  }

  datatype Verb = Ping | Get | Set | Del | Other

  function VerbOf(env: Env, name: Bytes): (v: Verb) {
    var name := env.upper(name);
    if name == PING then Ping
    else if name == GET then Get
    else if name == SET then Set
    else if name == DEL then Del
    else Other
  }

  /** Names are compared after upper-casing, with these spellings. */
  lemma VerbIff(env: Env, name: Bytes)
    ensures VerbOf(env, name).Ping? <==> env.upper(name) == Ascii("PING")
    ensures VerbOf(env, name).Get? <==> env.upper(name) == Ascii("GET")
    ensures VerbOf(env, name).Set? <==> env.upper(name) == Ascii("SET")
    ensures VerbOf(env, name).Del? <==> env.upper(name) == Ascii("DEL")
  {
    assert PING == Ascii("PING") && GET == Ascii("GET") && SET == Ascii("SET") && DEL == Ascii("DEL");
    assert |PING| == 4 && GET[0] == 71 && SET[0] == 83 && DEL[0] == 68;
  }

  // ---------------------------------------------------------------- arguments of SET

  datatype SetArgs = SetTo(key: Bytes, value: Bytes, ttl: int) | BadSet(error: ErrorKind)

  function ParseSet(env: Env, args: seq<Bytes>): (r: SetArgs) {
    if |args| < 2 then BadSet(WrongArgs(SET))
    else if |args| >= 4 && env.isEx(args[2]) then
      match Atoi(args[3])
      case None => BadSet(InvalidExpire)
      case Some(n) => if n <= 0 then BadSet(InvalidExpire) else SetTo(args[0], args[1], n)
    else if |args| > 2 then BadSet(UnsupportedOption)
    else SetTo(args[0], args[1], 0)
  }

  function ExpiryOf(env: Env, now: int, ttl: int): (e: int) {
    if ttl > 0 then env.expiry(now, ttl) else 0
  }

  // ---------------------------------------------------------------- on the engine

  /** One write through the engine. */
  function Wrote(env: Env, d: Db, op: Op, now: int): (r: (Db, Reply)) {
    Exec(d, op, now, env.disk(|d.log| + 1))
  }

  /** The loop of DEL from its count `n` on. */
  function Deleted(env: Env, d: Db, keys: seq<Bytes>, now: int, n: nat): (r: (Db, Answer))
    decreases |keys|
  {
    if keys == [] then (d, Integer(n))
    else if Lookup(d.cache.index, keys[0], now).Missing? then Deleted(env, d, keys[1..], now, n)
    else
      var (d2, reply) := Wrote(env, d, Delete(keys[0], []), now);
      if reply.Done? then Deleted(env, d2, keys[1..], now, n + 1) else (d2, Failure(EngineError))
  }

  function Dispatched(env: Env, d: Db, now: int, cmd: Command): (r: (Db, Answer)) {
    match VerbOf(env, cmd.name)
    case Ping => (d, Pong)
    case Get =>
      if |cmd.args| != 1 then (d, Failure(WrongArgs(GET)))
      else
        (match Lookup(d.cache.index, cmd.args[0], now)
         case Missing => (d, Null)
         case Found(value, _) => (d, Value(value)))
    case Set =>
      (match ParseSet(env, cmd.args)
       case BadSet(e) => (d, Failure(e))
       case SetTo(key, value, ttl) =>
         var (d2, reply) := Wrote(env, d, Put(key, value, ExpiryOf(env, now, ttl), []), now);
         (d2, if reply.Done? then Stored else Failure(EngineError)))
    case Del =>
      if |cmd.args| < 1 then (d, Failure(WrongArgs(DEL)))
      else Deleted(env, d, cmd.args, now, 0)
    case Other => (d, Failure(UnknownCommand(cmd.name)))
  }

  // ---------------------------------------------------------------- on a plain map

  type Plain = map<Bytes, Bytes>

  function KeysOf(args: seq<Bytes>): (s: set<Bytes>) {
    set k | k in args
  }

  function Without(m: Plain, keys: seq<Bytes>): (m2: Plain) {
    m - KeysOf(keys)
  }

  /** How many keys of the map are named, each counted once. */
  function Named(m: Plain, keys: seq<Bytes>): (n: nat) {
    |KeysOf(keys) * m.Keys|
  }

  /** The same commands on a map from keys to values. A TTL that is over already leaves the key absent. */
  function Plainly(env: Env, m: Plain, now: int, cmd: Command): (r: (Plain, Answer)) {
    match VerbOf(env, cmd.name)
    case Ping => (m, Pong)
    case Get =>
      if |cmd.args| != 1 then (m, Failure(WrongArgs(GET)))
      else (m, if cmd.args[0] in m then Value(m[cmd.args[0]]) else Null)
    case Set =>
      (match ParseSet(env, cmd.args)
       case BadSet(e) => (m, Failure(e))
       case SetTo(key, value, ttl) =>
         var e := ExpiryOf(env, now, ttl);
         (if 0 < e < now then m - {key} else m[key := value], Stored))
    case Del =>
      if |cmd.args| < 1 then (m, Failure(WrongArgs(DEL)))
      else (Without(m, cmd.args), Integer(Named(m, cmd.args)))
    case Other => (m, Failure(UnknownCommand(cmd.name)))
  }

  /** How many records the command has to write. */
  function Writes(env: Env, m: Plain, cmd: Command): (n: nat) {
    match VerbOf(env, cmd.name)
    case Set => if ParseSet(env, cmd.args).SetTo? then 1 else 0
    case Del => Named(m, cmd.args)
    case _ => 0
  }

  /** Every Append that assigns one of the `n` positions after `pos` succeeds. */
  ghost predicate DiskWorks(env: Env, pos: nat, n: nat) {
    forall p :: pos < p <= pos + n ==> env.disk(p)
  }

  lemma DiskSplits(env: Env, pos: nat, n: nat, n2: nat)
    ensures DiskWorks(env, pos, n + n2) <==> DiskWorks(env, pos, n) && DiskWorks(env, pos + n, n2)
  {
  }

  lemma DiskOfFew(env: Env, pos: nat)
    ensures DiskWorks(env, pos, 0) && (DiskWorks(env, pos, 1) <==> env.disk(pos + 1))
  {
  }

  /** What the index shows at time `now`. */
  function View(index: map<Bytes, Entry>, now: int): (m: Plain) {
    map key | key in index && !Expired(index[key], now) :: index[key].value
  }

  lemma PutView(d: Db, key: Bytes, value: Bytes, expires: int, now: int)
    ensures var d2 := Exec(d, Put(key, value, expires, []), now, true).0;
            var m := View(d.cache.index, now);
            View(d2.cache.index, now) == if 0 < expires < now then m - {key} else m[key := value]
  {
  }

  lemma DeleteView(d: Db, key: Bytes, now: int)
    ensures var d2 := Exec(d, Delete(key, []), now, true).0;
            View(d2.cache.index, now) == View(d.cache.index, now) - {key}
  {
  }

  /** A write without an idempotency key and without a condition takes one position, and a failed one changes no cache. */
  lemma WroteOne(env: Env, d: Db, op: Op, now: int)
    requires op.idem == [] && !op.Cas?
    ensures var (d2, reply) := Wrote(env, d, op, now);
            && |d2.log| == |d.log| + 1 && (reply.Done? <==> env.disk(|d.log| + 1))
            && (!reply.Done? ==> d2.cache == d.cache)
  {
  }

  lemma NoneNamed(m: Plain)
    ensures Without(m, []) == m && Named(m, []) == 0
  {
    assert KeysOf([]) * m.Keys == {};
  }

  lemma AbsentNamed(m: Plain, keys: seq<Bytes>)
    requires keys != [] && keys[0] !in m
    ensures Without(m, keys) == Without(m, keys[1..]) && Named(m, keys) == Named(m, keys[1..])
  {
    assert KeysOf(keys) == {keys[0]} + KeysOf(keys[1..]);
    assert KeysOf(keys) * m.Keys == KeysOf(keys[1..]) * m.Keys;
  }

  lemma PresentNamed(m: Plain, keys: seq<Bytes>)
    requires keys != [] && keys[0] in m
    ensures var m2 := m - {keys[0]}; Without(m, keys) == Without(m2, keys[1..]) && Named(m, keys) == 1 + Named(m2, keys[1..])
  {
    var m2 := m - {keys[0]};
    assert KeysOf(keys) == {keys[0]} + KeysOf(keys[1..]);
    assert KeysOf(keys) * m.Keys == {keys[0]} + KeysOf(keys[1..]) * m2.Keys;
  }

  /** DEL removes all its keys and counts the live ones once each, however often they are named. */
  lemma {:induction false} DeletedView(env: Env, d: Db, keys: seq<Bytes>, now: int, n: nat)
    requires DiskWorks(env, |d.log|, Named(View(d.cache.index, now), keys))
    ensures var m := View(d.cache.index, now);
            var (d2, answer) := Deleted(env, d, keys, now, n);
            && View(d2.cache.index, now) == Without(m, keys)
            && answer == Integer(n + Named(m, keys)) && |d2.log| == |d.log| + Named(m, keys)
    decreases |keys|
  {
    hide View, Exec, Lookup, Without, Named, DiskWorks, Wrote;
    var m := View(d.cache.index, now);
    if keys == [] {
      NoneNamed(m);
    } else {
      LookupView(d.cache.index, keys[0], now);
      if keys[0] !in m {
        AbsentNamed(m, keys);
        DeletedView(env, d, keys[1..], now, n);
      } else {
        PresentNamed(m, keys);
        DiskOfFew(env, |d.log|);
        DiskSplits(env, |d.log|, 1, Named(m - {keys[0]}, keys[1..]));
        WroteOne(env, d, Delete(keys[0], []), now);
        WroteDelete(env, d, keys[0], now);
        DeletedView(env, Wrote(env, d, Delete(keys[0], []), now).0, keys[1..], now, n + 1);
      }
    }
  }

  lemma WroteDelete(env: Env, d: Db, key: Bytes, now: int)
    requires env.disk(|d.log| + 1)
    ensures View(Wrote(env, d, Delete(key, []), now).0.cache.index, now) == View(d.cache.index, now) - {key}
  {
    DeleteView(d, key, now);
  }

  /** A live key that is named reads as missing at all times afterwards; a key that is not named reads as before. */
  lemma {:induction false} DeletedForGood(env: Env, d: Db, keys: seq<Bytes>, now: int, n: nat, key: Bytes, t: int)
    requires DiskWorks(env, |d.log|, Named(View(d.cache.index, now), keys))
    ensures var read := Lookup(Deleted(env, d, keys, now, n).0.cache.index, key, t);
            && (key in keys && key in View(d.cache.index, now) ==> read == Missing)
            && (key !in keys ==> read == Lookup(d.cache.index, key, t))
    decreases |keys|
  {
    hide View, Exec, Lookup, Without, Named, DiskWorks;
    var m := View(d.cache.index, now);
    if keys != [] {
      assert key in keys <==> key == keys[0] || key in keys[1..];
      LookupView(d.cache.index, keys[0], now);
      if keys[0] !in m {
        AbsentNamed(m, keys);
        DeletedForGood(env, d, keys[1..], now, n, key, t);
      } else {
        var op := Delete(keys[0], []);
        var d1 := Wrote(env, d, op, now).0;
        PresentNamed(m, keys);
        DiskOfFew(env, |d.log|);
        DiskSplits(env, |d.log|, 1, Named(m - {keys[0]}, keys[1..]));
        WroteOne(env, d, op, now);
        WroteDelete(env, d, keys[0], now);
        CommitIsRead(d, op, now, t);
        CommitIsRead(d, op, now, now);
        if key != keys[0] {
          CommitSparesOthers(d, op, now, key, t, [0]);
        }
        DeletedForGood(env, d1, keys[1..], now, n + 1, key, t);
        if key == keys[0] && key in keys[1..] {
          StaysMissing(env, d1, keys[1..], now, n + 1, key, t);
        }
      }
    }
  }

  /** A key that is not live is left alone. */
  lemma {:induction false} StaysMissing(env: Env, d: Db, keys: seq<Bytes>, now: int, n: nat, key: Bytes, t: int)
    requires key !in View(d.cache.index, now) && Lookup(d.cache.index, key, t) == Missing
    ensures Lookup(Deleted(env, d, keys, now, n).0.cache.index, key, t) == Missing
    decreases |keys|
  {
    hide View, Exec, Lookup;
    if keys != [] {
      LookupView(d.cache.index, keys[0], now);
      if Lookup(d.cache.index, keys[0], now).Missing? {
        StaysMissing(env, d, keys[1..], now, n, key, t);
      } else {
        var op := Delete(keys[0], []);
        var d1 := Wrote(env, d, op, now).0;
        WroteOne(env, d, op, now);
        if env.disk(|d.log| + 1) {
          WroteDelete(env, d, keys[0], now);
          CommitSparesOthers(d, op, now, key, t, [0]);
          StaysMissing(env, d1, keys[1..], now, n + 1, key, t);
        }
      }
    }
  }

  /** DEL met its first failing Append at the i-th key: the keys before it are gone, it is still there. */
  ghost predicate StoppedAt(env: Env, m: Plain, pos: nat, keys: seq<Bytes>, i: nat, m2: Plain, pos2: nat) {
    && i < |keys| && m2 == Without(m, keys[..i]) && keys[i] in m2
    && pos < pos2 && !env.disk(pos2) && DiskWorks(env, pos, pos2 - pos - 1)
  }

  lemma StoppedLater(env: Env, m: Plain, pos: nat, m1: Plain, pos1: nat, keys: seq<Bytes>, i: nat, m2: Plain, pos2: nat)
    requires keys != [] && StoppedAt(env, m1, pos1, keys[1..], i, m2, pos2)
    requires (keys[0] !in m && m1 == m && pos1 == pos) || (keys[0] in m && m1 == m - {keys[0]} && pos1 == pos + 1 && env.disk(pos1))
    ensures StoppedAt(env, m, pos, keys, i + 1, m2, pos2)
  {
    hide Named;
    assert keys[..i + 1][1..] == keys[1..][..i];
    if keys[0] in m {
      PresentNamed(m, keys[..i + 1]);
    } else {
      AbsentNamed(m, keys[..i + 1]);
    }
  }

  /**
   * If one of the Appends fails, DEL answers with the error and stops at the key of that Append; the failing position is
   * the last one assigned.
   */
  lemma {:induction false} DeletedFails(env: Env, d: Db, keys: seq<Bytes>, now: int, n: nat) returns (i: nat)
    requires !DiskWorks(env, |d.log|, Named(View(d.cache.index, now), keys))
    ensures var (d2, answer) := Deleted(env, d, keys, now, n);
            && answer == Failure(EngineError)
            && StoppedAt(env, View(d.cache.index, now), |d.log|, keys, i, View(d2.cache.index, now), |d2.log|)
    decreases |keys|
  {
    hide View, Exec, Lookup, Without, Named, DiskWorks, Wrote, StoppedAt;
    var m := View(d.cache.index, now);
    var d2 := Deleted(env, d, keys, now, n).0;
    var m2 := View(d2.cache.index, now);
    NoneNamed(m);
    DiskOfFew(env, |d.log|);
    LookupView(d.cache.index, keys[0], now);
    if keys[0] !in m {
      AbsentNamed(m, keys);
      i := DeletedFails(env, d, keys[1..], now, n);
      StoppedLater(env, m, |d.log|, m, |d.log|, keys, i, m2, |d2.log|);
      i := i + 1;
    } else {
      PresentNamed(m, keys);
      WroteOne(env, d, Delete(keys[0], []), now);
      if env.disk(|d.log| + 1) {
        WroteDelete(env, d, keys[0], now);
        DiskSplits(env, |d.log|, 1, Named(m - {keys[0]}, keys[1..]));
        i := DeletedFails(env, Wrote(env, d, Delete(keys[0], []), now).0, keys[1..], now, n + 1);
        StoppedLater(env, m, |d.log|, m - {keys[0]}, |d.log| + 1, keys, i, m2, |d2.log|);
        i := i + 1;
      } else {
        i := 0;
        StoppedNow(env, m, |d.log|, keys);
      }
    }
  }

  lemma StoppedNow(env: Env, m: Plain, pos: nat, keys: seq<Bytes>)
    requires keys != [] && keys[0] in m && !env.disk(pos + 1)
    ensures StoppedAt(env, m, pos, keys, 0, m, pos + 1)
  {
    NoneNamed(m);
    assert keys[..0] == [];
  }

  lemma LookupView(index: map<Bytes, Entry>, key: Bytes, now: int)
    ensures key in View(index, now) <==> Lookup(index, key, now).Found?
    ensures key in View(index, now) ==> Lookup(index, key, now).value == View(index, now)[key]
  {
  }

  /** The engine answers and moves as the plain map does, and writes as many records as that takes. */
  ghost predicate Tracks(env: Env, d: Db, now: int, cmd: Command) {
    var m := View(d.cache.index, now);
    var (d2, answer) := Dispatched(env, d, now, cmd);
    Plainly(env, m, now, cmd) == (View(d2.cache.index, now), answer) && |d2.log| == |d.log| + Writes(env, m, cmd)
  }

  lemma GetIsPlain(env: Env, d: Db, now: int, cmd: Command)
    requires VerbOf(env, cmd.name).Get?
    ensures Tracks(env, d, now, cmd)
  {
    hide VerbOf, View, Lookup;
    if |cmd.args| == 1 {
      LookupView(d.cache.index, cmd.args[0], now);
    }
  }

  lemma SetIsPlain(env: Env, d: Db, now: int, cmd: Command)
    requires VerbOf(env, cmd.name).Set? && (ParseSet(env, cmd.args).SetTo? ==> env.disk(|d.log| + 1))
    ensures Tracks(env, d, now, cmd)
  {
    hide VerbOf, View, ParseSet, ExpiryOf, Wrote;
    var set_ := ParseSet(env, cmd.args);
    if set_.SetTo? {
      WrotePut(env, d, set_.key, set_.value, ExpiryOf(env, now, set_.ttl), now);
    }
  }

  lemma DelIsPlain(env: Env, d: Db, now: int, cmd: Command)
    requires VerbOf(env, cmd.name).Del? && DiskWorks(env, |d.log|, Named(View(d.cache.index, now), cmd.args))
    ensures Tracks(env, d, now, cmd)
  {
    hide VerbOf, View, Deleted, DiskWorks, Named, Without;
    NoneNamed(View(d.cache.index, now));
    if |cmd.args| > 0 {
      DeletedView(env, d, cmd.args, now, 0);
    }
  }

  /** The command stores the value under the key until the expiry; other keys are not concerned. */
  ghost predicate Stores(env: Env, d: Db, now: int, cmd: Command, key: Bytes, value: Bytes, expires: int) {
    var (d2, answer) := Dispatched(env, d, now, cmd);
    && answer == Stored
    && (forall t :: Lookup(d2.cache.index, key, t) == Live(value, expires, |d.log| + 1, t))
    && (forall k, t :: k != key ==> Lookup(d2.cache.index, k, t) == Lookup(d.cache.index, k, t))
  }

  lemma PutStores(env: Env, d: Db, now: int, cmd: Command, key: Bytes, value: Bytes, expires: int)
    requires env.disk(|d.log| + 1)
    requires Dispatched(env, d, now, cmd) == (Wrote(env, d, Put(key, value, expires, []), now).0, Stored)
    ensures Stores(env, d, now, cmd, key, value, expires)
  {
    hide Dispatched, Lookup, Exec, VerbOf;
    var op := Put(key, value, expires, []);
    var d2 := Wrote(env, d, op, now).0;
    forall t ensures Lookup(d2.cache.index, key, t) == Live(value, expires, |d.log| + 1, t) {
      CommitIsRead(d, op, now, t);
    }
    forall k, t | k != key ensures Lookup(d2.cache.index, k, t) == Lookup(d.cache.index, k, t) {
      CommitSparesOthers(d, op, now, k, t, [0]);
    }
  }

  /**
   * SET, argument by argument, on a disk that takes the record: two arguments store without an expiry; `EX` and a
   * positive number, whatever comes after them, store with that TTL; a number that is none or not positive, other
   * options and missing arguments are refused and change nothing.
   */
  lemma SetMeans(env: Env, d: Db, now: int, cmd: Command)
    requires VerbOf(env, cmd.name).Set? && env.disk(|d.log| + 1)
    ensures var args := cmd.args;
            var refused := (e: ErrorKind) => Dispatched(env, d, now, cmd) == (d, Failure(e));
            if |args| < 2 then refused(WrongArgs(SET))
            else if |args| == 2 then Stores(env, d, now, cmd, args[0], args[1], 0)
            else if |args| == 3 || !env.isEx(args[2]) then refused(UnsupportedOption)
            else if exists n :: 0 < n < TWO_63 && Spells(args[3], n) then
              exists n :: 0 < n < TWO_63 && Spells(args[3], n) && Stores(env, d, now, cmd, args[0], args[1], env.expiry(now, n))
            else refused(InvalidExpire)
  {
    hide Spells, Atoi, Stores, VerbOf;
    var args := cmd.args;
    if |args| == 2 {
      WroteOne(env, d, Put(args[0], args[1], 0, []), now);
      PutStores(env, d, now, cmd, args[0], args[1], 0);
    } else if |args| >= 4 && env.isEx(args[2]) {
      match Atoi(args[3])
      case None =>
        forall n | 0 < n < TWO_63 ensures !Spells(args[3], n) {
          AtoiIff(args[3], n);
        }
      case Some(m) =>
        AtoiIff(args[3], m);
        forall n | 0 < n < TWO_63 && Spells(args[3], n) ensures n == m {
          AtoiIff(args[3], n);
        }
        if m > 0 {
          WroteOne(env, d, Put(args[0], args[1], env.expiry(now, m), []), now);
          PutStores(env, d, now, cmd, args[0], args[1], env.expiry(now, m));
        }
    }
  }

  /** The same on the plain map. */
  lemma PlainSetMeans(env: Env, m: Plain, now: int, cmd: Command)
    requires VerbOf(env, cmd.name).Set?
    ensures var args, r := cmd.args, Plainly(env, m, now, cmd);
            if |args| < 2 then r == (m, Failure(WrongArgs(SET)))
            else if |args| == 2 then r == (m[args[0] := args[1]], Stored)
            else if |args| == 3 || !env.isEx(args[2]) then r == (m, Failure(UnsupportedOption))
            else if exists n :: 0 < n < TWO_63 && Spells(args[3], n) then
              exists n :: 0 < n < TWO_63 && Spells(args[3], n)
                          && r == (if 0 < env.expiry(now, n) < now then m - {args[0]} else m[args[0] := args[1]], Stored)
            else r == (m, Failure(InvalidExpire))
  {
    hide Spells, Atoi, VerbOf;
    var args := cmd.args;
    if |args| >= 4 && env.isEx(args[2]) {
      match Atoi(args[3])
      case None =>
        forall n | 0 < n < TWO_63 ensures !Spells(args[3], n) {
          AtoiIff(args[3], n);
        }
      case Some(m) =>
        AtoiIff(args[3], m);
        forall n | 0 < n < TWO_63 && Spells(args[3], n) ensures n == m {
          AtoiIff(args[3], n);
        }
    }
  }

  /** One command: with a disk that works the engine answers and moves as the plain map does. */
  lemma DispatchIsPlain(env: Env, d: Db, now: int, cmd: Command)
    requires DiskWorks(env, |d.log|, Writes(env, View(d.cache.index, now), cmd))
    ensures Tracks(env, d, now, cmd)
  {
    hide VerbOf, View, Deleted, ParseSet, DiskWorks, Named, Without, Lookup, Wrote, ExpiryOf;
    match VerbOf(env, cmd.name)
    case Get => GetIsPlain(env, d, now, cmd);
    case Set =>
      DiskOfFew(env, |d.log|);
      SetIsPlain(env, d, now, cmd);
    case Del => DelIsPlain(env, d, now, cmd);
    case _ =>
  }

  lemma WrotePut(env: Env, d: Db, key: Bytes, value: Bytes, expires: int, now: int)
    requires env.disk(|d.log| + 1)
    ensures var (d2, reply) := Wrote(env, d, Put(key, value, expires, []), now);
            var m := View(d.cache.index, now);
            && reply.Done? && |d2.log| == |d.log| + 1
            && View(d2.cache.index, now) == if 0 < expires < now then m - {key} else m[key := value]
  {
    hide View;
    PutView(d, key, value, expires, now);
  }

  /** With a disk that fails one of its Appends, a command answers with the engine's error; SET stores nothing, DEL stops. */
  lemma DispatchFails(env: Env, d: Db, now: int, cmd: Command)
    requires !DiskWorks(env, |d.log|, Writes(env, View(d.cache.index, now), cmd))
    ensures var m := View(d.cache.index, now);
            var (d2, answer) := Dispatched(env, d, now, cmd);
            var m2 := View(d2.cache.index, now);
            && answer == Failure(EngineError)
            && (VerbOf(env, cmd.name).Set? ==> m2 == m && |d2.log| == |d.log| + 1)
            && (VerbOf(env, cmd.name).Del? ==> exists i: nat :: StoppedAt(env, m, |d.log|, cmd.args, i, m2, |d2.log|))
  {
    hide VerbOf, View, Exec, Deleted, Lookup, ParseSet, ExpiryOf, DiskWorks, Named, Without, Wrote, StoppedAt;
    DiskOfFew(env, |d.log|);
    NoneNamed(View(d.cache.index, now));
    if VerbOf(env, cmd.name).Set? {
      var set_ := ParseSet(env, cmd.args);
      WroteOne(env, d, Put(set_.key, set_.value, ExpiryOf(env, now, set_.ttl), []), now);
    } else {
      var i := DeletedFails(env, d, cmd.args, now, 0);
    }
  }

  // ---------------------------------------------------------------- sessions

  function Served(env: Env, d: Db, now: int, cmds: seq<Command>): (r: (Db, seq<Answer>))
    decreases |cmds|
  {
    if cmds == [] then (d, [])
    else
      var (d1, answer) := Dispatched(env, d, now, cmds[0]);
      var (d2, rest) := Served(env, d1, now, cmds[1..]);
      (d2, [answer] + rest)
  }

  function PlainServed(env: Env, m: Plain, now: int, cmds: seq<Command>): (r: (Plain, seq<Answer>))
    decreases |cmds|
  {
    if cmds == [] then (m, [])
    else
      var (m1, answer) := Plainly(env, m, now, cmds[0]);
      var (m2, rest) := PlainServed(env, m1, now, cmds[1..]);
      (m2, [answer] + rest)
  }

  /** How many records a session has to write. */
  function SessionWrites(env: Env, m: Plain, now: int, cmds: seq<Command>): (n: nat)
    decreases |cmds|
  {
    if cmds == [] then 0
    else Writes(env, m, cmds[0]) + SessionWrites(env, Plainly(env, m, now, cmds[0]).0, now, cmds[1..])
  }

  lemma PlainNeverFails(env: Env, m: Plain, now: int, cmd: Command)
    ensures Plainly(env, m, now, cmd).1 != Failure(EngineError)
  {
    hide VerbOf, Named, Without, ExpiryOf;
  }

  /**
   * A whole session under a fixed clock, with no other writer, gives the answers the plain map would if and only if the
   * disk takes every record the plain session would have to write; and then the engine shows the plain map.
   */
  lemma {:induction false} SessionIsPlainIff(env: Env, d: Db, now: int, cmds: seq<Command>)
    ensures var m := View(d.cache.index, now);
            var (d2, answers) := Served(env, d, now, cmds);
            var (m2, plain) := PlainServed(env, m, now, cmds);
            var works := DiskWorks(env, |d.log|, SessionWrites(env, m, now, cmds));
            (answers == plain <==> works) && (works ==> View(d2.cache.index, now) == m2)
    decreases |cmds|
  {
    hide View, Dispatched, Plainly, Writes, DiskWorks;
    if cmds == [] {
      DiskOfFew(env, |d.log|);
    } else {
      var m := View(d.cache.index, now);
      var d1 := Dispatched(env, d, now, cmds[0]).0;
      var m1 := Plainly(env, m, now, cmds[0]).0;
      DiskSplits(env, |d.log|, Writes(env, m, cmds[0]), SessionWrites(env, m1, now, cmds[1..]));
      var answers, plain := Served(env, d, now, cmds).1, PlainServed(env, m, now, cmds).1;
      if DiskWorks(env, |d.log|, Writes(env, m, cmds[0])) {
        DispatchIsPlain(env, d, now, cmds[0]);
        SessionIsPlainIff(env, d1, now, cmds[1..]);
        assert answers == plain <==> answers[1..] == plain[1..];
      } else {
        DispatchFails(env, d, now, cmds[0]);
        PlainNeverFails(env, m, now, cmds[0]);
        assert answers[0] != plain[0];
      }
    }
  }

  /** A session is served command by command. */
  lemma {:induction false} ServedSplits(env: Env, d: Db, now: int, first: seq<Command>, more: seq<Command>)
    ensures var (d1, a) := Served(env, d, now, first);
            var (d2, b) := Served(env, d1, now, more);
            Served(env, d, now, first + more) == (d2, a + b) && |a| == |first|
    decreases |first|
  {
    hide Dispatched;
    if first == [] {
      assert first + more == more && [] + Served(env, d, now, more).1 == Served(env, d, now, more).1;
    } else {
      assert (first + more)[1..] == first[1..] + more;
      var (d1, answer) := Dispatched(env, d, now, first[0]);
      ServedSplits(env, d1, now, first[1..], more);
      var (d2, a) := Served(env, d1, now, first[1..]);
      assert [answer] + (a + Served(env, d2, now, more).1) == [answer] + a + Served(env, d2, now, more).1;
    }
  }

  function Render(env: Env, a: Answer): (b: Bytes) {
    match a
    case Pong => [PLUS, 80, 79, 78, 71] + CRLF
    case Stored => [PLUS, 79, 75] + CRLF
    case Value(data) => BulkBytes(data)
    case Null => [DOLLAR, MINUS, 49] + CRLF
    case Integer(n) => [COLON] + Decimal(n) + CRLF
    case Failure(e) => [MINUS, 69, 82, 82, 32] + env.text(e) + CRLF
  }

  function RenderAll(env: Env, answers: seq<Answer>): (b: Bytes) {
    if answers == [] then [] else Render(env, answers[0]) + RenderAll(env, answers[1..])
  }

  // ---------------------------------------------------------------- the client's side

  /** What a client makes of a reply. */
  datatype Wire = Simple(text: Bytes) | ErrorText(text: Bytes) | Number(n: int) | Data(data: Bytes) | Nil

  datatype Reading = Answered(wire: Wire, rest: Bytes) | NoReply

  /** A reader of replies by the RESP2 rules. */
  function ReadReply(b: Bytes): (r: Reading) {
    match ReadLine(b)
    case NoLine => NoReply
    case Line(line, rest) =>
      if line == [] then NoReply
      else if line[0] == PLUS then Answered(Simple(line[1..]), rest)
      else if line[0] == MINUS then Answered(ErrorText(line[1..]), rest)
      else
        match Atoi(line[1..])
        case None => NoReply
        case Some(n) =>
          if line[0] == COLON then Answered(Number(n), rest)
          else if line[0] != DOLLAR then NoReply
          else if n == -1 then Answered(Nil, rest)
          else if 0 <= n && n + 2 <= |rest| then Answered(Data(rest[..n]), rest[n + 2..])
          else NoReply
  }

  function Meaning(env: Env, a: Answer): (w: Wire) {
    match a
    case Pong => Simple(Ascii("PONG"))
    case Stored => Simple(Ascii("OK"))
    case Value(data) => Data(data)
    case Null => Nil
    case Integer(n) => Number(n)
    case Failure(e) => ErrorText(Ascii("ERR ") + env.text(e))
  }

  /** No value and no count is longer than a signed 64-bit integer can say. */
  predicate Sizable(a: Answer) {
    (a.Value? ==> |a.data| < TWO_63) && (a.Integer? ==> a.n < TWO_63)
  }

  lemma LineReply(line: Bytes, rest: Bytes)
    requires line != [] && LF !in line && (line[0] == PLUS || line[0] == MINUS)
    ensures ReadReply(line + CRLF + rest) ==
            Answered(if line[0] == PLUS then Simple(line[1..]) else ErrorText(line[1..]), rest)
  {
    hide ReadLine;
    ReadOfLine(line, rest);
  }

  lemma HeaderReply(mark: Byte, n: nat, rest: Bytes)
    requires n < TWO_63 && (mark == COLON || mark == DOLLAR)
    ensures ReadLine(Header(mark, n) + rest) == Line([mark] + Decimal(n), rest)
    ensures mark == COLON ==> ReadReply(Header(mark, n) + rest) == Answered(Number(n), rest)
  {
    hide ReadLine, Atoi, Header, Decimal;
    ReadHeader(mark, n, rest);
  }

  lemma DataReply(data: Bytes, rest: Bytes)
    requires |data| < TWO_63
    ensures ReadReply(BulkBytes(data) + rest) == Answered(Data(data), rest)
  {
    hide ReadLine, Atoi, Header, Decimal;
    var tail := data + CRLF + rest;
    assert BulkBytes(data) + rest == Header(DOLLAR, |data|) + tail;
    ReadHeader(DOLLAR, |data|, tail);
    assert tail[..|data|] == data && tail[|data| + 2..] == rest;
  }

  lemma NilReply(rest: Bytes)
    ensures ReadReply([DOLLAR, MINUS, 49] + CRLF + rest) == Answered(Nil, rest)
  {
    hide ReadLine;
    var line: Bytes := [DOLLAR, MINUS, 49];
    ReadOfLine(line, rest);
    assert line[1..] == [MINUS, 49] && [MINUS, 49][1..] == [49] && [49][..0] == [];
    assert Digits([]) == Some(0) && Digits([49]) == Some(1);
  }

  /** An answer reads back as what it means, and the next one starts behind it, unless it is an error whose text has a line feed. */
  lemma AnswerReadsBackIff(env: Env, a: Answer, rest: Bytes)
    requires Sizable(a)
    ensures ReadReply(Render(env, a) + rest) == Answered(Meaning(env, a), rest) <==> !(a.Failure? && LF in env.text(a.error))
  {
    hide ReadReply, BulkBytes, Decimal, ReadLine;
    match a
    case Pong =>
      var line := [PLUS] + Ascii("PONG");
      assert line + CRLF == Render(env, a) && line[1..] == Ascii("PONG");
      LineReply(line, rest);
    case Stored =>
      var line := [PLUS] + Ascii("OK");
      assert line + CRLF == Render(env, a) && line[1..] == Ascii("OK");
      LineReply(line, rest);
    case Value(data) => DataReply(data, rest);
    case Null => NilReply(rest);
    case Integer(n) =>
      assert Render(env, a) == Header(COLON, n);
      HeaderReply(COLON, n, rest);
    case Failure(e) =>
      var line := [MINUS] + (Ascii("ERR ") + env.text(e));
      assert line + CRLF == Render(env, a) && line[1..] == Ascii("ERR ") + env.text(e);
      if LF in env.text(e) {
        CutReply(line, rest);
      } else {
        LineReply(line, rest);
      }
  }

  /** A line feed inside the line ends it early. */
  lemma CutReply(line: Bytes, rest: Bytes)
    requires line != [] && line[0] == MINUS && LF in line
    ensures ReadReply(line + CRLF + rest) != Answered(ErrorText(line[1..]), rest)
  {
    hide LineLength;
    var b := line + CRLF + rest;
    var n := LineLength(b);
    var i :| 0 <= i < |line| && line[i] == LF;
    assert b[i] == LF;
    assert n <= i;
    assert |TrimCr(b[..n])| <= n < |line|;
  }

  /** Different answers are different bytes; two errors differ as far as their texts do. */
  lemma AnswersDiffer(env: Env, a: Answer, b: Answer)
    requires Sizable(a) && Sizable(b) && Render(env, a) == Render(env, b)
    ensures a == b || (a.Failure? && b.Failure? && env.text(a.error) == env.text(b.error))
  {
    hide ReadReply, BulkBytes, Decimal;
    FirstByte(env, a);
    FirstByte(env, b);
    if a.Failure? {
      assert Render(env, a)[5..|Render(env, a)| - 2] == env.text(a.error);
      assert Render(env, b)[5..|Render(env, b)| - 2] == env.text(b.error);
    } else {
      AnswerReadsBackIff(env, a, []);
      AnswerReadsBackIff(env, b, []);
      MeaningsDiffer(env, a, b);
    }
  }

  lemma FirstByte(env: Env, a: Answer)
    ensures |Render(env, a)| > 0 && (Render(env, a)[0] == MINUS <==> a.Failure?)
  {
    hide Decimal;
  }

  lemma MeaningsDiffer(env: Env, a: Answer, b: Answer)
    requires !a.Failure? && !b.Failure? && Meaning(env, a) == Meaning(env, b)
    ensures a == b
  {
    assert |Ascii("PONG")| == 4 && |Ascii("OK")| == 2;
  }

  function ReadReplies(b: Bytes, n: nat): (ws: seq<Wire>)
    decreases n
  {
    if n == 0 then []
    else
      match ReadReply(b)
      case NoReply => []
      case Answered(w, rest) => [w] + ReadReplies(rest, n - 1)
  }

  /** The replies of a whole session come apart again at the client. */
  lemma {:induction false} TranscriptReadsBack(env: Env, answers: seq<Answer>)
    requires forall i :: 0 <= i < |answers| ==>
               Sizable(answers[i]) && !(answers[i].Failure? && LF in env.text(answers[i].error))
    ensures var ws := ReadReplies(RenderAll(env, answers), |answers|);
            |ws| == |answers| && forall i :: 0 <= i < |answers| ==> ws[i] == Meaning(env, answers[i])
    decreases |answers|
  {
    hide Render, ReadReply, Meaning;
    if answers != [] {
      AnswerReadsBackIff(env, answers[0], RenderAll(env, answers[1..]));
      TranscriptReadsBack(env, answers[1..]);
    }
  }

  lemma {:induction false} RenderSplits(env: Env, a: seq<Answer>, b: seq<Answer>)
    ensures RenderAll(env, a + b) == RenderAll(env, a) + RenderAll(env, b)
  {
    hide Render;
    if a == [] {
      assert a + b == b;
    } else {
      assert (a + b)[1..] == a[1..] + b;
      RenderSplits(env, a[1..], b);
    }
  }

  // ---------------------------------------------------------------- the server object

  /** All the bytes a session writes to a connection that takes them. */
  function Transcript(env: Env, d: Db, now: int, cmds: seq<Command>): (b: Bytes) {
    RenderAll(env, Served(env, d, now, cmds).1)
  }

  /** After `k` commands comes one more: its answer is rendered behind the others. */
  lemma TranscriptStep(env: Env, d: Db, now: int, cmds: seq<Command>, k: nat)
    requires k < |cmds|
    ensures var d1 := Served(env, d, now, cmds[..k]).0;
            var (d2, answer) := Dispatched(env, d1, now, cmds[k]);
            && Served(env, d, now, cmds[..k + 1]).0 == d2
            && Transcript(env, d, now, cmds[..k + 1]) == Transcript(env, d, now, cmds[..k]) + Render(env, answer)
            && Transcript(env, d, now, cmds[..k + 1]) <= Transcript(env, d, now, cmds)
  {
    hide Dispatched, Render;
    var (d1, answers) := Served(env, d, now, cmds[..k]);
    var (d2, answer) := Dispatched(env, d1, now, cmds[k]);
    assert cmds[..k + 1] == cmds[..k] + [cmds[k]] && cmds == cmds[..k + 1] + cmds[k + 1..];
    ServedSplits(env, d, now, cmds[..k], [cmds[k]]);
    assert [answer] + [] == [answer] && Served(env, d1, now, [cmds[k]]) == (d2, [answer]);
    RenderSplits(env, answers, [answer]);
    assert Render(env, answer) + [] == Render(env, answer);
    ServedSplits(env, d, now, cmds[..k + 1], cmds[k + 1..]);
    RenderSplits(env, answers + [answer], Served(env, d2, now, cmds[k + 1..]).1);
  }

  /** The server upper-cases names, and these are upper case already. */
  predicate KeepsUpper(env: Env) {
    && env.upper(Ascii("PING")) == Ascii("PING") && env.upper(Ascii("SET")) == Ascii("SET")
    && env.upper(Ascii("GET")) == Ascii("GET") && env.upper(Ascii("DEL")) == Ascii("DEL")
  }

  /** A client that pings, sets a key, gets it, deletes it naming it twice, and gets it again. */
  function Conversation(key: Bytes, value: Bytes): (cmds: seq<Command>) {
    [Command(Ascii("PING"), []), Command(Ascii("SET"), [key, value]), Command(Ascii("GET"), [key]),
     Command(Ascii("DEL"), [key, key]), Command(Ascii("GET"), [key])]
  }

  /** What that client gets. */
  function Replies(value: Bytes): (b: Bytes) {
    Ascii("+PONG\r\n") + (Ascii("+OK\r\n") + (BulkBytes(value) + (Ascii(":1\r\n") + Ascii("$-1\r\n"))))
  }

  lemma PlainConversation(env: Env, m: Plain, now: int, key: Bytes, value: Bytes)
    requires KeepsUpper(env)
    ensures PlainServed(env, m, now, Conversation(key, value)).1 == [Pong, Stored, Value(value), Integer(1), Null]
  {
    hide VerbOf, Plainly, Ascii, Without, Named;
    var cmds := Conversation(key, value);
    var m1 := m[key := value];
    var m2 := Without(m1, [key, key]);
    VerbIff(env, Ascii("PING"));
    VerbIff(env, Ascii("SET"));
    VerbIff(env, Ascii("GET"));
    VerbIff(env, Ascii("DEL"));
    assert Plainly(env, m, now, cmds[0]) == (m, Pong) by { PlainOther(env, m, now, cmds[0]); }
    assert Plainly(env, m, now, cmds[1]) == (m1, Stored) by { PlainSetMeans(env, m, now, cmds[1]); }
    assert Plainly(env, m1, now, cmds[2]) == (m1, Value(value)) by { PlainOther(env, m1, now, cmds[2]); }
    NamedTwice(m1, key);
    assert Plainly(env, m1, now, cmds[3]) == (m2, Integer(1)) by { PlainOther(env, m1, now, cmds[3]); }
    assert Plainly(env, m2, now, cmds[4]) == (m2, Null) by { PlainOther(env, m2, now, cmds[4]); }
    FiveServed(env, m, now, cmds, m, m1, m1, m2);
  }

  lemma NamedTwice(m: Plain, key: Bytes)
    requires key in m
    ensures Named(m, [key, key]) == 1 && key !in Without(m, [key, key])
  {
    assert KeysOf([key, key]) * m.Keys == {key};
  }

  /** PING, GET, DEL and everything else on the plain map. */
  lemma PlainOther(env: Env, m: Plain, now: int, cmd: Command)
    ensures var v, args, r := VerbOf(env, cmd.name), cmd.args, Plainly(env, m, now, cmd);
            && (v.Ping? ==> r == (m, Pong))
            && (v.Get? && |args| == 1 ==> r == (m, if args[0] in m then Value(m[args[0]]) else Null))
            && (v.Get? && |args| != 1 ==> r == (m, Failure(WrongArgs(GET))))
            && (v.Del? && |args| > 0 ==> r == (Without(m, args), Integer(Named(m, args))))
            && (v.Del? && |args| == 0 ==> r == (m, Failure(WrongArgs(DEL))))
            && (v.Other? ==> r == (m, Failure(UnknownCommand(cmd.name))))
  {
    hide VerbOf;
  }

  lemma FiveServed(env: Env, m: Plain, now: int, cmds: seq<Command>, m0: Plain, m1: Plain, m2: Plain, m3: Plain)
    requires |cmds| == 5
    requires Plainly(env, m, now, cmds[0]).0 == m0 && Plainly(env, m0, now, cmds[1]).0 == m1
    requires Plainly(env, m1, now, cmds[2]).0 == m2 && Plainly(env, m2, now, cmds[3]).0 == m3
    ensures PlainServed(env, m, now, cmds).1 ==
            [Plainly(env, m, now, cmds[0]).1, Plainly(env, m0, now, cmds[1]).1, Plainly(env, m1, now, cmds[2]).1,
             Plainly(env, m2, now, cmds[3]).1, Plainly(env, m3, now, cmds[4]).1]
  {
    hide Plainly;
    var c1, c2, c3, c4 := cmds[1..], cmds[2..], cmds[3..], cmds[4..];
    assert c1[1..] == c2 && c2[1..] == c3 && c3[1..] == c4 && c4[1..] == [];
    var m4 := Plainly(env, m3, now, cmds[4]).0;
    assert PlainServed(env, m4, now, []).1 == [];
    assert PlainServed(env, m3, now, c4).1 == [Plainly(env, m3, now, cmds[4]).1];
    assert PlainServed(env, m2, now, c3).1 == [Plainly(env, m2, now, cmds[3]).1] + PlainServed(env, m3, now, c4).1;
    assert PlainServed(env, m1, now, c2).1 == [Plainly(env, m1, now, cmds[2]).1] + PlainServed(env, m2, now, c3).1;
    assert PlainServed(env, m0, now, c1).1 == [Plainly(env, m0, now, cmds[1]).1] + PlainServed(env, m1, now, c2).1;
  }

  lemma ConversationFits(key: Bytes, value: Bytes)
    requires |key| < TWO_63 && |value| < TWO_63
    ensures var cmds := Conversation(key, value);
            forall i :: 0 <= i < |cmds| ==> Fits([cmds[i].name] + cmds[i].args)
  {
    assert |Ascii("PING")| == 4 && |Ascii("SET")| == 3 && |Ascii("GET")| == 3 && |Ascii("DEL")| == 3;
  }

  /** That client, byte for byte, on any engine whose disk takes the records: what it sends and what comes back. */
  lemma ConversationOnTheWire(env: Env, d: Db, now: int, key: Bytes, value: Bytes)
    requires KeepsUpper(env) && |key| < TWO_63 && |value| < TWO_63 && forall p :: p > |d.log| ==> env.disk(p)
    ensures var cmds := ReadAll(PipelineBytes(Conversation(key, value))).0;
            cmds == Conversation(key, value) && Transcript(env, d, now, cmds) == Replies(value)
  {
    hide PipelineBytes, ReadAll, Served, PlainServed, SessionWrites, Replies, Ascii, RenderAll;
    var cmds := Conversation(key, value);
    ConversationFits(key, value);
    PipelineRoundTrip(cmds);
    SessionIsPlainIff(env, d, now, cmds);
    PlainConversation(env, View(d.cache.index, now), now, key, value);
    FiveRendered(env, value);
  }

  lemma WordsRendered(env: Env)
    ensures Render(env, Pong) == Ascii("+PONG\r\n") && Render(env, Stored) == Ascii("+OK\r\n")
    ensures Render(env, Integer(1)) == Ascii(":1\r\n") && Render(env, Null) == Ascii("$-1\r\n")
  {
  }

  lemma FiveRendered(env: Env, value: Bytes)
    ensures RenderAll(env, [Pong, Stored, Value(value), Integer(1), Null]) == Replies(value)
  {
    hide BulkBytes, Ascii, Render;
    var a4 := [Null];
    var a3 := [Integer(1), Null];
    var a2 := [Value(value), Integer(1), Null];
    var a1 := [Stored, Value(value), Integer(1), Null];
    var a0 := [Pong, Stored, Value(value), Integer(1), Null];
    assert a4[1..] == [] && a3[1..] == a4 && a2[1..] == a3 && a1[1..] == a2 && a0[1..] == a1;
    RenderNone(env);
    WordsRendered(env);
    assert Render(env, Value(value)) == BulkBytes(value) by { ValueRendered(env, value); }
    var nil := Render(env, Null);
    assert nil + [] == nil;
    assert RenderAll(env, a4) == nil;
    assert RenderAll(env, a3) == Render(env, Integer(1)) + nil;
    assert RenderAll(env, a2) == Render(env, Value(value)) + RenderAll(env, a3);
  }

  lemma ValueRendered(env: Env, value: Bytes)
    ensures Render(env, Value(value)) == BulkBytes(value)
  {
  }

  class Server {
    const engine: KvEngine

    constructor (engine: KvEngine)
      ensures this.engine == engine
    {
      this.engine := engine;
    }

    method Dispatch(env: Env, cmd: Command, now: int) returns (answer: Answer)
      modifies engine
      ensures (engine.State(), answer) == Dispatched(env, old(engine.State()), now, cmd)
    {
      var name := env.upper(cmd.name);
      if name == PING {
        return Pong;
      }
      if name == GET {
        if |cmd.args| != 1 {
          return Failure(WrongArgs(GET));
        }
        var r := engine.Get(cmd.args[0], now);
        return if r.Found? then Value(r.value) else Null;
      }
      if name == SET {
        var set_ := ParseSet(env, cmd.args);
        if set_.BadSet? {
          return Failure(set_.error);
        }
        var reply := engine.ApplyPut(set_.key, set_.value, ExpiryOf(env, now, set_.ttl), [], now, env.disk(|engine.log| + 1));
        return if reply.Done? then Stored else Failure(EngineError);
      }
      if name == DEL {
        if |cmd.args| < 1 {
          return Failure(WrongArgs(DEL));
        }
        answer := DeleteAll(env, cmd.args, now);
        return;
      }
      return Failure(UnknownCommand(cmd.name));
    }

    method DeleteAll(env: Env, keys: seq<Bytes>, now: int) returns (answer: Answer)
      modifies engine
      ensures (engine.State(), answer) == Deleted(env, old(engine.State()), keys, now, 0)
    {
      hide Exec, Lookup, Consistent;
      var deleted := 0;
      for i := 0 to |keys|
        invariant deleted >= 0
        invariant Deleted(env, old(engine.State()), keys, now, 0) == Deleted(env, engine.State(), keys[i..], now, deleted)
      {
        assert keys[i..][0] == keys[i] && keys[i..][1..] == keys[i + 1..];
        var r := engine.Get(keys[i], now);
        if r.Missing? {
          continue;
        }
        var reply := engine.Remove(keys[i], [], now, env.disk(|engine.log| + 1));
        if !reply.Done? {
          return Failure(EngineError);
        }
        deleted := deleted + 1;
      }
      assert keys[|keys|..] == [];
      return Integer(deleted);
    }

    /**
     * `handleConn`: read, dispatch, reply, until the input ends or is malformed, or the connection takes no more; `room`
     * is how many bytes it takes. What is written is the transcript, cut there, and the engine has executed just the
     * `served` commands up to the first whose answer did not fit. If the disk works, these are the answers of a plain map.
     */
    method HandleConn(env: Env, input: Bytes, now: int, room: nat) returns (output: Bytes, served: nat)
      modifies engine
      ensures var d, cmds := old(engine.State()), ReadAll(input).0;
              var all := Transcript(env, d, now, cmds);
              && served <= |cmds| && engine.State() == Served(env, d, now, cmds[..served]).0
              && output == (if |all| <= room then all else all[..room])
              && (served < |cmds| ==> |Transcript(env, d, now, cmds[..served])| > room)
              && (served > 0 ==> |Transcript(env, d, now, cmds[..served - 1])| <= room)
      ensures var d, cmds := old(engine.State()), ReadAll(input).0;
              var m := View(d.cache.index, now);
              var (m2, plain) := PlainServed(env, m, now, cmds);
              DiskWorks(env, |d.log|, SessionWrites(env, m, now, cmds)) && |RenderAll(env, plain)| <= room ==>
                output == RenderAll(env, plain) && View(engine.State().cache.index, now) == m2
    {
      hide Dispatched, Plainly, View, Render, ReadCommand, RenderAll, Writes, DiskWorks, SessionWrites;
      ghost var d, cmds := engine.State(), ReadAll(input).0;
      SessionIsPlainIff(env, d, now, cmds);
      var r := new Reader(input);
      output, served := [], 0;
      assert cmds[..0] == [] && cmds[0..] == cmds;
      RenderNone(env);
      while true
        invariant fresh(r) && 0 <= served <= |cmds| && ReadAll(r.rest).0 == cmds[served..]
        invariant engine.State() == Served(env, d, now, cmds[..served]).0
        invariant output == Transcript(env, d, now, cmds[..served]) && |output| <= room
        invariant served > 0 ==> |Transcript(env, d, now, cmds[..served - 1])| <= room
        decreases |r.rest|
      {
        ghost var rest := ReadAll(r.rest).0;
        var got := r.NextCommand();
        if got.ParseError? {
          assert cmds[..served] == cmds;
          return;
        }
        assert rest[0] == got.cmd && rest[1..] == ReadAll(got.rest).0 && cmds[served + 1..] == rest[1..];
        TranscriptStep(env, d, now, cmds, served);
        var answer := Dispatch(env, got.cmd, now);
        var reply := Render(env, answer);
        served := served + 1;
        if |output| + |reply| > room {
          output := (output + reply)[..room];
          if served == |cmds| {
            assert cmds[..served] == cmds;
          }
          return;
        }
        output := output + reply;
      }
    }
  }

  lemma RenderNone(env: Env)
    ensures RenderAll(env, []) == []
  {
  }
}
