/** The log file: header, frames, the recovery scan with torn-tail truncation, and range reads by offset. */
module Recovery {
  import opened ByteSeqs
  import opened Codec

  /** Magic "UDWL" and format version 1. */
  const HEADER: Bytes := [0x55, 0x44, 0x57, 0x4C, 1]

  const HEADER_SIZE := 5

  type Log = seq<Record>

  // ---------------------------------------------------------------- the bytes of a log

  function LogBytes(crc: Checksum, log: Log): (b: Bytes) {
    if log == [] then [] else Frame(crc, log[0]) + LogBytes(crc, log[1..])
  }

  function FileBytes(crc: Checksum, log: Log): (b: Bytes) {
    HEADER + LogBytes(crc, log)
  }

  /** Where the first `n` records of `log` end in the file. */
  function End(crc: Checksum, log: Log, n: nat): (e: nat)
    requires n <= |log|
    ensures e >= HEADER_SIZE
  {
    HEADER_SIZE + |LogBytes(crc, log[..n])|
  }

  /** The offset index of a log whose first frame starts at `base`. */
  function OffsetsFrom(crc: Checksum, log: Log, base: nat): (o: seq<nat>)
    ensures |o| == |log|
  {
    if log == [] then [] else [base] + OffsetsFrom(crc, log[1..], base + |Frame(crc, log[0])|)
  }

  ghost predicate WellFormedFrom(log: Log, next: nat) {
    forall i :: 0 <= i < |log| ==> log[i].pos == next + i && Encodable(log[i])
  }

  /** Positions 1, 2, 3, ... and every record within the limits of the wire format. */
  ghost predicate WellFormed(log: Log) {
    WellFormedFrom(log, 1)
  }

  lemma {:induction false} LogBytesConcat(crc: Checksum, a: Log, b: Log)
    ensures LogBytes(crc, a + b) == LogBytes(crc, a) + LogBytes(crc, b)
  {
    hide Frame;
    if a == [] {
      assert a + b == b;
    } else {
      assert (a + b)[1..] == a[1..] + b;
      LogBytesConcat(crc, a[1..], b);
    }
  }

  lemma LogBytesSplit(crc: Checksum, log: Log, n: nat)
    requires n <= |log|
    ensures LogBytes(crc, log) == LogBytes(crc, log[..n]) + LogBytes(crc, log[n..])
  {
    assert log == log[..n] + log[n..];
    LogBytesConcat(crc, log[..n], log[n..]);
  }

  lemma LogBytesOne(crc: Checksum, r: Record)
    ensures LogBytes(crc, [r]) == Frame(crc, r)
  {
    hide Frame;
    assert [r][1..] == [];
    assert LogBytes(crc, []) == [];
  }

  /** Offsets grow with the number of records. */
  lemma EndMonotone(crc: Checksum, log: Log, m: nat, n: nat)
    requires m <= n <= |log|
    ensures End(crc, log, m) + 8 * (n - m) <= End(crc, log, n)
    decreases n - m
  {
    hide Frame;
    if m < n {
      EndMonotone(crc, log, m, n - 1);
      assert log[..n] == log[..n - 1] + [log[n - 1]];
      LogBytesConcat(crc, log[..n - 1], [log[n - 1]]);
      LogBytesOne(crc, log[n - 1]);
    }
  }

  /** Appending to the log moves no earlier boundary. */
  lemma EndStable(crc: Checksum, log: Log, more: Log, n: nat)
    requires n <= |log|
    ensures End(crc, log + more, n) == End(crc, log, n)
  {
    assert (log + more)[..n] == log[..n];
  }

  /** The offset index lists the record boundaries. */
  lemma {:induction false} OffsetsAt(crc: Checksum, log: Log, base: nat, i: nat)
    requires i < |log|
    ensures OffsetsFrom(crc, log, base)[i] == base + |LogBytes(crc, log[..i])|
  {
    hide Frame;
    if i > 0 {
      OffsetsAt(crc, log[1..], base + |Frame(crc, log[0])|, i - 1);
      assert log[..i] == [log[0]] + log[1..][..i - 1];
      assert log[..i][1..] == log[1..][..i - 1];
    }
  }

  /** Extending the index by the current end of the log, as `Append` does, gives the index of the longer log. */
  lemma {:induction false} OffsetsAppend(crc: Checksum, log: Log, base: nat, r: Record)
    ensures OffsetsFrom(crc, log + [r], base) == OffsetsFrom(crc, log, base) + [base + |LogBytes(crc, log)|]
  {
    hide Frame;
    if log != [] {
      assert (log + [r])[1..] == log[1..] + [r];
      OffsetsAppend(crc, log[1..], base + |Frame(crc, log[0])|, r);
    } else {
      assert log + [r] == [r];
      assert OffsetsFrom(crc, [r][1..], base + |Frame(crc, r)|) == [];
    }
  }

  // ---------------------------------------------------------------- how many records a byte prefix holds

  /** The number of records of `log` that lie completely within its first `k` bytes. */
  function Complete(crc: Checksum, log: Log, k: nat): (m: nat)
    ensures m <= |log|
  {
    if log == [] || |Frame(crc, log[0])| > k then 0
    else 1 + Complete(crc, log[1..], k - |Frame(crc, log[0])|)
  }

  /** `Complete` is the largest number of records whose bytes fit into `k`. */
  lemma {:induction false} CompleteIsLargest(crc: Checksum, log: Log, k: nat, n: nat)
    requires n <= |log|
    ensures n <= Complete(crc, log, k) <==> |LogBytes(crc, log[..n])| <= k
  {
    hide Frame;
    if n > 0 {
      assert log[..n][1..] == log[1..][..n - 1];
      if |Frame(crc, log[0])| <= k {
        CompleteIsLargest(crc, log[1..], k - |Frame(crc, log[0])|, n - 1);
      }
    }
  }

  lemma {:induction false} CompleteDrop(crc: Checksum, log: Log, k: nat, j: nat)
    requires j <= Complete(crc, log, k)
    ensures |LogBytes(crc, log[..j])| <= k
    ensures Complete(crc, log[j..], k - |LogBytes(crc, log[..j])|) == Complete(crc, log, k) - j
  {
    hide Frame;
    CompleteIsLargest(crc, log, k, j);
    if j > 0 {
      CompleteDrop(crc, log[1..], k - |Frame(crc, log[0])|, j - 1);
      assert log[j..] == log[1..][j - 1..];
      assert log[..j][1..] == log[1..][..j - 1];
    } else {
      assert log[0..] == log && log[..0] == [];
    }
  }

  // ---------------------------------------------------------------- recovery

  /** `pos` is where the reader stopped, `off` what the reported lengths add up to. */
  datatype Scan =
    | Scanned(recs: Log, offsets: seq<nat>, pos: nat, off: nat, torn: bool)
    | Damaged(at: nat)

  function Before(rec: Record, off: nat, s: Scan): (s2: Scan) {
    match s
    case Damaged(at) => Damaged(at)
    case Scanned(recs, offsets, pos, end, torn) => Scanned([rec] + recs, [off] + offsets, pos, end, torn)
  }

  /** `recover_`'s loop with the reader at `pos`, its own count of the bytes at `off`, expecting commit position `next`. */
  function ScanFrom(crc: Checksum, file: Bytes, pos: nat, off: nat, next: nat): (s: Scan)
    requires off <= pos <= |file|
    ensures s.Scanned? ==> pos <= s.pos <= |file| && off <= s.off <= s.pos && |s.recs| == |s.offsets|
    ensures s.Scanned? && !s.torn ==> s.pos == |file|
    decreases |file| - pos
  {
    match ReadRecord(crc, file[pos..])
    case Eof => Scanned([], [], pos, off, false)
    case Torn => Scanned([], [], pos, off, true)
    case Corrupt(_) => Damaged(off)
    case Got(rec, n, used) =>
      if rec.pos != next then Damaged(off)
      else Before(rec, off, ScanFrom(crc, file, pos + used, off + n, next + 1))
  }

  /** One turn of the loop. */
  lemma ScanStep(crc: Checksum, file: Bytes, pos: nat, off: nat, next: nat)
    requires off <= pos <= |file|
    ensures var got := ReadRecord(crc, file[pos..]);
            ScanFrom(crc, file, pos, off, next) ==
            if got.Eof? || got.Torn? then Scanned([], [], pos, off, got.Torn?)
            else if got.Corrupt? || got.rec.pos != next then Damaged(off)
            else Before(got.rec, off, ScanFrom(crc, file, pos + got.used, off + got.n, next + 1))
  {
    hide ReadRecord;
  }

  datatype OpenResult =
    | Opened(recs: Log, offsets: seq<nat>, file: Bytes)
    | HeaderTooShort
    | BadMagic
    | UnsupportedVersion
    | CorruptAt(at: nat)

  /** `Open`: check or create the header, scan, truncate a torn tail. */
  function OpenFile(crc: Checksum, file: Bytes): (r: OpenResult) {
    if file == [] then Opened([], [], HEADER)
    else if |file| < HEADER_SIZE then HeaderTooShort
    else if file[..4] != HEADER[..4] then BadMagic
    else if file[4] != HEADER[4] then UnsupportedVersion
    else
      match ScanFrom(crc, file, HEADER_SIZE, HEADER_SIZE, 1)
      case Damaged(at) => CorruptAt(at)
      case Scanned(recs, offsets, _, off, torn) => Opened(recs, offsets, if torn then file[..off] else file)
  }

  function Behind(recs: Log, offsets: seq<nat>, s: Scan): (s2: Scan) {
    match s
    case Damaged(at) => Damaged(at)
    case Scanned(rs, os, pos, off, torn) => Scanned(recs + rs, offsets + os, pos, off, torn)
  }

  lemma BehindBefore(recs: Log, offsets: seq<nat>, rec: Record, off: nat, s: Scan)
    ensures Behind(recs, offsets, Before(rec, off, s)) == Behind(recs + [rec], offsets + [off], s)
  {
    if s.Scanned? {
      assert recs + ([rec] + s.recs) == recs + [rec] + s.recs;
      assert offsets + ([off] + s.offsets) == offsets + [off] + s.offsets;
    }
  }

  /** `recover_` as the loop it is: the reader, a moving offset, the next position, and the offset index it collects. */
  method Recover(crc: Checksum, file: Bytes) returns (s: Scan)
    requires |file| >= HEADER_SIZE
    ensures s == ScanFrom(crc, file, HEADER_SIZE, HEADER_SIZE, 1)
  {
    hide ReadRecord, ScanFrom;
    var recs: Log := [];
    var byteOffsets: seq<nat> := [];
    var next := 1;
    var offset := HEADER_SIZE;
    var pos := HEADER_SIZE;
    var torn := false;
    while true
      invariant HEADER_SIZE <= offset <= pos <= |file| && !torn
      invariant ScanFrom(crc, file, HEADER_SIZE, HEADER_SIZE, 1) ==
                Behind(recs, byteOffsets, ScanFrom(crc, file, pos, offset, next))
      decreases |file| - pos
    {
      var got := ReadRecord(crc, file[pos..]);
      ScanStep(crc, file, pos, offset, next);
      if got.Eof? {
        break;
      }
      if got.Torn? {
        torn := true;
        break;
      }
      if got.Corrupt? || got.rec.pos != next {
        return Damaged(offset);
      }
      BehindBefore(recs, byteOffsets, got.rec, offset, ScanFrom(crc, file, pos + got.used, offset + got.n, next + 1));
      recs := recs + [got.rec];
      byteOffsets := byteOffsets + [offset];
      offset := offset + got.n;
      pos := pos + got.used;
      next := next + 1;
    }
    s := Scanned(recs, byteOffsets, pos, offset, torn);
  }

  /** Scanning any byte prefix of a well-formed log finds exactly the complete records. */
  lemma {:induction false} ScanOfPrefix(crc: Checksum, file: Bytes, off: nat, log: Log, k: nat, next: nat)
    requires WellFormedFrom(log, next) && k <= |LogBytes(crc, log)|
    requires off <= |file| && file[off..] == LogBytes(crc, log)[..k]
    ensures ScanFrom(crc, file, off, off, next) == ScanOf(crc, log, k, off)
    decreases |log|
  {
    hide Frame, ReadRecord, Encodable, ScanFrom, ScanOf;
    ScanStep(crc, file, off, off, next);
    if log == [] {
      ScanOfNone(crc, log, k, off);
    } else {
      var f := Frame(crc, log[0]);
      if |f| > k {
        ReadOfTornFrame(crc, log[0], k);
        assert LogBytes(crc, log)[..k] == f[..k];
        ScanOfNone(crc, log, k, off);
      } else {
        var rest := LogBytes(crc, log[1..])[..k - |f|];
        assert file[off..] == f + rest;
        ReadOfFrame(crc, log[0], rest);
        assert file[off + |f|..] == file[off..][|f|..] == rest;
        ScanOfPrefix(crc, file, off + |f|, log[1..], k - |f|, next + 1);
        ScanOfStep(crc, log, k, off);
      }
    }
  }

  /** What a scan of the first `k` bytes of `log` must find when they start at file offset `off`. */
  function ScanOf(crc: Checksum, log: Log, k: nat, off: nat): (s: Scan) {
    var kept := log[..Complete(crc, log, k)];
    var size := |LogBytes(crc, kept)|;
    Scanned(kept, OffsetsFrom(crc, kept, off), off + size, off + size, k > size)
  }

  lemma ScanOfNone(crc: Checksum, log: Log, k: nat, off: nat)
    requires log == [] || |Frame(crc, log[0])| > k
    ensures ScanOf(crc, log, k, off) == Scanned([], [], off, off, k > 0)
  {
    hide Frame;
    assert log[..0] == [];
  }

  lemma ScanOfStep(crc: Checksum, log: Log, k: nat, off: nat)
    requires log != [] && |Frame(crc, log[0])| <= k
    ensures var f := |Frame(crc, log[0])|;
            ScanOf(crc, log, k, off) == Before(log[0], off, ScanOf(crc, log[1..], k - f, off + f))
  {
    hide Frame;
    var m := Complete(crc, log, k);
    assert log[..m][1..] == log[1..][..m - 1];
    assert log[..m] == [log[0]] + log[1..][..m - 1];
  }

  /** The file cut at byte `keep`: its header and the records that survive the cut. */
  lemma PrefixOfFile(crc: Checksum, log: Log, keep: nat)
    requires HEADER_SIZE <= keep <= |FileBytes(crc, log)|
    ensures FileBytes(crc, log)[..keep][..HEADER_SIZE] == HEADER
    ensures FileBytes(crc, log)[..keep][HEADER_SIZE..] == LogBytes(crc, log)[..keep - HEADER_SIZE]
  {
    hide LogBytes;
  }

  /**
   * Recovery is exact on every torn tail: whatever byte prefix of a well-formed file survives (header included),
   * opening it succeeds with precisely the complete records, the file cut at their boundary, and their offset index.
   */
  lemma RecoveryIsExact(crc: Checksum, log: Log, keep: nat)
    requires WellFormed(log) && HEADER_SIZE <= keep <= |FileBytes(crc, log)|
    ensures var kept := log[..Complete(crc, log, keep - HEADER_SIZE)];
            OpenFile(crc, FileBytes(crc, log)[..keep]) ==
            Opened(kept, OffsetsFrom(crc, kept, HEADER_SIZE), FileBytes(crc, kept))
  {
    hide Frame, ReadRecord, Encodable, ScanFrom, Complete, OffsetsFrom, LogBytes;
    var file := FileBytes(crc, log)[..keep];
    var kept := log[..Complete(crc, log, keep - HEADER_SIZE)];
    PrefixOfFile(crc, log, keep);
    HeaderBytes(file);
    ScanOfPrefix(crc, file, HEADER_SIZE, log, keep - HEADER_SIZE, 1);
    CompleteIsLargest(crc, log, keep - HEADER_SIZE, |kept|);
    PrefixIsFile(crc, log, |kept|);
    assert file[..End(crc, log, |kept|)] == FileBytes(crc, log)[..End(crc, log, |kept|)];
  }

  lemma HeaderBytes(file: Bytes)
    requires |file| >= HEADER_SIZE
    ensures file[..HEADER_SIZE] == HEADER <==> file[..4] == HEADER[..4] && file[4] == HEADER[4]
  {
    assert file[..HEADER_SIZE] == file[..4] + [file[4]];
    assert HEADER == HEADER[..4] + [HEADER[4]];
    assert file[..HEADER_SIZE][..4] == file[..4];
    assert file[..HEADER_SIZE][4] == file[4];
  }

  /** Cutting the file at a record boundary gives the file of the shorter log. */
  lemma PrefixIsFile(crc: Checksum, log: Log, n: nat)
    requires n <= |log|
    ensures End(crc, log, n) <= |FileBytes(crc, log)|
    ensures FileBytes(crc, log)[..End(crc, log, n)] == FileBytes(crc, log[..n])
  {
    LogBytesSplit(crc, log, n);
  }

  /** Only a file cut inside its own header cannot be opened again. */
  lemma TornHeaderIffUnopenable(crc: Checksum, log: Log, keep: nat)
    requires WellFormed(log) && keep <= |FileBytes(crc, log)|
    ensures OpenFile(crc, FileBytes(crc, log)[..keep]).Opened? <==> keep == 0 || keep >= HEADER_SIZE
    ensures keep == 0 ==> OpenFile(crc, FileBytes(crc, log)[..keep]) == Opened([], [], FileBytes(crc, []))
    ensures 0 < keep < HEADER_SIZE ==> OpenFile(crc, FileBytes(crc, log)[..keep]) == HeaderTooShort
  {
    if keep >= HEADER_SIZE {
      RecoveryIsExact(crc, log, keep);
    }
  }

  // ---------------------------------------------------------------- damage behind intact records

  /** A scan reads the intact records and goes on behind them. */
  lemma {:induction false} ScanPastLog(crc: Checksum, file: Bytes, off: nat, log: Log, next: nat)
    requires WellFormedFrom(log, next) && off + |LogBytes(crc, log)| <= |file|
    requires file[off..off + |LogBytes(crc, log)|] == LogBytes(crc, log)
    ensures var end := off + |LogBytes(crc, log)|;
            ScanFrom(crc, file, off, off, next) ==
            Behind(log, OffsetsFrom(crc, log, off), ScanFrom(crc, file, end, end, next + |log|))
    decreases |log|
  {
    hide Frame, ReadRecord, Encodable, ScanFrom, Behind, Before;
    if log == [] {
      BehindNothing(ScanFrom(crc, file, off, off, next));
    } else {
      var f, size := Frame(crc, log[0]), |LogBytes(crc, log)|;
      Parted(file, off, f, LogBytes(crc, log[1..]));
      ReadOfFrame(crc, log[0], file[off + |f|..]);
      ScanStep(crc, file, off, off, next);
      ScanPastLog(crc, file, off + |f|, log[1..], next + 1);
      var s := ScanFrom(crc, file, off + size, off + size, next + |log|);
      assert log == [log[0]] + log[1..];
      BehindFirst(log[0], off, log[1..], OffsetsFrom(crc, log[1..], off + |f|), s);
    }
  }

  lemma Parted(file: Bytes, off: nat, a: Bytes, b: Bytes)
    requires off + |a| + |b| <= |file| && file[off..off + |a| + |b|] == a + b
    ensures file[off..] == a + file[off + |a|..] && file[off + |a|..off + |a| + |b|] == b
  {
    var part := file[off..off + |a| + |b|];
    assert file[off..off + |a|] == part[..|a|];
    assert file[off + |a|..off + |a| + |b|] == part[|a|..];
    assert file[off..] == file[off..off + |a|] + file[off + |a|..];
  }

  lemma BehindNothing(s: Scan)
    ensures Behind([], [], s) == s
  {
    if s.Scanned? {
      assert [] + s.recs == s.recs && [] + s.offsets == s.offsets;
    }
  }

  lemma BehindFirst(rec: Record, off: nat, recs: Log, offsets: seq<nat>, s: Scan)
    ensures Before(rec, off, Behind(recs, offsets, s)) == Behind([rec] + recs, [off] + offsets, s)
  {
    if s.Scanned? {
      assert [rec] + (recs + s.recs) == [rec] + recs + s.recs;
      assert [off] + (offsets + s.offsets) == [off] + offsets + s.offsets;
    }
  }

  /** What stops a scan that expects position `next`: bytes that are no record, or a record out of sequence. */
  predicate Spoiled(crc: Checksum, rest: Bytes, next: nat) {
    var got := ReadRecord(crc, rest);
    got.Corrupt? || (got.Got? && got.rec.pos != next)
  }

  /** Spoiled bytes behind intact records are reported where those records end, and nothing is served. */
  lemma SpoiledIsReported(crc: Checksum, log: Log, rest: Bytes)
    requires WellFormed(log) && Spoiled(crc, rest, |log| + 1)
    ensures OpenFile(crc, FileBytes(crc, log) + rest) == CorruptAt(End(crc, log, |log|))
  {
    hide Frame, ReadRecord, Encodable, ScanFrom, LogBytes;
    var file := FileBytes(crc, log) + rest;
    var end := HEADER_SIZE + |LogBytes(crc, log)|;
    assert log[..|log|] == log;
    assert file[..HEADER_SIZE] == HEADER;
    HeaderBytes(file);
    assert file[HEADER_SIZE..end] == LogBytes(crc, log);
    assert file[end..] == rest;
    ScanPastLog(crc, file, HEADER_SIZE, log, 1);
    ScanStep(crc, file, end, end, |log| + 1);
  }

  /** The file of a log in which the payload of record `i` was overwritten. */
  function Altered(crc: Checksum, log: Log, i: nat, p: Bytes): (file: Bytes)
    requires i < |log|
  {
    FileBytes(crc, log[..i]) + Overwritten(crc, log[i], p) + LogBytes(crc, log[i + 1..])
  }

  /** It is as long as the file, and differs from it in that payload at most. */
  lemma AlteredDiffers(crc: Checksum, log: Log, i: nat, p: Bytes)
    requires i < |log| && |p| == |Payload(log[i])|
    ensures var file, file2, at := FileBytes(crc, log), Altered(crc, log, i, p), End(crc, log, i) + 8;
            && |file2| == |file| && at + |p| <= |file|
            && file2 == file[..at] + p + file[at + |p|..]
            && file[at..at + |p|] == Payload(log[i])
  {
    hide Payload, LogBytes, PutUint;
    var r := log[i];
    var head, tail := LogBytes(crc, log[..i]), LogBytes(crc, log[i + 1..]);
    var front := PutUint(|Body(crc, r)|, 4) + PutUint(crc(Payload(r)), 4);
    assert log[i..] == [r] + log[i + 1..];
    LogBytesSplit(crc, log, i);
    LogBytesConcat(crc, [r], log[i + 1..]);
    LogBytesOne(crc, r);
    assert FileBytes(crc, log) == HEADER + head + front + Payload(r) + tail;
    assert Altered(crc, log, i, p) == HEADER + head + front + p + tail;
  }

  /** A byte altered in any record's payload, if the checksum tells, keeps the log from being opened, and names the record's place. */
  lemma AlteredIsRefused(crc: Checksum, log: Log, i: nat, p: Bytes)
    requires WellFormed(log) && i < |log| && |p| == |Payload(log[i])| && crc(p) != crc(Payload(log[i]))
    ensures OpenFile(crc, Altered(crc, log, i, p)) == CorruptAt(End(crc, log, i))
  {
    hide Payload, LogBytes, ReadRecord, OpenFile, Overwritten;
    var rest := Overwritten(crc, log[i], p) + LogBytes(crc, log[i + 1..]);
    assert Altered(crc, log, i, p) == FileBytes(crc, log[..i]) + rest;
    OverwrittenIsCorrupt(crc, log[i], p, LogBytes(crc, log[i + 1..]));
    SpoiledIsReported(crc, log[..i], rest);
    assert log[..i][..i] == log[..i];
  }

  /** A header with one byte changed is refused, whatever follows it: the magic and the version are told apart. */
  lemma AlteredHeaderIsRefused(crc: Checksum, log: Log, i: nat, x: Byte)
    requires i < HEADER_SIZE && x != HEADER[i]
    ensures OpenFile(crc, FileBytes(crc, log)[i := x]) == if i < 4 then BadMagic else UnsupportedVersion
  {
    hide LogBytes, ScanFrom;
    var file := FileBytes(crc, log)[i := x];
    assert FileBytes(crc, log)[..4] == HEADER[..4];
    if i < 4 {
      assert file[..4][i] != HEADER[..4][i];
    } else {
      assert file[..4] == FileBytes(crc, log)[..4];
    }
  }

  // ---------------------------------------------------------------- recovery on arbitrary bytes

  /** The bytes of `file` from `off` on are exactly the given records, back to back, with nothing left over. */
  ghost predicate Tiles(crc: Checksum, file: Bytes, off: nat, recs: Log, offsets: seq<nat>, next: nat)
    decreases |recs|
  {
    && off <= |file|
    && |offsets| == |recs|
    && if recs == [] then off == |file|
       else
         var got := ReadRecord(crc, file[off..]);
         && got.Got? && got.rec == recs[0] && got.rec.pos == next && offsets[0] == off
         && Tiles(crc, file, off + got.used, recs[1..], offsets[1..], next + 1)
  }

  /**
   * The condition on the lengths met: every frame of 2^32 bytes or more, whose reported length wraps around, ends the
   * file. Nothing, not even a torn byte, follows it.
   */
  predicate Aligned(crc: Checksum, file: Bytes, pos: nat, next: nat)
    requires pos <= |file|
    decreases |file| - pos
  {
    var got := ReadRecord(crc, file[pos..]);
    got.Got? && got.rec.pos == next && pos + got.used < |file| ==>
      got.used < TWO_32 && Aligned(crc, file, pos + got.used, next + 1)
  }

  /** What is kept of `file` when the scan ended as `s`. */
  function KeptBy(file: Bytes, s: Scan): (kept: Bytes)
    requires s.Scanned? && s.off <= |file|
  {
    if s.torn then file[..s.off] else file
  }

  lemma TilesStep(crc: Checksum, file: Bytes, off: nat, recs: Log, offsets: seq<nat>, next: nat)
    requires off <= |file|
    requires var got := ReadRecord(crc, file[off..]);
             got.Got? && got.rec.pos == next && Tiles(crc, file, off + got.used, recs, offsets, next + 1)
    ensures Tiles(crc, file, off, [ReadRecord(crc, file[off..]).rec] + recs, [off] + offsets, next)
  {
    hide ReadRecord;
    var rs, os := [ReadRecord(crc, file[off..]).rec] + recs, [off] + offsets;
    assert rs[1..] == recs && os[1..] == offsets;
  }

  /** Aligned: what is kept is tiled by the records, and scanning it again finds the same without a torn tail. */
  lemma {:induction false} AlignedScanIsSound(crc: Checksum, file: Bytes, off: nat, next: nat)
    requires off <= |file| && ScanFrom(crc, file, off, off, next).Scanned? && Aligned(crc, file, off, next)
    ensures var s := ScanFrom(crc, file, off, off, next);
            var kept := KeptBy(file, s);
            && off <= |kept| && Tiles(crc, kept, off, s.recs, s.offsets, next)
            && ScanFrom(crc, kept, off, off, next) == s.(torn := false)
    decreases |file| - off
  {
    hide ReadRecord, ScanFrom, Tiles;
    var s := ScanFrom(crc, file, off, off, next);
    var kept := KeptBy(file, s);
    var got := ReadRecord(crc, file[off..]);
    ScanStep(crc, file, off, off, next);
    if !got.Got? {
      NothingFound(crc, file, off, next);
    } else if off + got.used == |file| {
      LastFrame(crc, file, off, next);
    } else {
      assert got.n == got.used;
      AlignedScanIsSound(crc, file, off + got.used, next + 1);
      assert kept[off..][..got.used] == file[off..][..got.used];
      ReadIsLocal(crc, file[off..], kept[off..]);
      ScanStep(crc, kept, off, off, next);
      var rest := ScanFrom(crc, file, off + got.used, off + got.used, next + 1);
      TilesStep(crc, kept, off, rest.recs, rest.offsets, next);
    }
  }

  lemma NothingFound(crc: Checksum, file: Bytes, off: nat, next: nat)
    requires off <= |file| && (ReadRecord(crc, file[off..]).Eof? || ReadRecord(crc, file[off..]).Torn?)
    ensures var s := ScanFrom(crc, file, off, off, next);
            var kept := KeptBy(file, s);
            && s == Scanned([], [], off, off, s.torn) && off == |kept| && Tiles(crc, kept, off, [], [], next)
            && ScanFrom(crc, kept, off, off, next) == s.(torn := false)
  {
    hide ReadRecord;
    var kept := KeptBy(file, ScanFrom(crc, file, off, off, next));
    assert kept[off..] == [];
  }

  /** A record that ends the file, whatever length is reported for it. */
  lemma LastFrame(crc: Checksum, file: Bytes, off: nat, next: nat)
    requires off <= |file|
    requires var got := ReadRecord(crc, file[off..]); got.Got? && got.rec.pos == next && off + got.used == |file|
    ensures var got := ReadRecord(crc, file[off..]);
            && ScanFrom(crc, file, off, off, next) == Scanned([got.rec], [off], |file|, off + got.n, false)
            && Tiles(crc, file, off, [got.rec], [off], next)
  {
    hide ReadRecord;
    assert file[|file|..] == [];
    assert ReadRecord(crc, []) == Eof;
    assert [file][1..] == [];
  }

  /** Tiles decide where the reader is: they end where a scan that found the same records stopped. */
  lemma {:induction false} TilesEndWhereScanStops(
    crc: Checksum, file: Bytes, kept: Bytes, pos: nat, off: nat, next: nat, offsets: seq<nat>)
    requires off <= pos <= |kept| && kept <= file && ScanFrom(crc, file, pos, off, next).Scanned?
    requires Tiles(crc, kept, pos, ScanFrom(crc, file, pos, off, next).recs, offsets, next)
    ensures ScanFrom(crc, file, pos, off, next).pos == |kept|
    decreases |file| - pos
  {
    hide ReadRecord, ScanFrom;
    var s := ScanFrom(crc, file, pos, off, next);
    ScanStep(crc, file, pos, off, next);
    if s.recs != [] {
      var got := ReadRecord(crc, kept[pos..]);
      assert file[pos..][..got.used] == kept[pos..][..got.used];
      ReadIsLocal(crc, kept[pos..], file[pos..]);
      assert s.recs[1..] == ScanFrom(crc, file, pos + got.used, off + got.n, next + 1).recs;
      TilesEndWhereScanStops(crc, file, kept, pos + got.used, off + got.n, next + 1, offsets[1..]);
    }
  }

  /** Once the count is behind the reader it stays behind. */
  lemma {:induction false} LagStays(crc: Checksum, file: Bytes, pos: nat, off: nat, next: nat)
    requires off < pos <= |file| && ScanFrom(crc, file, pos, off, next).Scanned?
    ensures var s := ScanFrom(crc, file, pos, off, next);
            s.off < s.pos && (s.recs != [] ==> s.offsets[0] == off)
    decreases |file| - pos
  {
    hide ReadRecord;
    var got := ReadRecord(crc, file[pos..]);
    if got.Got? {
      LagStays(crc, file, pos + got.used, off + got.n, next + 1);
    }
  }

  /** Not aligned: what is kept is not tiled by the records found, because the index is wrong ... */
  lemma {:induction false} MisalignedIndex(crc: Checksum, file: Bytes, off: nat, next: nat)
    requires off <= |file| && ScanFrom(crc, file, off, off, next).Scanned? && !Aligned(crc, file, off, next)
    requires !ScanFrom(crc, file, off, off, next).torn
    ensures var s := ScanFrom(crc, file, off, off, next);
            !Tiles(crc, file, off, s.recs, s.offsets, next)
    decreases |file| - off
  {
    hide ReadRecord, ScanFrom;
    var got := ReadRecord(crc, file[off..]);
    ScanStep(crc, file, off, off, next);
    var rest := ScanFrom(crc, file, off + got.used, off + got.n, next + 1);
    var s := ScanFrom(crc, file, off, off, next);
    assert s.recs[1..] == rest.recs && s.offsets[1..] == rest.offsets;
    if got.used < TWO_32 {
      MisalignedIndex(crc, file, off + got.used, next + 1);
    } else {
      LagStays(crc, file, off + got.used, off + got.n, next + 1);
      ScanStep(crc, file, off + got.used, off + got.n, next + 1);
    }
  }

  /** ... or because the cut goes through a record. */
  lemma MisalignedIsUnsound(crc: Checksum, file: Bytes, off: nat, next: nat)
    requires off <= |file| && ScanFrom(crc, file, off, off, next).Scanned? && !Aligned(crc, file, off, next)
    ensures var s := ScanFrom(crc, file, off, off, next);
            !Tiles(crc, KeptBy(file, s), off, s.recs, s.offsets, next)
  {
    hide ReadRecord, ScanFrom, Tiles, Aligned;
    var s := ScanFrom(crc, file, off, off, next);
    if !s.torn {
      MisalignedIndex(crc, file, off, next);
    } else {
      MisalignedLags(crc, file, off, next);
      if Tiles(crc, KeptBy(file, s), off, s.recs, s.offsets, next) {
        TilesEndWhereScanStops(crc, file, KeptBy(file, s), off, off, next, s.offsets);
      }
    }
  }

  /** A tiled file numbers its records consecutively. */
  lemma {:induction false} TilesPositions(crc: Checksum, file: Bytes, off: nat, recs: Log, offsets: seq<nat>, next: nat, i: nat)
    requires Tiles(crc, file, off, recs, offsets, next) && i < |recs|
    ensures recs[i].pos == next + i
    decreases i
  {
    hide ReadRecord;
    if i > 0 {
      TilesPositions(crc, file, off + ReadRecord(crc, file[off..]).used, recs[1..], offsets[1..], next + 1, i - 1);
    }
  }

  /** What recovery promises: it keeps a prefix that consists of records 1..n and nothing else, correctly indexed. */
  ghost predicate Sound(crc: Checksum, file: Bytes, o: OpenResult)
    requires o.Opened?
  {
    && o.file <= file && |o.file| >= HEADER_SIZE && o.file[..HEADER_SIZE] == HEADER
    && Tiles(crc, o.file, HEADER_SIZE, o.recs, o.offsets, 1)
  }

  /**
   * Recovery on any bytes that it does not reject: it is sound if and only if every frame whose reported length wraps
   * ends the file; then the records are numbered 1..n and opening again changes nothing. (An empty file becomes a header.)
   */
  lemma RecoveryIsSoundIff(crc: Checksum, file: Bytes)
    requires |file| >= HEADER_SIZE && OpenFile(crc, file).Opened?
    ensures var o := OpenFile(crc, file);
            && (Sound(crc, file, o) <==> Aligned(crc, file, HEADER_SIZE, 1))
            && (Sound(crc, file, o) ==>
                  OpenFile(crc, o.file) == o && forall i :: 0 <= i < |o.recs| ==> o.recs[i].pos == i + 1)
  {
    hide ReadRecord, ScanFrom, Tiles, Aligned;
    var o := OpenFile(crc, file);
    var s := ScanFrom(crc, file, HEADER_SIZE, HEADER_SIZE, 1);
    HeaderBytes(file);
    assert o.file == KeptBy(file, s);
    if Aligned(crc, file, HEADER_SIZE, 1) {
      AlignedScanIsSound(crc, file, HEADER_SIZE, 1);
      assert o.file[..HEADER_SIZE] == file[..HEADER_SIZE];
      HeaderBytes(o.file);
      forall i | 0 <= i < |o.recs| ensures o.recs[i].pos == i + 1 {
        TilesPositions(crc, o.file, HEADER_SIZE, o.recs, o.offsets, 1, i);
      }
    } else {
      MisalignedIsUnsound(crc, file, HEADER_SIZE, 1);
    }
  }

  /** Without a torn tail nothing is cut, so opening again is the same; with one, only alignment makes it so. */
  lemma ReopenSameIff(crc: Checksum, file: Bytes)
    requires |file| >= HEADER_SIZE && OpenFile(crc, file).Opened?
    ensures var o := OpenFile(crc, file);
            OpenFile(crc, o.file) == o <==>
            o.file == file || Aligned(crc, file, HEADER_SIZE, 1)
  {
    hide ReadRecord, ScanFrom, Tiles, Aligned;
    var o := OpenFile(crc, file);
    if Aligned(crc, file, HEADER_SIZE, 1) {
      RecoveryIsSoundIff(crc, file);
    } else if o.file != file {
      ReopenLoses(crc, file);
    }
  }

  /** A cut at the lagging count goes through a complete record: the second opening does not find all records again. */
  lemma ReopenLoses(crc: Checksum, file: Bytes)
    requires |file| >= HEADER_SIZE && OpenFile(crc, file).Opened? && OpenFile(crc, file).file != file
    requires !Aligned(crc, file, HEADER_SIZE, 1)
    ensures OpenFile(crc, OpenFile(crc, file).file) != OpenFile(crc, file)
  {
    hide ReadRecord, Tiles, Aligned;
    var o := OpenFile(crc, file);
    var s := ScanFrom(crc, file, HEADER_SIZE, HEADER_SIZE, 1);
    MisalignedLags(crc, file, HEADER_SIZE, 1);
    if OpenFile(crc, o.file) == o {
      ScanOfCut(crc, file, o.file, HEADER_SIZE, HEADER_SIZE, 1);
    }
  }

  lemma {:induction false} MisalignedLags(crc: Checksum, file: Bytes, off: nat, next: nat)
    requires off <= |file| && ScanFrom(crc, file, off, off, next).Scanned? && !Aligned(crc, file, off, next)
    ensures ScanFrom(crc, file, off, off, next).off < ScanFrom(crc, file, off, off, next).pos
    decreases |file| - off
  {
    hide ReadRecord;
    var got := ReadRecord(crc, file[off..]);
    if got.used < TWO_32 {
      MisalignedLags(crc, file, off + got.used, next + 1);
    } else {
      LagStays(crc, file, off + got.used, off + got.n, next + 1);
    }
  }

  /** A scan of a prefix that finds as many records gets at least as far. */
  lemma {:induction false} ScanOfCut(crc: Checksum, file: Bytes, cut: Bytes, pos: nat, off: nat, next: nat)
    requires off <= pos <= |cut| && cut <= file
    requires ScanFrom(crc, file, pos, off, next).Scanned? && ScanFrom(crc, cut, pos, off, next).Scanned?
    requires |ScanFrom(crc, file, pos, off, next).recs| == |ScanFrom(crc, cut, pos, off, next).recs|
    ensures ScanFrom(crc, file, pos, off, next).pos <= |cut|
    decreases |file| - pos
  {
    hide ReadRecord, ScanFrom;
    var got := ReadRecord(crc, cut[pos..]);
    ScanStep(crc, file, pos, off, next);
    ScanStep(crc, cut, pos, off, next);
    if got.Got? {
      assert file[pos..][..got.used] == cut[pos..][..got.used];
      ReadIsLocal(crc, cut[pos..], file[pos..]);
      ScanOfCut(crc, file, cut, pos + got.used, off + got.n, next + 1);
    }
  }

  /**
   * The failing input: one record whose frame is 2^32 to 2^32 + 3 bytes long, then a torn byte. Opening finds the
   * record and cuts the file 2^32 bytes too early; opening again finds nothing.
   */
  lemma WrapCutsRecord(crc: Checksum, r: Record, x: Byte)
    requires r.pos == 1 && IsInt64(r.expires) && TWO_32 - 4 <= |Body(crc, r)| < TWO_32
    ensures var o := OpenFile(crc, HEADER + Frame(crc, r) + [x]);
            && o.Opened? && o.recs == [r] && |o.file| == HEADER_SIZE + |Frame(crc, r)| - TWO_32
            && OpenFile(crc, o.file).Opened? && OpenFile(crc, o.file).recs == []
  {
    hide Frame, ReadRecord, Payload, Body;
    var f := Frame(crc, r);
    var file := HEADER + f + [x];
    assert |f| == 4 + |Body(crc, r)| by { FrameLength(crc, r); }
    assert file[..HEADER_SIZE] == HEADER;
    HeaderBytes(file);
    assert file[HEADER_SIZE..] == f + [x];
    ReadOfAnyFrame(crc, r, [x]);
    assert file[HEADER_SIZE + |f|..] == [x];
    ShortIsTorn(crc, [x]);
    var cut := file[..HEADER_SIZE + |f| - TWO_32];
    assert ScanFrom(crc, file, HEADER_SIZE, HEADER_SIZE, 1) ==
           Before(r, HEADER_SIZE, Scanned([], [], HEADER_SIZE + |f|, HEADER_SIZE + |f| - TWO_32, true));
    assert cut[..HEADER_SIZE] == HEADER;
    HeaderBytes(cut);
    assert |cut[HEADER_SIZE..]| < 4;
    ShortIsTorn(crc, cut[HEADER_SIZE..]);
  }

  lemma FrameLength(crc: Checksum, r: Record)
    ensures |Frame(crc, r)| == 4 + |Body(crc, r)|
  {
  }

  lemma ShortIsTorn(crc: Checksum, b: Bytes)
    requires |b| < 4
    ensures ReadRecord(crc, b) == if b == [] then Eof else Torn
  {
  }

  /** Where recovery reports damage, everything before it reads as records and the next one is corrupt or out of sequence. */
  lemma {:induction false} DamageIsReal(crc: Checksum, file: Bytes, pos: nat, off: nat, next: nat)
    returns (recs: Log, offsets: seq<nat>, at: nat)
    requires off <= pos <= |file| && ScanFrom(crc, file, pos, off, next).Damaged?
    ensures pos <= at <= |file| && Tiles(crc, file[..at], pos, recs, offsets, next)
    ensures var got := ReadRecord(crc, file[at..]);
            got.Corrupt? || (got.Got? && got.rec.pos != next + |recs|)
    ensures off == pos && at < pos + TWO_32 ==> ScanFrom(crc, file, pos, off, next).at == at
    decreases |file| - pos
  {
    hide ReadRecord;
    var got := ReadRecord(crc, file[pos..]);
    if got.Got? && got.rec.pos == next {
      var recs1, offsets1;
      recs1, offsets1, at := DamageIsReal(crc, file, pos + got.used, off + got.n, next + 1);
      recs, offsets := [got.rec] + recs1, [pos] + offsets1;
      assert file[..at][pos..][..got.used] == file[pos..][..got.used];
      ReadIsLocal(crc, file[pos..], file[..at][pos..]);
      assert recs[1..] == recs1 && offsets[1..] == offsets1;
    } else {
      recs, offsets, at := [], [], pos;
    }
  }

  // ---------------------------------------------------------------- range reads

  datatype Range =
    | Range(recs: Log)
    | RangeError(partial: Log)
    | IndexOutOfRange      // the run-time panic of an out-of-range slice index

  /** The read loop of `ReadRange` over the bytes of the section. */
  function ReadFrom(crc: Checksum, b: Bytes, limit: nat): (r: Range) {
    if limit == 0 then Range([])
    else
      match ReadRecord(crc, b)
      case Eof => Range([])
      case Torn => Range([])
      case Corrupt(_) => RangeError([])
      case Got(rec, _, used) =>
        Prepend([rec], ReadFrom(crc, b[used..], limit - 1))
  }

  /** `ReadRange`: the offset index is consulted first, the file size afterwards; `from` is a 64-bit word. */
  method ReadRange(crc: Checksum, byteOffsets: seq<nat>, file: Bytes, from: nat, limit: int) returns (r: Range)
    requires from < TWO_64
    ensures r == RangeOf(crc, byteOffsets, file, from, limit)
  {
    if from < 1 || ToInt64(from - 1) >= |byteOffsets| || limit <= 0 {
      return Range([]);
    }
    if from - 1 >= |byteOffsets| {
      return IndexOutOfRange;
    }
    var startOffset := byteOffsets[from - 1];
    r := ReadSection(crc, if startOffset <= |file| then file[startOffset..] else [], limit);
  }

  method ReadSection(crc: Checksum, section: Bytes, limit: nat) returns (r: Range)
    ensures r == ReadFrom(crc, section, limit)
  {
    hide ReadRecord;
    var records: Log := [];
    var i, rest := 0, section;
    while i < limit
      invariant 0 <= i <= limit
      invariant ReadFrom(crc, section, limit) == Prepend(records, ReadFrom(crc, rest, limit - i))
    {
      var got := ReadRecord(crc, rest);
      if got.Eof? || got.Torn? {
        break;
      }
      if got.Corrupt? {
        return RangeError(records);
      }
      PrependTwice(records, [got.rec], ReadFrom(crc, rest[got.used..], limit - i - 1));
      records := records + [got.rec];
      rest := rest[got.used..];
      i := i + 1;
    }
    return Range(records);
  }

  function Prepend(recs: Log, r: Range): (s: Range) {
    match r
    case Range(rs) => Range(recs + rs)
    case RangeError(rs) => RangeError(recs + rs)
    case IndexOutOfRange => IndexOutOfRange
  }

  lemma PrependTwice(a: Log, b: Log, r: Range)
    ensures Prepend(a, Prepend(b, r)) == Prepend(a + b, r)
  {
    if !r.IndexOutOfRange? {
      var rs := if r.Range? then r.recs else r.partial;
      assert a + (b + rs) == a + b + rs;
    }
  }

  function RangeOf(crc: Checksum, byteOffsets: seq<nat>, file: Bytes, from: nat, limit: int): (r: Range)
    requires from < TWO_64
  {
    if from < 1 || ToInt64(from - 1) >= |byteOffsets| || limit <= 0 then Range([])
    else if from - 1 >= |byteOffsets| then IndexOutOfRange
    else if byteOffsets[from - 1] <= |file| then ReadFrom(crc, file[byteOffsets[from - 1]..], limit)
    else ReadFrom(crc, [], limit)
  }

  /** The records from position `from` on, at most `limit` of them. */
  function Slice(log: Log, from: nat, limit: int): (s: Log)
    ensures |s| <= |log|
  {
    if from < 1 || from > |log| || limit <= 0 then []
    else if from - 1 + limit <= |log| then log[from - 1..from - 1 + limit]
    else log[from - 1..]
  }

  lemma {:induction false} ReadFromPrefix(crc: Checksum, b: Bytes, log: Log, k: nat, limit: nat)
    requires forall r :: r in log ==> Encodable(r)
    requires k <= |LogBytes(crc, log)| && b == LogBytes(crc, log)[..k]
    ensures var m := Complete(crc, log, k);
            ReadFrom(crc, b, limit) == Range(log[..if limit < m then limit else m])
    decreases |log|
  {
    hide Frame, ReadRecord, Encodable;
    if limit > 0 && log != [] {
      var f := Frame(crc, log[0]);
      if |f| > k {
        ReadOfTornFrame(crc, log[0], k);
        assert b == f[..k];
      } else {
        var rest := LogBytes(crc, log[1..])[..k - |f|];
        assert b == f + rest;
        ReadOfFrame(crc, log[0], rest);
        assert b[|f|..] == rest;
        ReadFromPrefix(crc, rest, log[1..], k - |f|, limit - 1);
        var m := Complete(crc, log, k);
        var j := if limit < m then limit else m;
        assert log[..j] == [log[0]] + log[1..][..j - 1];
      }
    }
  }

  /** What `ReadRange` relies on: the file is a prefix of the log's bytes and the index lists record boundaries. */
  ghost predicate Indexed(crc: Checksum, log: Log, byteOffsets: seq<nat>, file: Bytes) {
    && (forall r :: r in log ==> Encodable(r))
    && HEADER_SIZE <= |file| && file <= FileBytes(crc, log)
    && |byteOffsets| <= |log|
    && (forall i :: 0 <= i < |byteOffsets| ==> byteOffsets[i] == End(crc, log, i))
  }

  /** The file from the boundary of record `j` on. */
  lemma Section(crc: Checksum, log: Log, file: Bytes, j: nat)
    requires HEADER_SIZE <= |file| && file <= FileBytes(crc, log)
    requires j <= |log| && End(crc, log, j) <= |file|
    ensures |file| - End(crc, log, j) <= |LogBytes(crc, log[j..])|
    ensures file[End(crc, log, j)..] == LogBytes(crc, log[j..])[..|file| - End(crc, log, j)]
  {
    hide Frame;
    LogBytesSplit(crc, log, j);
    var e := End(crc, log, j);
    assert FileBytes(crc, log) == FileBytes(crc, log[..j]) + LogBytes(crc, log[j..]);
    assert file == FileBytes(crc, log)[..|file|];
  }

  lemma SliceOfPrefix(log: Log, m: nat, from: nat, limit: nat)
    requires 1 <= from <= m + 1 && m <= |log|
    ensures Slice(log[..m], from, limit) == log[from - 1..][..if limit < m - (from - 1) then limit else m - (from - 1)]
  {
    var j := from - 1;
    var n := if limit < m - j then limit else m - j;
    assert log[..m][j..j + n] == log[j..j + n] == log[j..][..n];
    assert log[..m][j..] == log[j..m];
  }

  /** A range read returns the contiguous slice of the log that is complete in the file. */
  lemma ReadRangeIsSlice(crc: Checksum, log: Log, byteOffsets: seq<nat>, file: Bytes, from: nat, limit: int)
    requires Indexed(crc, log, byteOffsets, file) && from <= TWO_63
    ensures RangeOf(crc, byteOffsets, file, from, limit) ==
            Range(if from <= |byteOffsets| then Slice(log[..Complete(crc, log, |file| - HEADER_SIZE)], from, limit) else [])
  {
    hide Frame, ReadRecord, Encodable, LogBytes, Complete;
    var k := |file| - HEADER_SIZE;
    var m := Complete(crc, log, k);
    if 1 <= from <= |byteOffsets| && limit > 0 {
      var j := from - 1;
      var start := byteOffsets[j];
      CompleteIsLargest(crc, log, k, j);
      if start <= |file| {
        CompleteDrop(crc, log, k, j);
        Section(crc, log, file, j);
        ReadFromPrefix(crc, file[start..], log[j..], |file| - start, limit);
        SliceOfPrefix(log, m, from, limit);
      } else {
        ReadFromPrefix(crc, [], [], 0, limit);
      }
    }
  }

  /** Reading past intact records comes to what is behind them. */
  lemma {:induction false} ReadFromPast(crc: Checksum, log: Log, rest: Bytes, limit: nat)
    requires forall r :: r in log ==> Encodable(r)
    ensures ReadFrom(crc, LogBytes(crc, log) + rest, limit) ==
            if limit <= |log| then Range(log[..limit]) else Prepend(log, ReadFrom(crc, rest, limit - |log|))
    decreases |log|
  {
    hide Frame, ReadRecord, Encodable, Prepend, ReadFrom;
    if limit == 0 {
      ReadFromNone(crc, LogBytes(crc, log) + rest);
    } else if log == [] {
      assert LogBytes(crc, log) + rest == rest;
      PrependNothing(ReadFrom(crc, rest, limit));
    } else {
      var f, more := Frame(crc, log[0]), LogBytes(crc, log[1..]) + rest;
      var b := LogBytes(crc, log) + rest;
      assert b == f + more && b[|f|..] == more;
      ReadOfFrame(crc, log[0], more);
      ReadFromStep(crc, b, limit);
      ReadFromPast(crc, log[1..], rest, limit - 1);
      assert [log[0]] + log[1..] == log;
      if limit <= |log| {
        assert log[..limit] == [log[0]] + log[1..][..limit - 1];
        PrependRange([log[0]], log[1..][..limit - 1]);
      } else {
        PrependTwice([log[0]], log[1..], ReadFrom(crc, rest, limit - |log|));
      }
    }
  }

  lemma ReadFromNone(crc: Checksum, b: Bytes)
    ensures ReadFrom(crc, b, 0) == Range([])
  {
  }

  lemma ReadFromStep(crc: Checksum, b: Bytes, limit: nat)
    requires limit > 0 && ReadRecord(crc, b).Got?
    ensures var got := ReadRecord(crc, b);
            ReadFrom(crc, b, limit) == Prepend([got.rec], ReadFrom(crc, b[got.used..], limit - 1))
  {
    hide ReadRecord;
  }

  lemma PrependRange(a: Log, b: Log)
    ensures Prepend(a, Range(b)) == Range(a + b)
  {
  }

  lemma PrependNothing(r: Range)
    ensures Prepend([], r) == r
  {
    if !r.IndexOutOfRange? {
      var rs := if r.Range? then r.recs else r.partial;
      assert [] + rs == rs;
    }
  }

  /** A range read over a record that was altered on disk returns the intact ones before it, with an error if it gets that far. */
  lemma RangeMeetsDamage(crc: Checksum, log: Log, i: nat, p: Bytes, from: nat, limit: nat)
    requires WellFormed(log) && i < |log| < TWO_63 && |p| == |Payload(log[i])| && crc(p) != crc(Payload(log[i]))
    requires 1 <= from <= i + 1 && limit > 0
    ensures RangeOf(crc, OffsetsFrom(crc, log, HEADER_SIZE), Altered(crc, log, i, p), from, limit) ==
            if limit <= i + 1 - from then Range(log[from - 1..from - 1 + limit]) else RangeError(log[from - 1..i])
  {
    hide Frame, ReadRecord, Encodable, LogBytes, ReadFrom, Payload, Overwritten, Altered, Prepend, WellFormed, OffsetsFrom, End;
    var j := from - 1;
    var rest := Overwritten(crc, log[i], p) + LogBytes(crc, log[i + 1..]);
    OffsetsAt(crc, log, HEADER_SIZE, j);
    assert OffsetsFrom(crc, log, HEADER_SIZE)[j] == End(crc, log, j) by { EndIs(crc, log, j); }
    AlteredFrom(crc, log, i, p, j);
    EncodableBetween(log, j, i);
    ReadFromPast(crc, log[j..i], rest, limit);
    if limit > i - j {
      FitsBody(crc, log[i]);
      OverwrittenIsCorrupt(crc, log[i], p, LogBytes(crc, log[i + 1..]));
      ReadCorrupt(crc, rest, limit - (i - j));
      PrependError(log[j..i]);
    } else {
      assert log[j..i][..limit] == log[j..j + limit];
    }
  }

  lemma EndIs(crc: Checksum, log: Log, n: nat)
    requires n <= |log|
    ensures End(crc, log, n) == HEADER_SIZE + |LogBytes(crc, log[..n])|
  {
  }

  lemma EncodableBetween(log: Log, j: nat, i: nat)
    requires WellFormed(log) && j <= i < |log|
    ensures Encodable(log[i]) && forall r :: r in log[j..i] ==> Encodable(r)
  {
    hide Encodable;
  }

  lemma PrependError(recs: Log)
    ensures Prepend(recs, RangeError([])) == RangeError(recs)
  {
    assert recs + [] == recs;
  }

  lemma FitsBody(crc: Checksum, r: Record)
    requires Encodable(r)
    ensures |Body(crc, r)| < TWO_32
  {
  }

  /** The altered file from an earlier record on. */
  lemma AlteredFrom(crc: Checksum, log: Log, i: nat, p: Bytes, j: nat)
    requires j <= i < |log|
    ensures var file := Altered(crc, log, i, p);
            && End(crc, log, j) <= |file|
            && file[End(crc, log, j)..] ==
               LogBytes(crc, log[j..i]) + (Overwritten(crc, log[i], p) + LogBytes(crc, log[i + 1..]))
  {
    hide LogBytes, Overwritten;
    var rest := Overwritten(crc, log[i], p) + LogBytes(crc, log[i + 1..]);
    assert log[..i][..j] == log[..j] && log[..i][j..] == log[j..i];
    LogBytesSplit(crc, log[..i], j);
    assert Altered(crc, log, i, p) == FileBytes(crc, log[..j]) + (LogBytes(crc, log[j..i]) + rest);
  }

  lemma ReadCorrupt(crc: Checksum, b: Bytes, limit: nat)
    requires limit > 0 && ReadRecord(crc, b).Corrupt?
    ensures ReadFrom(crc, b, limit) == RangeError([])
  {
    hide ReadRecord;
  }

  /** The one input `ReadRange` cannot take: a position above 2^63 wraps to a negative index and panics. */
  lemma ReadRangePanicsIff(crc: Checksum, byteOffsets: seq<nat>, file: Bytes, from: nat, limit: int)
    requires from < TWO_64 && |byteOffsets| < TWO_63
    ensures RangeOf(crc, byteOffsets, file, from, limit) == IndexOutOfRange <==> from > TWO_63 && limit > 0
  {
    hide ReadRecord;
    if limit > 0 {
      ReadFromNeverPanics(crc, [], limit);
      if 1 <= from <= |byteOffsets| && byteOffsets[from - 1] <= |file| {
        ReadFromNeverPanics(crc, file[byteOffsets[from - 1]..], limit);
      }
    }
  }

  lemma {:induction false} ReadFromNeverPanics(crc: Checksum, b: Bytes, limit: nat)
    ensures ReadFrom(crc, b, limit) != IndexOutOfRange
  {
    hide ReadRecord;
    if limit > 0 && ReadRecord(crc, b).Got? {
      ReadFromNeverPanics(crc, b[ReadRecord(crc, b).used..], limit - 1);
    }
  }
}
