/** The RESP2 subset: decimal lengths, bulk strings, arrays of bulk strings, and a reader over a byte stream. */
module Resp {
  import opened Options
  import opened ByteSeqs

  const CR: Byte := 13

  const LF: Byte := 10

  const CRLF: Bytes := [13, 10]

  const STAR: Byte := 42

  const DOLLAR: Byte := 36

  const PLUS: Byte := 43

  const MINUS: Byte := 45

  const COLON: Byte := 58

  // ---------------------------------------------------------------- decimal numbers

  predicate IsDigit(b: Byte) {
    48 <= b <= 57
  }

  /** `%d` of a natural number. */
  function Decimal(n: nat): (b: Bytes)
    ensures b != [] && forall i :: 0 <= i < |b| ==> IsDigit(b[i])
  {
    if n < 10 then [48 + n] else Decimal(n / 10) + [48 + n % 10]
  }

  function Digits(b: Bytes): (v: Option<nat>) {
    if b == [] then Some(0)
    else if !IsDigit(b[|b| - 1]) then None
    else
      match Digits(b[..|b| - 1])
      case None => None
      case Some(v) => Some(10 * v + (b[|b| - 1] - 48))
  }

  /** strconv.Atoi: an optional sign, at least one digit, and a value that fits 64 bits. */
  function Atoi(b: Bytes): (v: Option<int>) {
    if b == [] then None
    else
      var signed := b[0] == PLUS || b[0] == MINUS;
      var digits := if signed then b[1..] else b;
      if digits == [] then None
      else
        match Digits(digits)
        case None => None
        case Some(n) =>
          var v: int := if b[0] == MINUS then 0 - n else n;
          if IsInt64(v) then Some(v) else None
  }

  lemma {:induction false} DigitsOfDecimal(n: nat)
    ensures Digits(Decimal(n)) == Some(n)
  {
    var b := Decimal(n);
    if n >= 10 {
      DigitsOfDecimal(n / 10);
      assert b[..|b| - 1] == Decimal(n / 10);
    } else {
      assert b[..0] == [];
      assert Digits(b[..|b| - 1]) == Some(0);
    }
  }

  lemma AtoiOfDecimal(n: nat)
    requires n < TWO_63
    ensures Atoi(Decimal(n)) == Some(n)
  {
    DigitsOfDecimal(n);
    assert IsDigit(Decimal(n)[0]);
  }

  function Zeros(z: nat): (b: Bytes)
    ensures |b| == z
  {
    if z == 0 then [] else Zeros(z - 1) + [48]
  }

  lemma {:induction false} DigitsOfZeros(z: nat)
    ensures Digits(Zeros(z)) == Some(0)
  {
    if z > 0 {
      DigitsOfZeros(z - 1);
      assert Zeros(z)[..z - 1] == Zeros(z - 1);
    }
  }

  lemma {:induction false} DigitsOfPadded(z: nat, n: nat)
    ensures Digits(Zeros(z) + Decimal(n)) == Some(n)
    decreases n
  {
    var b := Zeros(z) + Decimal(n);
    if n < 10 {
      DigitsOfZeros(z);
      assert b[..|b| - 1] == Zeros(z);
    } else {
      DigitsOfPadded(z, n / 10);
      assert b[..|b| - 1] == Zeros(z) + Decimal(n / 10);
    }
  }

  /** Digits spell the number that is printed like them, leading zeros aside. */
  lemma {:induction false} DigitsArePadded(b: Bytes) returns (z: nat)
    requires b != [] && Digits(b).Some?
    ensures b == Zeros(z) + Decimal(Digits(b).value)
  {
    var init := b[..|b| - 1];
    var n := Digits(b).value;
    assert b == init + [b[|b| - 1]];
    if init == [] {
      z := 0;
    } else {
      z := DigitsArePadded(init);
      var m := Digits(init).value;
      if m == 0 {
        assert Decimal(0) == [48];
        z := z + 1;
      } else {
        assert n / 10 == m && n >= 10;
      }
      assert b == Zeros(z) + Decimal(n);
    }
  }

  /** `b` is a sign, if any, and the digits of `v`, possibly behind zeros. */
  ghost predicate Spells(b: Bytes, v: int) {
    || (v >= 0 && exists z: nat :: b == Zeros(z) + Decimal(v))
    || (v >= 0 && exists z: nat :: b == [PLUS] + (Zeros(z) + Decimal(v)))
    || (v <= 0 && exists z: nat :: b == [MINUS] + (Zeros(z) + Decimal(0 - v)))
  }

  /** What is parsed as a number, and as which: exactly the spellings of 64-bit integers. */
  lemma AtoiIff(b: Bytes, v: int)
    ensures Atoi(b) == Some(v) <==> Spells(b, v) && IsInt64(v)
  {
    hide Zeros, Decimal, Digits;
    if Atoi(b) == Some(v) {
      var digits := if b[0] == PLUS || b[0] == MINUS then b[1..] else b;
      var z := DigitsArePadded(digits);
      assert b[0] == PLUS || b[0] == MINUS ==> b == [b[0]] + digits;
    }
    if Spells(b, v) && IsInt64(v) {
      AtoiOfSpelling(b, v);
    }
  }

  lemma AtoiOfSpelling(b: Bytes, v: int)
    requires Spells(b, v) && IsInt64(v)
    ensures Atoi(b) == Some(v)
  {
    hide Zeros, Decimal, Digits;
    if v >= 0 && exists z: nat :: b == Zeros(z) + Decimal(v) {
      var z: nat :| b == Zeros(z) + Decimal(v);
      DigitsOfPadded(z, v);
      FirstIsDigit(z, v);
    } else if v >= 0 && exists z: nat :: b == [PLUS] + (Zeros(z) + Decimal(v)) {
      var z: nat :| b == [PLUS] + (Zeros(z) + Decimal(v));
      DigitsOfPadded(z, v);
      assert b[1..] == Zeros(z) + Decimal(v);
    } else {
      var z: nat :| b == [MINUS] + (Zeros(z) + Decimal(0 - v));
      DigitsOfPadded(z, 0 - v);
      assert b[1..] == Zeros(z) + Decimal(0 - v);
    }
  }

  lemma {:induction false} FirstIsDigit(z: nat, n: nat)
    ensures IsDigit((Zeros(z) + Decimal(n))[0])
  {
    if z > 0 {
      FirstIsDigit(z - 1, n);
      assert z > 1 ==> Zeros(z)[0] == Zeros(z - 1)[0];
    }
  }

  // ---------------------------------------------------------------- lines and bulk strings

  datatype ReadError = Eof | UnexpectedEof | Protocol

  datatype Line = Line(text: Bytes, rest: Bytes) | NoLine

  /** The number of bytes before the first line feed, or all of them. */
  function LineLength(b: Bytes): (n: nat)
    ensures n <= |b| && (n < |b| ==> b[n] == LF)
    ensures forall i :: 0 <= i < n ==> b[i] != LF
  {
    if b == [] || b[0] == LF then 0 else 1 + LineLength(b[1..])
  }

  function TrimCr(b: Bytes): (t: Bytes) {
    if b != [] && b[|b| - 1] == CR then b[..|b| - 1] else b
  }

  function ReadLine(b: Bytes): (l: Line)
    ensures l.Line? ==> |l.rest| < |b|
  {
    var n := LineLength(b);
    if n == |b| then NoLine else Line(TrimCr(b[..n]), b[n + 1..])
  }

  datatype Bulk = Bulk(data: Bytes, rest: Bytes) | BulkError(error: ReadError)

  /** A null bulk string reads as no bytes; the two bytes behind the data are not looked at. */
  function ReadBulk(b: Bytes): (r: Bulk)
    ensures r.Bulk? ==> |r.rest| < |b|
  {
    match ReadLine(b)
    case NoLine => BulkError(Eof)
    case Line(text, rest) =>
      if text == [] || text[0] != DOLLAR then BulkError(Protocol)
      else
        match Atoi(text[1..])
        case None => BulkError(Protocol)
        case Some(n) =>
          if n < 0 then Bulk([], rest)
          else if rest == [] then BulkError(Eof)
          else if |rest| < n + 2 then BulkError(UnexpectedEof)
          else Bulk(rest[..n], rest[n + 2..])
  }

  datatype Parts = Parts(parts: seq<Bytes>, rest: Bytes) | PartsError(error: ReadError)

  function ReadParts(b: Bytes, n: nat): (r: Parts)
    ensures r.Parts? ==> |r.parts| == n && |r.rest| <= |b|
    decreases n
  {
    if n == 0 then Parts([], b)
    else
      match ReadBulk(b)
      case BulkError(e) => PartsError(e)
      case Bulk(data, rest) =>
        match ReadParts(rest, n - 1)
        case PartsError(e) => PartsError(e)
        case Parts(parts, rest2) => Parts([data] + parts, rest2)
  }

  datatype Command = Command(name: Bytes, args: seq<Bytes>)

  datatype Parsed = Parsed(cmd: Command, rest: Bytes) | ParseError(error: ReadError)

  function ReadCommand(b: Bytes): (r: Parsed)
    ensures r.Parsed? ==> |r.rest| < |b|
  {
    match ReadLine(b)
    case NoLine => ParseError(Eof)
    case Line(text, rest) =>
      if text == [] || text[0] != STAR then ParseError(Protocol)
      else
        match Atoi(text[1..])
        case None => ParseError(Protocol)
        case Some(n) =>
          if n < 1 then ParseError(Protocol)
          else
            match ReadParts(rest, n)
            case PartsError(e) => ParseError(e)
            case Parts(parts, rest2) => Parsed(Command(parts[0], parts[1..]), rest2)
  }

  /** The commands of a whole connection, up to the error that ends it. */
  function ReadAll(b: Bytes): (r: (seq<Command>, ReadError))
    decreases |b|
  {
    match ReadCommand(b)
    case ParseError(e) => ([], e)
    case Parsed(cmd, rest) =>
      var (cmds, e) := ReadAll(rest);
      ([cmd] + cmds, e)
  }

  // ---------------------------------------------------------------- writing

  function Header(mark: Byte, n: nat): (b: Bytes) {
    [mark] + Decimal(n) + CRLF
  }

  /** `WriteBulkString`. */
  function BulkBytes(data: Bytes): (b: Bytes) {
    Header(DOLLAR, |data|) + data + CRLF
  }

  function PartsBytes(parts: seq<Bytes>): (b: Bytes) {
    if parts == [] then [] else BulkBytes(parts[0]) + PartsBytes(parts[1..])
  }

  /** A command as clients send it: an array of bulk strings. */
  function CommandBytes(cmd: Command): (b: Bytes) {
    Header(STAR, 1 + |cmd.args|) + PartsBytes([cmd.name] + cmd.args)
  }

  function PipelineBytes(cmds: seq<Command>): (b: Bytes) {
    if cmds == [] then [] else CommandBytes(cmds[0]) + PipelineBytes(cmds[1..])
  }

  // ---------------------------------------------------------------- round trips

  lemma {:induction false} LineLengthIs(b: Bytes, n: nat)
    requires n < |b| && b[n] == LF && forall i :: 0 <= i < n ==> b[i] != LF
    ensures LineLength(b) == n
  {
    if n > 0 {
      LineLengthIs(b[1..], n - 1);
    }
  }

  /** A header line reads back as its mark and number, and ends where it was written to end. */
  lemma ReadHeader(mark: Byte, n: nat, rest: Bytes)
    requires n < TWO_63 && mark != LF
    ensures var l := ReadLine(Header(mark, n) + rest);
            l == Line([mark] + Decimal(n), rest) && l.text[1..] == Decimal(n) && Atoi(l.text[1..]) == Some(n)
  {
    hide Decimal, LineLength, Atoi;
    var h := [mark] + Decimal(n);
    var b := Header(mark, n) + rest;
    assert b == h + [CR] + [LF] + rest;
    assert h[1..] == Decimal(n);
    LineLengthIs(b, |h| + 1);
    assert b[..|h| + 1] == h + [CR];
    assert TrimCr(h + [CR]) == h;
    assert b[|h| + 2..] == rest;
    AtoiOfDecimal(n);
  }

  /** A line without line feeds reads back whether it is ended by CR LF or by LF alone, in which case a final CR of its own is lost. */
  lemma ReadOfLine(text: Bytes, rest: Bytes)
    requires LF !in text
    ensures ReadLine(text + CRLF + rest) == Line(text, rest)
    ensures ReadLine(text + [LF] + rest) ==
            Line(if text != [] && text[|text| - 1] == CR then text[..|text| - 1] else text, rest)
  {
    hide LineLength;
    var b, c := text + CRLF + rest, text + [LF] + rest;
    LineLengthIs(b, |text| + 1);
    assert b[..|text| + 1] == text + [CR] && b[|text| + 2..] == rest;
    assert TrimCr(text + [CR]) == text;
    LineLengthIs(c, |text|);
    assert c[..|text|] == text && c[|text| + 1..] == rest;
  }

  /** A null bulk string, of any negative length, reads as no bytes and takes up its line only. */
  lemma ReadOfNull(n: nat, rest: Bytes)
    requires 0 < n <= TWO_63
    ensures ReadBulk([DOLLAR, MINUS] + Decimal(n) + CRLF + rest) == Bulk([], rest)
  {
    hide ReadLine, Atoi, Decimal;
    var digits := [MINUS] + (Zeros(0) + Decimal(n));
    var text := [DOLLAR] + digits;
    assert text == [DOLLAR, MINUS] + Decimal(n) && text[1..] == digits;
    assert forall i :: 0 <= i < |Decimal(n)| ==> IsDigit(Decimal(n)[i]);
    ReadOfLine(text, rest);
    assert Spells(digits, 0 - n);
    AtoiIff(digits, 0 - n);
  }

  /** Any bytes, line feeds included, survive as a bulk string, whatever the two bytes that end it are. */
  lemma ReadOfAnyBulk(data: Bytes, end: Bytes, rest: Bytes)
    requires |data| < TWO_63 && |end| == 2
    ensures ReadBulk(Header(DOLLAR, |data|) + data + end + rest) == Bulk(data, rest)
  {
    hide Header, ReadLine, Atoi;
    var tail := data + end + rest;
    assert Header(DOLLAR, |data|) + data + end + rest == Header(DOLLAR, |data|) + tail;
    ReadHeader(DOLLAR, |data|, tail);
    assert tail[..|data|] == data && tail[|data| + 2..] == rest;
  }

  lemma ReadOfBulk(data: Bytes, rest: Bytes)
    requires |data| < TWO_63
    ensures ReadBulk(BulkBytes(data) + rest) == Bulk(data, rest)
  {
    hide Header, ReadBulk;
    ReadOfAnyBulk(data, CRLF, rest);
  }

  /** A line that does not announce at least one part is refused as a command. */
  lemma LineRefused(line: Bytes, rest: Bytes)
    requires LF !in line
    requires line == [] || line[0] != STAR || forall n :: 1 <= n < TWO_63 ==> !Spells(line[1..], n)
    ensures ReadCommand(line + CRLF + rest) == ParseError(Protocol)
  {
    hide ReadLine, Atoi, Spells, ReadParts;
    ReadOfLine(line, rest);
    if line != [] && Atoi(line[1..]).Some? {
      AtoiIff(line[1..], Atoi(line[1..]).value);
    }
  }

  /** A line that does not announce a length is refused as a bulk string. */
  lemma BulkLineRefused(line: Bytes, rest: Bytes)
    requires LF !in line
    requires line == [] || line[0] != DOLLAR || forall n :: IsInt64(n) ==> !Spells(line[1..], n)
    ensures ReadBulk(line + CRLF + rest) == BulkError(Protocol)
  {
    hide ReadLine, Atoi, Spells;
    ReadOfLine(line, rest);
    if line != [] && Atoi(line[1..]).Some? {
      AtoiIff(line[1..], Atoi(line[1..]).value);
    }
  }

  ghost predicate Fits(parts: seq<Bytes>) {
    |parts| < TWO_63 && forall i :: 0 <= i < |parts| ==> |parts[i]| < TWO_63
  }

  lemma {:induction false} ReadOfParts(parts: seq<Bytes>, rest: Bytes)
    requires Fits(parts)
    ensures ReadParts(PartsBytes(parts) + rest, |parts|) == Parts(parts, rest)
    decreases |parts|
  {
    hide ReadBulk, BulkBytes;
    if parts == [] {
      assert PartsBytes(parts) + rest == rest;
    } else {
      assert PartsBytes(parts) + rest == BulkBytes(parts[0]) + (PartsBytes(parts[1..]) + rest);
      ReadOfBulk(parts[0], PartsBytes(parts[1..]) + rest);
      ReadOfParts(parts[1..], rest);
    }
  }

  /** A command followed by anything reads back as that command and consumes exactly its bytes. */
  lemma ReadOfCommand(cmd: Command, rest: Bytes)
    requires Fits([cmd.name] + cmd.args)
    ensures ReadCommand(CommandBytes(cmd) + rest) == Parsed(cmd, rest)
  {
    hide Header, ReadLine, Atoi, ReadParts, PartsBytes;
    var parts := [cmd.name] + cmd.args;
    var tail := PartsBytes(parts) + rest;
    assert CommandBytes(cmd) + rest == Header(STAR, |parts|) + tail;
    ReadHeader(STAR, |parts|, tail);
    ReadOfParts(parts, rest);
    assert parts[1..] == cmd.args;
  }

  /** Any pipelined sequence of commands parses back to exactly that sequence and then ends cleanly. */
  lemma {:induction false} PipelineRoundTrip(cmds: seq<Command>)
    requires forall i :: 0 <= i < |cmds| ==> Fits([cmds[i].name] + cmds[i].args)
    ensures ReadAll(PipelineBytes(cmds)) == (cmds, Eof)
    decreases |cmds|
  {
    hide CommandBytes, Fits;
    if cmds == [] {
      NothingLeft();
    } else {
      var rest := PipelineBytes(cmds[1..]);
      ReadOfCommand(cmds[0], rest);
      PipelineRoundTrip(cmds[1..]);
      ReadAllStep(cmds[0], rest);
      assert [cmds[0]] + cmds[1..] == cmds;
    }
  }

  lemma NothingLeft()
    ensures ReadAll([]) == ([], Eof)
  {
  }

  lemma ReadAllStep(cmd: Command, rest: Bytes)
    requires ReadCommand(CommandBytes(cmd) + rest) == Parsed(cmd, rest)
    ensures ReadAll(CommandBytes(cmd) + rest) == ([cmd] + ReadAll(rest).0, ReadAll(rest).1)
  {
    hide ReadCommand, CommandBytes;
  }

  // ---------------------------------------------------------------- input that is cut short

  /** The first line feed is beyond the cut: no line. */
  lemma CutLine(b: Bytes, n: nat, k: nat)
    requires n < |b| && (forall i :: 0 <= i < n ==> b[i] != LF) && k <= n
    ensures ReadLine(b[..k]) == NoLine
  {
    hide LineLength;
    var c := b[..k];
    assert forall i :: 0 <= i < |c| ==> c[i] == b[i];
  }

  lemma HeaderFeed(mark: Byte, n: nat)
    requires mark != LF
    ensures forall i :: 0 <= i < |Header(mark, n)| - 1 ==> Header(mark, n)[i] != LF
    ensures |Header(mark, n)| > 0
  {
    hide Decimal;
    var h, d := Header(mark, n), Decimal(n);
    forall i | 0 <= i < |h| - 1 ensures h[i] != LF {
      if 1 <= i <= |d| {
        assert h[i] == d[i - 1] && IsDigit(d[i - 1]);
      }
    }
  }

  predicate Unfinished(e: ReadError) {
    e.Eof? || e.UnexpectedEof?
  }

  /** A bulk string that is cut anywhere is an end of input, never data and never a protocol error. */
  lemma CutBulk(data: Bytes, k: nat)
    requires |data| < TWO_63 && k < |BulkBytes(data)|
    ensures var r := ReadBulk(BulkBytes(data)[..k]); r.BulkError? && Unfinished(r.error)
  {
    hide Header, ReadLine, Atoi;
    var b, h := BulkBytes(data), Header(DOLLAR, |data|);
    HeaderFeed(DOLLAR, |data|);
    if k < |h| {
      assert forall i :: 0 <= i < |h| - 1 ==> b[i] == h[i];
      CutLine(b, |h| - 1, k);
    } else {
      var tail := (data + CRLF)[..k - |h|];
      assert b[..k] == h + tail;
      ReadHeader(DOLLAR, |data|, tail);
    }
  }

  lemma {:induction false} CutParts(parts: seq<Bytes>, k: nat)
    requires Fits(parts) && k < |PartsBytes(parts)|
    ensures var r := ReadParts(PartsBytes(parts)[..k], |parts|); r.PartsError? && Unfinished(r.error)
    decreases |parts|
  {
    hide ReadBulk, BulkBytes;
    var b, first := PartsBytes(parts)[..k], BulkBytes(parts[0]);
    if k < |first| {
      assert b == first[..k];
      CutBulk(parts[0], k);
    } else {
      var rest := PartsBytes(parts[1..])[..k - |first|];
      assert b == first + rest;
      ReadOfBulk(parts[0], rest);
      if k - |first| < |PartsBytes(parts[1..])| {
        CutParts(parts[1..], k - |first|);
      }
    }
  }

  lemma CutCommand(cmd: Command, k: nat)
    requires Fits([cmd.name] + cmd.args) && k < |CommandBytes(cmd)|
    ensures var r := ReadCommand(CommandBytes(cmd)[..k]); r.ParseError? && Unfinished(r.error)
  {
    hide Header, ReadLine, Atoi, ReadParts, PartsBytes;
    var parts := [cmd.name] + cmd.args;
    var b, h := CommandBytes(cmd), Header(STAR, |parts|);
    HeaderFeed(STAR, |parts|);
    if k < |h| {
      assert forall i :: 0 <= i < |h| - 1 ==> b[i] == h[i];
      CutLine(b, |h| - 1, k);
    } else {
      var tail := PartsBytes(parts)[..k - |h|];
      assert b[..k] == h + tail;
      ReadHeader(STAR, |parts|, tail);
      CutParts(parts, k - |h|);
    }
  }

  /** How many commands lie completely within the first `k` bytes. */
  function WholeCommands(cmds: seq<Command>, k: nat): (n: nat)
    ensures n <= |cmds|
    decreases |cmds|
  {
    if cmds == [] || |CommandBytes(cmds[0])| > k then 0
    else 1 + WholeCommands(cmds[1..], k - |CommandBytes(cmds[0])|)
  }

  /** A connection that breaks at any byte delivers exactly the commands that arrived whole, and nothing is misread. */
  lemma {:induction false} CutPipeline(cmds: seq<Command>, k: nat)
    requires forall i :: 0 <= i < |cmds| ==> Fits([cmds[i].name] + cmds[i].args)
    requires k <= |PipelineBytes(cmds)|
    ensures var (got, e) := ReadAll(PipelineBytes(cmds)[..k]); got == cmds[..WholeCommands(cmds, k)] && Unfinished(e)
    decreases |cmds|
  {
    hide CommandBytes, Fits, ReadCommand;
    if cmds == [] {
      NothingLeft();
      assert PipelineBytes(cmds)[..k] == [] && cmds[..0] == [];
    } else {
      var b, first := PipelineBytes(cmds)[..k], CommandBytes(cmds[0]);
      if k < |first| {
        assert b == first[..k];
        CutCommand(cmds[0], k);
        assert cmds[..0] == [];
      } else {
        var rest := PipelineBytes(cmds[1..])[..k - |first|];
        assert b == first + rest;
        ReadOfCommand(cmds[0], rest);
        ReadAllStep(cmds[0], rest);
        CutPipeline(cmds[1..], k - |first|);
        var n := WholeCommands(cmds[1..], k - |first|);
        assert [cmds[0]] + cmds[1..][..n] == cmds[..n + 1];
      }
    }
  }

  // ---------------------------------------------------------------- the reader

  /** The buffered reader of a connection: what it has not handed out yet. */
  class Reader {
    var rest: Bytes

    constructor (input: Bytes)
      ensures rest == input
    {
      rest := input;
    }

    method NextLine() returns (l: Line)
      modifies this
      ensures l == ReadLine(old(rest))
      ensures rest == if l.Line? then l.rest else []
    {
      var n := 0;
      while n < |rest| && rest[n] != LF
        invariant n <= |rest| && forall i :: 0 <= i < n ==> rest[i] != LF
      {
        n := n + 1;
      }
      if n < |rest| {
        LineLengthIs(rest, n);
      }
      if n == |rest| {
        rest := [];
        return NoLine;
      }
      var line := rest[..n];
      if |line| > 0 && line[|line| - 1] == CR {
        line := line[..|line| - 1];
      }
      rest := rest[n + 1..];
      return Line(line, rest);
    }

    method NextBulk() returns (r: Bulk)
      modifies this
      ensures r == ReadBulk(old(rest))
      ensures r.Bulk? ==> rest == r.rest
    {
      var line := NextLine();
      if line.NoLine? {
        return BulkError(Eof);
      }
      if line.text == [] || line.text[0] != DOLLAR {
        return BulkError(Protocol);
      }
      var n := Atoi(line.text[1..]);
      if n.None? {
        return BulkError(Protocol);
      }
      if n.value < 0 {
        return Bulk([], rest);
      }
      if |rest| < n.value + 2 {
        return BulkError(if rest == [] then Eof else UnexpectedEof);
      }
      var data := rest[..n.value];
      rest := rest[n.value + 2..];
      return Bulk(data, rest);
    }

    method NextCommand() returns (r: Parsed)
      modifies this
      ensures r == ReadCommand(old(rest))
      ensures r.Parsed? ==> rest == r.rest
    {
      hide ReadLine, ReadBulk, Atoi;
      var line := NextLine();
      if line.NoLine? {
        return ParseError(Eof);
      }
      if line.text == [] || line.text[0] != STAR {
        return ParseError(Protocol);
      }
      var n := Atoi(line.text[1..]);
      if n.None? || n.value < 1 {
        return ParseError(Protocol);
      }
      var parts: seq<Bytes> := [];
      ghost var start := rest;
      for i := 0 to n.value
        invariant |parts| == i
        invariant ReadParts(start, n.value) ==
                  match ReadParts(rest, n.value - i)
                  case PartsError(e) => PartsError(e)
                  case Parts(more, after) => Parts(parts + more, after)
      {
        ghost var before := rest;
        var b := NextBulk();
        if b.BulkError? {
          return ParseError(b.error);
        }
        ghost var tail := ReadParts(rest, n.value - i - 1);
        if tail.Parts? {
          assert parts + ([b.data] + tail.parts) == parts + [b.data] + tail.parts;
        }
        parts := parts + [b.data];
      }
      return Parsed(Command(parts[0], parts[1..]), rest);
    }
  }
}
