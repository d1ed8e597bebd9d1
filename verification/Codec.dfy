/** The write-ahead log's record format: payload, checksum and length framing. */
module Codec {
  import opened ByteSeqs

  const KIND_PUT: Byte := 1

  const KIND_DELETE: Byte := 2

  datatype Record = Record(
    pos: nat,        // commit position
    kind: Byte,
    key: Bytes,
    value: Bytes,
    expires: int,    // Unix nanoseconds, 0 = no expiry
    idem: Bytes)     // idempotency key, empty = none

  datatype Error =
    | PayloadTooShort
    | TruncatedKey
    | TruncatedValueLength
    | TruncatedValue
    | TruncatedExpiry
    | TruncatedIdemLength
    | TruncatedIdem
    | ChecksumMismatch

  datatype Decoded = Ok(rec: Record) | Err(error: Error)

  /** Any deterministic 32-bit checksum; every statement below holds for each of them. */
  type Checksum = Bytes -> U32

  // ---------------------------------------------------------------- length-prefixed fields

  function PutField(b: Bytes): (f: Bytes)
    ensures |f| == 4 + |b|
  {
    PutUint(|b|, 4) + b
  }

  datatype Field = Field(data: Bytes, next: nat) | LengthMissing | DataMissing

  /** One length-prefixed field at cursor `off`. */
  function ReadField(p: Bytes, off: nat): (f: Field)
    requires off <= |p|
    ensures f.Field? ==> off + 4 <= f.next <= |p|
  {
    if off + 4 > |p| then LengthMissing
    else
      var n := Uint(p[off..off + 4]);
      if off + 4 + n > |p| then DataMissing
      else Field(p[off + 4..off + 4 + n], off + 4 + n)
  }

  lemma ReadFieldAt(p: Bytes, off: nat, b: Bytes)
    requires |b| < TWO_32 && off + 4 + |b| <= |p|
    requires p[off..off + 4 + |b|] == PutField(b)
    ensures ReadField(p, off) == Field(b, off + 4 + |b|)
  {
    var f := p[off..off + 4 + |b|];
    assert p[off..off + 4] == f[..4] == PutUint(|b|, 4);
    assert p[off + 4..off + 4 + |b|] == f[4..] == b;
    Widths();
    UintOfPut(|b|, 4);
  }

  lemma ReadFieldSound(p: Bytes, off: nat)
    requires off <= |p| && ReadField(p, off).Field?
    ensures var f := ReadField(p, off);
            p[off..f.next] == PutField(f.data) && f.next == off + 4 + |f.data| && |f.data| < TWO_32
  {
    var f := ReadField(p, off);
    Widths();
    PutOfUint(p[off..off + 4]);
    assert p[off..f.next] == p[off..off + 4] + p[off + 4..f.next];
  }

  // ---------------------------------------------------------------- payload

  /** The payload bytes `encodePayload` lays out. */
  function Payload(r: Record): (p: Bytes)
    ensures |p| == 29 + |r.key| + |r.value| + |r.idem|
  {
    PutUint(r.pos, 8) + [r.kind] + PutField(r.key) + PutField(r.value)
    + PutUint(ToUint64(r.expires), 8) + PutField(r.idem)
  }

  /** `decodePayload`: a cursor over `p`; bytes after the idempotency key are ignored. */
  function DecodePayload(p: Bytes): (d: Decoded)
    ensures d.Ok? ==> IsInt64(d.rec.expires)
  {
    if |p| < 13 then Err(PayloadTooShort)
    else
      match ReadField(p, 9)
      case LengthMissing => Err(TruncatedKey)
      case DataMissing => Err(TruncatedKey)
      case Field(key, o1) =>
        match ReadField(p, o1)
        case LengthMissing => Err(TruncatedValueLength)
        case DataMissing => Err(TruncatedValue)
        case Field(value, o2) =>
          if o2 + 8 > |p| then Err(TruncatedExpiry)
          else
            match ReadField(p, o2 + 8)
            case LengthMissing => Err(TruncatedIdemLength)
            case DataMissing => Err(TruncatedIdem)
            case Field(idem, _) =>
              Widths();
              Ok(Record(Uint(p[..8]), p[8], key, value, ToInt64(Uint(p[o2..o2 + 8])), idem))
  }

  /** What the payload can carry: 64-bit position and expiry, and fields whose lengths fit 32 bits. */
  predicate Representable(r: Record) {
    r.pos < TWO_64 && IsInt64(r.expires) && |r.key| < TWO_32 && |r.value| < TWO_32 && |r.idem| < TWO_32
  }

  /** What a frame can carry: a 64-bit position and expiry, and a frame whose length fits 32 bits. */
  predicate Encodable(r: Record) {
    && r.pos < TWO_64
    && IsInt64(r.expires)
    && 8 + |Payload(r)| < TWO_32
  }

  /** Where each part of the payload sits, byte by byte. */
  lemma PayloadLayout(r: Record)
    ensures var p := Payload(r);
            var (k, v, i) := (|r.key|, |r.value|, |r.idem|);
            && p[..8] == PutUint(r.pos, 8) && p[8] == r.kind
            && p[9..13] == PutUint(k, 4) && p[13..13 + k] == r.key
            && p[13 + k..17 + k] == PutUint(v, 4) && p[17 + k..17 + k + v] == r.value
            && p[17 + k + v..25 + k + v] == PutUint(r.expires % TWO_64, 8)
            && p[25 + k + v..29 + k + v] == PutUint(i, 4) && p[29 + k + v..] == r.idem
  {
    hide PutUint;
    PayloadParts(r, []);
    var p := Payload(r);
    assert p + [] == p;
    var (k, v, i) := (|r.key|, |r.value|, |r.idem|);
    FieldParts(p, 9, r.key);
    FieldParts(p, 13 + k, r.value);
    FieldParts(p, 25 + k + v, r.idem);
    assert p[29 + k + v..29 + k + v + i] == p[29 + k + v..];
  }

  lemma FieldParts(p: Bytes, off: nat, b: Bytes)
    requires off + 4 + |b| <= |p| && p[off..off + 4 + |b|] == PutField(b)
    ensures p[off..off + 4] == PutUint(|b|, 4) && p[off + 4..off + 4 + |b|] == b
  {
    hide PutUint;
    var f := p[off..off + 4 + |b|];
    assert p[off..off + 4] == f[..4];
    assert p[off + 4..off + 4 + |b|] == f[4..];
  }

  /** The parts as they are encoded, in front of any bytes. */
  lemma PayloadParts(r: Record, rest: Bytes)
    ensures var p := Payload(r) + rest;
            var o1 := 13 + |r.key|;
            var o2 := o1 + 4 + |r.value|;
            && p[..8] == PutUint(r.pos, 8)
            && p[8] == r.kind
            && p[9..o1] == PutField(r.key)
            && p[o1..o2] == PutField(r.value)
            && p[o2..o2 + 8] == PutUint(ToUint64(r.expires), 8)
            && p[o2 + 8..o2 + 12 + |r.idem|] == PutField(r.idem)
  {
    hide PutUint, PutField, ToUint64;
  }

  /** Decoding an encoded record gives it back, whatever bytes follow it. */
  lemma DecodeOfEncode(r: Record, rest: Bytes)
    requires Representable(r)
    ensures DecodePayload(Payload(r) + rest) == Ok(r)
  {
    hide PutUint, Uint, ToUint64, ToInt64, PutField, ReadField;
    var p := Payload(r) + rest;
    var o1 := 13 + |r.key|;
    var o2 := o1 + 4 + |r.value|;
    PayloadParts(r, rest);
    ReadFieldAt(p, 9, r.key);
    ReadFieldAt(p, o1, r.value);
    ReadFieldAt(p, o2 + 8, r.idem);
    Widths();
    UintOfPut(r.pos, 8);
    UintOfPut(ToUint64(r.expires), 8);
    ToInt64OfToUint64(r.expires);
  }

  /** Whatever `decodePayload` accepts starts with the encoding of what it returned. */
  lemma EncodeOfDecode(p: Bytes)
    requires DecodePayload(p).Ok?
    ensures var r := DecodePayload(p).rec; Representable(r) && Payload(r) <= p
  {
    var r := DecodePayload(p).rec;
    var o1 := ReadField(p, 9).next;
    var o2 := ReadField(p, o1).next;
    var o3 := ReadField(p, o2 + 8).next;
    assert p[9..o1] == PutField(r.key) by { ReadFieldSound(p, 9); }
    assert p[o1..o2] == PutField(r.value) by { ReadFieldSound(p, o1); }
    assert p[o2 + 8..o3] == PutField(r.idem) by { ReadFieldSound(p, o2 + 8); }
    Widths();
    assert PutUint(r.pos, 8) == p[..8] by { PutOfUint(p[..8]); }
    assert PutUint(ToUint64(r.expires), 8) == p[o2..o2 + 8] by { PutOfUint(p[o2..o2 + 8]); }
    Join(p, o1, o2, o3);
  }

  lemma Join(p: Bytes, o1: nat, o2: nat, o3: nat)
    requires 9 <= o1 <= o2 && o2 + 8 <= o3 <= |p|
    ensures p[..8] + [p[8]] + p[9..o1] + p[o1..o2] + p[o2..o2 + 8] + p[o2 + 8..o3] == p[..o3]
  {
  }

  /** So it accepts exactly the byte strings that begin with an encoding, and there is only one such record. */
  lemma DecodeAcceptsIff(p: Bytes, r: Record)
    ensures DecodePayload(p) == Ok(r) <==> Representable(r) && Payload(r) <= p
  {
    hide DecodePayload, Payload, Representable;
    if DecodePayload(p) == Ok(r) {
      EncodeOfDecode(p);
    }
    if Representable(r) && Payload(r) <= p {
      DecodeOfEncode(r, p[|Payload(r)|..]);
      assert Payload(r) + p[|Payload(r)|..] == p;
    }
  }

  /** A payload that ends too early is refused with the name of the part in which it ends. */
  lemma TruncatedPayload(r: Record, k: nat)
    requires Representable(r) && k < |Payload(r)|
    ensures var o1 := 13 + |r.key|;
            var o2 := o1 + 4 + |r.value|;
            DecodePayload(Payload(r)[..k]) ==
            Err(if k < 13 then PayloadTooShort
                else if k < o1 then TruncatedKey
                else if k < o1 + 4 then TruncatedValueLength
                else if k < o2 then TruncatedValue
                else if k < o2 + 8 then TruncatedExpiry
                else if k < o2 + 12 then TruncatedIdemLength
                else TruncatedIdem)
  {
    hide PutUint, Uint, ToUint64, ToInt64, PutField, ReadField;
    var o1 := 13 + |r.key|;
    var o2 := o1 + 4 + |r.value|;
    PayloadParts(r, []);
    assert Payload(r) + [] == Payload(r);
    if 13 <= k {
      ReadFieldCut(Payload(r), k, 9, r.key);
      if o1 <= k {
        ReadFieldCut(Payload(r), k, o1, r.value);
        if o2 + 8 <= k {
          ReadFieldCut(Payload(r), k, o2 + 8, r.idem);
        }
      }
    }
  }

  /** A field in a string that is cut at `k`. */
  lemma ReadFieldCut(p: Bytes, k: nat, off: nat, b: Bytes)
    requires |b| < TWO_32 && off + 4 + |b| <= |p| && off <= k <= |p|
    requires p[off..off + 4 + |b|] == PutField(b)
    ensures ReadField(p[..k], off) ==
            if k < off + 4 then LengthMissing
            else if k < off + 4 + |b| then DataMissing
            else Field(b, off + 4 + |b|)
  {
    if off + 4 <= k {
      FieldParts(p, off, b);
      assert p[..k][off..off + 4] == p[off..off + 4];
      Widths();
      UintOfPut(|b|, 4);
      if off + 4 + |b| <= k {
        assert p[..k][off + 4..off + 4 + |b|] == p[off + 4..off + 4 + |b|];
      }
    }
  }

  // ---------------------------------------------------------------- framing

  function Body(crc: Checksum, r: Record): (b: Bytes)
    ensures |b| == 4 + |Payload(r)|
  {
    PutUint(crc(Payload(r)), 4) + Payload(r)
  }

  /** The bytes `Append` writes for one record. */
  function Frame(crc: Checksum, r: Record): (f: Bytes)
    ensures |f| >= 8
  {
    PutUint(|Body(crc, r)|, 4) + Body(crc, r)
  }

  /** A record that was read: `n` is the length reported for it, `used` what the reader consumed. */
  datatype ReadResult = Eof | Torn | Corrupt(error: Error) | Got(rec: Record, n: nat, used: nat)

  /** `readRecord` on the bytes that remain in the reader. The reported length is a 32-bit sum and may wrap around. */
  function ReadRecord(crc: Checksum, b: Bytes): (r: ReadResult)
    ensures r.Got? ==> 8 <= r.used <= |b| && r.used < TWO_32 + 4 && r.n == r.used % TWO_32
    ensures r.Eof? <==> b == []
  {
    if b == [] then Eof
    else if |b| < 4 then Torn
    else
      var length := Uint(b[..4]);
      if |b| < 4 + length then Torn
      else if length < 4 then Torn
      else if Uint(b[4..8]) != crc(b[8..4 + length]) then Corrupt(ChecksumMismatch)
      else
        match DecodePayload(b[8..4 + length])
        case Err(e) => Corrupt(e)
        case Ok(rec) => Widths(); Got(rec, (4 + length) % TWO_32, 4 + length)
  }

  /** As long as the body length fits its field the record is read back, though the reported length may have wrapped. */
  lemma ReadOfAnyFrame(crc: Checksum, r: Record, rest: Bytes)
    requires r.pos < TWO_64 && IsInt64(r.expires) && |Body(crc, r)| < TWO_32
    ensures ReadRecord(crc, Frame(crc, r) + rest) == Got(r, |Frame(crc, r)| % TWO_32, |Frame(crc, r)|)
  {
    hide DecodePayload, Payload, Uint, PutUint;
    var b := Frame(crc, r) + rest;
    var n := |Body(crc, r)|;
    assert b[..4] == PutUint(n, 4);
    assert b[4..8] == PutUint(crc(Payload(r)), 4);
    assert b[8..4 + n] == Payload(r);
    Widths();
    UintOfPut(n, 4);
    UintOfPut(crc(Payload(r)), 4);
    DecodeOfEncode(r, []);
    assert Payload(r) + [] == Payload(r);
  }

  /** A frame followed by arbitrary bytes reads back as its record, and both lengths are exactly the frame's. */
  lemma ReadOfFrame(crc: Checksum, r: Record, rest: Bytes)
    requires Encodable(r)
    ensures ReadRecord(crc, Frame(crc, r) + rest) == Got(r, |Frame(crc, r)|, |Frame(crc, r)|)
  {
    hide DecodePayload, Payload, Uint, PutUint, ReadRecord;
    ReadOfAnyFrame(crc, r, rest);
    assert |Frame(crc, r)| % TWO_32 == |Frame(crc, r)|;
  }

  /**
   * Exactly the frames shorter than 2^32 survive the round trip. A longer body does not fit the length field; a body
   * of the last four lengths that do is read back with a reported length that has wrapped to 0..3.
   */
  lemma FrameRoundTripIffFits(crc: Checksum, r: Record, rest: Bytes)
    requires r.pos < TWO_64 && IsInt64(r.expires)
    ensures ReadRecord(crc, Frame(crc, r) + rest) == Got(r, |Frame(crc, r)|, |Frame(crc, r)|) <==> |Frame(crc, r)| < TWO_32
  {
    hide DecodePayload, Payload, Uint, PutUint, ReadRecord;
    if |Frame(crc, r)| < TWO_32 {
      ReadOfFrame(crc, r, rest);
    }
  }

  /** A proper prefix of a frame is end-of-file when empty and torn otherwise; it is never corrupt and never a record. */
  lemma ReadOfTornFrame(crc: Checksum, r: Record, k: nat)
    requires Encodable(r) && k < |Frame(crc, r)|
    ensures ReadRecord(crc, Frame(crc, r)[..k]) == if k == 0 then Eof else Torn
  {
    if 4 <= k {
      assert Frame(crc, r)[..k][..4] == PutUint(|Body(crc, r)|, 4);
      Widths();
      UintOfPut(|Body(crc, r)|, 4);
    }
  }

  /** A record that was read depends only on the bytes it consumed. */
  lemma ReadIsLocal(crc: Checksum, b: Bytes, c: Bytes)
    requires ReadRecord(crc, b).Got?
    requires ReadRecord(crc, b).used <= |c| && c[..ReadRecord(crc, b).used] == b[..ReadRecord(crc, b).used]
    ensures ReadRecord(crc, c) == ReadRecord(crc, b)
  {
    hide DecodePayload, Uint;
    var n := ReadRecord(crc, b).used;
    assert c[..4] == c[..n][..4] == b[..n][..4] == b[..4];
    assert c[4..8] == c[..n][4..8] == b[..n][4..8] == b[4..8];
    assert c[8..n] == c[..n][8..n] == b[..n][8..n] == b[8..n];
  }

  /** The length field and as many bytes as it announces, at least those of a checksum. */
  predicate Whole(b: Bytes) {
    |b| >= 8 && 4 <= Uint(b[..4]) <= |b| - 4
  }

  /** The bytes behind the checksum of a whole frame. */
  function Content(b: Bytes): (p: Bytes)
    requires Whole(b)
  {
    b[8..4 + Uint(b[..4])]
  }

  /**
   * What a read returns on any bytes at all, in terms of the encoder: nothing at the end, torn iff the frame is not
   * whole, a checksum mismatch iff the stored checksum is not that of the content, and a record iff the checksum is
   * right and the content begins with the record's encoding.
   */
  lemma ReadIff(crc: Checksum, b: Bytes, r: Record)
    ensures var got := ReadRecord(crc, b);
            && (got.Eof? <==> b == [])
            && (got.Torn? <==> b != [] && !Whole(b))
            && (got == Corrupt(ChecksumMismatch) <==> Whole(b) && b[4..8] != PutUint(crc(Content(b)), 4))
            && (got.Got? && got.rec == r <==>
                  Whole(b) && b[4..8] == PutUint(crc(Content(b)), 4) && Representable(r) && Payload(r) <= Content(b))
            && (got.Got? ==> got.used == 8 + |Content(b)|)
  {
    hide Payload, Uint, PutUint;
    if Whole(b) {
      var p := Content(b);
      DecodeAcceptsIff(p, r);
      Widths();
      UintOfPut(crc(p), 4);
      PutOfUint(b[4..8]);
      NoMismatch(p);
    }
  }

  lemma NoMismatch(p: Bytes)
    ensures DecodePayload(p) != Err(ChecksumMismatch)
  {
  }

  /** The frame of `r` with its payload overwritten by other bytes of the same length. */
  function Overwritten(crc: Checksum, r: Record, p: Bytes): (f: Bytes) {
    PutUint(|Body(crc, r)|, 4) + PutUint(crc(Payload(r)), 4) + p
  }

  /** An altered payload that the checksum tells apart is never taken for a record. */
  lemma OverwrittenIsCorrupt(crc: Checksum, r: Record, p: Bytes, rest: Bytes)
    requires |Body(crc, r)| < TWO_32 && |p| == |Payload(r)| && crc(p) != crc(Payload(r))
    ensures ReadRecord(crc, Overwritten(crc, r, p) + rest) == Corrupt(ChecksumMismatch)
  {
    hide DecodePayload, Payload, Uint, PutUint;
    var b := Overwritten(crc, r, p) + rest;
    var n := |Body(crc, r)|;
    assert b[..4] == PutUint(n, 4);
    assert b[4..8] == PutUint(crc(Payload(r)), 4);
    assert b[8..4 + n] == p;
    Widths();
    UintOfPut(n, 4);
    UintOfPut(crc(Payload(r)), 4);
  }

  // ---------------------------------------------------------------- the encoder, in place

  /** Writes the low `n` bytes of `v` at `off`, as encoding/binary's PutUint32 and PutUint64 do. */
  method PutUintAt(a: array<Byte>, off: nat, v: nat, n: nat)
    requires off + n <= a.Length
    modifies a
    ensures a[..] == old(a[..off]) + PutUint(v, n) + old(a[off + n..])
  {
    var rest := v;
    for i := 0 to n
      invariant PutUint(v, n) == a[off..off + i] + PutUint(rest, n - i)
      invariant a[..off] == old(a[..off]) && a[off + i..] == old(a[off + i..])
    {
      ghost var before := a[off..off + i];
      a[off + i] := rest % 256;
      assert a[off..off + i + 1] == before + [rest % 256];
      rest := rest / 256;
    }
    assert a[..] == a[..off] + a[off..off + n] + a[off + n..];
  }

  method CopyAt(a: array<Byte>, off: nat, b: Bytes)
    requires off + |b| <= a.Length
    modifies a
    ensures a[..] == old(a[..off]) + b + old(a[off + |b|..])
  {
    for i := 0 to |b|
      invariant a[off..off + i] == b[..i]
      invariant a[..off] == old(a[..off]) && a[off + i..] == old(a[off + i..])
    {
      a[off + i] := b[i];
      assert a[off..off + i + 1] == a[off..off + i] + [b[i]];
    }
    assert a[..] == a[..off] + a[off..off + |b|] + a[off + |b|..];
  }

  /** `encodePayload`: fills a buffer of the exact size through a moving offset. */
  method EncodePayload(r: Record) returns (payload: array<Byte>)
    ensures fresh(payload) && payload[..] == Payload(r)
  {
    payload := new Byte[8 + 1 + 4 + |r.key| + 4 + |r.value| + 8 + 4 + |r.idem|](_ => 0);
    var off := 0;
    PutUintAt(payload, off, r.pos, 8);
    off := off + 8;
    assert payload[..off] == PutUint(r.pos, 8);
    CopyAt(payload, off, [r.kind]);
    off := off + 1;
    assert payload[..off] == PutUint(r.pos, 8) + [r.kind];
    off := EncodeField(payload, off, r.key);
    off := EncodeField(payload, off, r.value);
    ghost var done := payload[..off];
    PutUintAt(payload, off, ToUint64(r.expires), 8);
    off := off + 8;
    assert payload[..off] == done + PutUint(ToUint64(r.expires), 8);
    off := EncodeField(payload, off, r.idem);
    assert payload[..] == payload[..off];
  }

  method EncodeField(a: array<Byte>, off: nat, b: Bytes) returns (next: nat)
    requires off + 4 + |b| <= a.Length
    modifies a
    ensures next == off + 4 + |b|
    ensures a[..next] == old(a[..off]) + PutField(b)
  {
    PutUintAt(a, off, |b|, 4);
    assert a[..off + 4] == old(a[..off]) + PutUint(|b|, 4);
    CopyAt(a, off + 4, b);
    next := off + 4 + |b|;
  }
}
