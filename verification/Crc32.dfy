/** The checksum the log uses, CRC-32 of IEEE 802.3, bit by bit, and the damage it is sure to detect. */
module Crc32 {
  import opened ByteSeqs
  import opened Codec
  import opened Recovery

  /** A register, least significant bit first. */
  type Bits = seq<bool>

  function Pow2(n: nat): (p: nat)
    ensures p > 0
  {
    if n == 0 then 1 else 2 * Pow2(n - 1)
  }

  function BitsOf(x: nat, n: nat): (b: Bits)
    ensures |b| == n
  {
    if n == 0 then [] else [x % 2 == 1] + BitsOf(x / 2, n - 1)
  }

  function Number(b: Bits): (x: nat)
    ensures x < Pow2(|b|)
  {
    if b == [] then 0 else (if b[0] then 1 else 0) + 2 * Number(b[1..])
  }

  lemma {:induction false} NumberOfBits(x: nat, n: nat)
    requires x < Pow2(n)
    ensures Number(BitsOf(x, n)) == x
  {
    if n > 0 {
      NumberOfBits(x / 2, n - 1);
      assert BitsOf(x, n)[1..] == BitsOf(x / 2, n - 1);
    }
  }

  lemma {:induction false} BitsOfNumber(b: Bits)
    ensures BitsOf(Number(b), |b|) == b
  {
    if b != [] {
      BitsOfNumber(b[1..]);
      assert Number(b) / 2 == Number(b[1..]);
    }
  }

  function Xor(a: Bits, b: Bits): (c: Bits)
    requires |a| == |b|
    ensures |c| == |a|
  {
    seq(|a|, i requires 0 <= i < |a| => a[i] != b[i])
  }

  lemma XorCancels(a: Bits, b: Bits, x: Bits)
    requires |a| == |b| == |x| && Xor(a, x) == Xor(b, x)
    ensures a == b
  {
    forall i | 0 <= i < |a| ensures a[i] == b[i] {
      assert Xor(a, x)[i] == Xor(b, x)[i];
    }
  }

  /** The reversed polynomial, by its hexadecimal digits from the lowest on. */
  function Polynomial(): (p: Bits)
    ensures |p| == 32 && p[31]
  {
    Digit(0x0) + (Digit(0x2) + (Digit(0x3) + (Digit(0x8) + (Digit(0x8) + (Digit(0xB) + (Digit(0xD) + Digit(0xE)))))))
  }

  function Digit(x: nat): (b: Bits)
    ensures |b| == 4 && b[3] == (x / 8 % 2 == 1)
  {
    [x % 2 == 1, x / 2 % 2 == 1, x / 4 % 2 == 1, x / 8 % 2 == 1]
  }

  function One(b: bool): (x: nat) {
    if b then 1 else 0
  }

  lemma DigitSum(x: nat)
    requires x < 16
    ensures var d := Digit(x); One(d[0]) + 2 * One(d[1]) + 4 * One(d[2]) + 8 * One(d[3]) == x
  {
    assert x == 2 * (x / 2) + x % 2 && x / 2 == 2 * (x / 4) + x / 2 % 2 && x / 4 == 2 * (x / 8) + x / 4 % 2;
  }

  lemma DigitFirst(x: nat, b: Bits)
    requires x < 16
    ensures Number(Digit(x) + b) == x + 16 * Number(b)
  {
    hide Digit, Number;
    var c := Digit(x) + b;
    assert c[1..][1..] == c[2..] && c[2..][1..] == c[3..] && c[3..][1..] == b;
    NumberStep(c);
    NumberStep(c[1..]);
    NumberStep(c[2..]);
    NumberStep(c[3..]);
    DigitSum(x);
  }

  lemma NumberStep(b: Bits)
    requires b != []
    ensures Number(b) == One(b[0]) + 2 * Number(b[1..])
  {
  }

  lemma PolynomialIs(p: Bits)
    requires p == Polynomial()
    ensures Number(p) == 0xEDB8_8320
  {
    hide Number, Digit;
    var p7 := Digit(0xE);
    var p6 := Digit(0xD) + p7;
    var p5 := Digit(0xB) + p6;
    var p4 := Digit(0x8) + p5;
    var p3 := Digit(0x8) + p4;
    var p2 := Digit(0x3) + p3;
    var p1 := Digit(0x2) + p2;
    assert p7 + [] == p7;
    assert Number([]) == 0 by { NoNumber(); }
    DigitFirst(0xE, []);
    assert Number(p7) == 0xE;
    DigitFirst(0xD, p7);
    assert Number(p6) == 0xED;
    DigitFirst(0xB, p6);
    DigitFirst(0x8, p5);
    assert Number(p4) == 0xEDB8;
    DigitFirst(0x8, p4);
    DigitFirst(0x3, p3);
    assert Number(p2) == 0xED_B883;
    DigitFirst(0x2, p2);
    DigitFirst(0x0, p1);
    assert Number(p1) == 0xEDB_8832;
    assert p == Digit(0x0) + p1;
  }

  lemma NoNumber()
    ensures Number([]) == 0
  {
  }

  /** One bit: shift towards the low end, and add the polynomial if a one falls out. */
  function Shift(s: Bits): (t: Bits)
    requires |s| == 32
    ensures |t| == 32
  {
    var t := s[1..] + [false];
    if s[0] then Xor(t, Polynomial()) else t
  }

  function Shifts(s: Bits, n: nat): (t: Bits)
    requires |s| == 32
    ensures |t| == 32
  {
    if n == 0 then s else Shift(Shifts(s, n - 1))
  }

  /** The low eight bits of a register are those of the byte. */
  function Byte32(x: Byte): (b: Bits)
    ensures |b| == 32
  {
    BitsOf(x, 32)
  }

  /** The register after the bytes: each is added at the low end and shifted through. */
  function Register(s: Bits, b: Bytes): (t: Bits)
    requires |s| == 32
    ensures |t| == 32
  {
    if b == [] then s else Shifts(Xor(Register(s, b[..|b| - 1]), Byte32(b[|b| - 1])), 8)
  }

  function Ones(): (b: Bits)
    ensures |b| == 32
  {
    seq(32, _ => true)
  }

  /** crc32.ChecksumIEEE. */
  function Crc(b: Bytes): (c: U32) {
    Powers();
    Number(Xor(Register(Ones(), b), Ones()))
  }

  lemma Powers()
    ensures Pow2(32) == TWO_32
  {
    assert Pow2(8) == 256;
    assert Pow2(16) == 0x1_0000;
    assert Pow2(24) == 0x100_0000;
  }

  // ---------------------------------------------------------------- nothing is lost on the way

  /** The top bit tells whether the polynomial was added, so a shift can be undone. */
  lemma ShiftInjective(s: Bits, t: Bits)
    requires |s| == |t| == 32 && Shift(s) == Shift(t)
    ensures s == t
  {
    hide Polynomial;
    assert Shift(s)[31] == s[0] && Shift(t)[31] == t[0];
    var s2, t2 := s[1..] + [false], t[1..] + [false];
    if s[0] {
      XorCancels(s2, t2, Polynomial());
    }
    assert s[1..] == s2[..31] && t[1..] == t2[..31];
    assert s == [s[0]] + s[1..] && t == [t[0]] + t[1..];
  }

  lemma {:induction false} ShiftsInjective(s: Bits, t: Bits, n: nat)
    requires |s| == |t| == 32 && Shifts(s, n) == Shifts(t, n)
    ensures s == t
  {
    hide Shift;
    if n > 0 {
      ShiftInjective(Shifts(s, n - 1), Shifts(t, n - 1));
      ShiftsInjective(s, t, n - 1);
    }
  }

  /** Different registers stay different over the same bytes. */
  lemma {:induction false} RegisterInjective(s: Bits, t: Bits, b: Bytes)
    requires |s| == |t| == 32 && Register(s, b) == Register(t, b)
    ensures s == t
  {
    hide Shifts, Byte32, Xor;
    if b != [] {
      var s2, t2 := Register(s, b[..|b| - 1]), Register(t, b[..|b| - 1]);
      var x := Byte32(b[|b| - 1]);
      ShiftsInjective(Xor(s2, x), Xor(t2, x), 8);
      XorCancels(s2, t2, x);
      RegisterInjective(s, t, b[..|b| - 1]);
    }
  }

  lemma {:induction false} RegisterSplits(s: Bits, a: Bytes, b: Bytes)
    requires |s| == 32
    ensures Register(s, a + b) == Register(Register(s, a), b)
    decreases |b|
  {
    hide Shifts, Byte32, Xor;
    if b == [] {
      assert a + b == a;
    } else {
      assert (a + b)[..|a + b| - 1] == a + b[..|b| - 1];
      RegisterSplits(s, a, b[..|b| - 1]);
    }
  }

  lemma ByteInjective(x: Byte, y: Byte)
    requires Byte32(x) == Byte32(y)
    ensures x == y
  {
    hide BitsOf;
    Powers();
    NumberOfBits(x, 32);
    NumberOfBits(y, 32);
  }

  lemma XorSwaps(a: Bits, b: Bits)
    requires |a| == |b|
    ensures Xor(a, b) == Xor(b, a)
  {
  }

  lemma OneStep(s: Bits, x: Byte)
    requires |s| == 32
    ensures Register(s, [x]) == Shifts(Xor(s, Byte32(x)), 8)
  {
    hide Shifts, Byte32, Xor;
    assert [x][..0] == [];
    assert Register(s, []) == s;
  }

  /** CRC-32 detects every change of one byte. */
  lemma OneByteIsDetected(p: Bytes, i: nat, x: Byte)
    requires i < |p| && x != p[i]
    ensures Crc(p[i := x]) != Crc(p)
  {
    hide Register, Number, Shifts, Byte32, Xor;
    var s := Register(Ones(), p[..i]);
    var tail := p[i + 1..];
    assert p == p[..i] + ([p[i]] + tail) && p[i := x] == p[..i] + ([x] + tail);
    RegisterSplits(Ones(), p[..i], [p[i]] + tail);
    RegisterSplits(Ones(), p[..i], [x] + tail);
    RegisterSplits(s, [p[i]], tail);
    RegisterSplits(s, [x], tail);
    if Crc(p[i := x]) == Crc(p) {
      CrcInjective(p[i := x], p);
      RegisterInjective(Register(s, [x]), Register(s, [p[i]]), tail);
      OneStep(s, x);
      OneStep(s, p[i]);
      ShiftsInjective(Xor(s, Byte32(x)), Xor(s, Byte32(p[i])), 8);
      XorSwaps(s, Byte32(x));
      XorSwaps(s, Byte32(p[i]));
      XorCancels(Byte32(x), Byte32(p[i]), s);
      ByteInjective(x, p[i]);
    }
  }

  lemma CrcInjective(a: Bytes, b: Bytes)
    requires Crc(a) == Crc(b)
    ensures Register(Ones(), a) == Register(Ones(), b)
  {
    hide Register, Number, Xor;
    var c, d := Xor(Register(Ones(), a), Ones()), Xor(Register(Ones(), b), Ones());
    BitsOfNumber(c);
    BitsOfNumber(d);
    XorCancels(Register(Ones(), a), Register(Ones(), b), Ones());
  }

  // ---------------------------------------------------------------- the log file

  lemma ChangedInside(file: Bytes, at: nat, part: Bytes, k: nat, x: Byte)
    requires at + |part| <= |file| && file[at..at + |part|] == part && k < |part|
    ensures file[at + k := x] == file[..at] + part[k := x] + file[at + |part|..]
  {
    assert file == file[..at] + part + file[at + |part|..];
  }

  /** One byte changed anywhere in the payload of any record keeps the log from being opened. */
  lemma OneByteIsRefused(log: Log, i: nat, k: nat, x: Byte)
    requires WellFormed(log) && i < |log| && k < |Payload(log[i])| && x != Payload(log[i])[k]
    ensures var at := End(Crc, log, i) + 8 + k;
            && at < |FileBytes(Crc, log)|
            && OpenFile(Crc, FileBytes(Crc, log)[at := x]) == CorruptAt(End(Crc, log, i))
  {
    hide Payload, FileBytes, OpenFile, Altered, WellFormed, End;
    var r := log[i];
    var p := Payload(r)[k := x];
    OneByteIsDetected(Payload(r), k, x);
    AlteredDiffers(Crc, log, i, p);
    var file, at := FileBytes(Crc, log), End(Crc, log, i) + 8;
    ChangedInside(file, at, Payload(r), k, x);
    AlteredIsRefused(Crc, log, i, p);
  }
}
