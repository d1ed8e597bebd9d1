/** Byte strings and the fixed-width little-endian integers the on-disk formats are made of. */
module ByteSeqs {

  type Byte = x: int | 0 <= x < 256

  type Bytes = seq<Byte>

  const TWO_32 := 0x1_0000_0000

  const TWO_63 := 0x8000_0000_0000_0000

  const TWO_64 := 0x1_0000_0000_0000_0000

  type U32 = x: nat | x < TWO_32

  function Pow256(n: nat): (p: nat)
    ensures p > 0
  {
    if n == 0 then 1 else 256 * Pow256(n - 1)
  }

  /** The low `n` bytes of `v`, least significant first (a value that is too wide is truncated). */
  function PutUint(v: nat, n: nat): (b: Bytes)
    ensures |b| == n
  {
    if n == 0 then [] else [v % 256] + PutUint(v / 256, n - 1)
  }

  /** The unsigned integer that `b` spells, least significant byte first. */
  function Uint(b: Bytes): (v: nat)
    ensures v < Pow256(|b|)
  {
    if b == [] then 0 else b[0] + 256 * Uint(b[1..])
  }

  /** Each byte weighs 256 times as much as the one before it: the last of `n + 1` bytes weighs 256^n. */
  lemma {:induction false} UintLast(b: Bytes, x: Byte)
    ensures Uint(b + [x]) == Uint(b) + Pow256(|b|) * x
  {
    if b == [] {
      assert [x][1..] == [] && b + [x] == [x];
    } else {
      assert (b + [x])[1..] == b[1..] + [x];
      UintLast(b[1..], x);
      assert 256 * (Pow256(|b| - 1) * x) == Pow256(|b|) * x;
    }
  }

  /** Reading back a value that fits the width gives that value. */
  lemma {:induction false} UintOfPut(v: nat, n: nat)
    requires v < Pow256(n)
    ensures Uint(PutUint(v, n)) == v
  {
    if n > 0 {
      UintOfPut(v / 256, n - 1);
      assert PutUint(v, n)[1..] == PutUint(v / 256, n - 1);
    }
  }

  /** Writing back what was read gives the same bytes. */
  lemma {:induction false} PutOfUint(b: Bytes)
    ensures PutUint(Uint(b), |b|) == b
  {
    if b != [] {
      PutOfUint(b[1..]);
      assert Uint(b) % 256 == b[0] && Uint(b) / 256 == Uint(b[1..]);
    }
  }

  lemma Widths()
    ensures Pow256(1) == 256 && Pow256(4) == TWO_32 && Pow256(8) == TWO_64
  {
    assert Pow256(2) == 0x1_0000 && Pow256(3) == 0x100_0000 && Pow256(4) == TWO_32;
    assert Pow256(5) == 256 * TWO_32 && Pow256(6) == 0x1_0000 * TWO_32 && Pow256(7) == 0x100_0000 * TWO_32;
  }

  predicate IsInt64(x: int) {
    -TWO_63 <= x < TWO_63
  }

  /** A signed 64-bit integer as the unsigned one with the same bits, and back. */
  function ToUint64(x: int): (v: nat)
    ensures v < TWO_64
  {
    x % TWO_64
  }

  function ToInt64(v: nat): (x: int)
    requires v < TWO_64
    ensures IsInt64(x) && ToUint64(x) == v
  {
    if v >= TWO_63 then v - TWO_64 else v
  }

  lemma ToInt64OfToUint64(x: int)
    requires IsInt64(x)
    ensures ToInt64(ToUint64(x)) == x
  {
    assert x < 0 ==> (x + TWO_64) % TWO_64 == x % TWO_64;
  }
}
