/** Bytes, digests and the fixed-width integer encodings of packages/utils/src/bytes.ts. */
module Bytes {

  type byte = x: int | 0 <= x < 256

  /** A 32-byte string: a seed, a root, or the output of the hash function. */
  type Digest = d: seq<byte> | |d| == 32 witness seq(32, i => 0)

  /** SHA-256 is not part of this model: every result holds for every function of this type. */
  type Hash = seq<byte> -> Digest

  function Pow2(k: nat): (r: nat)
    ensures r > 0
  {
    if k == 0 then 1 else 2 * Pow2(k - 1)
  }

  function Pow256(k: nat): (r: nat)
    ensures r > 0
  {
    if k == 0 then 1 else 256 * Pow256(k - 1)
  }

  /** `intToBytes(value, length)`: little endian, the low `length` bytes. */
  function IntToBytes(value: nat, length: nat): (r: seq<byte>)
    ensures |r| == length
  {
    if length == 0 then [] else [value % 256] + IntToBytes(value / 256, length - 1)
  }

  /** `bytesToBigInt(bytes)`: little endian. */
  function BytesToInt(bytes: seq<byte>): nat {
    if bytes == [] then 0 else bytes[0] + 256 * BytesToInt(bytes[1..])
  }

  /** The two encodings undo each other on every value that fits the width. */
  lemma {:induction false} IntBytesRoundTrip(value: nat, length: nat)
    requires value < Pow256(length)
    ensures BytesToInt(IntToBytes(value, length)) == value
  {
    if length == 0 {
    } else {
      IntBytesRoundTrip(value / 256, length - 1);
      assert IntToBytes(value, length)[1..] == IntToBytes(value / 256, length - 1);
    }
  }

  /** Bit `k` of a byte: `(b >> k) & 1`. */
  predicate BitOf(b: nat, k: nat) {
    if k == 0 then b % 2 == 1 else BitOf(b / 2, k - 1)
  }

  lemma {:induction false} ZeroHasNoBits(k: nat)
    ensures !BitOf(0, k)
  {
    if k > 0 {
      ZeroHasNoBits(k - 1);
    }
  }

  /** The low `n` bits of `2^n - 1` are set. */
  lemma {:induction false} AllBits(n: nat, k: nat)
    requires k < n
    ensures BitOf(Pow2(n) - 1, k)
  {
    assert Pow2(n) - 1 == 2 * (Pow2(n - 1) - 1) + 1;
    if k > 0 {
      AllBits(n - 1, k - 1);
    }
  }
}

/** The 32-bit signed view that JavaScript's bitwise operators take of a number. */
module JsInt {

  const TWO_31: int := 0x8000_0000
  const TWO_32: int := 0x1_0000_0000

  function ToInt32(x: int): (r: int)
    ensures -TWO_31 <= r < TWO_31
  {
    (x + TWO_31) % TWO_32 - TWO_31
  }

  /** `x >> 8`, rounding toward minus infinity. */
  function Sar8(x: int): int {
    ToInt32(x) / 256
  }

  /** `x >> 16`. */
  function Sar16(x: int): int {
    ToInt32(x) / 0x1_0000
  }

  /** `x >> 24`. */
  function Sar24(x: int): int {
    ToInt32(x) / 0x100_0000
  }

  /** `x >> 1`. */
  function Sar1(x: int): int {
    ToInt32(x) / 2
  }
}
