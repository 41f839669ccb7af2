/** Bytes, little-endian integers and the two failure types shared by every module. */
module Octets {

  type byte = b: int | 0 <= b < 256

  /** A Go string. */
  type Text = seq<byte>

  datatype Option<+T> = None | Some(value: T)

  datatype Result<+T, +E> = Ok(value: T) | Err(error: E)

  const TWO_TO_32: nat := 0x1_0000_0000
  const TWO_TO_64: nat := 0x1_0000_0000_0000_0000

  type uint32 = n: nat | n < 0x1_0000_0000
  type uint64 = n: nat | n < 0x1_0000_0000_0000_0000
  type int64 = n: int | -0x8000_0000_0000_0000 <= n < 0x8000_0000_0000_0000

  function Min(a: int, b: int): int { if a < b then a else b }

  function Max(a: int, b: int): int { if a < b then b else a }

  /** Go's conversion uint64(x) for an int64 x. */
  function ToUnsigned(x: int64): uint64 { if x < 0 then x + TWO_TO_64 else x }

  /** Go's conversion int64(u) for a uint64 u. */
  function ToSigned(u: uint64): int64 { if u < 0x8000_0000_0000_0000 then u else u - TWO_TO_64 }

  function Pow256(k: nat): nat { if k == 0 then 1 else 256 * Pow256(k - 1) }

  /** The k low bytes of n, least significant first. */
  function PutLE(n: nat, k: nat): (b: seq<byte>)
    ensures |b| == k
  {
    if k == 0 then [] else [n % 256] + PutLE(n / 256, k - 1)
  }

  function GetLE(b: seq<byte>): nat
  {
    if b == [] then 0 else b[0] + 256 * GetLE(b[1..])
  }

  /** Writing an integer that fits and reading it back is the identity. */
  lemma {:induction false} GetPutLE(n: nat, k: nat)
    requires n < Pow256(k)
    ensures GetLE(PutLE(n, k)) == n
  {
    if k == 0 {
    } else {
      GetPutLE(n / 256, k - 1);
      assert PutLE(n, k)[1..] == PutLE(n / 256, k - 1);
    }
  }

  lemma Pow256Values()
    ensures Pow256(4) == TWO_TO_32 && Pow256(8) == TWO_TO_64
  {
    assert Pow256(1) == 256 && Pow256(2) == 0x1_0000 && Pow256(3) == 0x100_0000;
    assert Pow256(4) == TWO_TO_32;
    assert Pow256(5) == 0x100_0000_0000 && Pow256(6) == 0x1_0000_0000_0000;
    assert Pow256(7) == 0x100_0000_0000_0000;
  }

  lemma GetLEBound(b: seq<byte>)
    ensures GetLE(b) < Pow256(|b|)
  {
  }
}
