/** Single bits of small integers: what Go's & and | do with a constant of one bit. */
module BitOps {
  import opened Arith
  import opened Octets

  /** x & (1 << k) != 0 */
  predicate HasBit(x: nat, k: nat)
  {
    if k == 0 then x % 2 == 1 else HasBit(x / 2, k - 1)
  }

  /** x | (1 << k) */
  function WithBit(x: nat, k: nat): nat
  {
    if k == 0 then x / 2 * 2 + 1 else WithBit(x / 2, k - 1) * 2 + x % 2
  }

  /** That bit becomes set and the others stay. */
  lemma {:induction false} WithBitSets(x: nat, k: nat, j: nat)
    ensures HasBit(WithBit(x, k), j) == (j == k || HasBit(x, j))
  {
    assert WithBit(x, k) / 2 == if k == 0 then x / 2 else WithBit(x / 2, k - 1);
    if k > 0 && j > 0 {
      WithBitSets(x / 2, k - 1, j - 1);
    }
  }

  lemma {:induction false} WithBitFits(x: nat, k: nat, n: nat)
    requires k < n && x < Pow2(n)
    ensures WithBit(x, k) < Pow2(n)
  {
    if k > 0 {
      WithBitFits(x / 2, k - 1, n - 1);
    }
  }

  /** In a byte. */
  function SetBit(x: byte, k: nat): (r: byte)
    requires k < 4
    ensures forall j: nat :: HasBit(r, j) == (j == k || HasBit(x, j))
    ensures x < 16 ==> r < 16
  {
    forall j: nat
      ensures HasBit(WithBit(x, k), j) == (j == k || HasBit(x, j))
    {
      WithBitSets(x, k, j);
    }
    assert Pow2(4) == 16;
    assert Pow2(8) == 256;
    WithBitFits(x, k, 8);
    if x < 16 then WithBitFits(x, k, 4); WithBit(x, k) else WithBit(x, k)
  }
}
