/** Variable-length integers as in Go's encoding/binary: base 128, least significant group first, with
    zigzag for signed values. */
module Varint {
  import opened Octets

  datatype Reading = Read(v: nat, n: nat) | Short | Overflow

  const MAX_LEN: nat := 10
  const FIRST: nat := 0

  function PutUvarint(x: nat): (b: seq<byte>)
    ensures |b| >= 1
  {
    if x < 128 then [x] else [x % 128 + 128] + PutUvarint(x / 128)
  }

  /** One more than the largest value that fits from group i of a 64-bit value on. */
  function Bound(i: nat): nat
    requires i <= 9
    decreases 9 - i
  {
    if i == 9 then 2 else 128 * Bound(i + 1)
  }

  /** Reads the groups from i on of a 64-bit value. */
  function ReadGroups(b: seq<byte>, i: nat): (r: Reading)
    requires i <= MAX_LEN
    ensures r.Read? ==> i <= 9 && 1 <= r.n <= |b| && r.v < Bound(i)
    decreases MAX_LEN - i
  {
    if b == [] then Short
    else if i == MAX_LEN then Overflow
    else if b[0] < 128 then
      if i == 9 && b[0] > 1 then Overflow
      else
        assert i < 9 ==> Bound(i + 1) >= 2 by { BoundPositive(i); }
        Read(b[0], 1)
    else
      match ReadGroups(b[1..], i + 1)
      case Read(v, n) => Read(b[0] - 128 + 128 * v, n + 1)
      case Short => Short
      case Overflow => Overflow
  }

  lemma BoundPositive(i: nat)
    requires i <= 9
    ensures Bound(i) >= 2
    decreases 9 - i
  {
  }

  lemma BoundIs64Bits()
    ensures Bound(0) == TWO_TO_64
  {
    assert Bound(9) == 2 && Bound(8) == 0x100 && Bound(7) == 0x8000 && Bound(6) == 0x40_0000;
    assert Bound(5) == 0x2000_0000 && Bound(4) == 0x10_0000_0000;
    assert Bound(3) == 0x800_0000_0000 && Bound(2) == 0x4_0000_0000_0000;
    assert Bound(1) == 0x200_0000_0000_0000;
  }

  function Uvarint(b: seq<byte>): (r: Reading)
    ensures r.Read? ==> 1 <= r.n <= |b| && r.v < TWO_TO_64
  {
    BoundIs64Bits();
    ReadGroups(b, FIRST)
  }

  /** What was written is read back, whatever follows it, and takes at most one byte a group. */
  lemma {:induction false} GroupsRoundTrip(x: nat, i: nat, rest: seq<byte>)
    requires i <= 9 && x < Bound(i)
    ensures ReadGroups(PutUvarint(x) + rest, i) == Read(x, |PutUvarint(x)|)
    ensures |PutUvarint(x)| <= MAX_LEN - i
    decreases MAX_LEN - i
  {
    var b := PutUvarint(x) + rest;
    if x >= 128 {
      GroupsRoundTrip(x / 128, i + 1, rest);
      assert b[1..] == PutUvarint(x / 128) + rest;
    }
  }

  lemma UvarintRoundTrip(x: uint64, rest: seq<byte>)
    ensures Uvarint(PutUvarint(x) + rest) == Read(x, |PutUvarint(x)|)
    ensures |PutUvarint(x)| <= MAX_LEN
  {
    BoundIs64Bits();
    GroupsRoundTrip(x, FIRST, rest);
  }

  /** A successful reading does not depend on the bytes after it. */
  lemma {:induction false} GroupsPrefix(b: seq<byte>, rest: seq<byte>, i: nat)
    requires i <= MAX_LEN && ReadGroups(b, i).Read?
    ensures ReadGroups(b + rest, i) == ReadGroups(b, i)
    decreases MAX_LEN - i
  {
    if b[0] >= 128 {
      GroupsPrefix(b[1..], rest, i + 1);
      assert (b + rest)[1..] == b[1..] + rest;
    }
  }

  /** The number the low seven bits of these bytes make, least significant group first. */
  function GroupValue(b: seq<byte>): nat
  {
    if b == [] then 0 else b[0] % 128 + 128 * GroupValue(b[1..])
  }

  /** The first n bytes are one number: only the last of them is below 128. */
  ghost predicate IsNumber(b: seq<byte>, n: nat)
  {
    1 <= n <= |b| && b[n - 1] < 128 && forall i :: 0 <= i < n - 1 ==> b[i] >= 128
  }

  lemma {:induction false} NumberReads(b: seq<byte>, i: nat, n: nat)
    requires i <= MAX_LEN && IsNumber(b, n)
    ensures ReadGroups(b, i) == if i + n < 10 || (i + n == 10 && b[n - 1] <= 1) then Read(GroupValue(b[..n]), n)
                                else Overflow
    decreases n
  {
    if n == 1 {
      assert b[..1] == [b[0]] && GroupValue([]) == 0 && [b[0]][1..] == [];
    } else if i < MAX_LEN {
      var rest := b[1..];
      assert b[0] >= 128 && forall k :: 0 < k < n ==> rest[k - 1] == b[k];
      NumberReads(rest, i + 1, n - 1);
      assert b[..n][1..] == rest[..n - 1];
    }
  }

  lemma {:induction false} UnendedReads(b: seq<byte>, i: nat)
    requires i <= MAX_LEN && forall k :: 0 <= k < |b| ==> b[k] >= 128
    ensures ReadGroups(b, i) == if i + |b| <= 10 then Short else Overflow
    decreases |b|
  {
    if b != [] && i < MAX_LEN {
      UnendedReads(b[1..], i + 1);
    }
  }

  /** A number of up to ten bytes that fits 64 bits is read, whatever follows it; a longer or larger one overflows. */
  lemma UvarintExactly(b: seq<byte>, n: nat)
    requires IsNumber(b, n)
    ensures Uvarint(b) == if n < 10 || (n == 10 && b[9] <= 1) then Read(GroupValue(b[..n]), n) else Overflow
  {
    NumberReads(b, FIRST, n);
  }

  /** And bytes that do not end a number are short, unless there are too many. */
  lemma UnendedExactly(b: seq<byte>)
    requires forall k :: 0 <= k < |b| ==> b[k] >= 128
    ensures Uvarint(b) == if |b| <= 10 then Short else Overflow
  {
    UnendedReads(b, FIRST);
  }

  /** No shorter bytes would do: the last of several is not 0. */
  lemma {:induction false} PutIsShortest(x: nat)
    ensures IsNumber(PutUvarint(x), |PutUvarint(x)|) && GroupValue(PutUvarint(x)) == x
    ensures |PutUvarint(x)| > 1 ==> PutUvarint(x)[|PutUvarint(x)| - 1] != 0
  {
    if x >= 128 {
      PutIsShortest(x / 128);
      var b, rest := PutUvarint(x), PutUvarint(x / 128);
      assert b[1..] == rest && forall i :: 0 < i < |b| ==> b[i] == rest[i - 1];
    } else {
      assert PutUvarint(x)[1..] == [];
    }
  }

  function ZigZag(x: int64): uint64
  {
    if x < 0 then -2 * x - 1 else 2 * x
  }

  function UnZigZag(u: uint64): int64
  {
    if u % 2 == 1 then -(u / 2) - 1 else u / 2
  }

  lemma ZigZagRoundTrip(x: int64)
    ensures UnZigZag(ZigZag(x)) == x
  {
  }

  function PutVarint(x: int64): seq<byte>
  {
    PutUvarint(ZigZag(x))
  }
}
