/** The pattern filler: a prefilled buffer read as an endless repetition of its pattern. */
module Filler {
  import opened Arith
  import opened Octets

  const PATTERN_MAX_INIT_LEN: nat := 4096

  /** Byte k of the endless repetition of pattern. */
  function At(pattern: seq<byte>, k: nat): byte
    requires pattern != []
  {
    pattern[k % |pattern|]
  }

  /** n bytes of it, from offset phase on. */
  function Periodic(pattern: seq<byte>, phase: nat, n: nat): seq<byte>
    requires pattern != []
  {
    seq<byte>(n, i requires 0 <= i < n => At(pattern, phase + i))
  }

  /** Consecutive stretches of the stream join up. */
  lemma PeriodicJoins(pattern: seq<byte>, phase: nat, n: nat, m: nat)
    requires pattern != []
    ensures Periodic(pattern, phase, n) + Periodic(pattern, phase + n, m) == Periodic(pattern, phase, n + m)
  {
    var joined, whole := Periodic(pattern, phase, n) + Periodic(pattern, phase + n, m), Periodic(pattern, phase, n + m);
    forall i | 0 <= i < n + m
      ensures joined[i] == whole[i]
    {
      if i >= n { assert joined[i] == Periodic(pattern, phase + n, m)[i - n]; }
    }
  }

  lemma PhaseWraps(pattern: seq<byte>, phase: nat, n: nat)
    requires pattern != []
    ensures Periodic(pattern, phase % |pattern|, n) == Periodic(pattern, phase, n)
  {
    var p, q := Periodic(pattern, phase % |pattern|, n), Periodic(pattern, phase, n);
    forall i | 0 <= i < n
      ensures p[i] == q[i]
    {
      AtWraps(pattern, phase, i);
    }
  }

  lemma AtWraps(pattern: seq<byte>, phase: nat, i: nat)
    requires pattern != []
    ensures At(pattern, phase % |pattern| + i) == At(pattern, phase + i)
  {
    ModAdd(phase, i, |pattern|);
  }

  method BufferLen(n: nat) returns (blen: nat)
    requires n > 0
    ensures n <= blen
  {
    if n > PATTERN_MAX_INIT_LEN {
      blen := n;
    } else {
      DivPositive(PATTERN_MAX_INIT_LEN, n);
      var turns := PATTERN_MAX_INIT_LEN / n;
      blen := turns * (n + 1);
      MulMonotone(1, turns, n + 1);
    }
  }

  lemma FirstTurn(bytes: seq<byte>, i: nat, c: nat)
    requires bytes != [] && i % |bytes| == 0 && c <= |bytes|
    ensures Periodic(bytes, i, c) == bytes[..c]
    ensures (i + |bytes|) % |bytes| == 0
  {
    forall k | 0 <= k < c
      ensures Periodic(bytes, i, c)[k] == bytes[k]
    {
      assert i + k == i / |bytes| * |bytes| + k;
      DivModUnique(i + k, i / |bytes|, k, |bytes|);
      assert At(bytes, i + k) == bytes[k];
    }
    DivModUnique(i + |bytes|, i / |bytes| + 1, 0, |bytes|);
  }

  method Prefill(b: array<byte>, bytes: seq<byte>)
    requires bytes != []
    modifies b
    ensures b[..] == Periodic(bytes, 0, b.Length)
  {
    var i := 0;
    while i < b.Length
      invariant 0 <= i && i % |bytes| == 0
      invariant b[..Min(i, b.Length)] == Periodic(bytes, 0, Min(i, b.Length))
    {
      var c := Min(|bytes|, b.Length - i);
      ghost var done := b[..i];
      forall k | i <= k < i + c {
        b[k] := bytes[k - i];
      }
      FirstTurn(bytes, i, c);
      PeriodicJoins(bytes, 0, i, c);
      assert b[..i + c] == done + bytes[..c];
      i := i + |bytes|;
    }
    assert b[..] == b[..b.Length];
  }

  class PatternFiller {
    const pattern: seq<byte>
    const buf: array<byte>
    var pos: nat
    ghost var phase: nat  // bytes handed out since construction

    ghost predicate Valid()
      reads this, buf
    {
      && |pattern| > 0
      && |pattern| <= buf.Length
      && buf[..] == Periodic(pattern, 0, buf.Length)
      && pos == phase % |pattern|
    }

    /** The source divides by the length of the pattern, so the pattern must not be empty. */
    constructor (bytes: seq<byte>)
      requires bytes != []
      ensures Valid() && phase == 0 && pattern == bytes
      ensures fresh(buf)
    {
      var n := |bytes|;
      var blen := BufferLen(n);
      var b := new byte[blen];
      Prefill(b, bytes);
      pattern, buf, pos, phase := bytes, b, 0, 0;
    }

    /** Fills p with the next |p| bytes of the stream, however the buffer's length relates to the
        pattern's; every copy makes progress. */
    method Read(p: array<byte>) returns (n: nat)
      requires Valid() && p != buf
      modifies this, p
      ensures Valid() && n == p.Length
      ensures p[..] == Periodic(pattern, old(phase), p.Length)
      ensures phase == old(phase) + p.Length
    {
      var l := 0;
      while l < p.Length
        invariant l <= p.Length
        invariant Valid() && phase == old(phase) + l
        invariant p[..l] == Periodic(pattern, old(phase), l)
        invariant buf[..] == old(buf[..])
      {
        var c := Min(p.Length - l, buf.Length - pos);
        ghost var done := p[..l];
        forall k | 0 <= k < c {
          p[l + k] := buf[pos + k];
        }
        assert p[l..l + c] == Periodic(pattern, phase, c) by {
          PhaseWraps(pattern, phase, c);
          ghost var got := p[l..l + c];
          forall k | 0 <= k < c
            ensures got[k] == Periodic(pattern, pos, c)[k]
          {
            assert got[k] == p[l + k] == buf[..][pos + k];
          }
        }
        PeriodicJoins(pattern, old(phase), l, c);
        assert p[..l + c] == done + p[l..l + c];
        ModAdd(phase, c, |pattern|);
        l := l + c;
        pos := (pos + c) % |pattern|;
        phase := phase + c;
      }
      assert p[..] == p[..l];
      n := l;
    }
  }

  /** Whatever sizes are read one after another, the bytes read are one unbroken stretch of the stream. */
  method ReadAll(f: PatternFiller, sizes: seq<nat>) returns (all: seq<byte>)
    requires f.Valid()
    modifies f
    ensures f.Valid()
    ensures f.phase == old(f.phase) + Total(sizes)
    ensures all == Periodic(f.pattern, old(f.phase), Total(sizes))
  {
    all := [];
    for i := 0 to |sizes|
      invariant f.Valid() && f.phase == old(f.phase) + Total(sizes[..i])
      invariant all == Periodic(f.pattern, old(f.phase), Total(sizes[..i]))
    {
      var p := new byte[sizes[i]];
      var n := f.Read(p);
      PeriodicJoins(f.pattern, old(f.phase), Total(sizes[..i]), n);
      all := all + p[..];
      assert sizes[..i + 1][..i] == sizes[..i];
    }
    assert sizes[..|sizes|] == sizes;
  }

  function Total(sizes: seq<nat>): nat
  {
    if sizes == [] then 0 else Total(sizes[..|sizes| - 1]) + sizes[|sizes| - 1]
  }
}
