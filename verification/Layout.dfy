/** The layout of a packet: optional fixed-size fields in index order, then a payload. */
module Layout {
  import opened Octets

  /** Where field i starts, given the lengths of all fields. */
  function Off(lens: seq<nat>, i: nat): nat
    requires i <= |lens|
  {
    if i == 0 then 0 else Off(lens, i - 1) + lens[i - 1]
  }

  function Total(lens: seq<nat>): nat { Off(lens, |lens|) }

  lemma {:induction false} OffMonotone(lens: seq<nat>, i: nat, j: nat)
    requires i <= j <= |lens|
    ensures Off(lens, i) <= Off(lens, j)
    ensures i < j ==> Off(lens, i) + lens[i] <= Off(lens, j)
  {
    if i < j - 1 {
      OffMonotone(lens, i, j - 1);
    }
  }

  lemma {:induction false} OffBelow(lens: seq<nat>, more: seq<nat>, i: nat)
    requires i <= |lens| == |more| && forall k :: 0 <= k < i ==> lens[k] <= more[k]
    ensures Off(lens, i) <= Off(more, i)
  {
    if i > 0 {
      OffBelow(lens, more, i - 1);
    }
  }

  /** Changing the length of one field moves the fields after it and no other. */
  lemma {:induction false} OffUpdate(lens: seq<nat>, f: nat, c: nat, i: nat)
    requires f < |lens| && i <= |lens|
    ensures Off(lens[f := c], i) == if i <= f then Off(lens, i) else Off(lens, i) - lens[f] + c
  {
    if i > 0 {
      OffUpdate(lens, f, c, i - 1);
      if i > f { OffMonotone(lens, f, i); }
    }
  }

  lemma OffUpdateAll(lens: seq<nat>, f: nat, c: nat)
    requires f < |lens|
    ensures forall i :: 0 <= i <= |lens| ==>
              Off(lens[f := c], i) == if i <= f then Off(lens, i) else Off(lens, i) - lens[f] + c
  {
    forall i | 0 <= i <= |lens|
      ensures Off(lens[f := c], i) == if i <= f then Off(lens, i) else Off(lens, i) - lens[f] + c
    {
      OffUpdate(lens, f, c, i);
    }
  }

  /** The abstract buffer: the bytes of each field, empty if it is not set; everything after the fields
      up to the capacity; the length in use; and the target length. */
  datatype Buf = Buf(fs: seq<seq<byte>>, tail: seq<byte>, blen: nat, tlen: int) {

    function HeaderLen(): nat { |Flat(fs, |fs|)| }

    function Memory(): seq<byte> { Flat(fs, |fs|) + tail }

    /** The bytes that go on the wire. */
    function Wire(): seq<byte>
      requires blen <= |Memory()|
    {
      Memory()[..blen]
    }

    function Payload(): seq<byte>
      requires HeaderLen() <= blen <= |Memory()|
    {
      tail[..blen - HeaderLen()]
    }

    predicate IsSet(f: nat)
      requires f < |fs|
    {
      |fs[f]| > 0
    }
  }

  /** The concatenation of the first i fields. */
  function Flat(fs: seq<seq<byte>>, i: nat): seq<byte>
    requires i <= |fs|
  {
    if i == 0 then [] else Flat(fs, i - 1) + fs[i - 1]
  }

  function Lens(fs: seq<seq<byte>>): (r: seq<nat>)
    ensures |r| == |fs|
  {
    seq(|fs|, i requires 0 <= i < |fs| => |fs[i]|)
  }

  /** Each field is empty or full, and the buffer has room for all of them. */
  ghost predicate WellFormed(b: Buf, caps: seq<nat>)
  {
    && |b.fs| == |caps|
    && (forall i {:trigger b.fs[i]} :: 0 <= i < |caps| ==> |b.fs[i]| == 0 || |b.fs[i]| == caps[i])
    && b.HeaderLen() <= b.blen <= |b.Memory()|
    && Total(caps) <= |b.Memory()|
  }

  /** Field i as found in memory, given which lengths are expected. */
  function FieldAt(m: seq<byte>, lens: seq<nat>, i: nat): (x: seq<byte>)
    requires i < |lens| && Total(lens) <= |m|
    ensures |x| == lens[i]
    ensures Off(lens, i) + lens[i] <= Total(lens)
  {
    OffMonotone(lens, i, |lens|);
    m[Off(lens, i)..Off(lens, i) + lens[i]]
  }

  function Cut(m: seq<byte>, lens: seq<nat>): (fs: seq<seq<byte>>)
    requires Total(lens) <= |m|
    ensures |fs| == |lens|
    ensures forall i :: 0 <= i < |lens| ==> fs[i] == FieldAt(m, lens, i)
  {
    seq<seq<byte>>(|lens|, i requires 0 <= i < |lens| => FieldAt(m, lens, i))
  }

  lemma LensCut(m: seq<byte>, lens: seq<nat>)
    requires Total(lens) <= |m|
    ensures Lens(Cut(m, lens)) == lens
  {
  }

  lemma {:induction false} FlatLength(fs: seq<seq<byte>>, i: nat)
    requires i <= |fs|
    ensures |Flat(fs, i)| == Off(Lens(fs), i)
  {
    if i > 0 {
      FlatLength(fs, i - 1);
    }
  }

  /** Concatenating what was cut gives the memory back. */
  lemma {:induction false} FlatCut(m: seq<byte>, lens: seq<nat>, i: nat)
    requires Total(lens) <= |m| && i <= |lens|
    ensures Off(lens, i) <= |m| && Flat(Cut(m, lens), i) == m[..Off(lens, i)]
  {
    OffMonotone(lens, i, |lens|);
    if i > 0 {
      FlatCut(m, lens, i - 1);
      assert Cut(m, lens)[i - 1] == FieldAt(m, lens, i - 1);
      assert m[..Off(lens, i)] == m[..Off(lens, i - 1)] + m[Off(lens, i - 1)..Off(lens, i - 1) + lens[i - 1]];
    }
  }

  lemma {:induction false} FlatAt(fs: seq<seq<byte>>, n: nat, i: nat)
    requires i < n <= |fs|
    ensures Off(Lens(fs), i) + |fs[i]| <= |Flat(fs, n)|
    ensures Flat(fs, n)[Off(Lens(fs), i)..Off(Lens(fs), i) + |fs[i]|] == fs[i]
  {
    FlatLength(fs, n - 1);
    FlatLength(fs, n);
    if i < n - 1 {
      FlatAt(fs, n - 1, i);
    }
  }

  /** Decoding inverts encoding: cut by the lengths of its fields, a packet gives exactly those fields,
      and the rest is what followed them. */
  lemma CutFlat(fs: seq<seq<byte>>, rest: seq<byte>)
    ensures Total(Lens(fs)) == |Flat(fs, |fs|)|
    ensures Cut(Flat(fs, |fs|) + rest, Lens(fs)) == fs
    ensures (Flat(fs, |fs|) + rest)[Total(Lens(fs))..] == rest
  {
    var m := Flat(fs, |fs|) + rest;
    FlatLength(fs, |fs|);
    forall i | 0 <= i < |fs|
      ensures Cut(m, Lens(fs))[i] == fs[i]
    {
      FlatAt(fs, |fs|, i);
    }
  }

  // What the buffer's operations do to it.

  /** A field can be set if it is there, or if there is room to insert it. */
  predicate Settable(b: Buf, f: nat, n: nat)
    requires f < |b.fs|
  {
    b.fs[f] == [] ==>
      && b.blen + n <= |b.Memory()|
      && (b.tlen >= b.HeaderLen() + n ==> b.tlen <= |b.Memory()|)
  }

  /** Inserts an absent field: the payload moves back, over leftovers, and is cut or stretched only if
      the target length leaves room for the fields. */
  function Insert(b: Buf, f: nat, x: seq<byte>): Buf
    requires f < |b.fs| && b.HeaderLen() <= b.blen && b.blen + |x| <= |b.Memory()|
  {
    var n := b.blen - b.HeaderLen();
    Buf(b.fs[f := x], b.tail[..n] + b.tail[n + |x|..],
        if b.tlen >= b.HeaderLen() + |x| then b.tlen else b.blen + |x|, b.tlen)
  }

  function SetField(b: Buf, f: nat, x: seq<byte>): Buf
    requires f < |b.fs| && b.HeaderLen() <= b.blen && Settable(b, f, |x|)
  {
    if b.fs[f] == [] then Insert(b, f, x) else b.(fs := b.fs[f := x])
  }

  function SetLen(b: Buf, tlen: int): Buf
  {
    b.(tlen := tlen, blen := Min(Max(tlen, b.HeaderLen()), |b.Memory()|))
  }

  function SetPayload(b: Buf, x: seq<byte>): Buf
    requires b.HeaderLen() + |x| <= |b.Memory()|
  {
    b.(tail := x + b.tail[|x|..], blen := b.HeaderLen() + |x|)
  }

  /** Overwrites the payload in place. */
  function Fill(b: Buf, x: seq<byte>): Buf
    requires b.HeaderLen() <= b.blen <= |b.Memory()| && |x| == b.blen - b.HeaderLen()
  {
    b.(tail := x + b.tail[|x|..])
  }

  /** Reads the same memory as fields of other lengths. */
  function Reframe(b: Buf, lens: seq<nat>): Buf
    requires Total(lens) <= |b.Memory()|
  {
    Buf(Cut(b.Memory(), lens), b.Memory()[Total(lens)..], b.blen, b.tlen)
  }

  /** The indexes a list of them picks: those of its longest prefix that is in range and increasing. */
  function Picked(fidxs: seq<int>, n: nat, from: nat): set<int>
  {
    if fidxs == [] || !(from <= fidxs[0] < n) then {}
    else {fidxs[0]} + Picked(fidxs[1..], n, fidxs[0] + 1)
  }

  /** A strictly increasing list in range picks all its members. */
  lemma {:induction false} PickedAll(fidxs: seq<int>, n: nat, from: nat)
    requires forall i :: 0 <= i < |fidxs| ==> from <= fidxs[i] < n
    requires forall i, j :: 0 <= i < j < |fidxs| ==> fidxs[i] < fidxs[j]
    ensures Picked(fidxs, n, from) == set x | x in fidxs
  {
    if fidxs != [] {
      PickedAll(fidxs[1..], n, fidxs[0] + 1);
      assert fidxs == [fidxs[0]] + fidxs[1..];
    }
  }

  lemma {:induction false} PickedRange(fidxs: seq<int>, n: nat, from: nat)
    ensures forall x :: x in Picked(fidxs, n, from) ==> from <= x < n
  {
    if fidxs != [] && from <= fidxs[0] < n {
      PickedRange(fidxs[1..], n, fidxs[0] + 1);
    }
  }

  /** The new lengths: full for the fields picked; otherwise kept, or cleared. */
  function NewLens(caps: seq<nat>, lens: seq<nat>, picked: set<int>, keep: bool): (r: seq<nat>)
    requires |caps| == |lens|
    ensures |r| == |caps|
  {
    seq(|caps|, i requires 0 <= i < |caps| => if i in picked then caps[i] else if keep then lens[i] else 0)
  }

  // Laws of the operations.

  lemma {:induction false} FlatUpdate(fs: seq<seq<byte>>, f: nat, x: seq<byte>, i: nat)
    requires f < |fs| && i <= |fs|
    ensures |Flat(fs[f := x], i)| == if i <= f then |Flat(fs, i)| else |Flat(fs, i)| - |fs[f]| + |x|
  {
    if i > 0 {
      FlatUpdate(fs, f, x, i - 1);
    }
  }

  /** Setting a field changes that field in the map and keeps the others; the payload follows the
      fields as before, whole unless the target length cuts it. */
  lemma SetFieldLaw(b: Buf, caps: seq<nat>, f: nat, x: seq<byte>)
    requires WellFormed(b, caps) && f < |caps| && |x| == caps[f] > 0 && Settable(b, f, |x|)
    ensures var b' := SetField(b, f, x);
            && WellFormed(b', caps)
            && b'.fs == b.fs[f := x]
            && |b'.Memory()| == |b.Memory()|
            && (b.fs[f] != [] ==> b'.Payload() == b.Payload())
            && (b.fs[f] == [] && b.tlen < b'.HeaderLen() ==> b'.Payload() == b.Payload())
            && (b.fs[f] == [] && b'.HeaderLen() <= b.tlen <= b.blen + |x| ==>
                  b'.Payload() == b.Payload()[..b.tlen - b'.HeaderLen()])
  {
    FlatUpdate(b.fs, f, x, |b.fs|);
  }

  lemma SetLenLaw(b: Buf, caps: seq<nat>, tlen: int)
    requires WellFormed(b, caps)
    ensures var b' := SetLen(b, tlen);
            WellFormed(b', caps) && b'.fs == b.fs && b'.tail == b.tail
            && b'.blen == Min(Max(tlen, b.HeaderLen()), |b.Memory()|)
  {
  }

  /** Reframing moves the border between fields and payload, and no byte. */
  lemma ReframeLaw(b: Buf, lens: seq<nat>)
    requires Total(lens) <= |b.Memory()|
    ensures Reframe(b, lens).Memory() == b.Memory()
    ensures Lens(Reframe(b, lens).fs) == lens
    ensures Reframe(b, lens).HeaderLen() == Total(lens)
  {
    FlatCut(b.Memory(), lens, |lens|);
    LensCut(b.Memory(), lens);
  }

  /** The wire form of a well-formed buffer is its fields in index order, then its payload. */
  lemma WireIsFieldsThenPayload(b: Buf, caps: seq<nat>)
    requires WellFormed(b, caps)
    ensures b.Wire() == Flat(b.fs, |b.fs|) + b.Payload()
  {
  }

  /** Memory with the bytes from p up to blen moved back by n; those at p stay as well. */
  ghost predicate IsShifted(m': seq<byte>, m: seq<byte>, p: nat, n: nat, blen: nat)
  {
    && p <= blen && blen + n <= |m| == |m'|
    && (forall k {:trigger m'[k]} :: 0 <= k < |m| ==>
          m'[k] == if p + n <= k < blen + n then m[k - n] else m[k])
  }

  /** Memory with x inserted at p, what followed up to blen moved back over leftovers. */
  ghost predicate IsInserted(m': seq<byte>, m: seq<byte>, p: nat, x: seq<byte>, blen: nat)
  {
    && p <= blen && blen + |x| <= |m| == |m'|
    && (forall k {:trigger m'[k]} :: 0 <= k < p ==> m'[k] == m[k])
    && (forall k {:trigger m'[k]} :: p <= k < p + |x| ==> m'[k] == x[k - p])
    && (forall k {:trigger m'[k]} :: p + |x| <= k < blen + |x| ==> m'[k] == m[k - |x|])
    && (forall k {:trigger m'[k]} :: blen + |x| <= k < |m| ==> m'[k] == m[k])
  }

  lemma SliceBefore(m: seq<byte>, m': seq<byte>, p: nat, x: seq<byte>, blen: nat, o: nat, l: nat)
    requires IsInserted(m', m, p, x, blen) && o + l <= p
    ensures m'[o..o + l] == m[o..o + l]
  {
  }

  lemma SliceInserted(m: seq<byte>, m': seq<byte>, p: nat, x: seq<byte>, blen: nat)
    requires IsInserted(m', m, p, x, blen)
    ensures m'[p..p + |x|] == x
  {
  }

  lemma SliceAfter(m: seq<byte>, m': seq<byte>, p: nat, x: seq<byte>, blen: nat, o: nat, l: nat)
    requires IsInserted(m', m, p, x, blen) && p <= o && o + l <= blen
    ensures m'[o + |x|..o + |x| + l] == m[o..o + l]
  {
  }

  /** The part behind the fields: the payload, moved, and the leftovers it did not run over. */
  lemma SliceRest(m: seq<byte>, m': seq<byte>, p: nat, x: seq<byte>, blen: nat, t: nat)
    requires IsInserted(m', m, p, x, blen) && p <= t <= blen
    ensures m'[t + |x|..] == m[t..][..blen - t] + m[t..][blen - t + |x|..]
  {
    var l, r := m'[t + |x|..], m[t..][..blen - t] + m[t..][blen - t + |x|..];
    assert |l| == |r|;
    forall k | 0 <= k < |l|
      ensures l[k] == r[k]
    {
      assert l[k] == m'[t + |x| + k];
    }
  }

  lemma FieldBefore(m: seq<byte>, m': seq<byte>, lens: seq<nat>, f: nat, x: seq<byte>, blen: nat, i: nat)
    requires i < f < |lens| && lens[f] == 0 && Total(lens) <= blen
    requires IsInserted(m', m, Off(lens, f), x, blen) && Total(lens[f := |x|]) <= |m'|
    ensures FieldAt(m', lens[f := |x|], i) == FieldAt(m, lens, i)
  {
    OffUpdate(lens, f, |x|, i);
    OffMonotone(lens, i, f);
    SliceBefore(m, m', Off(lens, f), x, blen, Off(lens, i), lens[i]);
  }

  lemma FieldAfter(m: seq<byte>, m': seq<byte>, lens: seq<nat>, f: nat, x: seq<byte>, blen: nat, i: nat)
    requires f < i < |lens| && lens[f] == 0 && Total(lens) <= blen
    requires IsInserted(m', m, Off(lens, f), x, blen) && Total(lens[f := |x|]) <= |m'|
    ensures FieldAt(m', lens[f := |x|], i) == FieldAt(m, lens, i)
  {
    OffMonotone(lens, i, |lens|);
    OffUpdate(lens, f, |x|, i);
    OffMonotone(lens, f, i);
    SliceAfter(m, m', Off(lens, f), x, blen, Off(lens, i), lens[i]);
  }

  lemma FieldInserted(m: seq<byte>, m': seq<byte>, lens: seq<nat>, f: nat, x: seq<byte>, blen: nat)
    requires f < |lens| && lens[f] == 0 && Total(lens) <= blen
    requires IsInserted(m', m, Off(lens, f), x, blen) && Total(lens[f := |x|]) <= |m'|
    ensures FieldAt(m', lens[f := |x|], f) == x
  {
    OffUpdate(lens, f, |x|, f);
    SliceInserted(m, m', Off(lens, f), x, blen);
  }

  /** Inserting bytes at the place of an absent field sets that field and keeps the others. */
  lemma InsertedCut(m: seq<byte>, m': seq<byte>, lens: seq<nat>, f: nat, x: seq<byte>, blen: nat)
    requires f < |lens| && lens[f] == 0 && Total(lens) <= blen
    requires IsInserted(m', m, Off(lens, f), x, blen)
    ensures Total(lens[f := |x|]) == Total(lens) + |x|
    ensures Cut(m', lens[f := |x|]) == Cut(m, lens)[f := x]
  {
    OffUpdate(lens, f, |x|, |lens|);
    var l, r := Cut(m', lens[f := |x|]), Cut(m, lens)[f := x];
    forall i | 0 <= i < |lens|
      ensures l[i] == r[i]
    {
      if i < f {
        FieldBefore(m, m', lens, f, x, blen, i);
      } else if i == f {
        FieldInserted(m, m', lens, f, x, blen);
      } else {
        FieldAfter(m, m', lens, f, x, blen, i);
      }
    }
  }

  ghost predicate IsOverwritten(m': seq<byte>, m: seq<byte>, p: nat, x: seq<byte>)
  {
    && p + |x| <= |m| == |m'|
    && (forall k {:trigger m'[k]} :: 0 <= k < |m| && !(p <= k < p + |x|) ==> m'[k] == m[k])
    && (forall k {:trigger m'[k]} :: p <= k < p + |x| ==> m'[k] == x[k - p])
  }

  /** Overwriting the bytes of a set field changes that field only. */
  lemma OverwrittenCut(m: seq<byte>, m': seq<byte>, lens: seq<nat>, f: nat, x: seq<byte>)
    requires f < |lens| && lens[f] == |x| && Total(lens) <= |m|
    requires IsOverwritten(m', m, Off(lens, f), x)
    ensures Cut(m', lens) == Cut(m, lens)[f := x]
    ensures m'[Total(lens)..] == m[Total(lens)..]
  {
    OffMonotone(lens, f, |lens|);
    var l, r := Cut(m', lens), Cut(m, lens)[f := x];
    forall i | 0 <= i < |lens|
      ensures l[i] == r[i]
    {
      OverwrittenFieldAt(m, m', lens, f, x, i);
    }
  }

  lemma OverwrittenFieldAt(m: seq<byte>, m': seq<byte>, lens: seq<nat>, f: nat, x: seq<byte>, i: nat)
    requires f < |lens| && lens[f] == |x| && Total(lens) <= |m| && i < |lens|
    requires IsOverwritten(m', m, Off(lens, f), x)
    ensures FieldAt(m', lens, i) == if i == f then x else FieldAt(m, lens, i)
  {
    var p, o := Off(lens, f), Off(lens, i);
    OffMonotone(lens, i, |lens|);
    if i < f { OffMonotone(lens, i, f); }
    if i > f { OffMonotone(lens, f, i); }
    assert i != f ==> o + lens[i] <= p || p + |x| <= o;
  }
}
