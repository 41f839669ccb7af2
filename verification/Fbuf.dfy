/** The field buffer: one byte array, a table of field positions and lengths, and a target length,
    refining the layout's abstract buffer. */
module Fbuf {
  import opened Layout
  import opened Octets

  datatype Field = Field(pos: nat, len: nat, cap: nat)

  datatype Error = FieldsLengthTooLarge | FieldsCapacityTooLarge

  function LensOf(fields: seq<Field>): (r: seq<nat>)
    ensures |r| == |fields|
  {
    seq(|fields|, i requires 0 <= i < |fields| => fields[i].len)
  }

  function CapsOf(fields: seq<Field>): (r: seq<nat>)
    ensures |r| == |fields|
  {
    seq(|fields|, i requires 0 <= i < |fields| => fields[i].cap)
  }

  /** Set fields tile a prefix of the buffer in index order, each at its full capacity. */
  ghost predicate Tiled(fields: seq<Field>)
  {
    forall i {:trigger fields[i]} :: 0 <= i < |fields| ==>
      fields[i].pos == Off(LensOf(fields), i) && (fields[i].len == 0 || fields[i].len == fields[i].cap)
  }

  lemma TiledFits(fields: seq<Field>)
    requires Tiled(fields)
    ensures Total(LensOf(fields)) <= Total(CapsOf(fields))
  {
    forall i | 0 <= i < |fields|
      ensures LensOf(fields)[i] <= CapsOf(fields)[i]
    {
      assert fields[i].len <= fields[i].cap;
    }
    OffBelow(LensOf(fields), CapsOf(fields), |fields|);
  }

  /** The first k entries of the table carry the new lengths, the others are as they were. */
  ghost predicate Done(fields: seq<Field>, before: seq<Field>, lens: seq<nat>, k: int)
    requires |lens| == |before|
  {
    && |fields| == |before|
    && (forall i {:trigger fields[i]} :: 0 <= i < k && i < |before| ==>
          fields[i] == Field(Off(lens, i), lens[i], before[i].cap))
    && (forall i {:trigger fields[i]} :: 0 <= i < |before| && k <= i ==> fields[i] == before[i])
  }

  /** And pos is where field j goes. */
  ghost predicate Progress(fields: seq<Field>, before: seq<Field>, lens: seq<nat>, j: nat, pos: nat)
    requires |lens| == |before|
  {
    Done(fields, before, lens, j) && pos == Off(lens, Min(j, |lens|))
  }

  lemma PlannedLen(fields: seq<Field>, before: seq<Field>, lens: seq<nat>, picked: set<int>, keep: bool, j: nat,
                   pos: nat)
    requires lens == NewLens(CapsOf(before), LensOf(before), picked, keep)
    requires j < |before| && Progress(fields, before, lens, j, pos)
    ensures |fields| == |before|
    ensures lens[j] == if j in picked then fields[j].cap else if keep then fields[j].len else 0
  {
  }

  lemma DoneAll(fields: seq<Field>, before: seq<Field>, picked: set<int>, keep: bool, k: int)
    requires Tiled(before) && k >= |before|
    requires Done(fields, before, NewLens(CapsOf(before), LensOf(before), picked, keep), k)
    ensures Tiled(fields) && CapsOf(fields) == CapsOf(before)
    ensures LensOf(fields) == NewLens(CapsOf(before), LensOf(before), picked, keep)
  {
    var lens := NewLens(CapsOf(before), LensOf(before), picked, keep);
    assert LensOf(fields) == lens;
    forall i | 0 <= i < |fields|
      ensures fields[i].pos == Off(lens, i) && (fields[i].len == 0 || fields[i].len == fields[i].cap)
    {
      assert before[i].len == 0 || before[i].len == before[i].cap;
    }
  }

  /** From j on, the rest of the list picks the same indexes as the whole list did. */
  ghost predicate Agree(rest: seq<int>, n: nat, j: nat, picked: set<int>)
  {
    forall x :: x in Picked(rest, n, j) <==> x in picked && x >= j
  }

  lemma AgreePast(rest: seq<int>, n: nat, j: nat, picked: set<int>)
    requires Agree(rest, n, j, picked) && (rest == [] || rest[0] != j)
    ensures Agree(rest, n, j + 1, picked) && j !in picked
  {
    PickedRange(rest, n, j + 1);
    assert Picked(rest, n, j) == Picked(rest, n, j + 1);
    assert j !in Picked(rest, n, j);
  }

  lemma AgreeHit(rest: seq<int>, n: nat, j: nat, picked: set<int>)
    requires Agree(rest, n, j, picked) && j < n && rest != [] && rest[0] == j
    ensures Agree(rest[1..], n, j + 1, picked) && j in picked
  {
    PickedRange(rest[1..], n, j + 1);
    assert Picked(rest, n, j) == {j} + Picked(rest[1..], n, j + 1);
    forall x
      ensures x in Picked(rest[1..], n, j + 1) <==> x in picked && x >= j + 1
    {
      assert x in Picked(rest, n, j) <==> x in picked && x >= j;
    }
    assert j in Picked(rest, n, j);
  }

  lemma AgreeBeyond(rest: seq<int>, n: nat, j: nat, picked: set<int>)
    requires Agree(rest, n, j, picked) && j >= n && rest != []
    ensures Agree(rest[1..], n, j + 1, picked)
  {
    assert Picked(rest, n, j) == {} && Picked(rest[1..], n, j + 1) == {};
    forall x
      ensures x in Picked(rest[1..], n, j + 1) <==> x in picked && x >= j + 1
    {
      assert x in Picked(rest, n, j) <==> x in picked && x >= j;
    }
  }

  /** The state of the loops over the table: entries below j are rewritten as planned, and the rest of
      the list picks what is still to be picked. */
  ghost predicate Scanning(fields: seq<Field>, before: seq<Field>, picked: set<int>, keep: bool,
                           rest: seq<int>, j: nat, pos: nat)
  {
    && Progress(fields, before, NewLens(CapsOf(before), LensOf(before), picked, keep), j, pos)
    && Agree(rest, |before|, j, picked)
  }

  function Rewritten(fields: seq<Field>, j: nat, pos: nat, len: nat): seq<Field>
    requires j < |fields|
  {
    fields[j := fields[j].(pos := pos, len := len)]
  }

  lemma ProgressStep(fields: seq<Field>, before: seq<Field>, lens: seq<nat>, j: nat, pos: nat)
    requires |lens| == |before| && j < |before| && Progress(fields, before, lens, j, pos)
    ensures |fields| == |before|
    ensures Progress(Rewritten(fields, j, pos, lens[j]), before, lens, j + 1, pos + lens[j])
  {
  }

  lemma ScanHit(fields: seq<Field>, before: seq<Field>, picked: set<int>, keep: bool, rest: seq<int>, j: nat, pos: nat)
    requires Scanning(fields, before, picked, keep, rest, j, pos) && j < |fields| && rest != [] && rest[0] == j
    ensures Scanning(Rewritten(fields, j, pos, fields[j].cap), before, picked, keep, rest[1..], j + 1,
                     pos + fields[j].cap)
  {
    var lens := NewLens(CapsOf(before), LensOf(before), picked, keep);
    AgreeHit(rest, |before|, j, picked);
    PlannedLen(fields, before, lens, picked, keep, j, pos);
    ProgressStep(fields, before, lens, j, pos);
  }

  lemma ScanPast(fields: seq<Field>, before: seq<Field>, picked: set<int>, keep: bool, rest: seq<int>, j: nat, pos: nat)
    requires Scanning(fields, before, picked, keep, rest, j, pos) && j < |fields| && (rest == [] || rest[0] != j)
    ensures var len := if keep then fields[j].len else 0;
            Scanning(Rewritten(fields, j, pos, len), before, picked, keep, rest, j + 1, pos + len)
  {
    var lens := NewLens(CapsOf(before), LensOf(before), picked, keep);
    AgreePast(rest, |before|, j, picked);
    PlannedLen(fields, before, lens, picked, keep, j, pos);
    ProgressStep(fields, before, lens, j, pos);
  }

  lemma ScanBeyond(fields: seq<Field>, before: seq<Field>, picked: set<int>, keep: bool, rest: seq<int>, j: nat,
                   pos: nat)
    requires Scanning(fields, before, picked, keep, rest, j, pos) && j >= |fields| && rest != []
    ensures Scanning(fields, before, picked, keep, rest[1..], j + 1, pos)
  {
    AgreeBeyond(rest, |before|, j, picked);
  }

  lemma ScanStart(fields: seq<Field>, fidxs: seq<int>, keep: bool)
    ensures Scanning(fields, fields, Picked(fidxs, |fields|, 0), keep, fidxs, 0, 0)
  {
    PickedRange(fidxs, |fields|, 0);
  }

  lemma ScanEnd(fields: seq<Field>, before: seq<Field>, picked: set<int>, keep: bool, rest: seq<int>, j: nat, pos: nat)
    requires Scanning(fields, before, picked, keep, rest, j, pos) && j >= |fields| && Tiled(before)
    ensures Tiled(fields) && CapsOf(fields) == CapsOf(before) && pos == Total(LensOf(fields))
    ensures LensOf(fields) == NewLens(CapsOf(before), LensOf(before), picked, keep)
  {
    DoneAll(fields, before, picked, keep, j);
  }

  class Fbuf {
    const mem: array<byte>  // its length is the capacity of the slice
    var blen: nat           // the length of the slice
    var fields: seq<Field>
    var tlen: int

    function Caps(): (r: seq<nat>)
      reads this
      ensures |r| == |fields|
    {
      CapsOf(fields)
    }

    /** Positions and capacities are in order; the fields may still be longer than the buffer. */
    ghost predicate Framed()
      reads this
    {
      Tiled(fields) && blen <= mem.Length && Total(Caps()) <= mem.Length
    }

    ghost predicate Valid()
      reads this
    {
      Framed() && Total(LensOf(fields)) <= blen
    }

    ghost function View(): (b: Buf)
      requires Framed()
      reads this, mem
      ensures b.Memory() == mem[..] && b.HeaderLen() == Total(LensOf(fields)) && |b.fs| == |fields|
    {
      TiledFits(fields);
      FlatCut(mem[..], LensOf(fields), |fields|);
      Buf(Cut(mem[..], LensOf(fields)), mem[Total(LensOf(fields))..], blen, tlen)
    }

    lemma ViewLens()
      requires Framed()
      ensures Lens(View().fs) == LensOf(fields)
    {
      TiledFits(fields);
      LensCut(mem[..], LensOf(fields));
    }

    /** The view is well formed when the fields fit. */
    lemma ViewWellFormed()
      requires Valid()
      ensures WellFormed(View(), Caps())
    {
      TiledFits(fields);
      forall i | 0 <= i < |fields|
        ensures |View().fs[i]| == 0 || |View().fs[i]| == Caps()[i]
      {
        assert fields[i].len == 0 || fields[i].len == fields[i].cap;
        assert View().fs[i] == FieldAt(mem[..], LensOf(fields), i);
      }
    }

    constructor (fs: seq<Field>, tlen: nat, capacity: nat)
      requires Tiled(fs) && tlen <= Max(capacity, Total(CapsOf(fs)))
      ensures Valid() && fresh(mem) && fields == fs && this.tlen == tlen
      ensures mem.Length == Max(capacity, Total(CapsOf(fs))) && blen == Max(tlen, Total(LensOf(fs)))
      ensures forall k :: 0 <= k < mem.Length ==> mem[k] == 0
    {
      TiledFits(fs);
      var fcap := Total(CapsOf(fs));
      mem := new byte[Max(capacity, fcap)](_ => 0);
      blen, fields, this.tlen := Max(tlen, Total(LensOf(fs))), fs, tlen;
    }

    method SumLens() returns (flen: nat)
      ensures flen == Total(LensOf(fields))
    {
      flen := 0;
      for i := 0 to |fields|
        invariant flen == Off(LensOf(fields), i)
      {
        flen := flen + fields[i].len;
      }
    }

    method Validate() returns (err: Option<Error>)
      requires Framed()
      ensures err == if Total(LensOf(fields)) > blen then Some(FieldsLengthTooLarge) else None
      ensures err == None <==> Valid()
    {
      var flen := SumLens();
      if flen > blen {
        return Some(FieldsLengthTooLarge);
      }
      var fcap := Total(Caps());
      if fcap > mem.Length {
        return Some(FieldsCapacityTooLarge);
      }
      return None;
    }

    method SetTargetLen(t: int) returns (l: nat)
      requires Framed()
      modifies `blen, `tlen
      ensures Framed() && View() == SetLen(old(View()), t) && l == blen
      ensures fields == old(fields) && Valid()
    {
      TiledFits(fields);
      tlen := t;
      var flen := SumLens();
      var n := t;
      if n < flen {
        n := flen;
      }
      if n > mem.Length {
        n := mem.Length;
      }
      blen := n;
      return n;
    }
  
    /** Reslices the buffer after a read. */
    method Reslice(n: nat)
      requires Framed() && n <= mem.Length
      modifies `blen, `tlen
      ensures Framed() && fields == old(fields)
      ensures View() == old(View()).(blen := n, tlen := n)
    {
      blen, tlen := n, n;
    }

    /** Sets exactly the fields listed. */
    method SetFields(fidxs: seq<int>, setLen: bool) returns (err: Option<Error>)
      requires Framed()
      modifies `fields, `blen, `tlen
      ensures Framed() && Framing(fidxs, setLen, false, old(fields), old(View()))
      ensures blen == if setLen then Total(LensOf(fields)) else old(blen)
      ensures err == None <==> Valid()
    {
      ghost var before, was := fields, View();
      var pos, end := Rewrite(fidxs, false);
      ScanEnd(fields, before, Picked(fidxs, |before|, 0), false, [], end, pos);
      Reframed(was);
      if setLen {
        var _ := SetTargetLen(pos);
      }
      err := Validate();
    }

    /** Sets the fields listed besides those already set. */
    method AddFields(fidxs: seq<int>, setLen: bool) returns (err: Option<Error>)
      requires Framed()
      modifies `fields, `blen, `tlen
      ensures Framed() && Framing(fidxs, setLen, true, old(fields), old(View()))
      ensures blen == if setLen then Total(LensOf(fields)) else old(blen)
      ensures err == None <==> Valid()
    {
      ghost var before, was := fields, View();
      var pos, end := Rewrite(fidxs, true);
      ScanEnd(fields, before, Picked(fidxs, |before|, 0), true, [], end, pos);
      Reframed(was);
      if setLen {
        var _ := SetTargetLen(pos);
      }
      err := Validate();
    }

    /** The effect of SetFields and AddFields: for any list of indexes, the fields it picks become full
        and the others keep their length or lose it; the bytes are reinterpreted, not moved. */
    ghost predicate Framing(fidxs: seq<int>, setLen: bool, keep: bool, before: seq<Field>, was: Buf)
      requires Framed()
      reads this, mem
    {
      var lens := NewLens(CapsOf(before), LensOf(before), Picked(fidxs, |before|, 0), keep);
      && CapsOf(fields) == CapsOf(before)
      && LensOf(fields) == lens
      && Total(lens) <= |was.Memory()|
      && View() == if setLen then SetLen(Reframe(was, lens), Total(lens)) else Reframe(was, lens)
    }

    lemma Reframed(was: Buf)
      requires Framed() && was.Memory() == mem[..] && was.blen == blen && was.tlen == tlen
      ensures Total(LensOf(fields)) <= |was.Memory()| && View() == Reframe(was, LensOf(fields))
    {
      TiledFits(fields);
    }

    /** The nested loops over the list and the table, which share the index j. */
    method Rewrite(fidxs: seq<int>, keep: bool) returns (pos: nat, ghost end: nat)
      modifies `fields
      ensures end >= |fields|
      ensures Scanning(fields, old(fields), Picked(fidxs, |old(fields)|, 0), keep, [], end, pos)
    {
      ghost var before, picked := fields, Picked(fidxs, |fields|, 0);
      ScanStart(fields, fidxs, keep);
      assert fidxs[0..] == fidxs;
      pos := 0;
      var j := 0;
      var i := 0;
      while i < |fidxs|
        invariant 0 <= i <= |fidxs| && 0 <= j
        invariant Scanning(fields, before, picked, keep, fidxs[i..], j, pos)
      {
        ghost var rest := fidxs[i..];
        assert rest[1..] == fidxs[i + 1..];
        j, pos := Scan(fidxs[i], j, pos, keep, before, picked, rest);
        i, j := i + 1, j + 1;
      }
      while j < |fields|
        invariant 0 <= j
        invariant Scanning(fields, before, picked, keep, [], j, pos)
      {
        ScanPast(fields, before, picked, keep, [], j, pos);
        var len := if keep then fields[j].len else 0;
        fields := Rewritten(fields, j, pos, len);
        pos := pos + len;
        j := j + 1;
      }
      end := j;
    }

    /** The inner loop, for the next index listed: rewrites entries up to and including it, or to the end. */
    method Scan(next: int, from: nat, start: nat, keep: bool,
                ghost before: seq<Field>, ghost picked: set<int>, ghost rest: seq<int>)
      returns (j: nat, pos: nat)
      requires Scanning(fields, before, picked, keep, rest, from, start) && rest != [] && rest[0] == next
      modifies `fields
      ensures Scanning(fields, before, picked, keep, rest[1..], j + 1, pos)
    {
      j, pos := from, start;
      while j < |fields|
        invariant Scanning(fields, before, picked, keep, rest, j, pos)
      {
        if j == next {
          ScanHit(fields, before, picked, keep, rest, j, pos);
          var len := fields[j].cap;
          fields := Rewritten(fields, j, pos, len);
          pos := pos + len;
          return;
        }
        ScanPast(fields, before, picked, keep, rest, j, pos);
        var len := if keep then fields[j].len else 0;
        fields := Rewritten(fields, j, pos, len);
        pos := pos + len;
        j := j + 1;
      }
      ScanBeyond(fields, before, picked, keep, rest, j, pos);
    }

    /** Makes room at p: copy(buf[p+grow:], buf[p:]) in the buffer grown by as much. */
    method Shift(p: nat, grow: nat)
      requires p <= blen && blen + grow <= mem.Length
      modifies `blen, mem
      ensures blen == old(blen) + grow
      ensures IsShifted(mem[..], old(mem[..]), p, grow, old(blen))
    {
      blen := blen + grow;
      forall k | p + grow <= k < blen {
        mem[k] := mem[k - grow];
      }
    }

    /** Resets the buffer to its target length, if the fields fit in that. */
    method ResetToTarget()
      requires Framed() && (tlen >= Total(LensOf(fields)) ==> tlen <= mem.Length)
      modifies `blen
      ensures Framed() && blen == if tlen >= Total(LensOf(fields)) then tlen else old(blen)
    {
      var flen := SumLens();
      if tlen >= flen {
        blen := tlen;
      }
    }

    /** Grows an absent field to its capacity. The bytes of the field are whatever was there. */
    method Grow(f: nat)
      requires Framed() && f < |fields| && fields[f].len == 0 && fields[f].pos <= blen
      requires blen + fields[f].cap <= mem.Length
      requires tlen >= Total(LensOf(fields)) + fields[f].cap ==> tlen <= mem.Length
      modifies `fields, `blen, mem
      ensures Framed() && CapsOf(fields) == CapsOf(old(fields))
      ensures LensOf(fields) == LensOf(old(fields))[f := old(fields[f].cap)]
      ensures IsShifted(mem[..], old(mem[..]), old(fields[f].pos), old(fields[f].cap), old(blen))
      ensures blen == if tlen >= Total(LensOf(fields)) then tlen else old(blen) + old(fields[f].cap)
    {
      var p, grow := fields[f].pos, fields[f].cap;
      OffUpdate(LensOf(fields), f, grow, |fields|);
      Shift(p, grow);
      Renumber(f, grow);
      ResetToTarget();
    }

    /** copy(buf[p:p+len(x)], x) */
    method Put(p: nat, x: seq<byte>)
      requires p + |x| <= mem.Length
      modifies mem
      ensures IsOverwritten(mem[..], old(mem[..]), p, x)
    {
      forall k | p <= k < p + |x| {
        mem[k] := x[k - p];
      }
    }

    /** Sets a field to the given bytes: the source's set, and its setTo followed by the caller's write. */
    method Set(f: nat, x: seq<byte>)
      requires Valid() && f < |fields| && |x| == fields[f].cap > 0
      requires Settable(View(), f, |x|)
      modifies `fields, `blen, mem
      ensures Valid() && Caps() == old(Caps())
      ensures View() == SetField(old(View()), f, x)
    {
      ghost var m, lens := mem[..], LensOf(fields);
      OffMonotone(lens, f, |lens|);
      assert View().fs[f] == FieldAt(m, lens, f);
      var p, l, c := fields[f].pos, fields[f].len, fields[f].cap;
      if l != c {
        SetAbsent(f, x);
      } else {
        Put(p, x);
        OverwrittenCut(m, mem[..], lens, f, x);
      }
    }

    method SetAbsent(f: nat, x: seq<byte>)
      requires Valid() && f < |fields| && fields[f].len == 0 < |x| == fields[f].cap
      requires blen + |x| <= mem.Length && (tlen >= Total(LensOf(fields)) + |x| ==> tlen <= mem.Length)
      modifies `fields, `blen, mem
      ensures Valid() && Caps() == old(Caps())
      ensures View() == Insert(old(View()), f, x)
    {
      ghost var m, lens, was := mem[..], LensOf(fields), View();
      InsertBytes(f, x);
      InsertView(was, m, mem[..], lens, f, x);
      TiledFits(fields);
    }

    /** Grow, and the bytes of the new field. */
    method InsertBytes(f: nat, x: seq<byte>)
      requires Valid() && f < |fields| && fields[f].len == 0 < |x| == fields[f].cap
      requires blen + |x| <= mem.Length && (tlen >= Total(LensOf(fields)) + |x| ==> tlen <= mem.Length)
      modifies `fields, `blen, mem
      ensures Framed() && Caps() == old(Caps()) && LensOf(fields) == LensOf(old(fields))[f := |x|]
      ensures IsInserted(mem[..], old(mem[..]), Off(LensOf(old(fields)), f), x, old(blen))
      ensures blen == if tlen >= Total(LensOf(fields)) then tlen else old(blen) + |x|
    {
      ghost var m := mem[..];
      OffMonotone(LensOf(fields), f, |fields|);
      var p := fields[f].pos;
      Grow(f);
      ghost var m1 := mem[..];
      Put(p, x);
      ShiftedThenPut(m, m1, mem[..], p, x, old(blen));
    }

    /** Getting a field works even when the fields are longer than the buffer: the bytes are those in memory. */
    method Get(f: nat) returns (x: seq<byte>)
      requires Framed() && f < |fields|
      ensures x == View().fs[f]
    {
      TiledFits(fields);
      OffMonotone(LensOf(fields), f, |fields|);
      x := mem[fields[f].pos..fields[f].pos + fields[f].len];
      assert x == FieldAt(mem[..], LensOf(fields), f);
    }

    predicate IsSet(f: nat)
      requires f < |fields|
      reads this
    {
      fields[f].len > 0
    }

    lemma IsSetView(f: nat)
      requires Framed() && f < |fields|
      ensures View().IsSet(f) == IsSet(f)
    {
      TiledFits(fields);
      assert View().fs[f] == FieldAt(mem[..], LensOf(fields), f);
    }

    method Bytes() returns (x: seq<byte>)
      requires Framed()
      ensures x == View().Wire()
    {
      x := mem[..blen];
    }

    method Payload() returns (x: seq<byte>)
      requires Valid()
      ensures x == View().Payload()
    {
      var flen := SumLens();
      x := mem[flen..blen];
      assert x == mem[..][flen..][..blen - flen];
    }

    /** Replaces the payload, whatever the target length. */
    method SetPayload(x: seq<byte>)
      requires Valid() && Total(LensOf(fields)) + |x| <= mem.Length
      modifies `blen, mem
      ensures Valid() && Caps() == old(Caps())
      ensures View() == Layout.SetPayload(old(View()), x)
    {
      var flen := SumLens();
      blen := flen + |x|;
      ghost var m := mem[..];
      Put(flen, x);
      PutAfter(m, mem[..], LensOf(fields), x);
    }

    /** Reads bytes of a filler into the payload. */
    method FillPayload(x: seq<byte>)
      requires Valid() && |x| == blen - Total(LensOf(fields))
      modifies mem
      ensures Valid() && Caps() == old(Caps())
      ensures View() == Fill(old(View()), x)
    {
      var flen := SumLens();
      ghost var m := mem[..];
      Put(flen, x);
      PutAfter(m, mem[..], LensOf(fields), x);
    }

    /** Receives bytes into the start of the buffer, over whatever it held. */
    method Receive(data: seq<byte>)
      requires |data| <= mem.Length
      modifies `blen, mem
      ensures blen == mem.Length
      ensures IsOverwritten(mem[..], old(mem[..]), 0, data)
    {
      blen := mem.Length;
      Put(0, data);
    }

    /** Gives field f its new length and updates the positions from it on. */
    method Renumber(f: nat, newlen: nat)
      requires Tiled(fields) && f < |fields| && (newlen == 0 || newlen == fields[f].cap)
      modifies `fields
      ensures Tiled(fields) && CapsOf(fields) == CapsOf(old(fields))
      ensures LensOf(fields) == LensOf(old(fields))[f := newlen]
      ensures fields[f].pos == old(fields[f].pos)
    {
      var newp := fields[f].pos;
      RenumberStart(fields, f, newlen);
      fields := fields[f := fields[f].(len := newlen)];
      ghost var before := fields;
      RenumberFrom(f, newp, before, LensOf(before));
      RenumberEnd(fields, before, old(fields), f, newlen);
    }

    method RenumberFrom(f: nat, start: nat, ghost before: seq<Field>, ghost lens: seq<nat>)
      requires |lens| == |before| && forall i :: 0 <= i < |lens| ==> lens[i] == before[i].len
      requires f < |before| && Progress(fields, before, lens, f, start)
      modifies `fields
      ensures Done(fields, before, lens, |before|)
    {
      var newp: nat := start;
      for i := f to |fields|
        invariant Progress(fields, before, lens, i, newp)
      {
        ProgressStep(fields, before, lens, i, newp);
        fields := fields[i := fields[i].(pos := newp)];
        newp := newp + fields[i].len;
      }
    }
  }

  /** Writing behind the fields leaves them alone. */
  lemma PutAfter(m: seq<byte>, m': seq<byte>, lens: seq<nat>, x: seq<byte>)
    requires Total(lens) + |x| <= |m| && IsOverwritten(m', m, Total(lens), x)
    ensures Cut(m', lens) == Cut(m, lens)
    ensures m'[Total(lens)..] == x + m[Total(lens)..][|x|..]
  {
    var l, r := Cut(m', lens), Cut(m, lens);
    forall i | 0 <= i < |lens|
      ensures l[i] == r[i]
    {
      assert l[i] == FieldAt(m', lens, i) && r[i] == FieldAt(m, lens, i);
    }
  }

  lemma ShiftedThenPut(m: seq<byte>, m1: seq<byte>, m2: seq<byte>, p: nat, x: seq<byte>, blen: nat)
    requires IsShifted(m1, m, p, |x|, blen) && IsOverwritten(m2, m1, p, x)
    ensures IsInserted(m2, m, p, x, blen)
  {
  }

  /** Inserting into memory is inserting into the layout. */
  lemma InsertView(b: Buf, m: seq<byte>, m': seq<byte>, lens: seq<nat>, f: nat, x: seq<byte>)
    requires Total(lens) <= |m| && b.fs == Cut(m, lens) && b.tail == m[Total(lens)..]
    requires b.HeaderLen() == Total(lens) <= b.blen && b.Memory() == m
    requires f < |lens| && lens[f] == 0 && IsInserted(m', m, Off(lens, f), x, b.blen)
    ensures Total(lens[f := |x|]) == Total(lens) + |x|
    ensures Insert(b, f, x).fs == Cut(m', lens[f := |x|])
    ensures Insert(b, f, x).tail == m'[Total(lens) + |x|..]
  {
    InsertedCut(m, m', lens, f, x, b.blen);
    OffMonotone(lens, f, |lens|);
    SliceRest(m, m', Off(lens, f), x, b.blen, Total(lens));
  }

  lemma RenumberStart(fields: seq<Field>, f: nat, newlen: nat)
    requires Tiled(fields) && f < |fields|
    ensures var before := fields[f := fields[f].(len := newlen)];
            && Progress(before, before, LensOf(fields)[f := newlen], f, fields[f].pos)
            && LensOf(before) == LensOf(fields)[f := newlen]
  {
    var lens := LensOf(fields)[f := newlen];
    var before := fields[f := fields[f].(len := newlen)];
    OffUpdateAll(LensOf(fields), f, newlen);
    forall i | 0 <= i < f
      ensures before[i] == Field(Off(lens, i), lens[i], before[i].cap)
    {
      assert before[i] == fields[i];
    }
  }

  lemma RenumberEnd(fields: seq<Field>, before: seq<Field>, was: seq<Field>, f: nat, newlen: nat)
    requires Tiled(was) && f < |was| && (newlen == 0 || newlen == was[f].cap)
    requires before == was[f := was[f].(len := newlen)]
    requires Done(fields, before, LensOf(was)[f := newlen], |before|)
    ensures Tiled(fields) && CapsOf(fields) == CapsOf(was) && LensOf(fields) == LensOf(was)[f := newlen]
    ensures fields[f].pos == was[f].pos
  {
    var lens := LensOf(was)[f := newlen];
    OffUpdate(LensOf(was), f, newlen, f);
    assert LensOf(fields) == lens && CapsOf(fields) == CapsOf(was);
    forall i | 0 <= i < |fields|
      ensures fields[i].pos == Off(lens, i) && (fields[i].len == 0 || fields[i].len == fields[i].cap)
    {
      assert was[i].len == 0 || was[i].len == was[i].cap;
    }
  }
}
