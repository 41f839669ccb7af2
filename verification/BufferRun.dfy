/** Any sequence of operations on the field buffer, on the layout and on the bytes. */
module BufferRun {
  import opened Layout
  import opened Octets
  import F = Fbuf

  datatype Op =
    | Put(f: nat, x: seq<byte>)
    | Len(tlen: int)

  /** The source demands of a field's value that it have the field's capacity; and the fields must fit. */
  ghost predicate Allowed(b: Buf, caps: seq<nat>, op: Op)
    requires WellFormed(b, caps)
  {
    op.Put? ==> op.f < |caps| && |op.x| == caps[op.f] > 0 && Settable(b, op.f, |op.x|)
  }

  ghost function Apply(b: Buf, caps: seq<nat>, op: Op): (b': Buf)
    requires WellFormed(b, caps) && Allowed(b, caps, op)
    ensures WellFormed(b', caps)
  {
    match op
    case Put(f, x) =>
      SetFieldLaw(b, caps, f, x);
      SetField(b, f, x)
    case Len(tlen) =>
      SetLenLaw(b, caps, tlen);
      SetLen(b, tlen)
  }

  ghost predicate AllAllowed(b: Buf, caps: seq<nat>, ops: seq<Op>)
    requires WellFormed(b, caps)
    decreases |ops|
  {
    ops == [] || (Allowed(b, caps, ops[0]) && AllAllowed(Apply(b, caps, ops[0]), caps, ops[1..]))
  }

  ghost function Run(b: Buf, caps: seq<nat>, ops: seq<Op>): (b': Buf)
    requires WellFormed(b, caps) && AllAllowed(b, caps, ops)
    ensures WellFormed(b', caps)
    decreases |ops|
  {
    if ops == [] then b else Run(Apply(b, caps, ops[0]), caps, ops[1..])
  }

  /** The map from field to bytes: what was put last. */
  function Latest(fs: seq<seq<byte>>, ops: seq<Op>, f: nat): seq<byte>
    requires f < |fs|
  {
    if ops == [] then fs[f]
    else
      var op := ops[|ops| - 1];
      if op.Put? && op.f == f then op.x else Latest(fs, ops[..|ops| - 1], f)
  }

  lemma {:induction false} LatestShift(fs: seq<seq<byte>>, ops: seq<Op>, f: nat)
    requires f < |fs| && ops != [] && (ops[0].Put? ==> ops[0].f < |fs|)
    ensures Latest(fs, ops, f) == Latest(if ops[0].Put? then fs[ops[0].f := ops[0].x] else fs, ops[1..], f)
  {
    if |ops| > 1 {
      var front := ops[..|ops| - 1];
      LatestShift(fs, front, f);
      assert front[1..] == ops[1..][..|ops| - 2];
    }
  }

  /** After any run, the wire holds the fields in index order, each as it was put last, and then the
      payload; the capacity never changes. */
  lemma {:induction false} RunIsMap(b: Buf, caps: seq<nat>, ops: seq<Op>)
    requires WellFormed(b, caps) && AllAllowed(b, caps, ops)
    ensures var b' := Run(b, caps, ops);
            && (forall f :: 0 <= f < |caps| ==> b'.fs[f] == Latest(b.fs, ops, f))
            && b'.Wire() == Flat(b'.fs, |b'.fs|) + b'.Payload()
            && |b'.Memory()| == |b.Memory()|
    decreases |ops|
  {
    if ops == [] {
      WireIsFieldsThenPayload(b, caps);
    } else {
      var op := ops[0];
      if op.Put? {
        SetFieldLaw(b, caps, op.f, op.x);
      }
      RunIsMap(Apply(b, caps, op), caps, ops[1..]);
      forall f | 0 <= f < |caps|
        ensures Run(b, caps, ops).fs[f] == Latest(b.fs, ops, f)
      {
        LatestShift(b.fs, ops, f);
      }
    }
  }

  /** While the target length does not exceed the fields, setting fields never costs a byte of payload. */
  lemma {:induction false} PutsKeepPayload(b: Buf, caps: seq<nat>, ops: seq<Op>)
    requires WellFormed(b, caps) && AllAllowed(b, caps, ops)
    requires b.tlen <= b.HeaderLen() && forall i :: 0 <= i < |ops| ==> ops[i].Put?
    ensures Run(b, caps, ops).Payload() == b.Payload()
    decreases |ops|
  {
    if ops != [] {
      var op := ops[0];
      SetFieldLaw(b, caps, op.f, op.x);
      FlatUpdate(b.fs, op.f, op.x, |b.fs|);
      PutsKeepPayload(Apply(b, caps, op), caps, ops[1..]);
    }
  }

  /** The bytes follow the layout through any run. */
  method RunAll(fb: F.Fbuf, ops: seq<Op>)
    requires fb.Valid() && WellFormed(fb.View(), fb.Caps()) && AllAllowed(fb.View(), fb.Caps(), ops)
    modifies fb, fb.mem
    ensures fb.Valid() && fb.Caps() == old(fb.Caps())
    ensures fb.View() == Run(old(fb.View()), old(fb.Caps()), ops)
  {
    ghost var b, caps := fb.View(), fb.Caps();
    var i := 0;
    while i < |ops|
      invariant 0 <= i <= |ops|
      invariant fb.Valid() && fb.Caps() == caps && WellFormed(fb.View(), caps)
      invariant AllAllowed(fb.View(), caps, ops[i..])
      invariant Run(fb.View(), caps, ops[i..]) == Run(b, caps, ops)
    {
      assert ops[i..][0] == ops[i] && ops[i..][1..] == ops[i + 1..];
      Step(fb, ops[i]);
      i := i + 1;
    }
  }

  method Step(fb: F.Fbuf, op: Op)
    requires fb.Valid() && WellFormed(fb.View(), fb.Caps()) && Allowed(fb.View(), fb.Caps(), op)
    modifies fb, fb.mem
    ensures fb.Valid() && fb.Caps() == old(fb.Caps())
    ensures fb.View() == Apply(old(fb.View()), old(fb.Caps()), op)
  {
    match op
    case Put(f, x) => fb.Set(f, x);
    case Len(tlen) => var _ := fb.SetTargetLen(tlen);
  }
}
