/** The server's 64-bit received window and its exact meaning over any sequence of seqnos. */
module Window {
  import opened Arith
  import opened BitOps
  import opened Octets

  type Seqno = uint32

  const INVALID_SEQNO: Seqno := 0xFFFF_FFFF

  /** A uint64 bitmap, as the set of its bits that are 1. */
  type Bits = w: set<nat> | forall i :: i in w ==> i < 64

  /** Go's uint64 `<<`: a count of 64 or more gives 0. */
  function Shl(w: Bits, n: nat): (r: Bits)
    ensures forall j: nat {:trigger j in r} :: j in r <==> n <= j < 64 && j - n in w
  {
    set i | i in w && i + n < 64 :: i + n
  }

  /** Go's uint64 `>> 1`. */
  function Shr1(w: Bits): (r: Bits)
    ensures forall j: nat {:trigger j in r} :: j in r <==> j + 1 in w
  {
    set i | i in w && i > 0 :: i - 1
  }

  /** Go's uint32 subtraction seqno - last. */
  function Since(seqno: Seqno, last: Seqno): Seqno
  {
    if last <= seqno then seqno - last else seqno - last + TWO_TO_32
  }

  datatype State = State(last: Seqno, bits: Bits, valid: bool, count: uint32)

  const INIT := State(INVALID_SEQNO, {}, false, 0)

  /** What one accepted seqno does to lastSeqno, the window and the count. */
  function Accept(s: State, seqno: Seqno): State
  {
    State(seqno, Shl(s.bits, Since(seqno, s.last)) + {0}, true,
          if s.count + 1 == TWO_TO_32 then 0 else s.count + 1)
  }

  function Run(accepted: seq<Seqno>): State
  {
    if accepted == [] then INIT
    else Accept(Run(accepted[..|accepted| - 1]), accepted[|accepted| - 1])
  }

  lemma RunSnoc(accepted: seq<Seqno>, seqno: Seqno)
    ensures Run(accepted + [seqno]) == Accept(Run(accepted), seqno)
  {
    assert (accepted + [seqno])[..|accepted|] == accepted;
  }

  lemma LastIsLast(accepted: seq<Seqno>)
    requires accepted != []
    ensures Run(accepted).last == accepted[|accepted| - 1] && Run(accepted).valid
  {
  }

  /** How far, counting every wrap as a full turn, the seqno advanced from accept k to the end. */
  function Travel(accepted: seq<Seqno>, k: nat): nat
    requires k < |accepted|
  {
    var n := |accepted|;
    if k == n - 1 then 0
    else Travel(accepted[..n - 1], k) + Since(accepted[n - 1], accepted[n - 2])
  }

  lemma TravelStep(accepted: seq<Seqno>, k: nat)
    requires |accepted| >= 2 && k < |accepted| - 1
    ensures var n := |accepted|;
            Travel(accepted, k) == Travel(accepted[..n - 1], k) + Since(accepted[n - 1], accepted[n - 2])
  {
  }

  /** Some accept lies a forward distance of i behind the end. */
  ghost predicate Lies(accepted: seq<Seqno>, i: int)
  {
    exists k :: 0 <= k < |accepted| && Travel(accepted, k) == i
  }

  lemma LiesAt(accepted: seq<Seqno>, k: nat, i: int)
    requires k < |accepted| && Travel(accepted, k) == i
    ensures Lies(accepted, i)
  {
  }

  /** One more accept moves the others further behind and adds itself. */
  lemma LiesStep(accepted: seq<Seqno>, i: nat)
    requires |accepted| >= 2
    ensures var n := |accepted|;
            Lies(accepted, i) <==> i == 0 || Lies(accepted[..n - 1], i - Since(accepted[n - 1], accepted[n - 2]))
  {
    var n := |accepted|;
    var front, d := accepted[..n - 1], Since(accepted[n - 1], accepted[n - 2]);
    if i == 0 {
      LiesAt(accepted, n - 1, 0);
    }
    if Lies(front, i - d) {
      var k :| 0 <= k < n - 1 && Travel(front, k) == i - d;
      TravelStep(accepted, k);
      LiesAt(accepted, k, i);
    }
    if Lies(accepted, i) && i != 0 {
      var k :| 0 <= k < n && Travel(accepted, k) == i;
      TravelStep(accepted, k);
      LiesAt(front, k, i - d);
    }
  }

  /** Bit i is set exactly when some accepted packet lies a forward distance of i behind the end of
      the sequence: for every sequence, with late, duplicate and wrapping seqnos. */
  lemma {:induction false} ClosedForm(accepted: seq<Seqno>, i: nat)
    requires i < 64
    ensures i in Run(accepted).bits <==> Lies(accepted, i)
  {
    var n := |accepted|;
    if n == 0 {
    } else if n == 1 {
      ShlEmpty(Since(accepted[0], INVALID_SEQNO));
      assert Travel(accepted, 0) == 0;
    } else {
      var front, d := accepted[..n - 1], Since(accepted[n - 1], accepted[n - 2]);
      LastIsLast(front);
      LiesStep(accepted, i);
      if i >= d {
        ClosedForm(front, i - d);
      }
    }
  }

  lemma ShlEmpty(n: nat)
    ensures Shl({}, n) == {}
  {
  }

  /** The count in each reply is the number of accepts, as a uint32. */
  lemma {:induction false} CountIsLength(accepted: seq<Seqno>)
    ensures Run(accepted).count == |accepted| % TWO_TO_32
  {
    if accepted != [] {
      CountIsLength(accepted[..|accepted| - 1]);
      OneMoreMod(|accepted| - 1);
    }
  }

  lemma OneMoreMod(n: nat)
    ensures (n + 1) % TWO_TO_32 == if n % TWO_TO_32 + 1 == TWO_TO_32 then 0 else n % TWO_TO_32 + 1
  {
  }

  /** The window is valid from the first accept on. */
  lemma ValidIfAny(accepted: seq<Seqno>)
    ensures Run(accepted).valid <==> accepted != []
  {
  }

  /** The seqno i behind last, modulo 2^32. */
  function Back(last: Seqno, i: nat): Seqno
    requires i < 64
  {
    if i <= last then last - i else last - i + TWO_TO_32
  }

  /** How many of the accepts after accept k had a smaller seqno than the one just before. */
  function DescentsAfter(accepted: seq<Seqno>, k: nat): nat
    requires k < |accepted|
  {
    var n := |accepted|;
    if k == n - 1 then 0
    else DescentsAfter(accepted[..n - 1], k) + if accepted[n - 1] < accepted[n - 2] then 1 else 0
  }

  /** Every descent is taken for a wrap, and costs a full turn. */
  lemma {:induction false} TravelIsDistance(accepted: seq<Seqno>, k: nat)
    requires k < |accepted|
    ensures Travel(accepted, k) == accepted[|accepted| - 1] - accepted[k] + DescentsAfter(accepted, k) * TWO_TO_32
  {
    if k < |accepted| - 1 {
      TravelIsDistance(accepted[..|accepted| - 1], k);
    }
  }

  /** Accept k is of the seqno i behind the last, and is not followed by a descent other than a wrap
      between the two. */
  ghost predicate ShowsAt(accepted: seq<Seqno>, k: nat, i: nat)
    requires accepted != [] && i < 64
  {
    var last := accepted[|accepted| - 1];
    k < |accepted| && accepted[k] == Back(last, i) && DescentsAfter(accepted, k) == if i <= last then 0 else 1
  }

  lemma TravelNames(accepted: seq<Seqno>, k: nat, i: nat)
    requires k < |accepted| && i < 64
    ensures Travel(accepted, k) == i <==> ShowsAt(accepted, k, i)
  {
    TravelIsDistance(accepted, k);
    var descents := DescentsAfter(accepted, k);
    if descents >= 2 {
      MulMonotone(2, descents, TWO_TO_32);
    }
  }

  /** What a bit means, for every sequence: it is set exactly if the seqno it stands for was accepted with
      no descent from then on, or just the one of a wrap that lies between. */
  lemma BitExactly(accepted: seq<Seqno>, i: nat)
    requires accepted != [] && i < 64
    ensures i in Run(accepted).bits <==> exists k: nat :: ShowsAt(accepted, k, i)
  {
    ClosedForm(accepted, i);
    if Lies(accepted, i) {
      var k :| 0 <= k < |accepted| && Travel(accepted, k) == i;
      TravelNames(accepted, k, i);
    }
    if k: nat :| ShowsAt(accepted, k, i) {
      TravelNames(accepted, k, i);
      LiesAt(accepted, k, i);
    }
  }

  /** A bit tells the receipt status of its seqno. */
  ghost predicate IsRight(accepted: seq<Seqno>, i: nat)
    requires accepted != [] && i < 64
  {
    i in Run(accepted).bits <==> Back(accepted[|accepted| - 1], i) in accepted
  }

  /** It does exactly if its seqno was never accepted, or has an accept that shows. */
  lemma RightExactly(accepted: seq<Seqno>, i: nat)
    requires accepted != [] && i < 64
    ensures IsRight(accepted, i)
       <==> Back(accepted[|accepted| - 1], i) !in accepted || exists k: nat :: ShowsAt(accepted, k, i)
  {
    BitExactly(accepted, i);
    if k: nat :| ShowsAt(accepted, k, i) {
      assert accepted[k] in accepted;
    }
  }

  /** Here 5 was accepted, but 3 came after it, and the window sent with 6 denies it. */
  lemma AcceptedButDenied()
    ensures var accepted: seq<Seqno> := [5, 3, 6];
            Back(6, 1) == 5 && 5 in accepted && 1 !in Run(accepted).bits && !IsRight(accepted, 1)
  {
    var accepted: seq<Seqno> := [5, 3, 6];
    assert accepted[..2] == [5, 3] && accepted[..2][..1] == [5];
    assert DescentsAfter(accepted[..2], 0) == 1;
    forall k: nat
      ensures !ShowsAt(accepted, k, 1)
    {
    }
    RightExactly(accepted, 1);
  }

  /** Soundness: a set bit always names an accepted seqno, and bit 0 is the packet just accepted. */
  lemma BitsAreAccepted(accepted: seq<Seqno>, i: nat)
    requires accepted != [] && i < 64
    ensures 0 in Run(accepted).bits
    ensures i in Run(accepted).bits ==> Back(accepted[|accepted| - 1], i) in accepted
  {
    BitExactly(accepted, 0);
    assert ShowsAt(accepted, |accepted| - 1, 0);
    BitExactly(accepted, i);
    if k: nat :| ShowsAt(accepted, k, i) {
      assert accepted[k] in accepted;
    }
  }

  ghost predicate InOrder(accepted: seq<Seqno>)
  {
    forall j, k :: 0 <= j < k < |accepted| ==> accepted[j] <= accepted[k]
  }

  /** The accepts from k on never descend. */
  ghost predicate Climbs(accepted: seq<Seqno>, k: nat)
  {
    forall m :: k < m < |accepted| ==> accepted[m - 1] <= accepted[m]
  }

  lemma {:induction false} ClimbsExactly(accepted: seq<Seqno>, k: nat)
    requires k < |accepted|
    ensures DescentsAfter(accepted, k) == 0 <==> Climbs(accepted, k)
  {
    var n := |accepted|;
    if k < n - 1 {
      var front := accepted[..n - 1];
      ClimbsExactly(front, k);
      assert Climbs(accepted, k) <==> Climbs(front, k) && accepted[n - 2] <= accepted[n - 1] by {
        assert forall m :: 0 <= m < n - 1 ==> front[m] == accepted[m];
        if Climbs(accepted, k) { assert accepted[n - 1 - 1] <= accepted[n - 1]; }
      }
    }
  }

  /** In particular, on a nondecreasing sequence every bit is right. */
  lemma BitsAreExact(accepted: seq<Seqno>, i: nat)
    requires accepted != [] && InOrder(accepted) && i < 64
    ensures IsRight(accepted, i)
  {
    var last := accepted[|accepted| - 1];
    RightExactly(accepted, i);
    if Back(last, i) in accepted {
      var k :| 0 <= k < |accepted| && accepted[k] == Back(last, i);
      ClimbsExactly(accepted, k);
      assert accepted[k] <= last;
      assert ShowsAt(accepted, k, i);
    }
  }

  /** A seqno that arrives late leaves nothing but its own bit: the history reported so far is
      forgotten, although the source has a branch meant to keep it. */
  lemma LateForgets(s: State, seqno: Seqno)
    requires seqno < s.last <= TWO_TO_32 - 64
    ensures Accept(s, seqno).bits == {0}
  {
    assert Since(seqno, s.last) >= 64;
  }

  // The bitmap as the uint64 that travels in the packet.

  function Value(w: Bits, lo: nat): nat
    requires lo <= 64
    decreases 64 - lo
  {
    if lo == 64 then 0 else (if lo in w then 1 else 0) + 2 * Value(w, lo + 1)
  }

  function BitsOf(v: nat, lo: nat): (w: Bits)
    requires lo <= 64
    ensures forall i :: i in w ==> lo <= i
    decreases 64 - lo
  {
    if lo == 64 then {} else (if v % 2 == 1 then {lo} else {}) + BitsOf(v / 2, lo + 1)
  }

  lemma {:induction false} BitsOfValue(w: Bits, lo: nat)
    requires lo <= 64
    ensures BitsOf(Value(w, lo), lo) == set i | i in w && lo <= i
    decreases 64 - lo
  {
    if lo < 64 {
      BitsOfValue(w, lo + 1);
      assert Value(w, lo) / 2 == Value(w, lo + 1);
    }
  }

  /** Bit i of that integer is bit i of the window. */
  lemma {:induction false} ValueBits(w: Bits, lo: nat, i: nat)
    requires lo <= i < 64
    ensures HasBit(Value(w, lo), i - lo) <==> i in w
    decreases 64 - lo
  {
    assert Value(w, lo) / 2 == Value(w, lo + 1);
    if lo < i {
      ValueBits(w, lo + 1, i);
    }
  }

  lemma {:induction false} ValueBound(w: Bits, lo: nat)
    requires lo <= 64
    ensures Value(w, lo) < Pow2(64 - lo)
    decreases 64 - lo
  {
    if lo < 64 {
      ValueBound(w, lo + 1);
    }
  }
}
