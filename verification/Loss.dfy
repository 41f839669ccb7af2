/** Classifying lost round trips, after a test, from the received windows of the replies that came. */
module Loss {
  import opened Octets
  import opened Recorder
  import opened Window

  datatype Lost = LostTrue | LostDown | LostUp | LostFalse

  /** The reply to round trip i, if it was received with a window, reports on round trip p. */
  predicate Covers(data: seq<RoundTrip>, i: int, p: int)
  {
    0 <= p < i < |data| && i - p <= 63 && data[i].ReplyReceived() && 0 in data[i].window
  }

  predicate Confirms(data: seq<RoundTrip>, i: int, p: int)
  {
    Covers(data, i, p) && i - p in data[i].window
  }

  ghost predicate CoveredBelow(data: seq<RoundTrip>, m: nat, p: nat)
  {
    exists i :: p < i < m && Covers(data, i, p)
  }

  ghost predicate ConfirmedBelow(data: seq<RoundTrip>, m: nat, p: nat)
  {
    exists i :: p < i < m && Confirms(data, i, p)
  }

  /** The status of round trip p, judged from the replies to round trips below m. */
  ghost function StatusBelow(data: seq<RoundTrip>, windows: bool, m: nat, p: nat): Lost
    requires p < m <= |data|
  {
    if data[p].ReplyReceived() then LostFalse
    else if windows && ConfirmedBelow(data, m, p) then LostDown
    else if windows && CoveredBelow(data, m, p) then LostUp
    else LostTrue
  }

  ghost function Status(data: seq<RoundTrip>, windows: bool, p: nat): Lost
    requires p < |data|
  {
    StatusBelow(data, windows, |data|, p)
  }

  function Rank(s: Lost): nat
  {
    match s case LostTrue => 0 case LostUp => 1 case LostDown => 2 case LostFalse => 3
  }

  /** As more replies are taken into account, a lost packet only moves from unknown to upstream to
      downstream, and the line between lost and not lost is never crossed. */
  lemma StatusOnlyRises(data: seq<RoundTrip>, windows: bool, m: nat, m': nat, p: nat)
    requires p < m <= m' <= |data|
    ensures Rank(StatusBelow(data, windows, m, p)) <= Rank(StatusBelow(data, windows, m', p))
    ensures StatusBelow(data, windows, m, p) == LostFalse <==> StatusBelow(data, windows, m', p) == LostFalse
  {
  }

  /** The status once the reply to round trip i, with this window, is taken in for round trip p. */
  function Update(s: Lost, rcvd: bool): Lost
  {
    if s == LostFalse || s == LostDown then s else if rcvd then LostDown else LostUp
  }

  lemma StatusStep(data: seq<RoundTrip>, windows: bool, i: nat, p: nat)
    requires p < i < |data|
    ensures StatusBelow(data, windows, i + 1, p)
         == if windows && Covers(data, i, p) then Update(StatusBelow(data, windows, i, p), i - p in data[i].window)
            else StatusBelow(data, windows, i, p)
  {
    assert CoveredBelow(data, i + 1, p) <==> CoveredBelow(data, i, p) || Covers(data, i, p);
    assert ConfirmedBelow(data, i + 1, p) <==> ConfirmedBelow(data, i, p) || Confirms(data, i, p);
  }

  predicate Bit(w: Bits, b: nat) { b in w }

  /** r is w after n applications of `>> 1`. */
  ghost predicate Shifted(r: Bits, w: Bits, n: nat)
  {
    forall b: nat {:trigger Bit(r, b)} :: Bit(r, b) <==> Bit(w, b + n)
  }

  lemma ShiftMore(r: Bits, w: Bits, n: nat)
    requires Shifted(r, w, n)
    ensures Shifted(Shr1(r), w, n + 1)
    ensures 0 in r <==> n in w
  {
    assert Bit(r, 0) <==> Bit(w, 0 + n);
    forall b: nat
      ensures Bit(Shr1(r), b) <==> Bit(w, b + (n + 1))
    {
      assert Bit(r, b + 1) <==> Bit(w, b + 1 + n);
      assert b + 1 + n == b + (n + 1);
    }
  }

  /** The nested loops of the results code compute the closed form. */
  method Classify(data: seq<RoundTrip>, windows: bool) returns (lost: array<Lost>)
    ensures fresh(lost) && lost.Length == |data|
    ensures forall p :: 0 <= p < |data| ==> lost[p] == Status(data, windows, p)
  {
    lost := new Lost[|data|](_ => LostTrue);
    for i := 0 to |data|
      invariant forall p :: i <= p < |data| ==> lost[p] == LostTrue
      invariant forall p :: 0 <= p < i ==> lost[p] == StatusBelow(data, windows, i, p)
    {
      ghost var before := lost[..];
      if data[i].ReplyReceived() {
        lost[i] := LostFalse;
        var rwin := data[i].window;
        if windows && 0 in rwin {
          TakeInWindow(lost, i, rwin);
        }
      }
      forall p | 0 <= p < i
        ensures lost[p] == StatusBelow(data, windows, i + 1, p)
      {
        assert before[p] == StatusBelow(data, windows, i, p);
        StatusStep(data, windows, i, p);
      }
    }
  }

  /** The inner loop: the window of the reply to round trip i, shifted out bit by bit. */
  method TakeInWindow(lost: array<Lost>, i: nat, window: Bits)
    requires i < lost.Length
    modifies lost
    ensures forall p :: i <= p < lost.Length ==> lost[p] == old(lost[p])
    ensures forall p :: 0 <= p < i ==>
              lost[p] == if i - p <= 63 then Update(old(lost[p]), i - p in window) else old(lost[p])
  {
    ghost var before := lost[..];
    assert Shifted(window, window, 0);
    ShiftMore(window, window, 0);
    var rwin := Shr1(window);
    var wend := Max(i - 63, 0);
    var j := i - 1;
    while j >= wend
      invariant wend - 1 <= j <= i - 1
      invariant Shifted(rwin, window, i - j)
      invariant forall p :: i <= p < lost.Length ==> lost[p] == before[p]
      invariant forall p :: 0 <= p <= j ==> lost[p] == before[p]
      invariant forall p :: j < p < i ==> lost[p] == Update(before[p], i - p in window)
    {
      ShiftMore(rwin, window, i - j);
      var rcvd := 0 in rwin;
      if rcvd {
        if lost[j] != LostFalse {
          lost[j] := LostDown;
        }
      } else if lost[j] == LostTrue || lost[j] == LostUp {
        lost[j] := LostUp;
      }
      rwin := Shr1(rwin);
      j := j - 1;
    }
  }
}
