/** The client's isochronous send schedule. Times are monotonic nanoseconds since the start of the test. */
module Schedule {
  import opened Arith
  import opened Octets
  import opened Times
  import R = Recorder

  /** One turn of the send loop: the stamp recorded before sending, the time right after, and the
      clock when the next target is computed. */
  datatype Tick = Tick(stamp: Time, sent: int, now: int)

  ghost predicate ClockRuns(ticks: seq<Tick>)
  {
    forall k :: 0 <= k < |ticks| ==> 0 <= ticks[k].sent <= ticks[k].now
  }

  /** The start of the next send slot, or of the one after when more than half of this one is gone. */
  function NextTarget(interval: int, sent: int, now: int): int
    requires interval > 0
  {
    interval * (now / interval) + if sent % interval < interval / 2 then interval else 2 * interval
  }

  predicate Ends(duration: Option<int>, target: int)
  {
    duration.Some? && target >= duration.value
  }

  /** The targets slept for, from turn k on. */
  function Targets(interval: int, duration: Option<int>, ticks: seq<Tick>, k: nat): seq<int>
    requires interval > 0
    decreases |ticks| - k
  {
    if k >= |ticks| then []
    else
      var target := NextTarget(interval, ticks[k].sent, ticks[k].now);
      if Ends(duration, target) then [] else [target] + Targets(interval, duration, ticks, k + 1)
  }

  /** How many packets the loop sends: one, and one more for every target waited for. */
  function Sends(interval: int, duration: Option<int>, ticks: seq<Tick>): nat
    requires interval > 0
  {
    Min(|ticks|, 1 + |Targets(interval, duration, ticks, 0)|)
  }

  function Pcount(duration: int, interval: int): int
    requires interval > 0
  {
    1 + duration / interval
  }

  // Laws of one turn.

  /** After a send no earlier than half an interval before its target, the next target is a later slot. */
  lemma TargetsAdvance(interval: int, target: int, slot: int, sent: int, now: int)
    requires interval > 0 && 0 <= sent <= now && target == slot * interval
    requires sent >= target - (interval - interval / 2)
    ensures NextTarget(interval, sent, now) >= target + interval
  {
    var s, m, f := sent / interval, now / interval, sent % interval;
    assert sent == s * interval + f;
    DivMonotone(sent, now, interval);
    MulMonotone(s, m, interval);
    if slot <= s {
      MulMonotone(slot, s, interval);
    } else {
      SlotBefore(interval, slot, s, f);
      OneMore(s, interval);
    }
    AdvanceFrom(interval, target, s * interval, m * interval, f);
    assert interval * m == m * interval;
  }

  lemma OneMore(s: int, interval: int)
    ensures (s + 1) * interval == s * interval + interval
  {
  }

  /** The same, with the starts of the slots of sent and now. */
  lemma AdvanceFrom(interval: int, target: int, sentSlot: int, nowSlot: int, f: int)
    requires 0 <= f < interval && sentSlot <= nowSlot
    requires target <= sentSlot || target == sentSlot + interval
    requires sentSlot + f >= target - (interval - interval / 2)
    ensures nowSlot + (if f < interval / 2 then interval else 2 * interval) >= target + interval
  {
  }

  lemma SlotBefore(interval: int, slot: int, s: int, f: int)
    requires interval > 0 && 0 <= f < interval && slot > s
    requires s * interval + f >= slot * interval - (interval - interval / 2)
    ensures slot == s + 1
  {
    if slot > s + 1 {
      MulMonotone(s + 2, slot, interval);
    }
  }

  lemma DivMonotone(a: int, b: int, n: nat)
    requires n > 0 && a <= b
    ensures a / n <= b / n
  {
    assert a == a / n * n + a % n && b == b / n * n + b % n;
    if a / n > b / n {
      MulMonotone(b / n + 1, a / n, n);
    }
  }

  /** While sent and now fall in one slot, half an interval is exactly the slack: woken any earlier,
      the loop aims for a slot no later than the one it was aiming for. */
  lemma HalfIntervalIsExact(interval: int, target: int, slot: int, sent: int, now: int)
    requires interval > 0 && 0 <= sent <= now && target == slot * interval && sent / interval == now / interval
    ensures NextTarget(interval, sent, now) > target <==> sent >= target - (interval - interval / 2)
  {
    if sent >= target - (interval - interval / 2) {
      TargetsAdvance(interval, target, slot, sent, now);
    } else {
      var s, f := sent / interval, sent % interval;
      assert sent == s * interval + f;
      if s >= slot { MulMonotone(slot, s, interval); }
      MulMonotone(s + 1, slot, interval);
      assert s == slot - 1 ==> s * interval == target - interval;
      if s < slot - 1 { MulMonotone(s + 2, slot, interval); }
    }
  }

  /** The next target is the start of the slot that comes next after now, if the send was in the first half of its
      slot, and else of the one after that. */
  lemma NextTargetExactly(interval: int, sent: int, now: int)
    requires interval > 0 && 0 <= sent <= now
    ensures var t := NextTarget(interval, sent, now);
            && IsSlot(interval, t)
            && (sent % interval < interval / 2 ==> now < t <= now + interval)
            && (sent % interval >= interval / 2 ==> now + interval < t <= now + 2 * interval)
  {
    var slot := TargetIsSlot(interval, sent, now);
    assert now == now / interval * interval + now % interval;
    assert interval * (now / interval) == now / interval * interval;
  }

  lemma TargetIsSlot(interval: int, sent: int, now: int) returns (slot: int)
    requires interval > 0 && 0 <= sent <= now
    ensures NextTarget(interval, sent, now) == slot * interval && slot >= 1
  {
    slot := now / interval + if sent % interval < interval / 2 then 1 else 2;
  }

  // Laws of whole runs.

  /** Each send comes no earlier than half an interval before the target it waited for. */
  ghost predicate OnTime(interval: int, targets: seq<int>, ticks: seq<Tick>, k: nat)
    requires interval > 0
  {
    forall i :: 0 <= i < |targets| && k + i + 1 < |ticks| ==>
      ticks[k + i + 1].sent >= targets[i] - (interval - interval / 2)
  }

  ghost predicate Spaced(interval: int, targets: seq<int>)
  {
    forall i :: 0 <= i < |targets| - 1 ==> targets[i + 1] >= targets[i] + interval
  }

  ghost predicate IsSlot(interval: int, t: int)
  {
    exists slot :: t == slot * interval
  }

  /** The targets are those of the turns one after the other, up to the first at or after the end of the test. */
  lemma {:induction false} TargetsExactly(interval: int, duration: Option<int>, ticks: seq<Tick>, k: nat)
    requires interval > 0 && k <= |ticks|
    ensures var targets := Targets(interval, duration, ticks, k);
            && |targets| <= |ticks| - k
            && (forall i :: 0 <= i < |targets| ==>
                  && targets[i] == NextTarget(interval, ticks[k + i].sent, ticks[k + i].now)
                  && (duration.Some? ==> targets[i] < duration.value))
            && (k + |targets| < |ticks| ==>
                  var tick := ticks[k + |targets|];
                  duration.Some? && NextTarget(interval, tick.sent, tick.now) >= duration.value)
    decreases |ticks| - k
  {
    var targets := Targets(interval, duration, ticks, k);
    if targets != [] {
      TargetsExactly(interval, duration, ticks, k + 1);
      var rest := Targets(interval, duration, ticks, k + 1);
      forall i | 0 <= i < |targets|
        ensures targets[i] == NextTarget(interval, ticks[k + i].sent, ticks[k + i].now)
        ensures duration.Some? ==> targets[i] < duration.value
      {
        if i > 0 { assert targets[i] == rest[i - 1] && ticks[k + 1 + (i - 1)] == ticks[k + i]; }
      }
    }
  }

  /** Successive targets are multiples of the interval, at least one interval apart: no slot is used twice. */
  lemma {:induction false} TargetsAreDistinctSlots(interval: int, duration: Option<int>, ticks: seq<Tick>, k: nat)
    requires interval > 0 && ClockRuns(ticks)
    requires OnTime(interval, Targets(interval, duration, ticks, k), ticks, k)
    ensures Spaced(interval, Targets(interval, duration, ticks, k))
    ensures forall t :: t in Targets(interval, duration, ticks, k) ==>
              t >= interval && IsSlot(interval, t) && !Ends(duration, t)
    decreases |ticks| - k
  {
    var targets := Targets(interval, duration, ticks, k);
    if targets != [] {
      var rest := Targets(interval, duration, ticks, k + 1);
      forall i | 0 <= i < |rest| && k + 1 + i + 1 < |ticks|
        ensures ticks[k + 1 + i + 1].sent >= rest[i] - (interval - interval / 2)
      {
        assert rest[i] == targets[i + 1] && ticks[k + (i + 1) + 1].sent >= targets[i + 1] - (interval - interval / 2);
      }
      TargetsAreDistinctSlots(interval, duration, ticks, k + 1);
      var slot := TargetIsSlot(interval, ticks[k].sent, ticks[k].now);
      MulMonotone(1, slot, interval);
      assert IsSlot(interval, targets[0]);
      if rest != [] {
        assert ticks[k + 0 + 1].sent >= targets[0] - (interval - interval / 2);
        TargetsAdvance(interval, targets[0], slot, ticks[k + 1].sent, ticks[k + 1].now);
      }
      forall i | 0 <= i < |targets| - 1
        ensures targets[i + 1] >= targets[i] + interval
      {
        if i > 0 { assert rest[i - 1 + 1] >= rest[i - 1] + interval; }
      }
    }
  }

  lemma {:induction false} SpacedGrows(interval: int, targets: seq<int>, i: nat)
    requires interval > 0 && Spaced(interval, targets) && i < |targets| && targets[0] >= interval
    ensures targets[i] >= (i + 1) * interval
  {
    if i > 0 {
      SpacedGrows(interval, targets, i - 1);
      assert targets[i - 1 + 1] >= targets[i - 1] + interval;
    }
  }

  /** A test of a given duration sends at most ceil(duration / interval) packets, which is within the
      capacity the client gives its recorder. */
  lemma SendsAreBounded(interval: int, duration: int, ticks: seq<Tick>)
    requires interval > 0 && duration > 0 && ClockRuns(ticks)
    requires OnTime(interval, Targets(interval, Some(duration), ticks, 0), ticks, 0)
    ensures Sends(interval, Some(duration), ticks) <= (duration + interval - 1) / interval
    ensures (duration + interval - 1) / interval <= Pcount(duration, interval)
  {
    var targets := Targets(interval, Some(duration), ticks, 0);
    var n := |targets|;
    TargetsAreDistinctSlots(interval, Some(duration), ticks, 0);
    if n > 0 {
      assert targets[0] in targets && targets[n - 1] in targets;
      SpacedGrows(interval, targets, n - 1);
    }
    assert n * interval < duration;
    CeilingAbove(n, interval, duration);
    CeilingBelow(interval, duration);
  }

  lemma CeilingBelow(interval: int, duration: int)
    requires interval > 0
    ensures (duration + interval - 1) / interval <= duration / interval + 1
  {
    var q, r := duration / interval, duration % interval;
    assert (q + 1) * interval == q * interval + interval;
    DivModUnique(duration + interval, q + 1, r, interval);
    DivMonotone(duration + interval - 1, duration + interval, interval);
  }

  lemma CeilingAbove(n: nat, interval: int, duration: int)
    requires interval > 0 && n * interval < duration
    ensures n + 1 <= (duration + interval - 1) / interval
  {
    DivModUnique((n + 1) * interval, n + 1, 0, interval);
    assert (n + 1) * interval == n * interval + interval;
    DivMonotone((n + 1) * interval, duration + interval - 1, interval);
  }

  method NextSlot(interval: int, sent: int, now: int) returns (tnext: int)
    requires interval > 0
    ensures tnext == NextTarget(interval, sent, now)
  {
    tnext := interval * (now / interval);
    if sent % interval < interval / 2 {
      tnext := tnext + interval;
    } else {
      tnext := tnext + 2 * interval;
    }
  }

  /** Each packet sent is stamped with the time of its turn. */
  ghost predicate AreStamps(sends: seq<Time>, ticks: seq<Tick>)
  {
    |sends| <= |ticks| && forall i {:trigger sends[i]} :: 0 <= i < |sends| ==> sends[i] == ticks[i].stamp
  }

  /** After k turns that did not end the test. */
  ghost predicate Underway(log: R.Log, interval: int, duration: Option<int>, ticks: seq<Tick>, k: nat,
                           targets: seq<int>)
    requires interval > 0
  {
    && |log.sends| == k == |targets| && log.firsts == [] && AreStamps(log.sends, ticks)
    && targets + Targets(interval, duration, ticks, k) == Targets(interval, duration, ticks, 0)
  }

  lemma Turn(log: R.Log, interval: int, duration: Option<int>, ticks: seq<Tick>, k: nat, targets: seq<int>)
    requires interval > 0 && k < |ticks| && Underway(log, interval, duration, ticks, k, targets)
    ensures var t := NextTarget(interval, ticks[k].sent, ticks[k].now);
            var log' := log.(sends := log.sends + [ticks[k].stamp]);
            if Ends(duration, t) then AreStamps(log'.sends, ticks) && targets == Targets(interval, duration, ticks, 0)
            else Underway(log', interval, duration, ticks, k + 1, targets + [t])
  {
    var t, rest := NextTarget(interval, ticks[k].sent, ticks[k].now), Targets(interval, duration, ticks, k);
    if !Ends(duration, t) {
      assert targets + rest == (targets + [t]) + Targets(interval, duration, ticks, k + 1);
    }
  }

  method SendOne(rec: R.Recorder, seqno: uint32, stamp: Time)
    requires rec.Valid() && rec.capacity >= 1 && seqno == |rec.log.sends|
    modifies rec
    ensures rec.Valid() && rec.log == old(rec.log).(sends := old(rec.log).sends + [stamp])
  {
    rec.RecordPreSend(seqno, stamp);
    var slot := rec.RecordPostSend();
  }

  /** The send loop. It stops at the end of the test, or when no more ticks come because the wait was
      cancelled. A failed send is not part of this model. */
  method Send(rec: R.Recorder, interval: int, duration: Option<int>, ticks: seq<Tick>) returns (targets: seq<int>)
    requires interval > 0 && ClockRuns(ticks) && |ticks| <= TWO_TO_32
    requires rec.Valid() && rec.capacity >= 1 && rec.log == R.EMPTY
    modifies rec
    ensures rec.Valid()
    ensures targets == Targets(interval, duration, ticks, 0)
    ensures |rec.log.sends| == Sends(interval, duration, ticks)
    ensures AreStamps(rec.log.sends, ticks) && rec.log.firsts == []
  {
    targets := [];
    var seqno := 0;
    while seqno < |ticks|
      invariant 0 <= seqno <= |ticks| && rec.Valid()
      invariant Underway(rec.log, interval, duration, ticks, seqno, targets)
    {
      var p := ticks[seqno];
      Turn(rec.log, interval, duration, ticks, seqno, targets);
      SendOne(rec, seqno, p.stamp);
      seqno := seqno + 1;
      var tnext := NextSlot(interval, p.sent, p.now);
      if duration.Some? && tnext >= duration.value {
        return;
      }
      targets := targets + [tnext];
    }
    assert Targets(interval, duration, ticks, seqno) == [];
  }

  /** In standard mode the results buffer never wraps, so a round trip's index is its seqno. */
  method StandardTest(interval: int, duration: int, ticks: seq<Tick>) returns (rec: R.Recorder)
    requires interval > 0 && duration > 0 && ClockRuns(ticks) && |ticks| <= TWO_TO_32
    requires OnTime(interval, Targets(interval, Some(duration), ticks, 0), ticks, 0)
    ensures fresh(rec) && rec.Valid()
    ensures |rec.log.sends| == Sends(interval, Some(duration), ticks) <= rec.capacity == 1 + duration / interval
    ensures |rec.data| == |rec.log.sends|
    ensures forall i :: 0 <= i < |rec.data| ==> rec.data[i].clientSend == ticks[i].stamp
  {
    SendsAreBounded(interval, duration, ticks);
    assert duration / interval >= 0 by { DivMonotone(0, duration, interval); }
    rec := new R.Recorder(Pcount(duration, interval));
    var _ := Send(rec, interval, Some(duration), ticks);
    ghost var f, log, n := rec.View(), rec.log, |rec.log.sends|;
    forall i | 0 <= i < n
      ensures f.data[i].clientSend == ticks[i].stamp
    {
      assert R.Holds(f.data, f.sentIndex, log, n - 1 - i);
      R.RecordReceived(log, i);
    }
  }
}
