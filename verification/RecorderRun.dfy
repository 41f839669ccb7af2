/** What the recorder makes of a whole test, in terms of the sends and receives alone. */
module RecorderRun {
  import opened Octets
  import opened Recorder
  import opened Times

  function Sends(events: seq<Event>): seq<Time>
  {
    if events == [] then []
    else
      var e := events[|events| - 1];
      Sends(events[..|events| - 1]) + if e.Send? then [e.at] else []
  }

  /** How many packets were sent before event m. */
  function Sent(events: seq<Event>, m: nat): nat
    requires m <= |events|
  {
    |Sends(events[..m])|
  }

  /** Event m is a reply to something sent by then, and one of the last sends, as many as the buffer holds. */
  predicate Retained(events: seq<Event>, capacity: nat, m: nat)
    requires m < |events|
  {
    && events[m].Receive? && events[m].reply.seqno < Sent(events, m)
    && Sent(events, m) - events[m].reply.seqno <= capacity
  }

  /** Event l is an earlier reply to the same packet. */
  predicate SameEarlier(events: seq<Event>, capacity: nat, l: nat, m: nat)
    requires l < |events| && m < |events|
  {
    && l < m && Retained(events, capacity, l)
    && events[m].Receive? && events[l].reply.seqno == events[m].reply.seqno
  }

  /** The first reply to its packet, while that is in the buffer. */
  ghost predicate Counts(events: seq<Event>, capacity: nat, m: nat)
    requires m < |events|
  {
    Retained(events, capacity, m) && forall l :: 0 <= l < m ==> !SameEarlier(events, capacity, l, m)
  }

  // Prefixes.

  lemma RetainedBefore(events: seq<Event>, capacity: nat, n: nat, m: nat)
    requires m < n <= |events|
    ensures Retained(events[..n], capacity, m) == Retained(events, capacity, m)
  {
    assert events[..n][..m] == events[..m];
  }

  lemma CountsBefore(events: seq<Event>, capacity: nat, n: nat, m: nat)
    requires m < n <= |events|
    ensures Counts(events[..n], capacity, m) == Counts(events, capacity, m)
  {
    RetainedBefore(events, capacity, n, m);
    forall l: nat | l < m
      ensures SameEarlier(events[..n], capacity, l, m) == SameEarlier(events, capacity, l, m)
    {
      RetainedBefore(events, capacity, n, l);
    }
  }

  lemma {:induction false} RunSends(events: seq<Event>, capacity: nat)
    ensures Run(events, capacity).sends == Sends(events)
  {
    if events != [] {
      RunSends(events[..|events| - 1], capacity);
    }
  }

  lemma {:induction false} SentGrows(events: seq<Event>, l: nat, m: nat)
    requires l <= m <= |events|
    ensures Sends(events[..l]) <= Sends(events[..m])
  {
    if l < m {
      SentGrows(events, l, m - 1);
      assert events[..m][..m - 1] == events[..m - 1];
    }
  }

  // Which replies count.

  /** Some reply among the first n events was to s. */
  ghost predicate Answered(events: seq<Event>, capacity: nat, n: nat, s: int)
    requires n <= |events|
  {
    exists l :: 0 <= l < n && Retained(events, capacity, l) && events[l].reply.seqno == s
  }

  lemma FindGrows(firsts: seq<Reply>, p: Reply, s: int)
    ensures Find(firsts + [p], s) == if p.seqno == s then |firsts| else Find(firsts, s)
  {
    assert (firsts + [p])[..|firsts|] == firsts;
  }

  lemma AnsweredNext(events: seq<Event>, capacity: nat, n: nat, s: int)
    requires n < |events|
    ensures Answered(events, capacity, n + 1, s)
       <==> Answered(events, capacity, n, s) || (Retained(events, capacity, n) && events[n].reply.seqno == s)
  {
  }

  lemma RepliedNext(log: Log, capacity: nat, p: Reply, s: int)
    ensures Replied(Observe(log, capacity, p), s)
       <==> Replied(log, s) || (p.seqno == s && p.seqno < |log.sends| && |log.sends| - p.seqno <= capacity)
  {
    FindGrows(log.firsts, p, s);
  }

  lemma RepliedStep(events: seq<Event>, capacity: nat, n: nat, s: int)
    requires n < |events|
    ensures Replied(Run(events[..n + 1], capacity), s)
       <==> Replied(Run(events[..n], capacity), s) || (Retained(events, capacity, n) && events[n].reply.seqno == s)
  {
    assert events[..n + 1][..n] == events[..n];
    RunSends(events[..n], capacity);
    if events[n].Receive? {
      RepliedNext(Run(events[..n], capacity), capacity, events[n].reply, s);
    }
  }

  lemma {:induction false} RepliedExactly(events: seq<Event>, capacity: nat, n: nat, s: int)
    requires n <= |events|
    ensures Replied(Run(events[..n], capacity), s) <==> Answered(events, capacity, n, s)
  {
    if n > 0 {
      RepliedExactly(events, capacity, n - 1, s);
      RepliedStep(events, capacity, n - 1, s);
      AnsweredNext(events, capacity, n - 1, s);
    }
  }

  /** The fate of each receive. It counts exactly if its packet was sent, is still among the last that fit the
      buffer, and got no reply before; a later such one is a duplicate. */
  lemma FateExactly(events: seq<Event>, capacity: nat, m: nat)
    requires m < |events| && events[m].Receive?
    ensures var fate, s := Fate(Run(events[..m], capacity), capacity, events[m].reply.seqno), events[m].reply.seqno;
            && (fate == First <==> Counts(events, capacity, m))
            && (fate == Duplicate <==> Retained(events, capacity, m)
                                       && exists l: nat :: l < m && SameEarlier(events, capacity, l, m))
            && (fate == Unexpected <==> s > 0 && s >= Sent(events, m))
            && (fate == AgedOut <==> Sent(events, m) - s > capacity || (s == 0 && Sent(events, m) == 0))
  {
    var s := events[m].reply.seqno;
    RunSends(events[..m], capacity);
    RepliedExactly(events, capacity, m, s);
    if Answered(events, capacity, m, s) {
      var l :| 0 <= l < m && Retained(events, capacity, l) && events[l].reply.seqno == s;
      assert SameEarlier(events, capacity, l, m);
    }
  }

  // What is recorded.

  /** Reply l is the last that counted before event n. */
  ghost predicate IsLatest(events: seq<Event>, capacity: nat, n: nat, l: nat)
    requires n <= |events|
  {
    l < n && Counts(events, capacity, l) && forall j :: l < j < n ==> !Counts(events, capacity, j)
  }

  ghost predicate CameLate(events: seq<Event>, capacity: nat, m: nat)
    requires m < |events| && events[m].Receive?
  {
    exists l: nat :: IsLatest(events, capacity, m, l) && events[l].reply.seqno > events[m].reply.seqno
  }

  ghost predicate EndsWithLatest(firsts: seq<Reply>, events: seq<Event>, capacity: nat, n: nat)
    requires n <= |events|
  {
    if firsts == [] then forall l :: 0 <= l < n ==> !Counts(events, capacity, l)
    else exists l: nat :: IsLatest(events, capacity, n, l) && firsts[|firsts| - 1] == events[l].reply
  }

  lemma StillLatest(firsts: seq<Reply>, events: seq<Event>, capacity: nat, n: nat)
    requires n < |events| && EndsWithLatest(firsts, events, capacity, n) && !Counts(events, capacity, n)
    ensures EndsWithLatest(firsts, events, capacity, n + 1)
  {
    if firsts != [] {
      var l: nat :| IsLatest(events, capacity, n, l) && firsts[|firsts| - 1] == events[l].reply;
      assert IsLatest(events, capacity, n + 1, l);
    }
  }

  lemma NewLatest(firsts: seq<Reply>, events: seq<Event>, capacity: nat, n: nat)
    requires n < |events| && Counts(events, capacity, n)
    ensures EndsWithLatest(firsts + [events[n].reply], events, capacity, n + 1)
  {
    assert IsLatest(events, capacity, n + 1, n);
  }

  lemma FirstsStep(events: seq<Event>, capacity: nat, n: nat)
    requires n < |events|
    ensures Run(events[..n + 1], capacity).firsts
         == Run(events[..n], capacity).firsts + if Counts(events, capacity, n) then [events[n].reply] else []
  {
    assert events[..n + 1][..n] == events[..n];
    var firsts := Run(events[..n], capacity).firsts;
    assert firsts + [] == firsts;
    if events[n].Receive? {
      FateExactly(events, capacity, n);
    }
  }

  lemma {:induction false} LatestIsLast(events: seq<Event>, capacity: nat, n: nat)
    requires n <= |events|
    ensures EndsWithLatest(Run(events[..n], capacity).firsts, events, capacity, n)
  {
    if n > 0 {
      var firsts := Run(events[..n - 1], capacity).firsts;
      LatestIsLast(events, capacity, n - 1);
      FirstsStep(events, capacity, n - 1);
      if Counts(events, capacity, n - 1) {
        NewLatest(firsts, events, capacity, n - 1);
      } else {
        StillLatest(firsts, events, capacity, n - 1);
        assert firsts + [] == firsts;
      }
    }
  }

  lemma LateExactly(events: seq<Event>, capacity: nat, m: nat)
    requires m < |events| && events[m].Receive?
    ensures var firsts := Run(events[..m], capacity).firsts;
            IsLate(firsts + [events[m].reply], |firsts|) <==> CameLate(events, capacity, m)
  {
    LatestIsLast(events, capacity, m);
    var firsts := Run(events[..m], capacity).firsts;
    if firsts != [] {
      var l: nat :| IsLatest(events, capacity, m, l) && firsts[|firsts| - 1] == events[l].reply;
      forall j: nat | IsLatest(events, capacity, m, j)
        ensures j == l
      {
      }
    }
  }

  /** The record that reply m leaves for good: its packet's send time, its own time of receipt, the server's stamps
      and window, and whether the one that counted before it was to a later packet. */
  lemma {:induction false} RecordExactly(events: seq<Event>, capacity: nat, n: nat, m: nat)
    requires m < n <= |events| && Counts(events, capacity, m)
    ensures var p, s, log := events[m].reply, events[m].reply.seqno, Run(events[..n], capacity);
            && s < |log.sends| == Sent(events, n) && log.sends[s] == Sends(events[..n])[s]
            && RecordOf(log, s) == RoundTrip(Sends(events[..n])[s], p.trcvd, p.server,
                                             if p.window.Some? then p.window.value else {},
                                             CameLate(events, capacity, m))
    decreases n
  {
    if m == n - 1 {
      CountedRecord(events, capacity, m);
    } else {
      RecordExactly(events, capacity, n - 1, m);
      LaterKeeps(events, capacity, n - 1, m);
      SentGrows(events, n - 1, n);
      RunSends(events[..n - 1], capacity);
      RunSends(events[..n], capacity);
    }
  }

  lemma CountedRecord(events: seq<Event>, capacity: nat, m: nat)
    requires m < |events| && Counts(events, capacity, m)
    ensures var p, s, log := events[m].reply, events[m].reply.seqno, Run(events[..m + 1], capacity);
            && s < |log.sends| == Sent(events, m + 1) && log.sends[s] == Sends(events[..m + 1])[s]
            && RecordOf(log, s) == RoundTrip(Sends(events[..m + 1])[s], p.trcvd, p.server,
                                             if p.window.Some? then p.window.value else {},
                                             CameLate(events, capacity, m))
  {
    var log := Run(events[..m], capacity);
    assert events[..m + 1][..m] == events[..m];
    RunSends(events[..m], capacity);
    RunSends(events[..m + 1], capacity);
    FateExactly(events, capacity, m);
    LateExactly(events, capacity, m);
    RecordsAfterFirst(log, events[m].reply, events[m].reply.seqno);
  }

  /** It says that a reply was received exactly if the time of that is known by either clock. */
  lemma ReceivedExactly(events: seq<Event>, capacity: nat, n: nat, m: nat)
    requires m < n <= |events| && Counts(events, capacity, m)
    ensures var p, log := events[m].reply, Run(events[..n], capacity);
            && p.seqno < |log.sends|
            && (RecordOf(log, p.seqno).ReplyReceived() <==> p.trcvd.wall != 0 || p.trcvd.mono != 0)
  {
    RecordExactly(events, capacity, n, m);
  }

  lemma LaterKeeps(events: seq<Event>, capacity: nat, n: nat, m: nat)
    requires m < n < |events| && Counts(events, capacity, m)
    requires events[m].reply.seqno < |Run(events[..n], capacity).sends|
    ensures var s, log, log' := events[m].reply.seqno, Run(events[..n], capacity), Run(events[..n + 1], capacity);
            s < |log'.sends| && RecordOf(log', s) == RecordOf(log, s)
  {
    var s, log, e := events[m].reply.seqno, Run(events[..n], capacity), events[n];
    assert events[..n + 1][..n] == events[..n];
    if e.Send? {
      RecordAfterSend(log, e.at, s);
    } else if Fate(log, capacity, e.reply.seqno) == First {
      FateExactly(events, capacity, n);
      assert !SameEarlier(events, capacity, m, n);
      RecordsAfterFirst(log, e.reply, s);
    }
  }

  /** A packet no reply to which counted has an empty record. */
  lemma UnansweredRecord(events: seq<Event>, capacity: nat, s: nat)
    requires s < |Sends(events)| && forall m :: 0 <= m < |events| && Counts(events, capacity, m) ==>
                                      events[m].reply.seqno != s
    ensures |Run(events, capacity).sends| == |Sends(events)|
    ensures RecordOf(Run(events, capacity), s) == RoundTrip(Sends(events)[s], NO_TIME, NO_STAMP, {}, false)
  {
    RunSends(events, capacity);
    assert events[..|events|] == events;
    RepliedExactly(events, capacity, |events|, s);
    if Answered(events, capacity, |events|, s) {
      var m := FirstAnswer(events, capacity, |events|, s);
      assert false;
    }
  }

  lemma {:induction false} FirstAnswer(events: seq<Event>, capacity: nat, n: nat, s: nat) returns (m: nat)
    requires n <= |events| && Answered(events, capacity, n, s)
    ensures m < n && Counts(events, capacity, m) && events[m].reply.seqno == s
  {
    var l :| 0 <= l < n && Retained(events, capacity, l) && events[l].reply.seqno == s;
    if Answered(events, capacity, l, s) {
      m := FirstAnswer(events, capacity, l, s);
    } else {
      m := l;
    }
  }

  // Totals.

  /** The bytes of the replies that counted. */
  ghost function Bytes(events: seq<Event>, capacity: nat, n: nat): nat
    requires n <= |events|
  {
    if n == 0 then 0
    else Bytes(events, capacity, n - 1) + if Counts(events, capacity, n - 1) then events[n - 1].reply.length else 0
  }

  /** How many of the replies that counted came late. */
  ghost function Lates(events: seq<Event>, capacity: nat, n: nat): nat
    requires n <= |events|
  {
    if n == 0 then 0
    else
      Lates(events, capacity, n - 1)
      + if Counts(events, capacity, n - 1) && CameLate(events, capacity, n - 1) then 1 else 0
  }

  /** The count in the last reply that counted and had one. */
  ghost predicate IsLastCount(events: seq<Event>, capacity: nat, n: nat, count: uint32)
    requires n <= |events|
  {
    if n == 0 then count == 0
    else if Counts(events, capacity, n - 1) && events[n - 1].reply.count.Some? then
      count == events[n - 1].reply.count.value
    else IsLastCount(events, capacity, n - 1, count)
  }

  lemma TotalsNext(firsts: seq<Reply>, p: Reply)
    ensures TotalLength(firsts + [p]) == TotalLength(firsts) + p.length
    ensures Descents(firsts + [p]) == Descents(firsts) + if IsLate(firsts + [p], |firsts|) then 1 else 0
    ensures LastCount(firsts + [p]) == if p.count.Some? then p.count.value else LastCount(firsts)
  {
    assert (firsts + [p])[..|firsts|] == firsts;
  }

  ghost predicate AreTotalsOf(firsts: seq<Reply>, events: seq<Event>, capacity: nat, n: nat)
    requires n <= |events|
  {
    && TotalLength(firsts) == Bytes(events, capacity, n)
    && Descents(firsts) == Lates(events, capacity, n)
    && IsLastCount(events, capacity, n, LastCount(firsts))
  }

  lemma CountedTotals(events: seq<Event>, capacity: nat, n: nat)
    requires n < |events| && Counts(events, capacity, n)
    requires AreTotalsOf(Run(events[..n], capacity).firsts, events, capacity, n)
    ensures AreTotalsOf(Run(events[..n], capacity).firsts + [events[n].reply], events, capacity, n + 1)
  {
    LateExactly(events, capacity, n);
    TotalsNext(Run(events[..n], capacity).firsts, events[n].reply);
  }

  /** The bytes received, late packets and count of the server's that the recorder keeps. */
  lemma {:induction false} TotalsExactly(events: seq<Event>, capacity: nat, n: nat)
    requires n <= |events|
    ensures AreTotalsOf(Run(events[..n], capacity).firsts, events, capacity, n)
  {
    if n > 0 {
      var firsts := Run(events[..n - 1], capacity).firsts;
      TotalsExactly(events, capacity, n - 1);
      FirstsStep(events, capacity, n - 1);
      if Counts(events, capacity, n - 1) {
        CountedTotals(events, capacity, n - 1);
      } else {
        assert firsts + [] == firsts;
      }
    }
  }
}
