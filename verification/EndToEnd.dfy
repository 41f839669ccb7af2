/** One client, the server and a network that drops, duplicates and reorders: what the final loss
    statuses say about what really happened. */
module EndToEnd {
  import opened Octets
  import opened Times
  import opened Window
  import R = Recorder
  import L = Loss
  import S = Sconn

  /** A reply as it travels. */
  datatype Answer = Answer(seqno: Seqno, server: Timestamp, window: Option<Bits>, count: Option<uint32>, length: nat)

  /** Everything ever put on the network stays deliverable any number of times and in any order;
      dropping a packet is never delivering it. accepted lists the seqnos the server answered. */
  datatype System = System(log: R.Log, conn: S.Conn, accepted: seq<Seqno>, requests: set<Seqno>, answers: set<Answer>)

  datatype Setup = Setup(lim: S.Limits, capacity: nat, withWindow: bool, withCount: bool)

  datatype Event =
    | ClientSends(at: Time)
    | ServerGets(e: S.Echo, stamps: Timestamp, length: nat)
    | ClientGets(a: Answer, at: Time)

  function Start(x: Setup): System
  {
    System(R.EMPTY, S.NewConn(x.lim), [], {}, {})
  }

  predicate Possible(s: System, e: Event)
  {
    match e
    case ClientSends(_) => |s.log.sends| < TWO_TO_32
    case ServerGets(echo, _, _) => echo.seqno in s.requests
    case ClientGets(a, at) => a in s.answers && !at.IsZero()
  }

  function Step(x: Setup, s: System, e: Event): System
    requires Possible(s, e)
  {
    match e
    case ClientSends(at) =>
      s.(log := s.log.(sends := s.log.sends + [at]), requests := s.requests + {|s.log.sends|})
    case ServerGets(echo, stamps, length) =>
      var conn := S.Admit(x.lim, s.conn, echo);
      if S.Judge(x.lim, s.conn, echo).Answered? then
        var a := Answer(echo.seqno, stamps, if x.withWindow then Some(conn.win.bits) else None,
                        if x.withCount then Some(conn.win.count) else None, length);
        s.(conn := conn, accepted := s.accepted + [echo.seqno], answers := s.answers + {a})
      else s.(conn := conn)
    case ClientGets(a, at) =>
      s.(log := R.Observe(s.log, x.capacity, R.Reply(a.seqno, at, a.server, a.window, a.count, a.length)))
  }

  ghost predicate IsRun(x: Setup, states: seq<System>, events: seq<Event>)
  {
    && |states| == |events| + 1
    && states[0] == Start(x)
    && forall k :: 0 <= k < |events| ==>
         Possible(states[k], events[k]) && states[k + 1] == Step(x, states[k], events[k])
  }

  /** seqno was the k-th accepted, and the window, if any, is the server's right after that. */
  ghost predicate GenuineAt(accepted: seq<Seqno>, k: nat, seqno: Seqno, window: Option<Bits>)
  {
    && 0 < k <= |accepted|
    && accepted[k - 1] == seqno
    && (window.Some? ==> window.value == Run(accepted[..k]).bits)
  }

  ghost predicate Genuine(accepted: seq<Seqno>, seqno: Seqno, window: Option<Bits>)
  {
    exists k: nat :: GenuineAt(accepted, k, seqno, window)
  }

  ghost predicate Invariant(s: System)
  {
    && R.WellFormed(s.log)
    && |s.log.sends| <= TWO_TO_32
    && s.conn.win == Run(s.accepted)
    && (forall q :: q in s.requests ==> q < |s.log.sends|)
    && (forall k :: 0 <= k < |s.accepted| ==> s.accepted[k] in s.requests)
    && (forall a :: a in s.answers ==> Genuine(s.accepted, a.seqno, a.window))
    && (forall k :: 0 <= k < |s.log.firsts| ==> Genuine(s.accepted, s.log.firsts[k].seqno, s.log.firsts[k].window))
  }

  lemma GenuineGrows(accepted: seq<Seqno>, more: Seqno, seqno: Seqno, window: Option<Bits>)
    requires Genuine(accepted, seqno, window)
    ensures Genuine(accepted + [more], seqno, window)
  {
    var k: nat :| GenuineAt(accepted, k, seqno, window);
    assert (accepted + [more])[..k] == accepted[..k];
    assert GenuineAt(accepted + [more], k, seqno, window);
  }

  lemma ServerStep(x: Setup, s: System, e: Event)
    requires Invariant(s) && Possible(s, e) && e.ServerGets?
    ensures Invariant(Step(x, s, e))
  {
    if S.Judge(x.lim, s.conn, e.e).Answered? {
      var seqno, s' := e.e.seqno, Step(x, s, e);
      RunSnoc(s.accepted, seqno);
      var n := |s'.accepted|;
      assert s'.accepted[..n] == s'.accepted;
      assert GenuineAt(s'.accepted, n, seqno, Some(s'.conn.win.bits)) && GenuineAt(s'.accepted, n, seqno, None);
      forall a | a in s'.answers
        ensures Genuine(s'.accepted, a.seqno, a.window)
      {
        if a in s.answers { GenuineGrows(s.accepted, seqno, a.seqno, a.window); }
      }
      forall k | 0 <= k < |s.log.firsts|
        ensures Genuine(s'.accepted, s.log.firsts[k].seqno, s.log.firsts[k].window)
      {
        GenuineGrows(s.accepted, seqno, s.log.firsts[k].seqno, s.log.firsts[k].window);
      }
    }
  }

  lemma ClientStep(x: Setup, s: System, e: Event)
    requires Invariant(s) && Possible(s, e) && !e.ServerGets?
    ensures Invariant(Step(x, s, e))
  {
    if e.ClientGets? {
      R.ObserveWellFormed(s.log, x.capacity, R.Reply(e.a.seqno, e.at, e.a.server, e.a.window, e.a.count, e.a.length));
    } else {
      R.WellFormedAfterSend(s.log, e.at);
    }
  }

  lemma {:induction false} InvariantHolds(x: Setup, states: seq<System>, events: seq<Event>)
    requires IsRun(x, states, events)
    ensures Invariant(states[|events|])
  {
    var n := |events|;
    if n > 0 {
      InvariantHolds(x, states[..n], events[..n - 1]);
      assert Possible(states[n - 1], events[n - 1]) && states[n - 1 + 1] == Step(x, states[n - 1], events[n - 1]);
      if events[n - 1].ServerGets? {
        ServerStep(x, states[n - 1], events[n - 1]);
      } else {
        ClientStep(x, states[n - 1], events[n - 1]);
      }
    }
  }

  /** The round trips of an unwrapped results buffer, in seqno order. */
  function Results(log: R.Log): seq<R.RoundTrip>
  {
    seq(|log.sends|, i requires 0 <= i < |log.sends| => R.RecordOf(log, i))
  }

  lemma Reporter(s: System, i: int, p: int) returns (k: nat)
    requires Invariant(s) && L.Covers(Results(s.log), i, p)
    ensures GenuineAt(s.accepted, k, i, Some(Results(s.log)[i].window))
  {
    R.RecordReceived(s.log, i);
    var at := R.Find(s.log.firsts, i);
    assert s.log.firsts[at].window.Some?;
    k :| GenuineAt(s.accepted, k, i, s.log.firsts[at].window);
  }

  /** Accept j was of p, and from then up to the k-th accept no seqno was smaller than the one before. */
  ghost predicate SeenAt(accepted: seq<Seqno>, k: nat, p: int, j: nat)
    requires k <= |accepted|
  {
    j < k && accepted[j] == p && Climbs(accepted[..k], j)
  }

  ghost predicate Seen(accepted: seq<Seqno>, k: nat, p: int)
    requires k <= |accepted|
  {
    exists j: nat :: SeenAt(accepted, k, p, j)
  }

  /** The bit for p in the window sent with the k-th accept. */
  lemma ReportedBit(accepted: seq<Seqno>, k: nat, i: Seqno, w: Bits, p: nat)
    requires GenuineAt(accepted, k, i, Some(w)) && p < i && i - p < 64
    ensures i - p in w <==> Seen(accepted, k, p)
  {
    var upto, d: nat := accepted[..k], i - p;
    assert upto[|upto| - 1] == i && Back(i, d) == p;
    BitExactly(upto, d);
    forall j: nat | j < k
      ensures ShowsAt(upto, j, d) <==> SeenAt(accepted, k, p, j)
    {
      ClimbsExactly(upto, j);
    }
    if j: nat :| ShowsAt(upto, j, d) {
      assert SeenAt(accepted, k, p, j);
    }
    if j: nat :| SeenAt(accepted, k, p, j) {
      assert ShowsAt(upto, j, d);
    }
  }

  /** The reply to round trip i was recorded, was the server's to its k-th accept, and covers p. */
  ghost predicate Reports(s: System, i: int, k: nat, p: int)
  {
    && L.Covers(Results(s.log), i, p)
    && GenuineAt(s.accepted, k, i, Some(Results(s.log)[i].window))
  }

  ghost predicate Confirmed(s: System, p: int)
  {
    exists i, k: nat :: Reports(s, i, k, p) && Seen(s.accepted, k, p)
  }

  ghost predicate Covered(s: System, p: int)
  {
    exists i, k: nat :: Reports(s, i, k, p)
  }

  /** What a reply says of p is whether the server had seen p by then. */
  lemma ReportIsSeen(s: System, i: int, k: nat, p: nat)
    requires Reports(s, i, k, p)
    ensures L.Confirms(Results(s.log), i, p) <==> Seen(s.accepted, k, p)
  {
    ReportedBit(s.accepted, k, i, Results(s.log)[i].window, p);
  }

  lemma CoveredBelowAll(s: System, p: nat)
    requires Invariant(s) && p < |s.log.sends|
    ensures L.CoveredBelow(Results(s.log), |s.log.sends|, p) <==> Covered(s, p)
  {
    var data := Results(s.log);
    if i :| p < i < |data| && L.Covers(data, i, p) {
      var k := Reporter(s, i, p);
      assert Reports(s, i, k, p);
    }
    if i, k: nat :| Reports(s, i, k, p) {
      assert L.Covers(data, i, p);
    }
  }

  lemma ConfirmedBelowAll(s: System, p: nat)
    requires Invariant(s) && p < |s.log.sends|
    ensures L.ConfirmedBelow(Results(s.log), |s.log.sends|, p) <==> Confirmed(s, p)
  {
    var data := Results(s.log);
    if i :| p < i < |data| && L.Confirms(data, i, p) {
      var k := Reporter(s, i, p);
      assert Reports(s, i, k, p);
      ReportIsSeen(s, i, k, p);
    }
    if i, k: nat :| Reports(s, i, k, p) && Seen(s.accepted, k, p) {
      ReportIsSeen(s, i, k, p);
      assert L.Confirms(data, i, p);
    }
  }

  /** What the status of a round trip means, exactly, in terms of what the server accepted and when: lost
      downstream if some recorded reply within the next 63 is to an accept before which p was seen; lost
      upstream if there are such replies but p was seen before none of their accepts, that is, every accept
      of p comes later than theirs or is followed by a descent before. */
  lemma StatusExactly(x: Setup, states: seq<System>, events: seq<Event>, p: nat)
    requires IsRun(x, states, events)
    requires p < |states[|events|].log.sends| <= x.capacity
    ensures L.Status(Results(states[|events|].log), x.withWindow, p)
         == if R.Replied(states[|events|].log, p) then L.LostFalse
            else if x.withWindow && Confirmed(states[|events|], p) then L.LostDown
            else if x.withWindow && Covered(states[|events|], p) then L.LostUp
            else L.LostTrue
  {
    InvariantHolds(x, states, events);
    var s := states[|events|];
    R.RecordReceived(s.log, p);
    CoveredBelowAll(s, p);
    ConfirmedBelowAll(s, p);
  }

  /** In particular, every reply that covers a round trip marked lost upstream is to an accept such that
      each accept of p before it is followed by a descent before it. */
  lemma LostUpMeans(x: Setup, states: seq<System>, events: seq<Event>, p: nat, i: int, k: nat, j: nat)
    requires IsRun(x, states, events)
    requires p < |states[|events|].log.sends| <= x.capacity
    requires L.Status(Results(states[|events|].log), x.withWindow, p) == L.LostUp
    requires Reports(states[|events|], i, k, p) && j < k && states[|events|].accepted[j] == p
    ensures var accepted := states[|events|].accepted;
            exists m :: j < m < k && accepted[m] < accepted[m - 1]
  {
    StatusExactly(x, states, events, p);
    var accepted := states[|events|].accepted;
    assert !SeenAt(accepted, k, p, j);
    var upto := accepted[..k];
    var m :| j < m < k && !(upto[m - 1] <= upto[m]);
    assert accepted[m] < accepted[m - 1];
  }

  lemma InOrderSeen(accepted: seq<Seqno>, k: nat, i: Seqno, p: int)
    requires InOrder(accepted) && 0 < k <= |accepted| && accepted[k - 1] == i && p < i && p in accepted
    ensures Seen(accepted, k, p)
  {
    var j :| 0 <= j < |accepted| && accepted[j] == p;
    assert SeenAt(accepted, k, p, j);
  }

  /** Loss soundness, over every run of the system whose results buffer has not wrapped: a round trip
      marked as not lost was answered and its answer recorded; one marked lost downstream was accepted
      by the server and no reply to it recorded; and if requests reached the server in order, one marked
      lost upstream was never accepted. */
  lemma LossSoundness(x: Setup, states: seq<System>, events: seq<Event>, p: nat)
    requires IsRun(x, states, events)
    requires p < |states[|events|].log.sends| <= x.capacity
    ensures var s := states[|events|];
            var status := L.Status(Results(s.log), x.withWindow, p);
            && (status == L.LostFalse <==> R.Replied(s.log, p))
            && (status == L.LostFalse ==> p in s.accepted)
            && (status == L.LostDown ==> p in s.accepted)
            && (status == L.LostUp && InOrder(s.accepted) ==> p !in s.accepted)
  {
    InvariantHolds(x, states, events);
    StatusExactly(x, states, events, p);
    var s := states[|events|];
    if R.Replied(s.log, p) {
      var k := R.Find(s.log.firsts, p);
      assert Genuine(s.accepted, s.log.firsts[k].seqno, s.log.firsts[k].window);
    } else if x.withWindow && Confirmed(s, p) {
      var i, k: nat :| Reports(s, i, k, p) && Seen(s.accepted, k, p);
      var j: nat :| SeenAt(s.accepted, k, p, j);
      assert s.accepted[j] in s.accepted;
    } else if x.withWindow && Covered(s, p) && InOrder(s.accepted) && p in s.accepted {
      var i, k: nat :| Reports(s, i, k, p);
      InOrderSeen(s.accepted, k, i, p);
      assert false;
    }
  }

  // Conversely, every sequence of accepts, with any one of its replies, happens in some run.

  const NO_LIMITS := S.Limits(0, 0, 0, 0, 0)

  const CLOCK := Time(1, 1)

  lemma RunStep(x: Setup, states: seq<System>, events: seq<Event>, e: Event)
    requires IsRun(x, states, events) && Possible(states[|events|], e)
    ensures IsRun(x, states + [Step(x, states[|events|], e)], events + [e])
  {
    var n := |events|;
    var states', events' := states + [Step(x, states[n], e)], events + [e];
    forall k | 0 <= k < |events'|
      ensures Possible(states'[k], events'[k]) && states'[k + 1] == Step(x, states'[k], events'[k])
    {
      assert k < n ==> Possible(states[k], events[k]) && states[k + 1] == Step(x, states[k], events[k]);
    }
  }

  /** The client sends n packets. */
  lemma {:induction false} Sending(x: Setup, n: nat) returns (states: seq<System>, events: seq<Event>)
    requires n <= TWO_TO_32
    ensures IsRun(x, states, events)
    ensures var s := states[|events|];
            && s == Start(x).(log := s.log, requests := s.requests)
            && s.log == R.EMPTY.(sends := s.log.sends) && |s.log.sends| == n
            && forall q: nat :: q < n ==> q in s.requests
  {
    if n == 0 {
      states, events := [Start(x)], [];
    } else {
      states, events := Sending(x, n - 1);
      RunStep(x, states, events, ClientSends(CLOCK));
      states, events := states + [Step(x, states[|events|], ClientSends(CLOCK))], events + [ClientSends(CLOCK)];
    }
  }

  function EchoOf(seqno: Seqno): S.Echo { S.Echo(seqno, 60, 1, 1) }

  /** The server's reply to the k-th of these accepts. */
  function AnswerTo(accepted: seq<Seqno>, k: nat): Answer
    requires 0 < k <= |accepted|
  {
    Answer(accepted[k - 1], NO_STAMP, Some(Run(accepted[..k]).bits), None, 60)
  }

  /** And then the server gets these, in this order. */
  lemma {:induction false} Serving(n: nat, accepted: seq<Seqno>) returns (states: seq<System>, events: seq<Event>)
    requires n <= TWO_TO_32 && forall j :: 0 <= j < |accepted| ==> accepted[j] < n
    ensures IsRun(Setup(NO_LIMITS, n, true, false), states, events)
    ensures var s := states[|events|];
            && s.log == R.EMPTY.(sends := s.log.sends) && |s.log.sends| == n
            && (forall q: nat :: q < n ==> q in s.requests)
            && s.accepted == accepted && s.conn.win == Run(accepted)
            && forall k :: 0 < k <= |accepted| ==> AnswerTo(accepted, k) in s.answers
  {
    var x := Setup(NO_LIMITS, n, true, false);
    if accepted == [] {
      states, events := Sending(x, n);
    } else {
      var front, seqno := accepted[..|accepted| - 1], accepted[|accepted| - 1];
      states, events := Serving(n, front);
      var s, e := states[|events|], ServerGets(EchoOf(seqno), NO_STAMP, 60);
      RunStep(x, states, events, e);
      assert S.Judge(NO_LIMITS, s.conn, EchoOf(seqno)).Answered?;
      forall k | 0 < k <= |accepted|
        ensures AnswerTo(accepted, k) in Step(x, s, e).answers
      {
        assert k <= |front| ==> AnswerTo(accepted, k) == AnswerTo(front, k) by {
          assert k <= |front| ==> accepted[..k] == front[..k];
        }
        assert accepted[..|accepted|] == accepted;
      }
      assert front + [seqno] == accepted;
      states, events := states + [Step(x, s, e)], events + [e];
    }
  }

  /** For any sequence of accepts, and the reply to any one of them, to a seqno within the 63 after p: there
      is a run with just these accepts in which that reply is all the client gets. In it p is marked lost
      downstream if p was seen before that accept, and otherwise lost upstream, accepted or not. */
  lemma OnlyReply(n: nat, accepted: seq<Seqno>, k: nat, p: nat)
    returns (x: Setup, states: seq<System>, events: seq<Event>)
    requires n <= TWO_TO_32 && forall j :: 0 <= j < |accepted| ==> accepted[j] < n
    requires 0 < k <= |accepted| && p < accepted[k - 1] <= p + 63
    ensures IsRun(x, states, events) && |states[|events|].log.sends| == n <= x.capacity
    ensures var s := states[|events|];
            && s.accepted == accepted && |s.log.firsts| == 1 && s.log.firsts[0].seqno == accepted[k - 1]
            && L.Status(Results(s.log), x.withWindow, p) == if Seen(accepted, k, p) then L.LostDown else L.LostUp
  {
    x := Setup(NO_LIMITS, n, true, false);
    states, events := Serving(n, accepted);
    var s, i := states[|events|], accepted[k - 1];
    var a := AnswerTo(accepted, k);
    var e := ClientGets(a, CLOCK);
    RunStep(x, states, events, e);
    var s' := Step(x, s, e);
    OneRecorded(s.log, n, s'.log, a);
    states, events := states + [s'], events + [e];
    InvariantHolds(x, states, events);
    BitsAreAccepted(accepted[..k], 0);
    assert L.Covers(Results(s'.log), i, p);
    assert Reports(s', i, k, p);
    OneReporter(s', i, k, p);
    StatusExactly(x, states, events, p);
  }

  lemma OneRecorded(log: R.Log, n: nat, log': R.Log, a: Answer)
    requires log == R.EMPTY.(sends := log.sends) && |log.sends| == n && a.seqno < n && a.window.Some?
    requires log' == R.Observe(log, n, R.Reply(a.seqno, CLOCK, a.server, a.window, a.count, a.length))
    ensures |log'.firsts| == 1 && log'.firsts[0].seqno == a.seqno && log'.sends == log.sends
    ensures forall q: nat :: q < n && q != a.seqno ==> !Results(log')[q].ReplyReceived() && !R.Replied(log', q)
    ensures Results(log')[a.seqno].window == a.window.value && Results(log')[a.seqno].ReplyReceived()
  {
    assert R.Find(log'.firsts, a.seqno) == 0;
    forall q: nat | q < n && q != a.seqno
      ensures !Results(log')[q].ReplyReceived() && !R.Replied(log', q)
    {
      assert R.Find(log'.firsts, q) == -1;
    }
  }

  /** With a single reply, p is confirmed by that or not at all. */
  lemma OneReporter(s: System, i: int, k: nat, p: nat)
    requires Reports(s, i, k, p)
    requires forall q: nat :: q < |s.log.sends| && q != i ==> !Results(s.log)[q].ReplyReceived()
    ensures Confirmed(s, p) <==> Seen(s.accepted, k, p)
  {
    ReportIsSeen(s, i, k, p);
    if i', k': nat :| Reports(s, i', k', p) && Seen(s.accepted, k', p) {
      ReportIsSeen(s, i', k', p);
    }
  }

  /** As the manual says, lost upstream can be wrong: the server answers 1, then 0, and only the first
      answer arrives. */
  lemma LateRequestMisjudged() returns (x: Setup, states: seq<System>, events: seq<Event>)
    ensures IsRun(x, states, events) && |states[|events|].log.sends| == 2 <= x.capacity
    ensures L.Status(Results(states[|events|].log), x.withWindow, 0) == L.LostUp && 0 in states[|events|].accepted
  {
    var accepted: seq<Seqno> := [1, 0];
    x, states, events := OnlyReply(2, accepted, 1, 0);
    assert !Seen(accepted, 1, 0);
    assert accepted[1] == 0;
  }

  /** A results buffer that has not wrapped holds the round trips in seqno order. */
  lemma UnwrappedBuffer(f: R.Fields, log: R.Log)
    requires R.Represents(f, log) && |log.sends| <= f.capacity
    ensures f.data == Results(log)
  {
    var n := |log.sends|;
    forall i | 0 <= i < n
      ensures f.data[i] == R.RecordOf(log, i)
    {
      assert R.Holds(f.data, f.sentIndex, log, n - 1 - i);
    }
  }

  /** The statuses computed from a recorder are those LossSoundness speaks of. */
  method Report(rec: R.Recorder, windows: bool) returns (lost: array<L.Lost>)
    requires rec.Valid() && |rec.log.sends| <= rec.capacity
    ensures lost.Length == |rec.log.sends|
    ensures forall p :: 0 <= p < lost.Length ==> lost[p] == L.Status(Results(rec.log), windows, p)
  {
    UnwrappedBuffer(rec.View(), rec.log);
    lost := L.Classify(rec.data, windows);
  }
}
