/** Whole echo exchanges: request, reply and what the client learns, from bytes to bytes. */
module Exchange {
  import opened BitOps
  import opened Echo
  import opened EchoClient
  import opened EchoServer
  import opened Layout
  import opened Octets
  import opened Packet
  import opened Times
  import W = Window

  lemma WantedMonotone(a: set<int>, b: set<int>)
    requires a <= b
    ensures Total(LensFor(a)) <= Total(LensFor(b))
  {
    var l, r := LensFor(a), LensFor(b);
    forall i | 0 <= i < FCOUNT
      ensures l[i] <= r[i]
    {
    }
    OffBelow(l, r, FCOUNT);
  }

  lemma OutgoingNumbers(fs: seq<seq<byte>>, sealed: bool, s: Settings, token: uint64, seqno: uint32)
    requires IsOutgoing(fs, sealed, s, token, seqno)
    ensures GetLE(fs[F_CONN_TOKEN]) == token && GetLE(fs[F_SEQNO]) == seqno
  {
    Pow256Values();
    GetPutLE(token, 8);
    GetPutLE(seqno, 4);
  }

  /** The server finds the token and the seqno in a request that has more fields than it looks for. */
  lemma OutgoingFramed(b: Buf, m: seq<byte>, mac: Option<Mac>, s: Settings, token: uint64, seqno: uint32)
    requires s.Valid() && IsSendable(b, mac) && IsOutgoing(b.fs, mac.Some?, s, token, seqno)
    requires b.blen <= |m| && MAX_HEADER_LEN <= |m|
    requires FramedAs(m, b.blen, Expected(mac.Some?, s)).fs == Marked(b, mac).fs
    ensures GetLE(FramedAs(m, b.blen, TokenWanted(mac.Some?)).fs[F_CONN_TOKEN]) == token
    ensures GetLE(FramedAs(m, b.blen, RequestWanted(mac.Some?)).fs[F_SEQNO]) == seqno
  {
    var n, w := b.blen, Expected(mac.Some?, s);
    forall i | 0 <= i < F_RCOUNT
      ensures i in w <==> i in RequestWanted(mac.Some?)
    {
      ExpectedBelow(mac.Some?, s, i);
    }
    FrameAgrees(m, n, w, TokenWanted(mac.Some?), F_CONN_TOKEN);
    FrameAgrees(m, n, w, RequestWanted(mac.Some?), F_SEQNO);
    OutgoingNumbers(b.fs, mac.Some?, s, token, seqno);
  }

  /** A client's request arrives as an echo request with the client's token and seqno. */
  lemma RequestArrives(b: Buf, mac: Option<Mac>, s: Settings, token: uint64, seqno: uint32, m: seq<byte>)
    requires s.Valid() && WellFormed(b, CAPS) && IsSendable(b, mac)
    requires IsOutgoing(b.fs, mac.Some?, s, token, seqno)
    requires b.blen <= |m| && MAX_HEADER_LEN <= |m| && m[..b.blen] == Sealed(b, mac).Wire()
    ensures Arrives(m, b.blen, mac) == Data(true, token, false, true, seqno)
  {
    ReadsBack(b, mac, m, Expected(mac.Some?, s));
    FlagsRead(b, mac, m);
    OutgoingSendable(b, mac, s, token, seqno);
    OutgoingFramed(b, AfterRead(m, b.blen, mac).Memory(), mac, s, token, seqno);
    OutgoingLength(b, mac.Some?, s, token, seqno);
    WantedMonotone(TokenWanted(mac.Some?), RequestWanted(mac.Some?));
    RequestBelowExpected(mac.Some?, s);
  }

  lemma RequestBelowExpected(sealed: bool, s: Settings)
    ensures Total(LensFor(RequestWanted(sealed))) <= Total(LensFor(Expected(sealed, s)))
  {
    WantedMonotone(RequestWanted(sealed), Expected(sealed, s));
  }

  lemma ReplyHeader(fs: seq<seq<byte>>, b: Buf, sealed: bool, s: Settings, closed: bool, win: W.State, ts: Timestamp)
    requires s.Valid() && IsRequest(fs, sealed) && Fits(ts.receive) && Fits(ts.send) && IsComplete(s, ts)
    requires b.fs == ReplyFields(fs, s, closed, win, ts)
    ensures b.HeaderLen() == Total(LensFor(Expected(sealed, s)))
  {
    ReplyShows(fs, sealed, s, closed, win, ts);
    ShownIsExpected(sealed, s, ts);
    FlatLength(b.fs, FCOUNT);
  }

  /** What an exchange should end with. */
  function Learned(s: Settings, token: uint64, seqno: uint32, win: W.State, ts: Timestamp, length: nat): Decoded
  {
    Decoded(token, seqno,
            if HasBit(s.stats, STATS_COUNT) then Some(win.count) else None,
            if HasBit(s.stats, STATS_WINDOW) then Some(SentWindow(win)) else None,
            Delivered(s.at, ts), length)
  }

  /** A whole exchange, with or without a shared key. A request for token and seqno is sent, arrives in the
      server's memory m1, is answered in that very memory, and the reply arrives in the client's memory m2.
      The client, insisting on replies as long as its request, then learns token, seqno and exactly the
      server's count, window and time stamps. */
  lemma EchoExchange(b1: Buf, b2: Buf, mac: Option<Mac>, s: Settings, token: uint64, seqno: uint32,
                     win: W.State, ts: Timestamp, m1: seq<byte>, m2: seq<byte>)
    requires s.Valid() && Fits(ts.receive) && Fits(ts.send) && IsComplete(s, ts)
    requires WellFormed(b1, CAPS) && IsSendable(b1, mac) && IsOutgoing(b1.fs, mac.Some?, s, token, seqno)
    requires b1.blen == Max(s.length, b1.HeaderLen()) <= |m1| && MAX_HEADER_LEN <= |m1|
    requires m1[..b1.blen] == Sealed(b1, mac).Wire()
    requires Arrives(m1, b1.blen, mac).Data? && Arrives(m1, b1.blen, mac).hasSeqno
    requires WellFormed(b2, CAPS) && IsSendable(b2, mac)
    requires b2.fs == ReplyFields(Requested(m1, b1.blen, mac).fs, s, false, win, ts)
    requires b2.blen == Min(Max(s.length, b2.HeaderLen()), |m1|)
    requires b2.blen <= |m2| && MAX_HEADER_LEN <= |m2| && m2[..b2.blen] == Sealed(b2, mac).Wire()
    ensures Decode(m2, b2.blen, mac, s.(length := b1.blen)) == Ok(Learned(s, token, seqno, win, ts, b1.blen))
  {
    var fs := Requested(m1, b1.blen, mac).fs;
    RequestArrives(b1, mac, s, token, seqno, m1);
    RequestedIsRequest(m1, b1.blen, mac);
    OutgoingLength(b1, mac.Some?, s, token, seqno);
    ReplyHeader(fs, b2, mac.Some?, s, false, win, ts);
    EchoRoundTrip(fs, b2, mac, s.(length := b1.blen), false, win, ts, m2);
  }

  /** A client that insists on the length it asked for, or on the header if that is longer, takes a reply
      exactly if the server's buffer can hold that much. */
  lemma TakenIfRoomForLength(fs: seq<seq<byte>>, b: Buf, mac: Option<Mac>, s: Settings, win: W.State, ts: Timestamp,
                             capacity: nat, m: seq<byte>)
    requires s.Valid() && IsRequest(fs, mac.Some?) && Fits(ts.receive) && Fits(ts.send) && IsComplete(s, ts)
    requires WellFormed(b, CAPS) && b.fs == ReplyFields(fs, s, false, win, ts) && IsSendable(b, mac)
    requires b.blen == Min(Max(s.length, b.HeaderLen()), capacity)
    requires b.blen <= |m| && MAX_HEADER_LEN <= |m| && m[..b.blen] == Sealed(b, mac).Wire()
    ensures var l := Max(s.length, b.HeaderLen());
            Decode(m, b.blen, mac, s.(length := l))
              == if l <= capacity then Ok(Told(fs, s, win, ts, l)) else Err(ShortReply)
  {
    EchoRoundTrip(fs, b, mac, s.(length := Max(s.length, b.HeaderLen())), false, win, ts, m);
  }

  /** Both clocks can be read. */
  predicate HasBoth(t: Time) { t.wall != 0 && t.mono != 0 }

  /** The server's stamps have exactly the clocks asked for, unless a midpoint is asked for with a single
      clock: the midpoint always has both. */
  lemma ServerStampComplete(s: Settings, trcvd: Time, now: Time)
    requires s.Valid() && Fits(trcvd) && Fits(now) && HasBoth(trcvd) && HasBoth(now)
    requires s.at == MIDPOINT ==> HasBoth(ServerStamp(s, trcvd, now).receive)
    ensures IsComplete(s, ServerStamp(s, trcvd, now)) <==> (s.at == MIDPOINT ==> s.clock == 3)
  {
    ClockBits(s.clock);
    AtBits(s.at);
  }

  lemma ClockBits(clock: nat)
    requires 1 <= clock <= 3
    ensures HasBit(clock, WALL) == (clock != 2) && HasBit(clock, MONOTONIC) == (clock != 1)
  {
    assert HasBit(clock, 1) == HasBit(clock / 2, 0);
  }

  // The combination that does not round trip.

  /** What a client that asked for one clock makes of a midpoint stamped with both: the field it looks for is
      the first one there, whichever that is. */
  function Misread(t: Time, clock: nat): Time
  {
    if clock == 1 then Time(t.wall, 0) else Time(0, t.wall)
  }

  lemma MidpointFields(m: seq<byte>, n: nat, sealed: bool, s: Settings, ts: Timestamp)
    requires MAX_HEADER_LEN <= |m| && n <= |m|
    requires s.Valid() && s.at == MIDPOINT && s.clock != 3 && HasBoth(ts.receive)
    ensures var d, e := FramedAs(m, n, Expected(sealed, s)).fs, FramedAs(m, n, ReplyShown(sealed, s, ts)).fs;
            && (forall f {:trigger d[f]} :: 0 <= f < F_MWALL ==> d[f] == e[f])
            && d[if s.clock == 1 then F_MWALL else F_MMONO] == e[F_MWALL]
            && d[if s.clock == 1 then F_MMONO else F_MWALL] == []
            && d[F_SWALL] == [] && d[F_SMONO] == []
  {
    var w, w' := Expected(sealed, s), ReplyShown(sealed, s, ts);
    ClockBits(s.clock);
    assert forall f :: f < F_MWALL ==> (f in w <==> f in w');
    assert F_MWALL in w' && (F_MWALL in w <==> s.clock == 1) && (F_MMONO in w <==> s.clock == 2);
    forall f | 0 <= f < F_MWALL
      ensures FramedAs(m, n, w).fs[f] == FramedAs(m, n, w').fs[f]
    {
      FrameAgrees(m, n, w, w', f);
    }
    if s.clock == 1 {
      FrameAgrees(m, n, w, w', F_MWALL);
    } else {
      FrameShifted(m, n, w, w');
    }
  }

  /** Without the field before it, a field of the same size is read from where that one was. */
  lemma FrameShifted(m: seq<byte>, n: nat, w: set<int>, w': set<int>)
    requires MAX_HEADER_LEN <= |m| && n <= |m|
    requires forall i :: 0 <= i < F_MWALL ==> (i in w <==> i in w')
    requires F_MWALL !in w && F_MMONO in w && F_MWALL in w'
    ensures FramedAs(m, n, w).fs[F_MMONO] == FramedAs(m, n, w').fs[F_MWALL]
  {
    var l, l' := LensFor(w), LensFor(w');
    OffAgrees(l, l', F_MWALL);
    assert Off(l, F_MMONO) == Off(l, F_MWALL) + l[F_MWALL];
    assert FramedAs(m, n, w).fs[F_MMONO] == FieldAt(m, l, F_MMONO);
    assert FramedAs(m, n, w').fs[F_MWALL] == FieldAt(m, l', F_MWALL);
  }

  lemma MisreadIsRight(t: Time, clock: nat)
    requires 1 <= clock <= 2 && HasBoth(t)
    ensures Misread(t, clock) == KeepClocks(t, clock) <==> clock == 1 || t.wall == t.mono
  {
    ClockBits(clock);
  }

  lemma MidpointPut(fs: seq<seq<byte>>, s: Settings, win: W.State, ts: Timestamp)
    requires |fs| == FCOUNT && |fs[F_FLAGS]| == 1 && Fits(ts.receive) && Fits(ts.send)
    requires s.at == MIDPOINT && HasBoth(ts.receive)
    ensures var x := ReplyFields(fs, s, false, win, ts)[F_MWALL]; |x| == 8 && GetInt64(x) == ts.receive.wall
  {
    Int64RoundTrip(ts.receive.wall);
  }

  lemma MidpointStamp(d: seq<seq<byte>>, clock: nat, wall: int)
    requires IsSized(d) && 1 <= clock <= 2
    requires d[F_RWALL] == [] && d[F_RMONO] == [] && d[F_SWALL] == [] && d[F_SMONO] == []
    requires d[if clock == 1 then F_MMONO else F_MWALL] == []
    requires var x := d[if clock == 1 then F_MWALL else F_MMONO]; |x| == 8 && GetInt64(x) == wall
    ensures var t := if clock == 1 then Time(wall, 0) else Time(0, wall); GetStamp(d) == Timestamp(t, t)
  {
  }

  /** A midpoint asked for with a single clock. The client takes the reply, and learns everything but the
      stamps as always; the midpoint it learns is the server's wall clock, as the clock it asked for. That is
      right exactly if it asked for the wall clock or the two clocks agree. */
  lemma MidpointOneClock(fs: seq<seq<byte>>, b: Buf, mac: Option<Mac>, s: Settings, win: W.State, ts: Timestamp,
                         m: seq<byte>)
    requires s.Valid() && IsRequest(fs, mac.Some?) && Fits(ts.receive) && Fits(ts.send)
    requires s.at == MIDPOINT && s.clock != 3 && HasBoth(ts.receive)
    requires WellFormed(b, CAPS) && b.fs == ReplyFields(fs, s, false, win, ts) && IsSendable(b, mac)
    requires s.length <= b.blen <= |m| && MAX_HEADER_LEN <= |m| && m[..b.blen] == Sealed(b, mac).Wire()
    ensures var t := Misread(ts.receive, s.clock);
            Decode(m, b.blen, mac, s) == Ok(Told(fs, s, win, ts, b.blen).(stamp := Timestamp(t, t)))
    ensures Misread(ts.receive, s.clock) == KeepClocks(ts.receive, s.clock)
       <==> s.clock == 1 || ts.receive.wall == ts.receive.mono
  {
    MisreadIsRight(ts.receive, s.clock);
    ReplySendable(fs, b, mac, s, false, win, ts);
    FlagsRead(b, mac, m);
    MidpointValues(fs, b, mac, s, win, ts, m);
    StampChecksNeverFail(AfterRead(m, b.blen, mac).Memory(), b.blen, mac.Some?, s);
  }

  /** The fields the client finds in such a reply, in terms of those the server put. */
  lemma MidpointFramed(fs: seq<seq<byte>>, b: Buf, mac: Option<Mac>, s: Settings, win: W.State, ts: Timestamp,
                       m: seq<byte>)
    requires s.Valid() && IsRequest(fs, mac.Some?) && Fits(ts.receive) && Fits(ts.send)
    requires s.at == MIDPOINT && s.clock != 3 && HasBoth(ts.receive)
    requires WellFormed(b, CAPS) && b.fs == ReplyFields(fs, s, false, win, ts) && IsSendable(b, mac)
    requires b.blen <= |m| && MAX_HEADER_LEN <= |m| && m[..b.blen] == Sealed(b, mac).Wire()
    ensures ReadError(m, b.blen, mac) == None
    ensures var d := FramedAs(AfterRead(m, b.blen, mac).Memory(), b.blen, Expected(mac.Some?, s)).fs;
            && (forall f {:trigger d[f]} :: F_CONN_TOKEN <= f < F_MWALL ==> d[f] == b.fs[f])
            && d[if s.clock == 1 then F_MWALL else F_MMONO] == b.fs[F_MWALL]
            && d[if s.clock == 1 then F_MMONO else F_MWALL] == []
            && d[F_SWALL] == [] && d[F_SMONO] == []
  {
    ReplyShows(fs, mac.Some?, s, false, win, ts);
    ReadsBack(b, mac, m, ReplyShown(mac.Some?, s, ts));
    MidpointFields(AfterRead(m, b.blen, mac).Memory(), b.blen, mac.Some?, s, ts);
    MarkedKeeps(b, mac);
  }

  lemma NoOtherStamps(fs: seq<seq<byte>>, r: seq<seq<byte>>, sealed: bool, s: Settings, win: W.State, ts: Timestamp)
    requires s.Valid() && IsRequest(fs, sealed) && Fits(ts.receive) && Fits(ts.send) && s.at == MIDPOINT
    requires r == ReplyFields(fs, s, false, win, ts)
    ensures r[F_RWALL] == [] && r[F_RMONO] == []
  {
    ReplyShows(fs, sealed, s, false, win, ts);
    SetExactly(r, ReplyShown(sealed, s, ts), F_RWALL);
    SetExactly(r, ReplyShown(sealed, s, ts), F_RMONO);
  }

  lemma MidpointValues(fs: seq<seq<byte>>, b: Buf, mac: Option<Mac>, s: Settings, win: W.State, ts: Timestamp,
                       m: seq<byte>)
    requires s.Valid() && IsRequest(fs, mac.Some?) && Fits(ts.receive) && Fits(ts.send)
    requires s.at == MIDPOINT && s.clock != 3 && HasBoth(ts.receive)
    requires WellFormed(b, CAPS) && b.fs == ReplyFields(fs, s, false, win, ts) && IsSendable(b, mac)
    requires b.blen <= |m| && MAX_HEADER_LEN <= |m| && m[..b.blen] == Sealed(b, mac).Wire()
    ensures ReadError(m, b.blen, mac) == None
    ensures Values(FramedAs(AfterRead(m, b.blen, mac).Memory(), b.blen, Expected(mac.Some?, s)))
         == Told(fs, s, win, ts, b.blen).(
              stamp := Timestamp(Misread(ts.receive, s.clock), Misread(ts.receive, s.clock)))
  {
    MidpointFramed(fs, b, mac, s, win, ts, m);
    NoOtherStamps(fs, b.fs, mac.Some?, s, win, ts);
    MidpointPut(fs, s, win, ts);
    var d := FramedAs(AfterRead(m, b.blen, mac).Memory(), b.blen, Expected(mac.Some?, s));
    MidpointStamp(d.fs, s.clock, ts.receive.wall);
    ReplyValues(fs, b, mac.Some?, s, win, ts);
    NumbersSame(b, d);
  }

  lemma MarkedKeeps(b: Buf, mac: Option<Mac>)
    requires IsSendable(b, mac)
    ensures forall f {:trigger Marked(b, mac).fs[f]} :: F_CONN_TOKEN <= f < FCOUNT ==> Marked(b, mac).fs[f] == b.fs[f]
  {
  }

  lemma NumbersSame(b: Buf, d: Buf)
    requires IsSized(b.fs) && IsSized(d.fs) && b.blen == d.blen
    requires forall f {:trigger d.fs[f]} :: F_CONN_TOKEN <= f < F_RWALL ==> d.fs[f] == b.fs[f]
    ensures Values(d) == Values(b).(stamp := GetStamp(d.fs))
  {
  }

  // What a reply teaches a client that insists on length l.

  lemma ToldIsLearned(fs: seq<seq<byte>>, s: Settings, token: uint64, seqno: uint32, win: W.State, ts: Timestamp,
                      n: nat)
    requires |fs| == FCOUNT && GetLE(fs[F_CONN_TOKEN]) == token && GetLE(fs[F_SEQNO]) == seqno
    ensures Told(fs, s, win, ts, n) == Learned(s, token, seqno, win, ts, n)
  {
  }

  lemma CompleteTeaches(fs: seq<seq<byte>>, b: Buf, mac: Option<Mac>, s: Settings, win: W.State, ts: Timestamp,
                        l: nat, capacity: nat, m: seq<byte>)
    requires s.Valid() && IsRequest(fs, mac.Some?) && Fits(ts.receive) && Fits(ts.send) && IsComplete(s, ts)
    requires WellFormed(b, CAPS) && b.fs == ReplyFields(fs, s, false, win, ts) && IsSendable(b, mac)
    requires l == Max(s.length, Total(LensFor(Expected(mac.Some?, s)))) <= capacity
    requires b.blen == Min(Max(s.length, b.HeaderLen()), capacity)
    requires b.blen <= |m| && MAX_HEADER_LEN <= |m| && m[..b.blen] == Sealed(b, mac).Wire()
    ensures Decode(m, b.blen, mac, s.(length := l)) == Ok(Told(fs, s, win, ts, l))
  {
    ReplyHeader(fs, b, mac.Some?, s, false, win, ts);
    TakenIfRoomForLength(fs, b, mac, s, win, ts, capacity, m);
  }

  lemma HeaderFits(b: Buf)
    requires WellFormed(b, CAPS)
    ensures b.HeaderLen() <= MAX_HEADER_LEN
  {
    FlatLength(b.fs, FCOUNT);
    OffBelow(Lens(b.fs), CAPS, FCOUNT);
    CapsTotal();
  }

  lemma ReplyHeaderShown(fs: seq<seq<byte>>, b: Buf, sealed: bool, s: Settings, closed: bool, win: W.State,
                         ts: Timestamp)
    requires IsRequest(fs, sealed) && Fits(ts.receive) && Fits(ts.send)
    requires b.fs == ReplyFields(fs, s, closed, win, ts)
    ensures b.HeaderLen() == Total(LensFor(ReplyShown(sealed, s, ts)))
  {
    ReplyShows(fs, sealed, s, closed, win, ts);
    FlatLength(b.fs, FCOUNT);
  }

  /** The midpoint's second clock makes the reply's header longer than the client expects. */
  lemma MidpointHeader(sealed: bool, s: Settings, ts: Timestamp)
    requires s.Valid() && s.at == MIDPOINT && HasBoth(ts.receive)
    ensures Total(LensFor(Expected(sealed, s))) <= Total(LensFor(ReplyShown(sealed, s, ts)))
  {
    WantedMonotone(Expected(sealed, s), ReplyShown(sealed, s, ts));
  }

  lemma MidpointTeaches(fs: seq<seq<byte>>, b: Buf, mac: Option<Mac>, s: Settings, win: W.State, ts: Timestamp,
                        l: nat, capacity: nat, m: seq<byte>)
    requires s.Valid() && IsRequest(fs, mac.Some?) && Fits(ts.receive) && Fits(ts.send)
    requires s.at == MIDPOINT && s.clock != 3 && HasBoth(ts.receive)
    requires WellFormed(b, CAPS) && b.fs == ReplyFields(fs, s, false, win, ts) && IsSendable(b, mac)
    requires l == Max(s.length, Total(LensFor(Expected(mac.Some?, s)))) <= capacity && MAX_HEADER_LEN <= capacity
    requires b.blen == Min(Max(s.length, b.HeaderLen()), capacity)
    requires b.blen <= |m| && MAX_HEADER_LEN <= |m| && m[..b.blen] == Sealed(b, mac).Wire()
    ensures var t, n := Misread(ts.receive, s.clock), Max(s.length, Total(LensFor(ReplyShown(mac.Some?, s, ts))));
            Decode(m, b.blen, mac, s.(length := l)) == Ok(Told(fs, s, win, ts, n).(stamp := Timestamp(t, t)))
  {
    HeaderFits(b);
    ReplyHeaderShown(fs, b, mac.Some?, s, false, win, ts);
    MidpointHeader(mac.Some?, s, ts);
    MidpointOneClock(fs, b, mac, s.(length := l), win, ts, m);
  }
}
