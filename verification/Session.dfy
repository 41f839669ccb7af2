/** An echo exchange carried out: the client's code and the server's put together. */
module Session {
  import opened BitOps
  import opened Echo
  import opened EchoClient
  import opened EchoServer
  import opened Exchange
  import opened Layout
  import opened Octets
  import opened Packet
  import opened Times
  import S = Sconn
  import W = Window

  /** The network puts bytes into the buffer of the packet that reads them. */
  method Deliver(p: Packet, wire: seq<byte>)
    requires p.Framed() && |wire| <= p.fb.mem.Length
    modifies p.fb, p.fb.mem
    ensures p.Framed() && MAX_HEADER_LEN <= p.fb.mem.Length
    ensures p.fb.mem[..|wire|] == wire
  {
    CapsTotal();
    p.fb.Receive(wire);
  }

  method Ask(s: Settings, token: uint64, seqno: uint32, key: Option<Mac>)
    returns (wire: seq<byte>, l: nat, ghost b1: Buf)
    requires s.Valid()
    ensures WellFormed(b1, CAPS) && IsSendable(b1, key) && wire == Sealed(b1, key).Wire()
    ensures IsOutgoing(b1.fs, key.Some?, s, token, seqno)
    ensures l == |wire| == b1.blen == Max(s.length, Total(LensFor(Expected(key.Some?, s))))
  {
    var p;
    p, l, b1 := Request(s, token, seqno, key, null);
    OutgoingLength(b1, key.Some?, s, token, seqno);
    wire := p.fb.Bytes();
  }

  /** A request read and framed: what it asks for. */
  ghost predicate IsAsked(b: Buf, sealed: bool, token: uint64, seqno: uint32, length: nat)
  {
    && IsRequest(b.fs, sealed) && |b.fs[F_SEQNO]| == 4 && b.blen == length
    && GetLE(b.fs[F_CONN_TOKEN]) == token && GetLE(b.fs[F_SEQNO]) == seqno
  }

  lemma ArrivalAsks(b1: Buf, mac: Option<Mac>, s: Settings, token: uint64, seqno: uint32, m: seq<byte>)
    requires s.Valid() && WellFormed(b1, CAPS) && IsSendable(b1, mac)
    requires IsOutgoing(b1.fs, mac.Some?, s, token, seqno)
    requires b1.blen <= |m| && MAX_HEADER_LEN <= |m| && m[..b1.blen] == Sealed(b1, mac).Wire()
    ensures Arrives(m, b1.blen, mac) == Data(true, token, false, true, seqno)
    ensures IsAsked(Requested(m, b1.blen, mac), mac.Some?, token, seqno, b1.blen)
  {
    RequestArrives(b1, mac, s, token, seqno, m);
    RequestedIsRequest(m, b1.blen, mac);
    SetExactly(Requested(m, b1.blen, mac).fs, RequestWanted(mac.Some?), F_SEQNO);
  }

  /** The server reads the client's request. */
  method TakeIn(p: Packet, wire: seq<byte>, ghost b1: Buf, ghost s: Settings, ghost token: uint64, ghost seqno: uint32)
    requires p.Framed() && |wire| <= p.fb.mem.Length && s.Valid()
    requires WellFormed(b1, CAPS) && IsSendable(b1, p.mac) && IsOutgoing(b1.fs, p.mac.Some?, s, token, seqno)
    requires wire == Sealed(b1, p.mac).Wire()
    modifies p.fb, p.fb.mem
    ensures p.Valid() && IsAsked(p.View(), p.mac.Some?, token, seqno, b1.blen)
  {
    Deliver(p, wire);
    ghost var m := p.fb.mem[..];
    assert m[..b1.blen] == wire;
    ArrivalAsks(b1, p.mac, s, token, seqno, m);
    var _ := ReadRequest(p, |wire|);
  }

  /** A reply on the wire, to a request with these fields, from a server with this much room. */
  ghost predicate IsReply(out: seq<byte>, b: Buf, fs: seq<seq<byte>>, mac: Option<Mac>, s: Settings, closed: bool,
                          win: W.State, ts: Timestamp, room: nat)
    requires IsRequest(fs, mac.Some?) && Fits(ts.receive) && Fits(ts.send)
  {
    && WellFormed(b, CAPS) && IsSendable(b, mac) && out == Sealed(b, mac).Wire()
    && b.fs == ReplyFields(fs, s, closed, win, ts)
    && b.blen == Min(Max(s.length, b.HeaderLen()), room)
  }

  /** The server serves the request it has read, and the reply goes out. */
  method Serve(p: Packet, sc: S.Sconn, s: Settings, now: int, later: int, trcvd: Time, clock: Time)
    returns (v: S.Verdict, out: seq<byte>, ghost b2: Buf)
    requires p.Valid() && IsRequest(p.View().fs, p.mac.Some?) && |p.View().fs[F_SEQNO]| == 4
    requires Fits(trcvd) && Fits(clock) && s.CanStamp()
    modifies p.fb, p.fb.mem, sc
    ensures var e := EchoOf(old(p.View()), now, later);
            v == S.Judge(sc.lim, old(sc.View()), e) && sc.View() == S.Admit(sc.lim, old(sc.View()), e)
    ensures v.Answered? ==> IsReply(out, b2, old(p.View()).fs, p.mac, s, v.closed, sc.View().win,
                                    ServerStamp(s, trcvd, clock), |old(p.View()).Memory()|)
  {
    v, b2 := ServeRequest(p, sc, s, now, later, trcvd, clock, null);
    out := [];
    if v.Answered? {
      out := p.fb.Bytes();
    }
  }

  /** The client's turn: it reads the reply in a packet of the length it insists on. */
  method Collect(out: seq<byte>, s: Settings, key: Option<Mac>)
    returns (r: Result<Decoded, Failure>, ghost m2: seq<byte>)
    requires s.Valid() && |out| <= Max(s.length, MAX_HEADER_LEN)
    ensures |out| <= |m2| && MAX_HEADER_LEN <= |m2| && m2[..|out|] == out
    ensures r == Decode(m2, |out|, key, s)
  {
    var p := new Packet(0, Max(s.length, 0), key);
    Deliver(p, out);
    m2 := p.fb.mem[..];
    r := Receive(p, |out|, s);
  }

  /** What a client that insists on its own length should learn from a server that answers without closing:
      if the stamps have the clocks asked for, these stamps; if it asked for a midpoint with a single clock,
      the server's wall clock as that clock, in a longer reply. */
  ghost function Lesson(sealed: bool, s: Settings, token: uint64, seqno: uint32, win: W.State,
                        ts: Timestamp): Option<Decoded>
    requires s.Valid()
  {
    if IsComplete(s, ts) then
      Some(Learned(s, token, seqno, win, ts, Max(s.length, Total(LensFor(Expected(sealed, s))))))
    else if s.at == MIDPOINT && s.clock != 3 && HasBoth(ts.receive) then
      var t := Misread(ts.receive, s.clock);
      var n := Max(s.length, Total(LensFor(ReplyShown(sealed, s, ts))));
      Some(Learned(s, token, seqno, win, ts, n).(stamp := Timestamp(t, t)))
    else None
  }

  /** The stamp a client should learn: what it asked for, except that a midpoint on a single clock comes as the
      wall clock's midpoint, under the name of the clock asked for. */
  predicate IsLearnedStamp(ts: Timestamp, at: nat, clock: nat, trcvd: Time, now: Time)
  {
    if at == 4 && clock == 1 then
      ts.receive == ts.send && ts.receive.mono == 0 && IsMidway(ts.receive.wall, trcvd.wall, now.wall)
    else if at == 4 && clock == 2 then
      && ts.receive == ts.send && ts.receive.wall == 0
      && IsMidway(ts.receive.mono - trcvd.wall + trcvd.mono, trcvd.mono, now.mono)
    else IsStamp(ts, at, clock, trcvd, now)
  }

  /** What a client should learn from a server whose window and count are these: 1 asks for the count, 2 for the
      window, 3 for both. */
  predicate IsLearned(d: Decoded, s: Settings, token: uint64, seqno: uint32, win: W.State, trcvd: Time, now: Time)
  {
    && d.token == token && d.seqno == seqno
    && d.count == (if s.stats == 1 || s.stats == 3 then Some(win.count) else None)
    && d.window == (if s.stats == 2 || s.stats == 3 then Some(W.Value(win.bits, 0)) else None)
    && IsLearnedStamp(d.stamp, s.at, s.clock, trcvd, now)
  }

  /** Both clocks can be read, and a midpoint of the readings is on neither the clock's zero. */
  predicate CanRead(s: Settings, trcvd: Time, now: Time)
    requires s.Valid()
  {
    AreReadings(trcvd, now) && (s.at == MIDPOINT ==> HasBoth(ServerStamp(s, trcvd, now).receive))
  }

  lemma LessonIsLearned(sealed: bool, s: Settings, token: uint64, seqno: uint32, win: W.State, trcvd: Time, now: Time)
    requires s.Valid() && win.valid && CanRead(s, trcvd, now)
    ensures var lesson := Lesson(sealed, s, token, seqno, win, ServerStamp(s, trcvd, now));
            lesson.Some? && IsLearned(lesson.value, s, token, seqno, win, trcvd, now)
  {
    AtBits(s.at);
    StatsBits(s.stats);
    StampsAsAsked(s, trcvd, now);
    ServerStampComplete(s, trcvd, now);
  }

  lemma StatsBits(stats: nat)
    requires stats <= 3
    ensures HasBit(stats, STATS_COUNT) == (stats == 1 || stats == 3)
    ensures HasBit(stats, STATS_WINDOW) == (stats == 2 || stats == 3)
  {
    assert HasBit(stats, 1) == HasBit(stats / 2, 0);
  }

  lemma ReplyTeaches(out: seq<byte>, b2: Buf, fs: seq<seq<byte>>, key: Option<Mac>, s: Settings, token: uint64,
                     seqno: uint32, win: W.State, ts: Timestamp, l: nat, room: nat, m2: seq<byte>)
    requires s.Valid() && IsRequest(fs, key.Some?) && Fits(ts.receive) && Fits(ts.send)
    requires GetLE(fs[F_CONN_TOKEN]) == token && GetLE(fs[F_SEQNO]) == seqno
    requires IsReply(out, b2, fs, key, s, false, win, ts, room)
    requires l == Max(s.length, Total(LensFor(Expected(key.Some?, s)))) <= room && MAX_HEADER_LEN <= room
    requires b2.blen <= |m2| && MAX_HEADER_LEN <= |m2| && m2[..b2.blen] == out
    requires Lesson(key.Some?, s, token, seqno, win, ts).Some?
    ensures Decode(m2, b2.blen, key, s.(length := l)) == Ok(Lesson(key.Some?, s, token, seqno, win, ts).value)
  {
    if IsComplete(s, ts) {
      CompleteTeaches(fs, b2, key, s, win, ts, l, room, m2);
      ToldIsLearned(fs, s, token, seqno, win, ts, l);
    } else {
      MidpointTeaches(fs, b2, key, s, win, ts, l, room, m2);
      ToldIsLearned(fs, s, token, seqno, win, ts, Max(s.length, Total(LensFor(ReplyShown(key.Some?, s, ts)))));
    }
  }

  /** What the client makes of a reply, insisting on length l. */
  method Learn(out: seq<byte>, l: nat, s: Settings, key: Option<Mac>, ghost closed: bool, ghost b2: Buf,
               ghost fs: seq<seq<byte>>, ghost token: uint64, ghost seqno: uint32, ghost win: W.State,
               ghost ts: Timestamp, ghost room: nat)
    returns (r: Result<Decoded, Failure>)
    requires s.Valid() && IsRequest(fs, key.Some?) && Fits(ts.receive) && Fits(ts.send)
    requires GetLE(fs[F_CONN_TOKEN]) == token && GetLE(fs[F_SEQNO]) == seqno
    requires IsReply(out, b2, fs, key, s, closed, win, ts, room)
    requires l == Max(s.length, Total(LensFor(Expected(key.Some?, s)))) <= room && MAX_HEADER_LEN <= room
    ensures var lesson := Lesson(key.Some?, s, token, seqno, win, ts);
            !closed && lesson.Some? ==> r == Ok(lesson.value)
  {
    HeaderFits(b2);
    ghost var m2;
    r, m2 := Collect(out, s.(length := l), key);
    if !closed && Lesson(key.Some?, s, token, seqno, win, ts).Some? {
      ReplyTeaches(out, b2, fs, key, s, token, seqno, win, ts, l, room, m2);
    }
  }

  /** The server serves what it has read, and the client learns from the reply. */
  method Finish(s: Settings, l: nat, server: Packet, sc: S.Sconn, now: int, later: int, trcvd: Time, clock: Time,
                ghost token: uint64, ghost seqno: uint32)
    returns (v: S.Verdict, r: Option<Result<Decoded, Failure>>)
    requires s.Valid() && server.Valid() && IsAsked(server.View(), server.mac.Some?, token, seqno, l)
    requires l == Max(s.length, Total(LensFor(Expected(server.mac.Some?, s)))) <= server.fb.mem.Length
    requires Fits(trcvd) && Fits(clock)
    modifies server.fb, server.fb.mem, sc
    ensures var e := S.Echo(seqno, l, now, later);
            v == S.Judge(sc.lim, old(sc.View()), e) && sc.View() == S.Admit(sc.lim, old(sc.View()), e)
    ensures r.Some? <==> v.Answered?
    ensures var lesson := Lesson(server.mac.Some?, s, token, seqno, sc.View().win, ServerStamp(s, trcvd, clock));
            v == S.Answered(false) && lesson.Some? ==> r == Some(Ok(lesson.value))
  {
    ghost var asked, ts := server.View(), ServerStamp(s, trcvd, clock);
    var out;
    ghost var b2;
    v, out, b2 := Serve(server, sc, s, now, later, trcvd, clock);
    r := None;
    if v.Answered? {
      var got := Learn(out, l, s, server.mac, v.closed, b2, asked.fs, token, seqno, sc.View().win, ts,
                       |asked.Memory()|);
      r := Some(got);
    }
  }

  /** The exchange, in terms of the lesson. */
  method Carry(s: Settings, token: uint64, seqno: uint32, key: Option<Mac>, server: Packet, sc: S.Sconn,
               now: int, later: int, trcvd: Time, clock: Time)
    returns (v: S.Verdict, r: Option<Result<Decoded, Failure>>, ghost length: nat)
    requires s.Valid() && server.Framed() && server.mac == key && Fits(trcvd) && Fits(clock)
    requires Max(s.length, Total(LensFor(Expected(key.Some?, s)))) <= server.fb.mem.Length
    modifies server.fb, server.fb.mem, sc
    ensures length == Max(s.length, Total(LensFor(Expected(key.Some?, s))))
    ensures var e := S.Echo(seqno, length, now, later);
            v == S.Judge(sc.lim, old(sc.View()), e) && sc.View() == S.Admit(sc.lim, old(sc.View()), e)
    ensures r.Some? <==> v.Answered?
    ensures var lesson := Lesson(key.Some?, s, token, seqno, sc.View().win, ServerStamp(s, trcvd, clock));
            v == S.Answered(false) && lesson.Some? ==> r == Some(Ok(lesson.value))
  {
    var wire, l, b1 := Ask(s, token, seqno, key);
    length := l;
    TakeIn(server, wire, b1, s, token, seqno);
    v, r := Finish(s, l, server, sc, now, later, trcvd, clock, token, seqno);
  }

  /** One exchange between a client and a server that share a key, or have none. The server judges just this
      request. Whenever it answers without closing, the client learns the token and seqno it sent, the count
      and window of the server right after this request, and its stamps, or what becomes of them. */
  method Run(s: Settings, token: uint64, seqno: uint32, key: Option<Mac>, server: Packet, sc: S.Sconn,
             now: int, later: int, trcvd: Time, clock: Time)
    returns (v: S.Verdict, r: Option<Result<Decoded, Failure>>, ghost length: nat)
    requires s.Valid() && server.Framed() && server.mac == key && Fits(trcvd) && Fits(clock)
    requires Max(s.length, Total(LensFor(Expected(key.Some?, s)))) <= server.fb.mem.Length
    modifies server.fb, server.fb.mem, sc
    ensures length == Max(s.length, Total(LensFor(Expected(key.Some?, s))))
    ensures var e := S.Echo(seqno, length, now, later);
            v == S.Judge(sc.lim, old(sc.View()), e) && sc.View() == S.Admit(sc.lim, old(sc.View()), e)
    ensures r.Some? <==> v.Answered?
    ensures var lesson := Lesson(key.Some?, s, token, seqno, sc.View().win, ServerStamp(s, trcvd, clock));
            v == S.Answered(false) && lesson.Some? ==> r == Some(Ok(lesson.value))
    ensures v == S.Answered(false) && CanRead(s, trcvd, clock) ==>
              && r.Some? && r.value.Ok?
              && IsLearned(r.value.value, s, token, seqno, sc.View().win, trcvd, clock)
  {
    v, r, length := Carry(s, token, seqno, key, server, sc, now, later, trcvd, clock);
    if v == S.Answered(false) && CanRead(s, trcvd, clock) {
      LessonIsLearned(key.Some?, s, token, seqno, sc.View().win, trcvd, clock);
    }
  }
}
