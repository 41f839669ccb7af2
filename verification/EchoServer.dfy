/** The server's side of an echo exchange, in the packet's own buffer. */
module EchoServer {
  import opened BitOps
  import opened Echo
  import opened Layout
  import opened Octets
  import opened Packet
  import opened Times
  import Fl = Filler
  import N = Negotiate
  import P = Params
  import S = Sconn
  import W = Window

  /** Frames a packet that has been read with some further fields. */
  method AddFields(p: Packet, list: seq<int>, ghost m: seq<byte>, ghost n: nat, ghost wanted: set<int>,
                   ghost more: set<int>) returns (ok: bool)
    requires p.Framed() && MAX_HEADER_LEN <= |m| && n <= |m| && p.View() == FramedAs(m, n, wanted)
    requires IsFieldList(list) && more == wanted + set f | f in list
    modifies p.fb
    ensures p.Framed() && p.View() == FramedAs(m, n, more)
    ensures ok == (Total(LensFor(more)) <= n) && (ok ==> p.Valid())
  {
    AddWanted(m, n, wanted, list);
    p.fb.ViewLens();
    var err := p.fb.AddFields(list, false);
    return err.None?;
  }

  const TOKEN_LIST: seq<int> := [F_MAGIC, F_FLAGS, F_CONN_TOKEN]

  const REQUEST_LIST: seq<int> := [F_MAGIC, F_FLAGS, F_CONN_TOKEN, F_SEQNO]

  lemma ListsAdd(sealed: bool)
    ensures IsFieldList(TOKEN_LIST) && TokenWanted(sealed) == InitWanted(sealed) + set f | f in TOKEN_LIST
    ensures IsFieldList(REQUEST_LIST) && RequestWanted(sealed) == InitWanted(sealed) + set f | f in REQUEST_LIST
    ensures RequestWanted(sealed) == TokenWanted(sealed) + set f | f in REQUEST_LIST
  {
  }

  method GetNumber(p: Packet, f: nat) returns (v: nat)
    requires p.Framed() && f < FCOUNT
    ensures v == GetLE(p.View().fs[f])
  {
    var x := p.fb.Get(f);
    return GetLE(x);
  }

  /** The part of reading a packet after validation. */
  method TakeRequest(p: Packet, fl: byte, n: nat, ghost m: seq<byte>) returns (a: Arrival)
    requires p.Framed() && MAX_HEADER_LEN <= |m| && n <= |m|
    requires p.View() == FramedAs(m, n, InitWanted(p.mac.Some?))
    modifies p.fb
    ensures p.Framed() && a == ArrivesRest(m, fl, n, p.mac.Some?)
    ensures a.Data? && a.hasSeqno ==> p.Valid() && p.View() == FramedAs(m, n, RequestWanted(p.mac.Some?))
  {
    if HasBit(fl, FL_REPLY) {
      return UnexpectedReplyFlag;
    }
    if HasBit(fl, FL_OPEN) {
      return OpenRequest;
    }
    var ok, token := TakeToken(p, m, n);
    if !ok {
      return Data(false, 0, false, false, 0);
    }
    if HasBit(fl, FL_CLOSE) {
      return Data(true, token, true, false, 0);
    }
    a := TakeSeqno(p, token, n, m);
  }

  method TakeToken(p: Packet, ghost m: seq<byte>, ghost n: nat) returns (ok: bool, token: nat)
    requires p.Framed() && MAX_HEADER_LEN <= |m| && n <= |m|
    requires p.View() == FramedAs(m, n, InitWanted(p.mac.Some?))
    modifies p.fb
    ensures p.Framed() && p.View() == FramedAs(m, n, TokenWanted(p.mac.Some?))
    ensures ok == (Total(LensFor(TokenWanted(p.mac.Some?))) <= n) && token == GetLE(p.View().fs[F_CONN_TOKEN])
  {
    ListsAdd(p.mac.Some?);
    ok := AddFields(p, TOKEN_LIST, m, n, InitWanted(p.mac.Some?), TokenWanted(p.mac.Some?));
    token := GetNumber(p, F_CONN_TOKEN);
  }

  method TakeSeqno(p: Packet, token: nat, n: nat, ghost m: seq<byte>) returns (a: Arrival)
    requires p.Framed() && MAX_HEADER_LEN <= |m| && n <= |m|
    requires p.View() == FramedAs(m, n, TokenWanted(p.mac.Some?))
    modifies p.fb
    ensures p.Framed() && p.View() == FramedAs(m, n, RequestWanted(p.mac.Some?))
    ensures var fits := n >= Total(LensFor(RequestWanted(p.mac.Some?)));
            && a == Data(true, token, false, fits, if fits then GetLE(p.View().fs[F_SEQNO]) else 0)
            && (fits ==> p.Valid())
  {
    ListsAdd(p.mac.Some?);
    var ok := AddFields(p, REQUEST_LIST, m, n, TokenWanted(p.mac.Some?), RequestWanted(p.mac.Some?));
    if !ok {
      return Data(true, token, false, false, 0);
    }
    var seqno := GetNumber(p, F_SEQNO);
    return Data(true, token, false, true, seqno);
  }

  /** Validates n bytes already in the buffer, and gets the flags. */
  method ReadPacket(p: Packet, n: nat) returns (err: Option<Error>, fl: byte)
    requires p.Framed() && n <= p.fb.mem.Length && MAX_HEADER_LEN <= p.fb.mem.Length
    modifies p.fb, p.fb.mem
    ensures p.Framed() && err == ReadError(old(p.fb.mem[..]), n, p.mac)
    ensures err == None ==>
              var h := AfterRead(old(p.fb.mem[..]), n, p.mac);
              fl == FlagsOf(h) && p.View() == FramedAs(h.Memory(), n, InitWanted(p.mac.Some?))
  {
    ghost var m := p.fb.mem[..];
    fl := 0;
    err := p.ReadReset(n);
    if err == None {
      AfterReadFramed(m, n, p.mac);
      fl := p.Flags();
    }
  }

  /** Reads a packet of n bytes already in the buffer. */
  method ReadRequest(p: Packet, n: nat) returns (a: Arrival)
    requires p.Framed() && n <= p.fb.mem.Length && MAX_HEADER_LEN <= p.fb.mem.Length
    modifies p.fb, p.fb.mem
    ensures p.Framed() && a == Arrives(old(p.fb.mem[..]), n, p.mac)
    ensures a.Data? && a.hasSeqno ==> p.Valid() && p.View() == Requested(old(p.fb.mem[..]), n, p.mac)
  {
    ghost var m := p.fb.mem[..];
    var err, fl := ReadPacket(p, n);
    if err.Some? {
      return Bad(err.value);
    }
    a := TakeRequest(p, fl, n, AfterRead(m, n, p.mac).Memory());
  }

  method SetReply(p: Packet, closed: bool)
    requires p.Valid() && p.View().IsSet(F_FLAGS)
    modifies p.fb, p.fb.mem
    ensures p.Valid()
    ensures var b := old(p.View()); p.View() == b.(fs := b.fs[F_FLAGS := [ReplyFlags(FlagsOf(b), closed)]])
  {
    p.SetFlagBit(FL_REPLY);
    if closed {
      p.SetFlagBit(FL_CLOSE);
    }
  }

  /** Drops the payload. */
  method Strip(p: Packet)
    requires p.Valid()
    modifies p.fb
    ensures p.Valid() && IsBare(p.View()) && p.View().fs == old(p.View()).fs
    ensures |p.View().Memory()| == |old(p.View()).Memory()|
  {
    var _ := p.fb.SetTargetLen(0);
  }

  method SetStats(p: Packet, stats: nat, win: W.State)
    requires p.Valid() && IsBare(p.View())
    modifies p.fb, p.fb.mem
    ensures p.Valid() && Became(p.View(), old(p.View()), PutStats(old(p.View()).fs, stats, win))
  {
    if HasBit(stats, STATS_COUNT) {
      p.Put(F_RCOUNT, PutLE(win.count, 4));
    }
    if HasBit(stats, STATS_WINDOW) {
      p.Put(F_RWINDOW, PutLE(SentWindow(win), 8));
    }
  }

  /** Gives the packet its length and fills the payload, if there is a filler. */
  method Pad(p: Packet, length: int, f: Fl.PatternFiller?)
    requires p.Valid() && (f != null ==> f.Valid() && f.buf != p.fb.mem)
    modifies p.fb, p.fb.mem, f
    ensures p.Valid() && p.View().fs == old(p.View()).fs
    ensures p.View().blen == Min(Max(length, old(p.View()).HeaderLen()), |old(p.View()).Memory()|)
    ensures f != null ==>
              var n := p.View().blen - p.View().HeaderLen();
              && f.Valid() && f.phase == old(f.phase) + n
              && p.View().Payload() == Fl.Periodic(f.pattern, old(f.phase), n)
  {
    var _ := p.fb.SetTargetLen(length);
    if f != null {
      var x := p.fb.Payload();
      var buf := new byte[|x|];
      var _ := f.Read(buf);
      p.fb.FillPayload(buf[..]);
    }
  }

  /** Gives a packet its length, fills it and seals it. */
  method Finish(p: Packet, length: int, f: Fl.PatternFiller?) returns (l: nat, ghost b: Buf)
    requires p.Valid() && IsSendable(p.View(), p.mac)
    requires f != null ==> f.Valid() && f.buf != p.fb.mem
    modifies p.fb, p.fb.mem, f
    ensures p.Valid() && IsSendable(b, p.mac) && p.View() == Sealed(b, p.mac)
    ensures b.fs == old(p.View()).fs
    ensures l == b.blen == Min(Max(length, old(p.View()).HeaderLen()), |old(p.View()).Memory()|)
    ensures f != null ==> b.Payload() == Fl.Periodic(f.pattern, old(f.phase), b.blen - b.HeaderLen())
  {
    Pad(p, length, f);
    b, l := p.View(), p.fb.blen;
    p.UpdateHMAC();
  }

  /** Turns an accepted request into the reply, up to its length and payload. */
  method FillReply(p: Packet, s: Settings, closed: bool, win: W.State, ts: Timestamp)
    requires p.Valid() && IsRequest(p.View().fs, p.mac.Some?) && Fits(ts.receive) && Fits(ts.send)
    modifies p.fb, p.fb.mem
    ensures p.Valid() && p.View().fs == ReplyFields(old(p.View()).fs, s, closed, win, ts)
    ensures |p.View().Memory()| == |old(p.View()).Memory()|
  {
    SetReply(p, closed);
    Strip(p);
    SetStats(p, s.stats, win);
    p.SetTimestamp(s.at, ts);
  }

  /** The reply that goes on the wire, in the buffer of the request. */
  method Reply(p: Packet, s: Settings, closed: bool, win: W.State, ts: Timestamp, f: Fl.PatternFiller?)
    returns (ghost b: Buf)
    requires p.Valid() && IsRequest(p.View().fs, p.mac.Some?) && Fits(ts.receive) && Fits(ts.send)
    requires f != null ==> f.Valid() && f.buf != p.fb.mem
    modifies p.fb, p.fb.mem, f
    ensures p.Valid() && IsSendable(b, p.mac) && p.View() == Sealed(b, p.mac)
    ensures b.fs == ReplyFields(old(p.View()).fs, s, closed, win, ts)
    ensures b.blen == Min(Max(s.length, b.HeaderLen()), |old(p.View()).Memory()|)
    ensures f != null ==> b.Payload() == Fl.Periodic(f.pattern, old(f.phase), b.blen - b.HeaderLen())
  {
    FillReply(p, s, closed, win, ts);
    ReplySendable(old(p.View()).fs, p.View(), p.mac, s, closed, win, ts);
    var l;
    l, b := Finish(p, s.length, f);
  }

  // The stamps, from the server's clocks.

  /** int64 arithmetic wraps around. */
  function Wrap(x: int): int64 { ToSigned(x % TWO_TO_64) }

  /** d / 2, which truncates towards zero. */
  function Halve(d: int): int { if d >= 0 then d / 2 else -(-d / 2) }

  /** The monotonic clocks if both are there, else the wall clocks. */
  function Elapsed(t: Time, u: Time): int64
  {
    if t.mono != 0 && u.mono != 0 then Wrap(t.mono - u.mono) else Wrap(t.wall - u.wall)
  }

  function Advance(t: Time, d: int): Time
  {
    Time(if t.wall != 0 then Wrap(t.wall + d) else 0, if t.mono != 0 then Wrap(t.mono + d) else 0)
  }

  function Midpoint(t: Time, u: Time): Time { Advance(t, Halve(Elapsed(u, t))) }

  lemma WrapFits(x: int)
    requires -0x8000_0000_0000_0000 <= x < 0x8000_0000_0000_0000
    ensures Wrap(x) == x
  {
  }

  lemma AdvanceFits(t: Time, d: int)
    requires -0x8000_0000_0000_0000 <= t.wall + d < 0x8000_0000_0000_0000
    requires -0x8000_0000_0000_0000 <= t.mono + d < 0x8000_0000_0000_0000
    ensures Advance(t, d) == Time(if t.wall != 0 then t.wall + d else 0, if t.mono != 0 then t.mono + d else 0)
  {
    WrapFits(t.wall + d);
    WrapFits(t.mono + d);
  }

  /** m is half way from t to u, and closer to t if there are two halves. */
  predicate IsMidway(m: int, t: int, u: int)
  {
    (t <= m <= u && 0 <= (u - m) - (m - t) <= 1) || (u <= m <= t && 0 <= (m - u) - (t - m) <= 1)
  }

  /** int64 can hold the clock moved by d. */
  predicate CanMove(v: int, d: int)
  {
    -0x8000_0000_0000_0000 <= v + d < 0x8000_0000_0000_0000 && -0x8000_0000_0000_0000 <= d < 0x8000_0000_0000_0000
  }

  lemma HalfIsMidway(t: int, u: int)
    ensures IsMidway(t + Halve(u - t), t, u)
  {
  }

  lemma HalfMoves(v: int, d: int)
    requires CanMove(v, d) && -0x8000_0000_0000_0000 <= v < 0x8000_0000_0000_0000
    ensures CanMove(v, Halve(d))
  {
  }

  lemma HalfAdvances(t: Time, d: int)
    requires Fits(t) && t.wall != 0 && t.mono != 0 && CanMove(t.wall, d) && CanMove(t.mono, d)
    ensures Advance(t, Halve(d)) == Time(t.wall + Halve(d), t.mono + Halve(d))
  {
    HalfMoves(t.wall, d);
    HalfMoves(t.mono, d);
    AdvanceFits(t, Halve(d));
  }

  /** Both clocks are moved by h, the half of d. */
  lemma MidpointAdvance(t: Time, u: Time, d: int) returns (h: int)
    requires Fits(t) && Fits(u) && t.wall != 0 && t.mono != 0 && (u.wall != 0 || u.mono != 0)
    requires d == (if u.mono != 0 then u.mono - t.mono else u.wall - t.wall) && CanMove(t.wall, d) && CanMove(t.mono, d)
    ensures Midpoint(t, u) == Time(t.wall + h, t.mono + h)
    ensures IsMidway(t.wall + h, t.wall, t.wall + d) && IsMidway(t.mono + h, t.mono, t.mono + d)
  {
    h := Halve(d);
    WrapFits(d);
    HalfAdvances(t, d);
    HalfIsMidway(t.wall, t.wall + d);
    HalfIsMidway(t.mono, t.mono + d);
  }

  /** The midpoint of two readings, the first of both clocks: half way between them on the monotonic clock if
      the second has it, and otherwise on the wall clock; the other clock is moved by as much. */
  lemma MidpointLies(t: Time, u: Time)
    requires Fits(t) && Fits(u) && t.wall != 0 && t.mono != 0 && (u.wall != 0 || u.mono != 0)
    requires var d := if u.mono != 0 then u.mono - t.mono else u.wall - t.wall; CanMove(t.wall, d) && CanMove(t.mono, d)
    ensures var m := Midpoint(t, u);
            && (u.mono != 0 ==> IsMidway(m.mono, t.mono, u.mono))
            && (u.mono == 0 ==> IsMidway(m.wall, t.wall, u.wall))
            && m.wall - t.wall == m.mono - t.mono
  {
    var h := MidpointAdvance(t, u, if u.mono != 0 then u.mono - t.mono else u.wall - t.wall);
  }

  /** trcvd has both clocks; a later reading is limited to those asked for, but a midpoint is not. */
  function ServerStamp(s: Settings, trcvd: Time, now: Time): (ts: Timestamp)
    requires Fits(trcvd) && Fits(now) && s.CanStamp()
    ensures Fits(ts.receive) && Fits(ts.send)
  {
    if s.at == 0 then NO_STAMP
    else if s.at == MIDPOINT then
      var mt := Midpoint(trcvd, KeepClocks(now, s.clock));
      Timestamp(mt, mt)
    else
      Timestamp(if HasBit(s.at, AT_RECEIVE) then KeepClocks(trcvd, s.clock) else NO_TIME,
                if HasBit(s.at, AT_SEND) then KeepClocks(now, s.clock) else NO_TIME)
  }

  /** Just the clock asked for, of the two of a reading: 1 for the wall clock, 2 for the monotonic, 3 for both. */
  predicate IsReading(t: Time, of: Time, clock: nat)
  {
    t.wall == (if clock == 2 then 0 else of.wall) && t.mono == (if clock == 1 then 0 else of.mono)
  }

  /** What the server should stamp: 1 asks for the time of sending, 2 for that of receipt, 3 for both, and 4 for a
      midpoint between the two, on the clock asked for and carrying both. */
  predicate IsStamp(ts: Timestamp, at: nat, clock: nat, trcvd: Time, now: Time)
  {
    && (at == 2 || at == 3 ==> IsReading(ts.receive, trcvd, clock))
    && (at == 1 || at == 3 ==> IsReading(ts.send, now, clock))
    && (at == 0 || at == 1 ==> ts.receive.wall == 0 && ts.receive.mono == 0)
    && (at == 0 || at == 2 ==> ts.send.wall == 0 && ts.send.mono == 0)
    && (at == 4 ==> && ts.receive == ts.send
                    && ts.receive.wall - trcvd.wall == ts.receive.mono - trcvd.mono
                    && (if clock == 1 then IsMidway(ts.receive.wall, trcvd.wall, now.wall)
                        else IsMidway(ts.receive.mono, trcvd.mono, now.mono)))
  }

  /** Both times were read from both clocks, near enough to each other for int64. */
  predicate AreReadings(trcvd: Time, now: Time)
  {
    && Fits(trcvd) && Fits(now) && trcvd.wall != 0 && trcvd.mono != 0 && now.wall != 0 && now.mono != 0
    && CanMove(trcvd.wall, now.mono - trcvd.mono) && CanMove(trcvd.mono, now.mono - trcvd.mono)
    && CanMove(trcvd.wall, now.wall - trcvd.wall) && CanMove(trcvd.mono, now.wall - trcvd.wall)
  }

  lemma KeepIsReading(t: Time, clock: nat)
    requires 1 <= clock <= 3
    ensures IsReading(KeepClocks(t, clock), t, clock)
  {
    assert HasBit(clock, MONOTONIC) == HasBit(clock / 2, 0);
  }

  /** The server stamps each reply with what was asked for. */
  lemma StampsAsAsked(s: Settings, trcvd: Time, now: Time)
    requires s.CanStamp() && Fits(trcvd) && Fits(now) && (s.at == MIDPOINT ==> AreReadings(trcvd, now))
    ensures IsStamp(ServerStamp(s, trcvd, now), s.at, s.clock, trcvd, now)
  {
    AtBits(s.at);
    if s.at != 0 {
      KeepIsReading(trcvd, s.clock);
      KeepIsReading(now, s.clock);
    }
    if s.at == MIDPOINT {
      MidpointLies(trcvd, KeepClocks(now, s.clock));
    }
  }

  /** Reading a clock, or keeping one of a time, panics unless it is one of the three values there are. */
  function Kept(t: Time, clock: nat): Option<Time>
  {
    match clock
    case 1 => Some(Time(t.wall, 0))
    case 2 => Some(Time(0, t.mono))
    case 3 => Some(t)
    case _ => None
  }

  /** The stamps as the source computes them, None for a panic. */
  function StampOrPanic(s: Settings, trcvd: Time, now: Time): Option<Timestamp>
  {
    if s.at == 0 then Some(NO_STAMP)
    else if s.at == MIDPOINT then
      var u := Kept(now, s.clock);
      if u.None? then None else Some(Timestamp(Midpoint(trcvd, u.value), Midpoint(trcvd, u.value)))
    else
      var rt := if HasBit(s.at, AT_RECEIVE) then Kept(trcvd, s.clock) else Some(NO_TIME);
      var st := if HasBit(s.at, AT_SEND) then Kept(now, s.clock) else Some(NO_TIME);
      if rt.None? || st.None? then None else Some(Timestamp(rt.value, st.value))
  }

  lemma KeptIsKeepClocks(t: Time, clock: nat)
    ensures Kept(t, clock) == if 1 <= clock <= 3 then Some(KeepClocks(t, clock)) else None
  {
    if 1 <= clock <= 3 {
      assert HasBit(clock, WALL) == (clock != 2);
      assert HasBit(clock, MONOTONIC) == HasBit(clock / 2, 0);
    }
  }

  /** Stamping panics exactly without a clock to stamp with. */
  lemma PanicsExactly(s: Settings, trcvd: Time, now: Time)
    requires s.at <= 4 && Fits(trcvd) && Fits(now)
    ensures StampOrPanic(s, trcvd, now) == if s.CanStamp() then Some(ServerStamp(s, trcvd, now)) else None
  {
    AtBits(s.at);
    KeptIsKeepClocks(trcvd, s.clock);
    KeptIsKeepClocks(now, s.clock);
  }

  /** The settings of a connection, from the parameters granted when it was opened. */
  function SettingsOf(p: P.Params): Settings
    requires P.Sendable(p)
  {
    Settings(p.length, p.receivedStats, p.stampAt, p.clock)
  }

  /** Serving a connection whose open request was accepted panics exactly if it was granted stamps but asked
      for no clock, which the server does not mind when it accepts. */
  lemma AcceptedOpenPanicsExactly(pol: N.Policy, makes: Text -> bool, request: seq<byte>, trcvd: Time, now: Time)
    requires P.Parse(request).Ok? && Fits(trcvd) && Fits(now)
    ensures var p := P.Parse(request).value;
            var g := N.Granted(pol, makes, p);
            && P.Sendable(g)
            && (StampOrPanic(SettingsOf(g), trcvd, now).None?
                <==> p.stampAt != 0 && !pol.allowStamp.NoStamp? && p.clock == 0)
  {
    PanicsExactly(SettingsOf(N.Granted(pol, makes, P.Parse(request).value)), trcvd, now);
  }

  /** Such a request: one that asks for a send stamp and says nothing else. */
  lemma ClocklessOpen(pol: N.Policy, makes: Text -> bool, trcvd: Time, now: Time)
    requires !pol.allowStamp.NoStamp? && Fits(trcvd) && Fits(now)
    ensures var request := P.Number(P.P_STAMP_AT, 1);
            && P.Parse(request) == Ok(P.ZERO.(stampAt := 1))
            && StampOrPanic(SettingsOf(N.Granted(pol, makes, P.ZERO.(stampAt := 1))), trcvd, now) == None
  {
    var request := P.Number(P.P_STAMP_AT, 1);
    P.ParseNumber(P.ZERO, P.P_STAMP_AT, 1, []);
    assert request + [] == request;
    AcceptedOpenPanicsExactly(pol, makes, request, trcvd, now);
  }

  // Serving.

  function EchoOf(b: Buf, now: int, later: int): S.Echo
    requires |b.fs| == FCOUNT && |b.fs[F_SEQNO]| == 4
  {
    GetLEBound(b.fs[F_SEQNO]);
    Pow256Values();
    S.Echo(GetLE(b.fs[F_SEQNO]), b.blen, now, later)
  }

  /** Decides on a request, and brings the connection up to date. */
  method Admit(p: Packet, sc: S.Sconn, now: int, later: int) returns (v: S.Verdict)
    requires p.Valid() && |p.View().fs[F_SEQNO]| == 4
    modifies sc
    ensures v == S.Judge(sc.lim, old(sc.View()), EchoOf(p.View(), now, later))
    ensures sc.View() == S.Admit(sc.lim, old(sc.View()), EchoOf(p.View(), now, later))
  {
    ghost var b := p.View();
    var x := p.fb.Get(F_SEQNO);
    GetLEBound(x);
    Pow256Values();
    v := sc.AdmitEcho(S.Echo(GetLE(x), p.fb.blen, now, later));
  }

  /** Serves an echo request whose seqno has been framed: the reply, if there is one, tells the client the
      state of the connection after this very request. */
  method ServeRequest(p: Packet, sc: S.Sconn, s: Settings, now: int, later: int, trcvd: Time, clock: Time,
                      f: Fl.PatternFiller?)
    returns (v: S.Verdict, ghost b: Buf)
    requires p.Valid() && IsRequest(p.View().fs, p.mac.Some?) && |p.View().fs[F_SEQNO]| == 4
    requires Fits(trcvd) && Fits(clock) && s.CanStamp()
    requires f != null ==> f.Valid() && f.buf != p.fb.mem
    modifies p.fb, p.fb.mem, sc, f
    ensures v == S.Judge(sc.lim, old(sc.View()), EchoOf(old(p.View()), now, later))
    ensures sc.View() == S.Admit(sc.lim, old(sc.View()), EchoOf(old(p.View()), now, later))
    ensures v.Answered? ==>
              && p.Valid() && WellFormed(b, CAPS) && IsSendable(b, p.mac) && p.View() == Sealed(b, p.mac)
              && b.fs == ReplyFields(old(p.View()).fs, s, v.closed, sc.View().win, ServerStamp(s, trcvd, clock))
              && b.blen == Min(Max(s.length, b.HeaderLen()), |old(p.View()).Memory()|)
  {
    v := Admit(p, sc, now, later);
    if v.Answered? {
      var win := W.State(sc.lastSeqno, sc.receivedWindow, sc.rwinValid, sc.receivedCount);
      b := Reply(p, s, v.closed, win, ServerStamp(s, trcvd, clock), f);
    } else {
      b := p.View();
    }
  }
}
