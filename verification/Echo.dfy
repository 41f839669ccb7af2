/** An echo exchange on the wire: the request, the server's reply in the same buffer, and the client's
    reading of it. */
module Echo {
  import opened Arith
  import opened BitOps
  import opened Layout
  import opened Octets
  import opened Packet
  import opened Times
  import W = Window

  /** The settings both sides agreed on. */
  datatype Settings = Settings(length: int, stats: nat, at: nat, clock: nat) {
    predicate Valid() { stats <= 3 && at <= 4 && 1 <= clock <= 3 }

    /** The server can stamp its replies: there is a clock to do it with, or nothing to stamp. */
    predicate CanStamp() { at <= 4 && (at == 0 || 1 <= clock <= 3) }
  }

  function RequestWanted(sealed: bool): set<int>
  {
    InitWanted(sealed) + {F_CONN_TOKEN, F_SEQNO}
  }

  function StatsList(stats: nat): seq<int>
  {
    (if HasBit(stats, STATS_COUNT) then [F_RCOUNT] else []) + (if HasBit(stats, STATS_WINDOW) then [F_RWINDOW] else [])
  }

  function ClockList(wf: int, mf: int, clock: nat): seq<int>
  {
    (if HasBit(clock, WALL) then [wf] else []) + (if HasBit(clock, MONOTONIC) then [mf] else [])
  }

  function StampList(at: nat, clock: nat): seq<int>
  {
    (if HasBit(at, AT_RECEIVE) then ClockList(F_RWALL, F_RMONO, clock) else [])
    + (if HasBit(at, AT_MIDPOINT) then ClockList(F_MWALL, F_MMONO, clock) else [])
    + (if HasBit(at, AT_SEND) then ClockList(F_SWALL, F_SMONO, clock) else [])
  }

  function StatsShown(stats: nat): set<int>
  {
    (if HasBit(stats, STATS_COUNT) then {F_RCOUNT} else {}) + (if HasBit(stats, STATS_WINDOW) then {F_RWINDOW} else {})
  }

  function ClocksShown(wf: int, mf: int, clock: nat): set<int>
  {
    (if HasBit(clock, WALL) then {wf} else {}) + (if HasBit(clock, MONOTONIC) then {mf} else {})
  }

  function StampExpected(at: nat, clock: nat): set<int>
  {
    if at == MIDPOINT then ClocksShown(F_MWALL, F_MMONO, clock)
    else
      (if HasBit(at, AT_RECEIVE) then ClocksShown(F_RWALL, F_RMONO, clock) else {})
      + (if HasBit(at, AT_SEND) then ClocksShown(F_SWALL, F_SMONO, clock) else {})
  }

  function BaseShown(sealed: bool, stats: nat): (r: set<int>)
    ensures forall x :: x in r ==> 0 <= x < F_RWALL
  {
    RequestWanted(sealed) + StatsShown(stats)
  }

  /** The fields the client looks for in a reply. */
  function Expected(sealed: bool, s: Settings): set<int>
  {
    BaseShown(sealed, s.stats) + StampExpected(s.at, s.clock)
  }

  // What the server puts in its reply.

  function PutStats(fs: seq<seq<byte>>, stats: nat, win: W.State): (r: seq<seq<byte>>)
    requires |fs| == FCOUNT
    ensures |r| == |fs|
  {
    var fs1 := if HasBit(stats, STATS_COUNT) then fs[F_RCOUNT := PutLE(win.count, 4)] else fs;
    if HasBit(stats, STATS_WINDOW) then fs1[F_RWINDOW := PutLE(SentWindow(win), 8)] else fs1
  }

  function SentWindow(win: W.State): nat { if win.valid then W.Value(win.bits, 0) else 0 }

  function ReplyFlags(fl: byte, closed: bool): byte
  {
    var fl1 := SetBit(fl, FL_REPLY);
    if closed then SetBit(fl1, FL_CLOSE) else fl1
  }

  function ReplyFields(fs: seq<seq<byte>>, s: Settings, closed: bool, win: W.State, ts: Timestamp): (r: seq<seq<byte>>)
    requires |fs| == FCOUNT && |fs[F_FLAGS]| == 1 && Fits(ts.receive) && Fits(ts.send)
    ensures |r| == FCOUNT
  {
    PutStamp(PutStats(fs[F_FLAGS := [ReplyFlags(fs[F_FLAGS][0], closed)]], s.stats, win), s.at, ts)
  }

  function KeepClocks(t: Time, clock: nat): Time
    requires 1 <= clock <= 3
  {
    Time(if HasBit(clock, WALL) then t.wall else 0, if HasBit(clock, MONOTONIC) then t.mono else 0)
  }

  // Which fields are there.

  ghost predicate Shows(fs: seq<seq<byte>>, wanted: set<int>)
  {
    Lens(fs) == LensFor(wanted)
  }

  lemma SetExactly(fs: seq<seq<byte>>, wanted: set<int>, f: nat)
    requires Shows(fs, wanted) && f < FCOUNT
    ensures |fs[f]| == if f in wanted then CAPS[f] else 0
    ensures fs[f] != [] <==> f in wanted
  {
    assert Lens(fs)[f] == LensFor(wanted)[f];
    CapPositive(f);
  }

  lemma PutShows(fs: seq<seq<byte>>, wanted: set<int>, f: nat, x: seq<byte>)
    requires Shows(fs, wanted) && f < FCOUNT && |x| == CAPS[f]
    ensures Shows(fs[f := x], wanted + {f})
  {
    var l, r := Lens(fs[f := x]), LensFor(wanted + {f});
    forall i | 0 <= i < FCOUNT
      ensures l[i] == r[i]
    {
      assert Lens(fs)[i] == LensFor(wanted)[i];
    }
  }

  function TimeShown(t: Time, wf: int, mf: int): set<int>
  {
    (if t.wall != 0 then {wf} else {}) + (if t.mono != 0 then {mf} else {})
  }

  lemma PutTimeShows(fs: seq<seq<byte>>, wanted: set<int>, t: Time, wf: nat, mf: nat)
    requires Shows(fs, wanted) && Fits(t) && F_RWALL <= wf < FCOUNT && F_RWALL <= mf < FCOUNT
    ensures Shows(PutTime(fs, t, wf, mf), wanted + TimeShown(t, wf, mf))
  {
    TimeCap(wf);
    TimeCap(mf);
    var wanted1 := if t.wall != 0 then wanted + {wf} else wanted;
    if t.wall != 0 {
      PutShows(fs, wanted, wf, PutInt64(t.wall));
    }
    if t.mono != 0 {
      PutShows(PutClock(fs, t.wall, wf), wanted1, mf, PutInt64(t.mono));
    }
    assert wanted + TimeShown(t, wf, mf) == if t.mono != 0 then wanted1 + {mf} else wanted1;
  }

  /** The stamp fields a server sets: those of the clocks that are not zero, whichever were asked for. */
  function StampShown(at: nat, ts: Timestamp): set<int>
  {
    if at == MIDPOINT then TimeShown(ts.receive, F_MWALL, F_MMONO)
    else
      (if HasBit(at, AT_RECEIVE) then TimeShown(ts.receive, F_RWALL, F_RMONO) else {})
      + (if HasBit(at, AT_SEND) then TimeShown(ts.send, F_SWALL, F_SMONO) else {})
  }

  lemma PutStampShows(fs: seq<seq<byte>>, wanted: set<int>, at: nat, ts: Timestamp)
    requires Shows(fs, wanted) && Fits(ts.receive) && Fits(ts.send)
    ensures Shows(PutStamp(fs, at, ts), wanted + StampShown(at, ts))
  {
    if at == MIDPOINT {
      PutTimeShows(fs, wanted, ts.receive, F_MWALL, F_MMONO);
    } else {
      var fs1, wanted1 := fs, wanted;
      if HasBit(at, AT_RECEIVE) {
        PutTimeShows(fs, wanted, ts.receive, F_RWALL, F_RMONO);
        fs1, wanted1 := PutTime(fs, ts.receive, F_RWALL, F_RMONO), wanted + TimeShown(ts.receive, F_RWALL, F_RMONO);
      }
      if HasBit(at, AT_SEND) {
        PutTimeShows(fs1, wanted1, ts.send, F_SWALL, F_SMONO);
        assert wanted + StampShown(at, ts) == wanted1 + TimeShown(ts.send, F_SWALL, F_SMONO);
      } else {
        assert wanted + StampShown(at, ts) == wanted1;
      }
    }
  }

  lemma PutStatsShows(fs: seq<seq<byte>>, wanted: set<int>, stats: nat, win: W.State)
    requires Shows(fs, wanted)
    ensures Shows(PutStats(fs, stats, win), wanted + StatsShown(stats))
  {
    var fs1, wanted1 := fs, wanted;
    if HasBit(stats, STATS_COUNT) {
      PutShows(fs, wanted, F_RCOUNT, PutLE(win.count, 4));
      fs1, wanted1 := fs[F_RCOUNT := PutLE(win.count, 4)], wanted + {F_RCOUNT};
    }
    if HasBit(stats, STATS_WINDOW) {
      PutShows(fs1, wanted1, F_RWINDOW, PutLE(SentWindow(win), 8));
    }
    assert wanted + StatsShown(stats) == if HasBit(stats, STATS_WINDOW) then wanted1 + {F_RWINDOW} else wanted1;
  }

  function ReplyShown(sealed: bool, s: Settings, ts: Timestamp): set<int>
  {
    RequestWanted(sealed) + StatsShown(s.stats) + StampShown(s.at, ts)
  }

  lemma ReplyShows(fs: seq<seq<byte>>, sealed: bool, s: Settings, closed: bool, win: W.State, ts: Timestamp)
    requires Shows(fs, RequestWanted(sealed)) && |fs[F_FLAGS]| == 1 && Fits(ts.receive) && Fits(ts.send)
    ensures Shows(ReplyFields(fs, s, closed, win, ts), ReplyShown(sealed, s, ts))
  {
    var wanted, x := RequestWanted(sealed), [ReplyFlags(fs[F_FLAGS][0], closed)];
    PutShows(fs, wanted, F_FLAGS, x);
    assert wanted + {F_FLAGS} == wanted;
    PutStatsShows(fs[F_FLAGS := x], wanted, s.stats, win);
    PutStampShows(PutStats(fs[F_FLAGS := x], s.stats, win), wanted + StatsShown(s.stats), s.at, ts);
  }

  /** A time has exactly the clocks asked for. */
  predicate HasClocks(t: Time, clock: nat)
  {
    (t.wall != 0) == HasBit(clock, WALL) && (t.mono != 0) == HasBit(clock, MONOTONIC)
  }

  /** The stamps the server sets are those the client looks for. */
  predicate IsComplete(s: Settings, ts: Timestamp)
  {
    if s.at == MIDPOINT then HasClocks(ts.receive, s.clock)
    else
      && (HasBit(s.at, AT_RECEIVE) ==> HasClocks(ts.receive, s.clock))
      && (HasBit(s.at, AT_SEND) ==> HasClocks(ts.send, s.clock))
  }

  lemma AtBits(at: nat)
    requires at <= 4
    ensures HasBit(at, AT_SEND) == (at == 1 || at == 3)
    ensures HasBit(at, AT_RECEIVE) == (at == 2 || at == 3)
    ensures HasBit(at, AT_MIDPOINT) == (at == 4)
  {
    assert HasBit(at, 1) == HasBit(at / 2, 0);
    assert HasBit(at, 2) == HasBit(at / 2, 1);
    assert HasBit(at / 2, 1) == HasBit(at / 4, 0);
  }

  lemma JoinPicks(a: seq<int>, b: seq<int>)
    ensures (set f | f in a + b) == (set f | f in a) + (set f | f in b)
  {
  }

  lemma ClockPicks(wf: int, mf: int, clock: nat)
    ensures (set f | f in ClockList(wf, mf, clock)) == ClocksShown(wf, mf, clock)
  {
  }

  lemma StampPicks(at: nat, clock: nat)
    requires at <= 4
    ensures (set f | f in StampList(at, clock)) == StampExpected(at, clock)
  {
    var a := if HasBit(at, AT_RECEIVE) then ClockList(F_RWALL, F_RMONO, clock) else [];
    var b := if HasBit(at, AT_MIDPOINT) then ClockList(F_MWALL, F_MMONO, clock) else [];
    var c := if HasBit(at, AT_SEND) then ClockList(F_SWALL, F_SMONO, clock) else [];
    AtBits(at);
    ClockPicks(F_RWALL, F_RMONO, clock);
    ClockPicks(F_MWALL, F_MMONO, clock);
    ClockPicks(F_SWALL, F_SMONO, clock);
    JoinPicks(a, b);
    JoinPicks(a + b, c);
  }

  /** The lists of fields the client adds to a reply are those expected. */
  lemma ListsPick(sealed: bool, s: Settings)
    requires s.Valid()
    ensures RequestWanted(sealed) + (set f | f in StatsList(s.stats)) + (set f | f in StampList(s.at, s.clock))
         == Expected(sealed, s)
  {
    assert (set f | f in StatsList(s.stats)) == StatsShown(s.stats);
    StampPicks(s.at, s.clock);
  }

  lemma ClocksShownIff(t: Time, wf: int, mf: int, clock: nat)
    requires wf != mf
    ensures TimeShown(t, wf, mf) == ClocksShown(wf, mf, clock) <==> HasClocks(t, clock)
  {
    assert wf in TimeShown(t, wf, mf) <==> t.wall != 0;
    assert mf in TimeShown(t, wf, mf) <==> t.mono != 0;
    assert wf in ClocksShown(wf, mf, clock) <==> HasBit(clock, WALL);
    assert mf in ClocksShown(wf, mf, clock) <==> HasBit(clock, MONOTONIC);
  }

  /** Two unions of parts from different ranges are equal exactly if the parts are. */
  lemma UnionIff(a: set<int>, b: set<int>, c: set<int>, d: set<int>, k: int)
    requires forall x :: x in a || x in c ==> x < k
    requires forall x :: x in b || x in d ==> x >= k
    ensures a + b == c + d <==> a == c && b == d
  {
    if a + b == c + d {
      assert forall x :: x in a <==> x in a + b && x < k;
      assert forall x :: x in c <==> x in c + d && x < k;
      assert forall x :: x in b <==> x in a + b && x >= k;
      assert forall x :: x in d <==> x in c + d && x >= k;
    }
  }

  lemma StampsIff(s: Settings, ts: Timestamp)
    requires s.Valid()
    ensures StampShown(s.at, ts) == StampExpected(s.at, s.clock) <==> IsComplete(s, ts)
  {
    var c := s.clock;
    AtBits(s.at);
    ClocksShownIff(ts.receive, F_MWALL, F_MMONO, c);
    ClocksShownIff(ts.receive, F_RWALL, F_RMONO, c);
    ClocksShownIff(ts.send, F_SWALL, F_SMONO, c);
    if s.at == 3 {
      UnionIff(TimeShown(ts.receive, F_RWALL, F_RMONO), TimeShown(ts.send, F_SWALL, F_SMONO),
               ClocksShown(F_RWALL, F_RMONO, c), ClocksShown(F_SWALL, F_SMONO, c), F_MWALL);
    }
  }

  lemma StampRange(s: Settings, ts: Timestamp)
    ensures forall x :: x in StampShown(s.at, ts) || x in StampExpected(s.at, s.clock) ==> x >= F_RWALL
  {
  }

  /** The reply has the fields the client expects exactly if its stamps are complete. */
  lemma ShownIsExpected(sealed: bool, s: Settings, ts: Timestamp)
    requires s.Valid()
    ensures ReplyShown(sealed, s, ts) == Expected(sealed, s) <==> IsComplete(s, ts)
  {
    StampsIff(s, ts);
    StampRange(s, ts);
    var base := BaseShown(sealed, s.stats);
    UnionIff(base, StampShown(s.at, ts), base, StampExpected(s.at, s.clock), F_RWALL);
  }

  // What the client makes of it.

  datatype Failure =
    | Unreadable(error: Error)
    | ExpectedReplyFlag | ServerClosed | UnexpectedOpenFlag | ShortReply | StampAtMismatch | ClockMismatch

  datatype Decoded = Decoded(token: nat, seqno: nat, count: Option<nat>, window: Option<nat>, stamp: Timestamp,
                             length: nat)

  function StampAtOf(b: Buf): nat
    requires |b.fs| == FCOUNT
  {
    if HasMidpointStamp(b) then MIDPOINT
    else (if HasReceiveStamp(b) then 2 else 0) + (if HasSendStamp(b) then 1 else 0)
  }

  function ClockOf(b: Buf): nat
    requires |b.fs| == FCOUNT
  {
    (if b.IsSet(F_RWALL) || b.IsSet(F_SWALL) || b.IsSet(F_MWALL) then 1 else 0)
    + (if b.IsSet(F_RMONO) || b.IsSet(F_SMONO) || b.IsSet(F_MMONO) then 2 else 0)
  }

  function Gate(fl: byte, n: nat, s: Settings): Option<Failure>
  {
    if !HasBit(fl, FL_REPLY) then Some(ExpectedReplyFlag)
    else if HasBit(fl, FL_CLOSE) then Some(ServerClosed)
    else if HasBit(fl, FL_OPEN) then Some(UnexpectedOpenFlag)
    else if n < s.length then Some(ShortReply)
    else None
  }

  function StampFailure(b: Buf, s: Settings): Option<Failure>
    requires |b.fs| == FCOUNT
  {
    if StampAtOf(b) != s.at then Some(StampAtMismatch)
    else if s.at != 0 && ClockOf(b) != s.clock then Some(ClockMismatch)
    else None
  }

  function Number(b: Buf, f: nat): Option<nat>
    requires f < |b.fs|
  {
    if b.IsSet(f) then Some(GetLE(b.fs[f])) else None
  }

  function Values(b: Buf): Decoded
    requires IsSized(b.fs)
  {
    Decoded(GetLE(b.fs[F_CONN_TOKEN]), GetLE(b.fs[F_SEQNO]), Number(b, F_RCOUNT), Number(b, F_RWINDOW),
            GetStamp(b.fs), b.blen)
  }

  ghost function DecodeRest(m: seq<byte>, fl: byte, n: nat, sealed: bool, s: Settings): Result<Decoded, Failure>
    requires MAX_HEADER_LEN <= |m| && n <= |m|
  {
    var shut := Gate(fl, n, s);
    if shut.Some? then Err(shut.value)
    else
      var b := FramedAs(m, n, Expected(sealed, s));
      var bad := StampFailure(b, s);
      if bad.Some? then Err(bad.value) else Ok(Values(b))
  }

  /** A reply of n bytes in memory m, as the client takes it: the fields it expects are simply taken to
      be there. */
  ghost function Decode(m: seq<byte>, n: nat, mac: Option<Mac>, s: Settings): Result<Decoded, Failure>
    requires MAX_HEADER_LEN <= |m| && n <= |m|
  {
    var err := ReadError(m, n, mac);
    if err.Some? then Err(Unreadable(err.value))
    else
      var h := AfterRead(m, n, mac);
      DecodeRest(h.Memory(), FlagsOf(h), n, mac.Some?, s)
  }

  lemma ExpectedAbove(sealed: bool, s: Settings, f: int)
    requires s.Valid() && F_RWALL <= f
    ensures f in Expected(sealed, s) <==> f in StampExpected(s.at, s.clock)
  {
  }

  lemma ExpectedBelow(sealed: bool, s: Settings, f: int)
    requires s.Valid() && f < F_RCOUNT
    ensures f in Expected(sealed, s) <==> f in RequestWanted(sealed)
  {
  }

  lemma StampsAsSet(b: Buf, s: Settings)
    requires |b.fs| == FCOUNT && s.Valid()
    requires forall f :: F_RWALL <= f < FCOUNT ==> (b.IsSet(f) <==> f in StampExpected(s.at, s.clock))
    ensures StampFailure(b, s) == None
  {
    AtBits(s.at);
    assert HasBit(s.clock, WALL) == (s.clock != 2);
    assert HasBit(s.clock, MONOTONIC) == HasBit(s.clock / 2, 0);
  }

  /** The client's checks on time stamps look only at fields it has framed itself, and so never fail. */
  lemma StampChecksNeverFail(m: seq<byte>, n: nat, sealed: bool, s: Settings)
    requires MAX_HEADER_LEN <= |m| && n <= |m| && s.Valid()
    ensures StampFailure(FramedAs(m, n, Expected(sealed, s)), s) == None
  {
    var b := FramedAs(m, n, Expected(sealed, s));
    forall f | F_RWALL <= f < FCOUNT
      ensures b.IsSet(f) <==> f in StampExpected(s.at, s.clock)
    {
      TimeCap(f);
      ExpectedAbove(sealed, s, f);
    }
    StampsAsSet(b, s);
  }

  lemma LensShape(fs: seq<seq<byte>>, wanted: set<int>)
    requires Shows(fs, wanted)
    ensures IsSized(fs)
    ensures forall i {:trigger fs[i]} :: 0 <= i < FCOUNT ==> |fs[i]| == if i in wanted then CAPS[i] else 0
  {
    forall i | 0 <= i < FCOUNT
      ensures |fs[i]| == if i in wanted then CAPS[i] else 0
    {
      assert Lens(fs)[i] == LensFor(wanted)[i];
    }
  }

  /** Framed by the fields it has, a packet's memory gives those very fields. */
  lemma FramedReads(b: Buf, m: seq<byte>, wanted: set<int>)
    requires WellFormed(b, CAPS) && Shows(b.fs, wanted)
    requires b.blen <= |m| && MAX_HEADER_LEN <= |m| && m[..b.blen] == b.Wire()
    ensures FramedAs(m, b.blen, wanted).fs == b.fs
  {
    var rest := b.Payload() + m[b.blen..];
    WireIsFieldsThenPayload(b, CAPS);
    assert m == m[..b.blen] + m[b.blen..];
    assert m == Flat(b.fs, |b.fs|) + rest;
    CutFlat(b.fs, rest);
  }

  lemma MarkedShows(b: Buf, mac: Option<Mac>, wanted: set<int>)
    requires IsSendable(b, mac) && Shows(b.fs, wanted)
    ensures Shows(Marked(b, mac).fs, wanted)
  {
    assert Lens(Marked(b, mac).fs) == Lens(b.fs);
  }

  /** Reading back what was sent: framed by the fields it has, a packet received gives those very fields. */
  lemma ReadsBack(b: Buf, mac: Option<Mac>, m: seq<byte>, wanted: set<int>)
    requires IsSendable(b, mac) && Shows(b.fs, wanted)
    requires b.blen <= |m| && MAX_HEADER_LEN <= |m| && m[..b.blen] == Sealed(b, mac).Wire()
    ensures ReadError(m, b.blen, mac) == None
    ensures FramedAs(AfterRead(m, b.blen, mac).Memory(), b.blen, wanted).fs == Marked(b, mac).fs
  {
    SealedPasses(b, mac, m);
    MarkedShows(b, mac, wanted);
    FramedReads(Marked(b, mac), AfterRead(m, b.blen, mac).Memory(), wanted);
  }

  // The values read are the values put.

  /** The stamps a client learns: those asked for, or the midpoint twice. */
  function Delivered(at: nat, ts: Timestamp): Timestamp
  {
    if at == MIDPOINT then Timestamp(ts.receive, ts.receive)
    else
      Timestamp(if HasBit(at, AT_RECEIVE) then ts.receive else NO_TIME,
                if HasBit(at, AT_SEND) then ts.send else NO_TIME)
  }

  lemma ClockReads(fs: seq<seq<byte>>, v: int64, f: nat)
    requires IsSized(fs) && F_RWALL <= f < FCOUNT && fs[f] == []
    ensures var r := PutClock(fs, v, f);
            && IsSized(r) && (if r[f] != [] then GetInt64(r[f]) else 0) == v
            && forall i {:trigger r[i]} :: 0 <= i < FCOUNT && i != f ==> r[i] == fs[i]
  {
    TimeCap(f);
    Int64RoundTrip(v);
  }

  lemma TimeReads(fs: seq<seq<byte>>, t: Time, wf: nat, mf: nat)
    requires IsSized(fs) && Fits(t) && F_RWALL <= wf < FCOUNT && F_RWALL <= mf < FCOUNT && wf != mf
    requires fs[wf] == [] && fs[mf] == []
    ensures var r := PutTime(fs, t, wf, mf);
            && IsSized(r) && GetTime(r, NO_TIME, wf, mf) == t
            && forall f {:trigger r[f]} :: 0 <= f < FCOUNT && f != wf && f != mf ==> r[f] == fs[f]
  {
    ClockReads(fs, t.wall, wf);
    ClockReads(PutClock(fs, t.wall, wf), t.mono, mf);
  }

  lemma StampReads(fs: seq<seq<byte>>, at: nat, ts: Timestamp)
    requires IsSized(fs) && Fits(ts.receive) && Fits(ts.send)
    requires forall f :: F_RWALL <= f < FCOUNT ==> fs[f] == []
    ensures var r := PutStamp(fs, at, ts);
            && IsSized(r) && GetStamp(r) == Delivered(at, ts)
            && forall f {:trigger r[f]} :: 0 <= f < F_RWALL ==> r[f] == fs[f]
  {
    if at == MIDPOINT {
      TimeReads(fs, ts.receive, F_MWALL, F_MMONO);
    } else {
      var fs1 := fs;
      if HasBit(at, AT_RECEIVE) {
        TimeReads(fs, ts.receive, F_RWALL, F_RMONO);
        fs1 := PutTime(fs, ts.receive, F_RWALL, F_RMONO);
      }
      if HasBit(at, AT_SEND) {
        TimeReads(fs1, ts.send, F_SWALL, F_SMONO);
      }
    }
  }

  lemma StatsNumbers(win: W.State)
    ensures GetLE(PutLE(win.count, 4)) == win.count && GetLE(PutLE(SentWindow(win), 8)) == SentWindow(win)
  {
    Pow256Values();
    GetPutLE(win.count, 4);
    SentWindowFits(win);
    GetPutLE(SentWindow(win), 8);
  }

  lemma StatsRead(fs: seq<seq<byte>>, stats: nat, win: W.State)
    requires IsSized(fs) && fs[F_RCOUNT] == [] && fs[F_RWINDOW] == []
    ensures var r := PutStats(fs, stats, win);
            && IsSized(r)
            && r[F_RCOUNT] == (if HasBit(stats, STATS_COUNT) then PutLE(win.count, 4) else [])
            && r[F_RWINDOW] == (if HasBit(stats, STATS_WINDOW) then PutLE(SentWindow(win), 8) else [])
            && GetLE(PutLE(win.count, 4)) == win.count && GetLE(PutLE(SentWindow(win), 8)) == SentWindow(win)
            && forall f {:trigger r[f]} :: 0 <= f < FCOUNT && f != F_RCOUNT && f != F_RWINDOW ==> r[f] == fs[f]
  {
    StatsNumbers(win);
  }

  lemma {:induction false} Pow256IsPow2(k: nat)
    ensures Pow256(k) == Pow2(8 * k)
  {
    if k > 0 {
      Pow256IsPow2(k - 1);
      EightMore(8 * k - 8);
    }
  }

  lemma EightMore(n: nat)
    ensures Pow2(n + 8) == 256 * Pow2(n)
  {
    assert Pow2(n + 2) == 4 * Pow2(n);
    assert Pow2(n + 4) == 4 * Pow2(n + 2);
    assert Pow2(n + 6) == 4 * Pow2(n + 4);
  }

  lemma SentWindowFits(win: W.State)
    ensures SentWindow(win) < Pow256(8)
  {
    Pow256IsPow2(8);
    W.ValueBound(win.bits, 0);
    assert Pow2(64) > 0;
  }

  /** A request as the server has read it: the fields of a request, and no flag that turns it away. */
  ghost predicate IsRequest(fs: seq<seq<byte>>, sealed: bool)
  {
    && Shows(fs, RequestWanted(sealed))
    && fs[F_MAGIC] == MAGIC
    && |fs[F_FLAGS]| == 1 && fs[F_FLAGS][0] <= FL_ALL
    && HasBit(fs[F_FLAGS][0], FL_HMAC) == sealed
    && !HasBit(fs[F_FLAGS][0], FL_OPEN) && !HasBit(fs[F_FLAGS][0], FL_CLOSE)
  }

  /** What the server means to tell the client. */
  function Told(fs: seq<seq<byte>>, s: Settings, win: W.State, ts: Timestamp, length: nat): Decoded
    requires |fs| == FCOUNT
  {
    Decoded(GetLE(fs[F_CONN_TOKEN]), GetLE(fs[F_SEQNO]),
            if HasBit(s.stats, STATS_COUNT) then Some(win.count) else None,
            if HasBit(s.stats, STATS_WINDOW) then Some(SentWindow(win)) else None,
            Delivered(s.at, ts), length)
  }

  lemma RequestSized(fs: seq<seq<byte>>, sealed: bool)
    requires Shows(fs, RequestWanted(sealed))
    ensures IsSized(fs) && forall f {:trigger fs[f]} :: F_RCOUNT <= f < FCOUNT ==> fs[f] == []
  {
    LensShape(fs, RequestWanted(sealed));
  }

  lemma ReplyReads(fs: seq<seq<byte>>, sealed: bool, s: Settings, closed: bool, win: W.State, ts: Timestamp)
    requires IsRequest(fs, sealed) && Fits(ts.receive) && Fits(ts.send)
    ensures var r := ReplyFields(fs, s, closed, win, ts);
            && IsSized(r) && GetStamp(r) == Delivered(s.at, ts)
            && r[F_MAGIC] == MAGIC && r[F_FLAGS] == [ReplyFlags(fs[F_FLAGS][0], closed)]
            && r[F_HMAC] == fs[F_HMAC] && r[F_CONN_TOKEN] == fs[F_CONN_TOKEN] && r[F_SEQNO] == fs[F_SEQNO]
            && r[F_RCOUNT] == (if HasBit(s.stats, STATS_COUNT) then PutLE(win.count, 4) else [])
            && r[F_RWINDOW] == (if HasBit(s.stats, STATS_WINDOW) then PutLE(SentWindow(win), 8) else [])
  {
    RequestSized(fs, sealed);
    var fs1 := fs[F_FLAGS := [ReplyFlags(fs[F_FLAGS][0], closed)]];
    StatsRead(fs1, s.stats, win);
    var fs2 := PutStats(fs1, s.stats, win);
    forall f | F_RWALL <= f < FCOUNT
      ensures fs2[f] == []
    {
      assert fs2[f] == fs1[f] == fs[f];
    }
    StampReads(fs2, s.at, ts);
  }

  lemma FlagsRead(b: Buf, mac: Option<Mac>, m: seq<byte>)
    requires IsSendable(b, mac) && b.blen <= |m| && MAX_HEADER_LEN <= |m|
    requires m[..b.blen] == Sealed(b, mac).Wire()
    ensures ReadError(m, b.blen, mac) == None
    ensures var fl := FlagsOf(AfterRead(m, b.blen, mac));
            forall j: nat :: j != FL_HMAC ==> HasBit(fl, j) == HasBit(FlagsOf(b), j)
  {
    SealedPasses(b, mac, m);
    SealedSendable(b, mac);
    WireStart(Sealed(b, mac), mac);
    HeaderFields(m, b.blen, mac.Some?);
    assert m[3] == m[..b.blen][3];
  }

  lemma ReplySendable(fs: seq<seq<byte>>, b: Buf, mac: Option<Mac>, s: Settings, closed: bool, win: W.State,
                      ts: Timestamp)
    requires IsRequest(fs, mac.Some?) && Fits(ts.receive) && Fits(ts.send)
    requires WellFormed(b, CAPS) && b.fs == ReplyFields(fs, s, closed, win, ts)
    ensures IsSendable(b, mac)
    ensures HasBit(FlagsOf(b), FL_REPLY) && HasBit(FlagsOf(b), FL_CLOSE) == closed && !HasBit(FlagsOf(b), FL_OPEN)
  {
    ReplyReads(fs, mac.Some?, s, closed, win, ts);
    LensShape(fs, RequestWanted(mac.Some?));
  }

  lemma ValuesSame(b: Buf, k: Buf)
    requires IsSized(b.fs) && IsSized(k.fs) && b.blen == k.blen
    requires forall f {:trigger k.fs[f]} :: F_CONN_TOKEN <= f < FCOUNT ==> k.fs[f] == b.fs[f]
    ensures Values(k) == Values(b)
  {
  }

  lemma MarkedValues(b: Buf, mac: Option<Mac>)
    requires IsSendable(b, mac) && IsSized(b.fs)
    ensures IsSized(Marked(b, mac).fs) && Values(Marked(b, mac)) == Values(b)
  {
    ValuesSame(b, Marked(b, mac));
  }

  lemma ReplyValues(fs: seq<seq<byte>>, b: Buf, sealed: bool, s: Settings, win: W.State, ts: Timestamp)
    requires IsRequest(fs, sealed) && Fits(ts.receive) && Fits(ts.send)
    requires b.fs == ReplyFields(fs, s, false, win, ts)
    ensures IsSized(b.fs) && Values(b) == Told(fs, s, win, ts, b.blen)
  {
    ReplyReads(fs, sealed, s, false, win, ts);
    StatsNumbers(win);
  }

  /** The frame the client puts on a complete reply passes its checks and shows what the server told. */
  lemma ReplyFramed(fs: seq<seq<byte>>, b: Buf, mac: Option<Mac>, s: Settings, closed: bool, win: W.State,
                    ts: Timestamp, m: seq<byte>)
    requires s.Valid() && IsRequest(fs, mac.Some?) && Fits(ts.receive) && Fits(ts.send) && IsComplete(s, ts)
    requires WellFormed(b, CAPS) && b.fs == ReplyFields(fs, s, closed, win, ts)
    requires b.blen <= |m| && MAX_HEADER_LEN <= |m|
    requires IsSendable(b, mac) && m[..b.blen] == Sealed(b, mac).Wire()
    ensures ReadError(m, b.blen, mac) == None
    ensures var d := FramedAs(AfterRead(m, b.blen, mac).Memory(), b.blen, Expected(mac.Some?, s));
            && StampFailure(d, s) == None && IsSized(d.fs)
            && (!closed ==> Values(d) == Told(fs, s, win, ts, b.blen))
  {
    ReplyShows(fs, mac.Some?, s, closed, win, ts);
    ShownIsExpected(mac.Some?, s, ts);
    ReadsBack(b, mac, m, Expected(mac.Some?, s));
    StampChecksNeverFail(AfterRead(m, b.blen, mac).Memory(), b.blen, mac.Some?, s);
    if !closed {
      ReplyValues(fs, b, mac.Some?, s, win, ts);
      MarkedValues(b, mac);
    }
  }

  /** The echo round trip. Whatever request the server accepted and however long its buffer, the client reads
      back the request's token and seqno and exactly the server's count, window and time stamps, provided
      the server's clocks are those asked for, unless the reply is shorter than it asked for. */
  lemma EchoRoundTrip(fs: seq<seq<byte>>, b: Buf, mac: Option<Mac>, s: Settings, closed: bool, win: W.State,
                      ts: Timestamp, m: seq<byte>)
    requires s.Valid() && IsRequest(fs, mac.Some?) && Fits(ts.receive) && Fits(ts.send) && IsComplete(s, ts)
    requires WellFormed(b, CAPS) && b.fs == ReplyFields(fs, s, closed, win, ts)
    requires b.blen <= |m| && MAX_HEADER_LEN <= |m|
    requires IsSendable(b, mac) && m[..b.blen] == Sealed(b, mac).Wire()
    ensures Decode(m, b.blen, mac, s)
         == if closed then Err(ServerClosed)
            else if b.blen < s.length then Err(ShortReply)
            else Ok(Told(fs, s, win, ts, b.blen))
  {
    ReplySendable(fs, b, mac, s, closed, win, ts);
    FlagsRead(b, mac, m);
    ReplyFramed(fs, b, mac, s, closed, win, ts, m);
  }

  // Adding fields to a frame.

  ghost predicate IsFieldList(list: seq<int>)
  {
    && (forall i :: 0 <= i < |list| ==> 0 <= list[i] < FCOUNT)
    && (forall i, j :: 0 <= i < j < |list| ==> list[i] < list[j])
  }

  lemma AddWanted(m: seq<byte>, n: nat, wanted: set<int>, list: seq<int>)
    requires MAX_HEADER_LEN <= |m| && n <= |m| && IsFieldList(list)
    ensures var b, wanted' := FramedAs(m, n, wanted), wanted + set f | f in list;
            && NewLens(CAPS, Lens(b.fs), Picked(list, FCOUNT, 0), true) == LensFor(wanted')
            && Total(LensFor(wanted')) <= |b.Memory()| && Reframe(b, LensFor(wanted')) == FramedAs(m, n, wanted')
  {
    PickedAll(list, FCOUNT, 0);
    var b, wanted' := FramedAs(m, n, wanted), wanted + set f | f in list;
    var l, r := NewLens(CAPS, Lens(b.fs), Picked(list, FCOUNT, 0), true), LensFor(wanted');
    forall i | 0 <= i < FCOUNT
      ensures l[i] == r[i]
    {
      assert |b.fs[i]| == if i in wanted then CAPS[i] else 0;
    }
  }

  /** A field is read from the same bytes as long as the fields wanted up to it are the same. */
  lemma FrameAgrees(m: seq<byte>, n: nat, w1: set<int>, w2: set<int>, k: nat)
    requires MAX_HEADER_LEN <= |m| && n <= |m| && k < FCOUNT
    requires forall i :: 0 <= i <= k ==> (i in w1 <==> i in w2)
    ensures FramedAs(m, n, w1).fs[k] == FramedAs(m, n, w2).fs[k]
  {
    var l1, l2 := LensFor(w1), LensFor(w2);
    OffAgrees(l1, l2, k);
    assert FramedAs(m, n, w1).fs[k] == FieldAt(m, l1, k);
    assert FramedAs(m, n, w2).fs[k] == FieldAt(m, l2, k);
  }

  /** What validation leaves is the memory it leaves, framed by the first fields. */
  lemma AfterReadFramed(m: seq<byte>, n: nat, mac: Option<Mac>)
    requires MAX_HEADER_LEN <= |m| && n <= |m| && ReadError(m, n, mac) == None
    ensures var h := AfterRead(m, n, mac); h == FramedAs(h.Memory(), n, InitWanted(mac.Some?))
  {
    var h := AfterRead(m, n, mac);
    assert Lens(h.fs) == LensFor(InitWanted(mac.Some?));
    CutFlat(h.fs, h.tail);
  }

  // What the server makes of a packet.

  datatype Arrival =
    | Bad(error: Error)
    | UnexpectedReplyFlag
    | OpenRequest
    | Data(hasToken: bool, token: nat, close: bool, hasSeqno: bool, seqno: nat)

  function TokenWanted(sealed: bool): set<int> { InitWanted(sealed) + {F_CONN_TOKEN} }

  /** A packet without room for a token, or for a seqno, is turned down. */
  ghost function ArrivesRest(m: seq<byte>, fl: byte, n: nat, sealed: bool): Arrival
    requires MAX_HEADER_LEN <= |m| && n <= |m|
  {
    if HasBit(fl, FL_REPLY) then UnexpectedReplyFlag
    else if HasBit(fl, FL_OPEN) then OpenRequest
    else if n < Total(LensFor(TokenWanted(sealed))) then Data(false, 0, false, false, 0)
    else
      var token := GetLE(FramedAs(m, n, TokenWanted(sealed)).fs[F_CONN_TOKEN]);
      if HasBit(fl, FL_CLOSE) then Data(true, token, true, false, 0)
      else if n < Total(LensFor(RequestWanted(sealed))) then Data(true, token, false, false, 0)
      else Data(true, token, false, true, GetLE(FramedAs(m, n, RequestWanted(sealed)).fs[F_SEQNO]))
  }

  ghost function Arrives(m: seq<byte>, n: nat, mac: Option<Mac>): Arrival
    requires MAX_HEADER_LEN <= |m| && n <= |m|
  {
    var err := ReadError(m, n, mac);
    if err.Some? then Bad(err.value)
    else
      var h := AfterRead(m, n, mac);
      ArrivesRest(h.Memory(), FlagsOf(h), n, mac.Some?)
  }

  /** The fields of an echo request that has arrived. */
  ghost function Requested(m: seq<byte>, n: nat, mac: Option<Mac>): (b: Buf)
    requires MAX_HEADER_LEN <= |m| && n <= |m|
    requires var a := Arrives(m, n, mac); a.Data? && a.hasSeqno
  {
    FramedAs(AfterRead(m, n, mac).Memory(), n, RequestWanted(mac.Some?))
  }

  lemma RequestedIsRequest(m: seq<byte>, n: nat, mac: Option<Mac>)
    requires MAX_HEADER_LEN <= |m| && n <= |m|
    requires var a := Arrives(m, n, mac); a.Data? && a.hasSeqno
    ensures var b, a := Requested(m, n, mac), Arrives(m, n, mac);
            && IsRequest(b.fs, mac.Some?) && WellFormed(b, CAPS)
            && GetLE(b.fs[F_CONN_TOKEN]) == a.token && GetLE(b.fs[F_SEQNO]) == a.seqno
  {
    var h, w := AfterRead(m, n, mac), RequestWanted(mac.Some?);
    var m' := h.Memory();
    AfterReadFramed(m, n, mac);
    FrameAgrees(m', n, InitWanted(mac.Some?), w, F_MAGIC);
    FrameAgrees(m', n, InitWanted(mac.Some?), w, F_FLAGS);
    FrameAgrees(m', n, TokenWanted(mac.Some?), w, F_CONN_TOKEN);
    PassesExactly(m, n, mac);
    HeaderFields(m, n, mac.Some?);
    StartOf(m, n);
    LensCut(m', LensFor(w));
  }
}
