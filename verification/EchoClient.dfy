/** The client's side of an echo exchange: the packet it sends, and how it takes a reply apart. */
module EchoClient {
  import opened BitOps
  import opened Echo
  import opened EchoServer
  import opened Layout
  import opened Octets
  import opened Packet
  import opened Times
  import Fl = Filler

  function Zeroes(n: nat): (z: seq<byte>)
    ensures |z| == n && forall i :: 0 <= i < n ==> z[i] == 0
  {
    seq(n, _ => 0)
  }

  /** The same fields, but zeroes in those added. */
  ghost predicate IsZeroedIn(b: Buf, was: Buf, added: set<int>)
  {
    && IsBare(b) && |was.fs| == FCOUNT && |b.Memory()| == |was.Memory()|
    && forall f {:trigger b.fs[f]} :: 0 <= f < FCOUNT ==> b.fs[f] == if f in added then Zeroes(CAPS[f]) else was.fs[f]
  }

  // The zeroes stand where the server may put something, so that the request is no shorter than the reply.

  method Zero(p: Packet, f: nat)
    requires p.Valid() && IsBare(p.View()) && f < FCOUNT
    modifies p.fb, p.fb.mem
    ensures p.Valid() && IsZeroedIn(p.View(), old(p.View()), {f})
  {
    p.Put(f, Zeroes(CAPS[f]));
  }

  method ZeroStats(p: Packet, stats: nat)
    requires p.Valid() && IsBare(p.View())
    modifies p.fb, p.fb.mem
    ensures p.Valid() && IsZeroedIn(p.View(), old(p.View()), StatsShown(stats))
  {
    if HasBit(stats, STATS_COUNT) {
      Zero(p, F_RCOUNT);
    }
    if HasBit(stats, STATS_WINDOW) {
      Zero(p, F_RWINDOW);
    }
  }

  method ZeroTime(p: Packet, clock: nat, wf: nat, mf: nat)
    requires p.Valid() && IsBare(p.View()) && wf < FCOUNT && mf < FCOUNT
    modifies p.fb, p.fb.mem
    ensures p.Valid() && IsZeroedIn(p.View(), old(p.View()), ClocksShown(wf, mf, clock))
  {
    if HasBit(clock, WALL) {
      Zero(p, wf);
    }
    if HasBit(clock, MONOTONIC) {
      Zero(p, mf);
    }
  }

  lemma ZeroedTwice(b0: Buf, b1: Buf, b2: Buf, first: set<int>, second: set<int>)
    requires IsZeroedIn(b1, b0, first) && IsZeroedIn(b2, b1, second)
    ensures IsZeroedIn(b2, b0, first + second)
  {
    forall f | 0 <= f < FCOUNT
      ensures b2.fs[f] == if f in first + second then Zeroes(CAPS[f]) else b0.fs[f]
    {
      assert b2.fs[f] == if f in second then Zeroes(CAPS[f]) else b1.fs[f];
    }
  }

  /** The receive or send stamp, or neither. */
  method ZeroStamp(p: Packet, wanted: bool, clock: nat, wf: nat, mf: nat)
    requires p.Valid() && IsBare(p.View()) && wf < FCOUNT && mf < FCOUNT
    modifies p.fb, p.fb.mem
    ensures p.Valid() && IsZeroedIn(p.View(), old(p.View()), if wanted then ClocksShown(wf, mf, clock) else {})
  {
    if wanted {
      ZeroTime(p, clock, wf, mf);
    }
  }

  method ZeroStamps(p: Packet, at: nat, clock: nat)
    requires p.Valid() && IsBare(p.View()) && at <= 4
    modifies p.fb, p.fb.mem
    ensures p.Valid() && IsZeroedIn(p.View(), old(p.View()), StampExpected(at, clock))
  {
    AtBits(at);
    ghost var b0 := p.View();
    ZeroStamp(p, HasBit(at, AT_RECEIVE), clock, F_RWALL, F_RMONO);
    ghost var b1 := p.View();
    ZeroStamp(p, HasBit(at, AT_MIDPOINT), clock, F_MWALL, F_MMONO);
    ghost var b2 := p.View();
    ZeroStamp(p, HasBit(at, AT_SEND), clock, F_SWALL, F_SMONO);
    StampsZeroed(b0, b1, b2, p.View(), at, clock);
  }

  lemma StampsZeroed(b0: Buf, b1: Buf, b2: Buf, b3: Buf, at: nat, clock: nat)
    requires at <= 4
    requires IsZeroedIn(b1, b0, if HasBit(at, AT_RECEIVE) then ClocksShown(F_RWALL, F_RMONO, clock) else {})
    requires IsZeroedIn(b2, b1, if HasBit(at, AT_MIDPOINT) then ClocksShown(F_MWALL, F_MMONO, clock) else {})
    requires IsZeroedIn(b3, b2, if HasBit(at, AT_SEND) then ClocksShown(F_SWALL, F_SMONO, clock) else {})
    ensures IsZeroedIn(b3, b0, StampExpected(at, clock))
  {
    AtBits(at);
    var r := if HasBit(at, AT_RECEIVE) then ClocksShown(F_RWALL, F_RMONO, clock) else {};
    var m := if HasBit(at, AT_MIDPOINT) then ClocksShown(F_MWALL, F_MMONO, clock) else {};
    var s := if HasBit(at, AT_SEND) then ClocksShown(F_SWALL, F_SMONO, clock) else {};
    ZeroedTwice(b0, b1, b2, r, m);
    ZeroedTwice(b0, b2, b3, r + m, s);
    assert r + m + s == StampExpected(at, clock);
  }

  lemma SeqnoAdded(was: Buf, b: Buf, sealed: bool)
    requires IsBare(was) && Shows(was.fs, TokenWanted(sealed))
    requires Total(LensFor(RequestWanted(sealed))) <= |was.Memory()|
    requires b == SetLen(Reframe(was, LensFor(RequestWanted(sealed))), Total(LensFor(RequestWanted(sealed))))
    ensures IsBare(b) && Shows(b.fs, RequestWanted(sealed)) && |b.Memory()| == |was.Memory()|
    ensures b.fs[F_MAGIC] == was.fs[F_MAGIC] && b.fs[F_FLAGS] == was.fs[F_FLAGS]
    ensures b.fs[F_CONN_TOKEN] == was.fs[F_CONN_TOKEN]
  {
    var m, w, w' := was.Memory(), TokenWanted(sealed), RequestWanted(sealed);
    CapsTotal();
    CutFlat(was.fs, was.tail);
    ReframeLaw(was, LensFor(w'));
    assert FramedAs(m, 0, w).fs == was.fs && FramedAs(m, 0, w').fs == b.fs;
    FrameAgrees(m, 0, w, w', F_MAGIC);
    FrameAgrees(m, 0, w, w', F_FLAGS);
    FrameAgrees(m, 0, w, w', F_CONN_TOKEN);
    LensShape(b.fs, w');
  }

  /** addFields with the fields of a request, on a packet that has all of them but the seqno. */
  method AddSeqno(p: Packet)
    requires p.Valid() && IsBare(p.View()) && Shows(p.View().fs, TokenWanted(p.mac.Some?))
    modifies p.fb
    ensures p.Valid() && IsBare(p.View()) && Shows(p.View().fs, RequestWanted(p.mac.Some?))
    ensures var b, was := p.View(), old(p.View());
            && |b.Memory()| == |was.Memory()|
            && b.fs[F_MAGIC] == was.fs[F_MAGIC] && b.fs[F_FLAGS] == was.fs[F_FLAGS]
            && b.fs[F_CONN_TOKEN] == was.fs[F_CONN_TOKEN]
  {
    ghost var was := p.View();
    SeqnoLens(was.fs, p.mac.Some?);
    p.fb.ViewLens();
    var _ := p.fb.AddFields(REQUEST_LIST, true);
    SeqnoAdded(was, p.View(), p.mac.Some?);
  }

  lemma SeqnoLens(fs: seq<seq<byte>>, sealed: bool)
    requires Shows(fs, TokenWanted(sealed))
    ensures NewLens(CAPS, Lens(fs), Picked(REQUEST_LIST, FCOUNT, 0), true)
         == LensFor(RequestWanted(sealed))
  {
    var list := REQUEST_LIST;
    PickedAll(list, FCOUNT, 0);
    var l, r := NewLens(CAPS, Lens(fs), Picked(list, FCOUNT, 0), true), LensFor(RequestWanted(sealed));
    forall i | 0 <= i < FCOUNT
      ensures l[i] == r[i]
    {
      assert Lens(fs)[i] == LensFor(TokenWanted(sealed))[i];
    }
  }

  /** Zeroes in the fields for statistics and stamps that are wanted, and no others of them. */
  ghost predicate IsZeroAbove(fs: seq<seq<byte>>, wanted: set<int>)
    requires |fs| == FCOUNT
  {
    forall f {:trigger fs[f]} :: F_RCOUNT <= f < FCOUNT ==> fs[f] == if f in wanted then Zeroes(CAPS[f]) else []
  }

  /** A request as the client sends it, up to its payload and its seal. */
  ghost predicate IsOutgoing(fs: seq<seq<byte>>, sealed: bool, s: Settings, token: uint64, seqno: uint32)
  {
    && Shows(fs, Expected(sealed, s))
    && fs[F_MAGIC] == MAGIC && fs[F_FLAGS] == [0]
    && fs[F_CONN_TOKEN] == PutLE(token, 8) && fs[F_SEQNO] == PutLE(seqno, 4)
    && IsZeroAbove(fs, Expected(sealed, s))
  }

  method StartRequest(capacity: nat, token: uint64, key: Option<Mac>) returns (p: Packet)
    ensures p.Valid() && IsBare(p.View()) && fresh(p) && fresh(p.fb) && fresh(p.fb.mem)
    ensures p.mac == key && p.fb.mem.Length == Max(capacity, MAX_HEADER_LEN)
    ensures IsStarted(p.View().fs, TokenWanted(key.Some?), token)
  {
    p := new Packet(0, capacity, key);
    PutShows(p.View().fs, InitWanted(key.Some?), F_CONN_TOKEN, PutLE(token, 8));
    p.Put(F_CONN_TOKEN, PutLE(token, 8));
  }

  /** A request that has its fields, but still leftovers for a seqno and nothing for the server to fill in. */
  ghost predicate IsStarted(fs: seq<seq<byte>>, wanted: set<int>, token: uint64)
  {
    Shows(fs, wanted) && fs[F_MAGIC] == MAGIC && fs[F_FLAGS] == [0] && fs[F_CONN_TOKEN] == PutLE(token, 8)
  }

  method PrepareRequest(p: Packet, s: Settings, ghost token: uint64, seqno: uint32)
    requires p.Valid() && IsBare(p.View()) && s.Valid()
    requires IsStarted(p.View().fs, TokenWanted(p.mac.Some?), token)
    modifies p.fb, p.fb.mem
    ensures p.Valid() && IsBare(p.View()) && |p.View().Memory()| == |old(p.View()).Memory()|
    ensures IsOutgoing(p.View().fs, p.mac.Some?, s, token, seqno)
  {
    AddSeqno(p);
    ZeroExpected(p, s, token);
    SeqnoPut(p.View().fs, p.mac.Some?, s, token, seqno);
    p.Put(F_SEQNO, PutLE(seqno, 4));
  }

  /** zeroReceivedStats and stampZeroes. */
  method ZeroExpected(p: Packet, s: Settings, ghost token: uint64)
    requires p.Valid() && IsBare(p.View()) && s.Valid()
    requires IsStarted(p.View().fs, RequestWanted(p.mac.Some?), token)
    modifies p.fb, p.fb.mem
    ensures p.Valid() && IsBare(p.View()) && |p.View().Memory()| == |old(p.View()).Memory()|
    ensures IsStarted(p.View().fs, Expected(p.mac.Some?, s), token)
    ensures IsZeroAbove(p.View().fs, Expected(p.mac.Some?, s))
  {
    ghost var b0 := p.View();
    ZeroStats(p, s.stats);
    ghost var b1 := p.View();
    ZeroStamps(p, s.at, s.clock);
    StartedZeroed(b0, b1, p.View(), p.mac.Some?, s, token);
    ZeroAboveZeroed(b0, b1, p.View(), p.mac.Some?, s);
  }

  lemma ZeroAboveZeroed(b0: Buf, b1: Buf, b2: Buf, sealed: bool, s: Settings)
    requires s.Valid() && Shows(b0.fs, RequestWanted(sealed))
    requires IsZeroedIn(b1, b0, StatsShown(s.stats)) && IsZeroedIn(b2, b1, StampExpected(s.at, s.clock))
    ensures IsZeroAbove(b2.fs, Expected(sealed, s))
  {
    RequestSized(b0.fs, sealed);
    ZeroedTwice(b0, b1, b2, StatsShown(s.stats), StampExpected(s.at, s.clock));
    forall f | F_RCOUNT <= f < FCOUNT
      ensures b2.fs[f] == if f in Expected(sealed, s) then Zeroes(CAPS[f]) else []
    {
      assert b0.fs[f] == [];
      assert f in Expected(sealed, s) <==> f in StatsShown(s.stats) + StampExpected(s.at, s.clock);
    }
  }

  lemma StartedZeroed(b0: Buf, b1: Buf, b2: Buf, sealed: bool, s: Settings, token: uint64)
    requires s.Valid() && IsStarted(b0.fs, RequestWanted(sealed), token)
    requires IsZeroedIn(b1, b0, StatsShown(s.stats)) && IsZeroedIn(b2, b1, StampExpected(s.at, s.clock))
    ensures IsStarted(b2.fs, Expected(sealed, s), token)
  {
    ZeroedShows(b0, b1, b2, sealed, s);
    ZeroedKeeps(b0, b1, b2, s.stats, s.at, s.clock, F_MAGIC);
    ZeroedKeeps(b0, b1, b2, s.stats, s.at, s.clock, F_FLAGS);
    ZeroedKeeps(b0, b1, b2, s.stats, s.at, s.clock, F_CONN_TOKEN);
  }

  lemma ZeroedStep(b: Buf, was: Buf, wanted: set<int>, added: set<int>)
    requires Shows(was.fs, wanted) && IsZeroedIn(b, was, added)
    ensures Shows(b.fs, wanted + added)
  {
    LensShape(was.fs, wanted);
    var l, r := Lens(b.fs), LensFor(wanted + added);
    forall i | 0 <= i < FCOUNT
      ensures l[i] == r[i]
    {
      assert |was.fs[i]| == if i in wanted then CAPS[i] else 0;
      assert b.fs[i] == if i in added then Zeroes(CAPS[i]) else was.fs[i];
    }
  }

  lemma ZeroedShows(b0: Buf, b1: Buf, b2: Buf, sealed: bool, s: Settings)
    requires s.Valid() && Shows(b0.fs, RequestWanted(sealed))
    requires IsZeroedIn(b1, b0, StatsShown(s.stats)) && IsZeroedIn(b2, b1, StampExpected(s.at, s.clock))
    ensures Shows(b2.fs, Expected(sealed, s))
  {
    ZeroedStep(b1, b0, RequestWanted(sealed), StatsShown(s.stats));
    ZeroedStep(b2, b1, BaseShown(sealed, s.stats), StampExpected(s.at, s.clock));
  }

  lemma ZeroedKeeps(b0: Buf, b1: Buf, b2: Buf, stats: nat, at: nat, clock: nat, f: nat)
    requires IsZeroedIn(b1, b0, StatsShown(stats)) && IsZeroedIn(b2, b1, StampExpected(at, clock))
    requires f < F_RCOUNT
    ensures b2.fs[f] == b0.fs[f]
  {
    assert f !in StampExpected(at, clock) && f !in StatsShown(stats);
  }

  lemma PutSame(fs: seq<seq<byte>>, wanted: set<int>, f: nat, x: seq<byte>)
    requires Shows(fs, wanted) && f < FCOUNT && f in wanted && |x| == CAPS[f]
    ensures Shows(fs[f := x], wanted)
  {
    PutShows(fs, wanted, f, x);
    assert wanted + {f} == wanted;
  }

  lemma SeqnoPut(fs: seq<seq<byte>>, sealed: bool, s: Settings, token: uint64, seqno: uint32)
    requires s.Valid() && IsStarted(fs, Expected(sealed, s), token) && IsZeroAbove(fs, Expected(sealed, s))
    ensures IsOutgoing(fs[F_SEQNO := PutLE(seqno, 4)], sealed, s, token, seqno)
  {
    ExpectedBelow(sealed, s, F_SEQNO);
    PutSame(fs, Expected(sealed, s), F_SEQNO, PutLE(seqno, 4));
  }

  /** The payload is the bytes of a pattern from a phase on, or zeroes without one. */
  ghost predicate IsPadded(b: Buf, fill: Option<(seq<byte>, nat)>)
  {
    && b.HeaderLen() <= b.blen <= |b.Memory()|
    && (fill.Some? ==> fill.value.0 != [])
    && b.Payload() == var n := b.blen - b.HeaderLen();
                      if fill.None? then Zeroes(n) else Fl.Periodic(fill.value.0, fill.value.1, n)
  }

  /** The first request of a test; l is the length the client will insist on in replies. */
  method Request(s: Settings, token: uint64, seqno: uint32, key: Option<Mac>, f: Fl.PatternFiller?)
    returns (p: Packet, l: nat, ghost b: Buf)
    requires s.Valid() && (f != null ==> f.Valid())
    modifies f
    ensures p.Valid() && IsSendable(b, key) && p.View() == Sealed(b, key)
    ensures IsOutgoing(b.fs, key.Some?, s, token, seqno)
    ensures l == b.blen == Max(s.length, b.HeaderLen())
    ensures IsPadded(b, if f == null then None else Some((f.pattern, old(f.phase))))
  {
    p := BareRequest(s, token, seqno, key);
    l, b := Complete(p, s.length, f);
  }

  /** Fills the request, for which there is room, and seals it. */
  method Complete(p: Packet, length: int, f: Fl.PatternFiller?) returns (l: nat, ghost b: Buf)
    requires p.Valid() && IsSendable(p.View(), p.mac) && length <= |p.View().Memory()|
    requires f != null ==> f.Valid() && f.buf != p.fb.mem
    modifies p.fb, p.fb.mem, f
    ensures p.Valid() && IsSendable(b, p.mac) && p.View() == Sealed(b, p.mac)
    ensures b.fs == old(p.View()).fs && l == b.blen == Max(length, b.HeaderLen())
    ensures IsPadded(b, if f == null then None else Some((f.pattern, old(f.phase))))
  {
    FillRequest(p, length, f);
    b, l := p.View(), p.fb.blen;
    p.UpdateHMAC();
  }

  /** The request without its payload. */
  method BareRequest(s: Settings, token: uint64, seqno: uint32, key: Option<Mac>) returns (p: Packet)
    requires s.Valid()
    ensures p.Valid() && IsBare(p.View()) && fresh(p) && fresh(p.fb) && fresh(p.fb.mem) && p.mac == key
    ensures IsOutgoing(p.View().fs, key.Some?, s, token, seqno) && IsSendable(p.View(), key)
    ensures |p.View().Memory()| >= s.length
  {
    p := StartRequest(Max(s.length, 0), token, key);
    PrepareRequest(p, s, token, seqno);
    OutgoingSendable(p.View(), key, s, token, seqno);
  }

  /** Gives the request its length and its payload, which is zeroes without a filler. */
  method FillRequest(p: Packet, length: int, f: Fl.PatternFiller?)
    requires p.Valid() && length <= |p.View().Memory()| && (f != null ==> f.Valid() && f.buf != p.fb.mem)
    modifies p.fb, p.fb.mem, f
    ensures p.Valid() && p.View().fs == old(p.View()).fs
    ensures p.View().blen == Max(length, p.View().HeaderLen())
    ensures IsPadded(p.View(), if f == null then None else Some((f.pattern, old(f.phase))))
  {
    Pad(p, length, f);
    if f == null {
      ZeroPayload(p);
    }
  }

  method ZeroPayload(p: Packet)
    requires p.Valid()
    modifies p.fb, p.fb.mem
    ensures p.Valid() && p.View().fs == old(p.View()).fs && p.View().blen == old(p.View()).blen
    ensures p.View().Payload() == Zeroes(p.View().blen - p.View().HeaderLen())
  {
    var x := p.fb.Payload();
    p.fb.FillPayload(Zeroes(|x|));
  }

  lemma OutgoingLength(b: Buf, sealed: bool, s: Settings, token: uint64, seqno: uint32)
    requires WellFormed(b, CAPS) && IsOutgoing(b.fs, sealed, s, token, seqno)
    ensures b.HeaderLen() == Total(LensFor(Expected(sealed, s))) <= |b.Memory()|
  {
    FlatLength(b.fs, FCOUNT);
  }

  lemma OutgoingSendable(b: Buf, mac: Option<Mac>, s: Settings, token: uint64, seqno: uint32)
    requires s.Valid() && WellFormed(b, CAPS) && IsOutgoing(b.fs, mac.Some?, s, token, seqno)
    ensures IsSendable(b, mac)
    ensures !HasBit(FlagsOf(b), FL_OPEN) && !HasBit(FlagsOf(b), FL_REPLY) && !HasBit(FlagsOf(b), FL_CLOSE)
  {
    ExpectedBelow(mac.Some?, s, F_HMAC);
    var w := Expected(mac.Some?, s);
    assert F_HMAC in w <==> mac.Some?;
    SetExactly(b.fs, w, F_HMAC);
    NoFlags(FlagsOf(b));
  }

  lemma NoFlags(fl: byte)
    requires fl == 0
    ensures !HasBit(fl, FL_OPEN) && !HasBit(fl, FL_REPLY) && !HasBit(fl, FL_CLOSE) && !HasBit(fl, FL_HMAC)
  {
    assert !HasBit(fl, 0);
    assert !HasBit(fl, 1);
    assert !HasBit(fl, 2);
  }

  method ReadValues(p: Packet) returns (d: Decoded)
    requires p.Framed() && IsSized(p.View().fs)
    ensures d == Values(p.View())
  {
    var token := p.fb.Get(F_CONN_TOKEN);
    var seqno := p.fb.Get(F_SEQNO);
    var count := ReadNumber(p, F_RCOUNT);
    var window := ReadNumber(p, F_RWINDOW);
    var ts := ReadStamp(p);
    return Decoded(GetLE(token), GetLE(seqno), count, window, ts, p.fb.blen);
  }

  method ReadNumber(p: Packet, f: nat) returns (n: Option<nat>)
    requires p.Framed() && f < FCOUNT
    ensures n == Number(p.View(), f)
  {
    var x := p.fb.Get(f);
    return if |x| > 0 then Some(GetLE(x)) else None;
  }

  method ReadTime(p: Packet, t: Time, wf: nat, mf: nat) returns (r: Time)
    requires p.Framed() && IsSized(p.View().fs) && F_RWALL <= wf < FCOUNT && F_RWALL <= mf < FCOUNT
    ensures r == GetTime(p.View().fs, t, wf, mf)
  {
    r := t;
    TimeCap(wf);
    TimeCap(mf);
    var wb := p.fb.Get(wf);
    if |wb| > 0 {
      r := r.(wall := GetInt64(wb));
    }
    var mb := p.fb.Get(mf);
    if |mb| > 0 {
      r := r.(mono := GetInt64(mb));
    }
  }

  method ReadStamp(p: Packet) returns (ts: Timestamp)
    requires p.Framed() && IsSized(p.View().fs)
    ensures ts == GetStamp(p.View().fs)
  {
    var r := ReadTime(p, NO_TIME, F_RWALL, F_RMONO);
    r := ReadTime(p, r, F_MWALL, F_MMONO);
    var s := ReadTime(p, NO_TIME, F_MWALL, F_MMONO);
    s := ReadTime(p, s, F_SWALL, F_SMONO);
    return Timestamp(r, s);
  }

  method CheckStamps(p: Packet, s: Settings) returns (failure: Option<Failure>)
    requires p.Framed()
    ensures failure == StampFailure(p.View(), s)
  {
    p.HasStampView();
    ClocksView(p);
    var at := if p.HasStamp(F_MWALL, F_MMONO) then MIDPOINT
              else (if p.HasStamp(F_RWALL, F_RMONO) then 2 else 0) + (if p.HasStamp(F_SWALL, F_SMONO) then 1 else 0);
    if at != s.at {
      return Some(StampAtMismatch);
    }
    if at != 0 {
      var wall := p.fb.IsSet(F_RWALL) || p.fb.IsSet(F_SWALL) || p.fb.IsSet(F_MWALL);
      var mono := p.fb.IsSet(F_RMONO) || p.fb.IsSet(F_SMONO) || p.fb.IsSet(F_MMONO);
      if (if wall then 1 else 0) + (if mono then 2 else 0) != s.clock {
        return Some(ClockMismatch);
      }
    }
    return None;
  }

  lemma ClocksView(p: Packet)
    requires p.Framed()
    ensures |p.fb.fields| == FCOUNT
    ensures forall f :: F_RWALL <= f < FCOUNT ==> p.View().IsSet(f) == p.fb.IsSet(f)
  {
    forall f | F_RWALL <= f < FCOUNT
      ensures p.View().IsSet(f) == p.fb.IsSet(f)
    {
      p.fb.IsSetView(f);
    }
  }

  /** Frames a reply that passed its first checks by the statistics and stamps expected. */
  method AddExpected(p: Packet, s: Settings, ghost m: seq<byte>, ghost n: nat)
    requires p.Framed() && s.Valid() && MAX_HEADER_LEN <= |m| && n <= |m|
    requires p.View() == FramedAs(m, n, RequestWanted(p.mac.Some?))
    modifies p.fb
    ensures p.Framed() && p.View() == FramedAs(m, n, Expected(p.mac.Some?, s)) && IsSized(p.View().fs)
  {
    ghost var base := RequestWanted(p.mac.Some?);
    StatsListIncreases(s.stats);
    StampListIncreases(s.at, s.clock);
    ListsPick(p.mac.Some?, s);
    ghost var more := base + set f | f in StatsList(s.stats);
    var _ := AddFields(p, StatsList(s.stats), m, n, base, more);
    var _ := AddFields(p, StampList(s.at, s.clock), m, n, more, Expected(p.mac.Some?, s));
  }

  method Take(p: Packet, s: Settings) returns (r: Result<Decoded, Failure>)
    requires p.Framed() && IsSized(p.View().fs)
    ensures var b := p.View();
            r == if StampFailure(b, s).Some? then Err(StampFailure(b, s).value) else Ok(Values(b))
  {
    var failure := CheckStamps(p, s);
    if failure.Some? {
      return Err(failure.value);
    }
    var d := ReadValues(p);
    return Ok(d);
  }

  lemma JoinIncreases(a: seq<int>, b: seq<int>, k: int)
    requires IsFieldList(a) && IsFieldList(b)
    requires (forall i :: 0 <= i < |a| ==> a[i] < k) && (forall i :: 0 <= i < |b| ==> k <= b[i])
    ensures IsFieldList(a + b)
  {
    var l := a + b;
    forall i, j | 0 <= i < j < |l|
      ensures l[i] < l[j]
    {
      if i < |a| <= j {
        assert l[i] == a[i] && l[j] == b[j - |a|];
      }
    }
  }

  lemma StatsListIncreases(stats: nat)
    ensures IsFieldList(StatsList(stats))
  {
  }

  lemma ClockListIncreases(wf: nat, clock: nat)
    requires wf + 1 < FCOUNT
    ensures var l := ClockList(wf, wf + 1, clock);
            IsFieldList(l) && forall i :: 0 <= i < |l| ==> wf <= l[i] < wf + 2
  {
  }

  lemma StampListIncreases(at: nat, clock: nat)
    ensures IsFieldList(StampList(at, clock))
  {
    var a := if HasBit(at, AT_RECEIVE) then ClockList(F_RWALL, F_RMONO, clock) else [];
    var b := if HasBit(at, AT_MIDPOINT) then ClockList(F_MWALL, F_MMONO, clock) else [];
    var c := if HasBit(at, AT_SEND) then ClockList(F_SWALL, F_SMONO, clock) else [];
    ClockListIncreases(F_RWALL, clock);
    ClockListIncreases(F_MWALL, clock);
    ClockListIncreases(F_SWALL, clock);
    JoinIncreases(a, b, F_MWALL);
    JoinIncreases(a + b, c, F_SWALL);
  }

  method AddReplyFields(p: Packet, ghost m: seq<byte>, ghost n: nat)
    requires p.Framed() && MAX_HEADER_LEN <= |m| && n <= |m|
    requires p.View() == FramedAs(m, n, InitWanted(p.mac.Some?))
    modifies p.fb
    ensures p.Framed() && p.View() == FramedAs(m, n, RequestWanted(p.mac.Some?))
  {
    ListsAdd(p.mac.Some?);
    var _ := AddFields(p, REQUEST_LIST, m, n, InitWanted(p.mac.Some?), RequestWanted(p.mac.Some?));
  }

  /** The part of receiving a reply after validation. */
  method TakeReply(p: Packet, fl: byte, n: nat, s: Settings, ghost m: seq<byte>) returns (r: Result<Decoded, Failure>)
    requires p.Framed() && s.Valid() && MAX_HEADER_LEN <= |m| && n <= |m|
    requires p.View() == FramedAs(m, n, InitWanted(p.mac.Some?))
    modifies p.fb
    ensures p.Framed() && r == DecodeRest(m, fl, n, p.mac.Some?, s)
  {
    AddReplyFields(p, m, n);
    var shut := Gate(fl, n, s);
    if shut.Some? {
      return Err(shut.value);
    }
    r := TakeExpected(p, n, s, m);
  }

  method TakeExpected(p: Packet, ghost n: nat, s: Settings, ghost m: seq<byte>) returns (r: Result<Decoded, Failure>)
    requires p.Framed() && s.Valid() && MAX_HEADER_LEN <= |m| && n <= |m|
    requires p.View() == FramedAs(m, n, RequestWanted(p.mac.Some?))
    modifies p.fb
    ensures p.Framed()
    ensures var b := FramedAs(m, n, Expected(p.mac.Some?, s));
            r == if StampFailure(b, s).Some? then Err(StampFailure(b, s).value) else Ok(Values(b))
  {
    AddExpected(p, s, m, n);
    r := Take(p, s);
  }

  /** Receives a reply of n bytes already in the buffer. */
  method Receive(p: Packet, n: nat, s: Settings) returns (r: Result<Decoded, Failure>)
    requires p.Framed() && n <= p.fb.mem.Length && MAX_HEADER_LEN <= p.fb.mem.Length && s.Valid()
    modifies p.fb, p.fb.mem
    ensures p.Framed() && r == Decode(old(p.fb.mem[..]), n, p.mac, s)
  {
    ghost var m := p.fb.mem[..];
    var err, fl := ReadPacket(p, n);
    if err.Some? {
      return Err(Unreadable(err.value));
    }
    r := TakeReply(p, fl, n, s, AfterRead(m, n, p.mac).Memory());
  }
}
