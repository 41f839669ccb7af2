/** What both sides make of a packet, in terms of the bytes received and where they stand. */
module Wire {
  import opened Arith
  import opened BitOps
  import opened Echo
  import opened Layout
  import opened Octets
  import opened Packet
  import opened Times

  /** The bits of a byte, least significant first. */
  lemma FlagBits(x: nat)
    ensures HasBit(x, FL_OPEN) == (x % 2 == 1) && HasBit(x, FL_REPLY) == (x / 2 % 2 == 1)
    ensures HasBit(x, FL_CLOSE) == (x / 4 % 2 == 1) && HasBit(x, FL_HMAC) == (x / 8 % 2 == 1)
  {
    BitAt(x, FL_REPLY);
    BitAt(x, FL_CLOSE);
    BitAt(x, FL_HMAC);
    assert Pow2(1) == 2 && Pow2(2) == 4 && Pow2(3) == 8;
  }

  lemma {:induction false} BitAt(x: nat, k: nat)
    ensures Pow2(k) > 0 && HasBit(x, k) == (x / Pow2(k) % 2 == 1)
  {
    if k > 0 {
      BitAt(x / 2, k - 1);
      DivDiv(x, 2, Pow2(k - 1), Pow2(k));
    }
  }

  lemma DivDiv(x: nat, c: nat, d: nat, e: nat)
    requires c > 0 && d > 0 && e == c * d
    ensures e > 0 && x / c / d == x / e
  {
    var q, r := x / c, x % c;
    var a, b := q / d, q % d;
    assert x == q * c + r && q == a * d + b;
    Regroup(x, c, d, e, a, b, r);
    DivModUnique(x, a, b * c + r, e);
  }

  lemma Regroup(x: nat, c: nat, d: nat, e: nat, a: nat, b: nat, r: nat)
    requires x == (a * d + b) * c + r && b < d && r < c && e == c * d
    ensures x == a * e + (b * c + r) && 0 <= b * c + r < e
  {
    MulMonotone(b, d - 1, c);
    assert (d - 1) * c == d * c - c;
    assert (a * d + b) * c == a * d * c + b * c;
    Reassociate(a, d, c);
  }

  lemma Reassociate(a: nat, d: nat, c: nat)
    ensures a * d * c == a * (c * d)
  {
    assert d * c == c * d;
  }

  /** Where the connection token stands: after magic and flags, and the HMAC if there is one. */
  function Base(sealed: bool): nat { if sealed then 20 else 4 }

  // Validation.

  lemma VerdictExactly(b: Buf, mac: Option<Mac>)
    requires WellFormed(b, CAPS) && b.IsSet(F_FLAGS) && (mac.Some? ==> b.IsSet(F_HMAC))
    requires !HasReceiveStamp(b) && !HasMidpointStamp(b) && !HasSendStamp(b)
    ensures var v, fl := Verdict(b, mac), FlagsOf(b);
            var right := b.fs[F_MAGIC] == MAGIC && fl <= 15;
            && (v == Some(BadMagic) <==> b.fs[F_MAGIC] != MAGIC)
            && (v == Some(InvalidFlagBitsSet) <==> b.fs[F_MAGIC] == MAGIC && fl > 15)
            && (v == Some(NoHMAC) <==> right && mac.Some? && !HasBit(fl, FL_HMAC))
            && (v == Some(BadHMAC) <==> right && mac.Some? && HasBit(fl, FL_HMAC) && !Authentic(b, mac.value))
            && (v == Some(UnexpectedHMAC) <==> right && mac.None? && HasBit(fl, FL_HMAC))
            && v != Some(FieldsLengthTooLarge)
  {
  }

  /** Which error a packet is turned down with: the first of too short, magic, flags, and HMAC missing, wrong or
      not wanted. */
  lemma ErrorExactly(m: seq<byte>, n: nat, mac: Option<Mac>)
    requires MAX_HEADER_LEN <= |m| && n <= |m|
    ensures ReadError(m, n, mac) == Some(FieldsLengthTooLarge) <==> n < Base(mac.Some?)
    ensures n >= Base(mac.Some?) ==>
              var err, w := ReadError(m, n, mac), m[..n];
              var right, marked := w[..3] == [0x14, 0xa7, 0x5b] && w[3] <= 15, w[3] / 8 % 2 == 1;
              && (err == Some(BadMagic) <==> w[..3] != [0x14, 0xa7, 0x5b])
              && (err == Some(InvalidFlagBitsSet) <==> w[..3] == [0x14, 0xa7, 0x5b] && w[3] > 15)
              && (err == Some(NoHMAC) <==> right && mac.Some? && !marked)
              && (err == Some(BadHMAC) <==> right && mac.Some? && marked && w[4..20] != mac.value(Blank(w)))
              && (err == Some(UnexpectedHMAC) <==> right && mac.None? && marked)
  {
    if n >= Base(mac.Some?) {
      var b := Header(m, n, mac.Some?);
      HeaderFields(m, n, mac.Some?);
      VerdictExactly(b, mac);
      StartOf(m, n);
      FlagBits(m[3]);
      if mac.Some? {
        ZeroedWire(m, n);
      }
    }
  }

  // The memory a packet that passed leaves, and its fields.

  lemma LeavesRest(m: seq<byte>, n: nat, mac: Option<Mac>)
    requires MAX_HEADER_LEN <= |m| && n <= |m| && ReadError(m, n, mac) == None
    ensures var h := AfterRead(m, n, mac);
            |h.Memory()| == |m| && h.Memory()[Base(mac.Some?)..] == m[Base(mac.Some?)..] && FlagsOf(h) == m[3]
  {
    HeaderFields(m, n, mac.Some?);
    PassesExactly(m, n, mac);
    if mac.Some? {
      var b := Header(m, n, true);
      InitOffsets(true);
      LensCut(m, LensFor(InitWanted(true)));
      MemoryOverwritten(b, F_HMAC, ZERO_DIGEST);
    }
  }

  lemma BaseOffset(sealed: bool, wanted: set<int>)
    requires forall i :: 0 <= i < F_CONN_TOKEN ==> (i in wanted <==> i in InitWanted(sealed))
    ensures Off(LensFor(wanted), F_CONN_TOKEN) == Base(sealed)
  {
    var lens := LensFor(wanted);
    assert Off(lens, 1) == 3;
    assert Off(lens, 2) == 4;
  }

  lemma RequestOffsets(sealed: bool, wanted: set<int>)
    requires forall i :: 0 <= i < F_RCOUNT ==> (i in wanted <==> i in RequestWanted(sealed))
    ensures var lens := LensFor(wanted);
            Off(lens, F_CONN_TOKEN) == Base(sealed) && Off(lens, F_SEQNO) == Base(sealed) + 8
            && Off(lens, F_RCOUNT) == Base(sealed) + 12
  {
    BaseOffset(sealed, wanted);
  }

  lemma TokenTotals(sealed: bool)
    ensures Total(LensFor(TokenWanted(sealed))) == Base(sealed) + 8
    ensures Total(LensFor(RequestWanted(sealed))) == Base(sealed) + 12
  {
    BaseOffset(sealed, TokenWanted(sealed));
    assert Off(LensFor(TokenWanted(sealed)), F_SEQNO) == Base(sealed) + 8;
    OffZeroes(LensFor(TokenWanted(sealed)), F_SEQNO, FCOUNT);
    RequestOffsets(sealed, RequestWanted(sealed));
    OffZeroes(LensFor(RequestWanted(sealed)), F_RCOUNT, FCOUNT);
  }

  /** A field behind the HMAC is read from the bytes received. */
  lemma FieldFrom(m: seq<byte>, m': seq<byte>, base: nat, n: nat, wanted: set<int>, f: nat)
    requires MAX_HEADER_LEN <= |m| == |m'| && n <= |m| && base <= |m| && m'[base..] == m[base..] && f < FCOUNT
    requires base <= Off(LensFor(wanted), f)
    ensures var lens := LensFor(wanted);
            Off(lens, f) + lens[f] <= |m|
            && FramedAs(m', n, wanted).fs[f] == m[Off(lens, f)..Off(lens, f) + lens[f]]
  {
    var lens := LensFor(wanted);
    OffMonotone(lens, f, FCOUNT);
    assert FramedAs(m', n, wanted).fs[f] == FieldAt(m', lens, f);
    SuffixSlice(m, m', base, Off(lens, f), lens[f]);
  }

  lemma SuffixSlice(m: seq<byte>, m': seq<byte>, base: nat, o: nat, l: nat)
    requires |m| == |m'| && base <= o && o + l <= |m| && m'[base..] == m[base..]
    ensures m'[o..o + l] == m[o..o + l]
  {
    assert m'[o..o + l] == m'[base..][o - base..o - base + l];
    assert m[o..o + l] == m[base..][o - base..o - base + l];
  }

  // The server.

  lemma NumbersFrom(m: seq<byte>, m': seq<byte>, n: nat, sealed: bool)
    requires MAX_HEADER_LEN <= |m| == |m'| && n <= |m| && m'[Base(sealed)..] == m[Base(sealed)..]
    ensures var o := Base(sealed);
            && FramedAs(m', n, TokenWanted(sealed)).fs[F_CONN_TOKEN] == m[o..o + 8]
            && FramedAs(m', n, RequestWanted(sealed)).fs[F_SEQNO] == m[o + 8..o + 12]
  {
    BaseOffset(sealed, TokenWanted(sealed));
    RequestOffsets(sealed, RequestWanted(sealed));
    FieldFrom(m, m', Base(sealed), n, TokenWanted(sealed), F_CONN_TOKEN);
    FieldFrom(m, m', Base(sealed), n, RequestWanted(sealed), F_SEQNO);
  }

  /** How the server sorts a packet that passed validation: replies are turned down, opens go to be accepted, and
      any other is data, with as much of token and seqno as there are bytes for. */
  lemma ArrivesExactly(m: seq<byte>, n: nat, mac: Option<Mac>)
    requires MAX_HEADER_LEN <= |m| && n <= |m|
    ensures !Passes(m[..n], mac) ==>
              ReadError(m, n, mac).Some? && Arrives(m, n, mac) == Bad(ReadError(m, n, mac).value)
    ensures Passes(m[..n], mac) ==>
              var fl, o := m[3], Base(mac.Some?);
              Arrives(m, n, mac) == if fl / 2 % 2 == 1 then UnexpectedReplyFlag
                                    else if fl % 2 == 1 then OpenRequest
                                    else if n < o + 8 then Data(false, 0, false, false, 0)
                                    else if fl / 4 % 2 == 1 then Data(true, GetLE(m[o..o + 8]), true, false, 0)
                                    else if n < o + 12 then Data(true, GetLE(m[o..o + 8]), false, false, 0)
                                    else Data(true, GetLE(m[o..o + 8]), false, true, GetLE(m[o + 8..o + 12]))
  {
    PassesExactly(m, n, mac);
    if ReadError(m, n, mac) == None {
      LeavesRest(m, n, mac);
      RestArrives(m, AfterRead(m, n, mac).Memory(), m[3], n, mac.Some?);
    }
  }

  lemma RestArrives(m: seq<byte>, m': seq<byte>, fl: byte, n: nat, sealed: bool)
    requires MAX_HEADER_LEN <= |m| == |m'| && n <= |m| && m'[Base(sealed)..] == m[Base(sealed)..]
    ensures var o := Base(sealed);
            ArrivesRest(m', fl, n, sealed)
              == if fl / 2 % 2 == 1 then UnexpectedReplyFlag
                 else if fl % 2 == 1 then OpenRequest
                 else if n < o + 8 then Data(false, 0, false, false, 0)
                 else if fl / 4 % 2 == 1 then Data(true, GetLE(m[o..o + 8]), true, false, 0)
                 else if n < o + 12 then Data(true, GetLE(m[o..o + 8]), false, false, 0)
                 else Data(true, GetLE(m[o..o + 8]), false, true, GetLE(m[o + 8..o + 12]))
  {
    FlagBits(fl);
    TokenTotals(sealed);
    NumbersFrom(m, m', n, sealed);
  }

  // The client.

  function CountLen(stats: nat): nat { if stats == 1 || stats == 3 then 4 else 0 }

  function WindowLen(stats: nat): nat { if stats == 2 || stats == 3 then 8 else 0 }

  function ClockLen(clock: nat): nat { if clock == 3 then 16 else 8 }

  /** Where the stamps start. */
  function StampBase(sealed: bool, stats: nat): nat
  {
    Base(sealed) + 12 + CountLen(stats) + WindowLen(stats)
  }

  function SignedAt(m: seq<byte>, o: nat): int64
    requires o + 8 <= |m|
  {
    GetInt64(m[o..o + 8])
  }

  /** The time in the bytes from o on: the clocks asked for, the wall clock first. */
  function TimeAt(m: seq<byte>, o: nat, clock: nat): Time
    requires o + ClockLen(clock) <= |m|
  {
    Time(if clock == 2 then 0 else SignedAt(m, o),
         if clock == 1 then 0 else SignedAt(m, if clock == 3 then o + 8 else o))
  }

  /** The stamps in the bytes from o on: receive before send, or the midpoint for both. */
  function StampFrom(m: seq<byte>, o: nat, at: nat, clock: nat): Timestamp
    requires o + 32 <= |m|
  {
    match at
    case 1 => Timestamp(NO_TIME, TimeAt(m, o, clock))
    case 2 => Timestamp(TimeAt(m, o, clock), NO_TIME)
    case 3 => Timestamp(TimeAt(m, o, clock), TimeAt(m, o + ClockLen(clock), clock))
    case 4 => Timestamp(TimeAt(m, o, clock), TimeAt(m, o, clock))
    case _ => NO_STAMP
  }

  lemma SettingBits(x: nat)
    requires x <= 4
    ensures HasBit(x, 0) == (x == 1 || x == 3) && HasBit(x, 1) == (x == 2 || x == 3)
  {
    AtBits(x);
  }

  lemma StatsLens(sealed: bool, s: Settings)
    requires s.Valid()
    ensures var lens := LensFor(Expected(sealed, s));
            lens[F_RCOUNT] == CountLen(s.stats) && lens[F_RWINDOW] == WindowLen(s.stats)
  {
    SettingBits(s.stats);
    assert F_RCOUNT in Expected(sealed, s) <==> HasBit(s.stats, STATS_COUNT);
    assert F_RWINDOW in Expected(sealed, s) <==> HasBit(s.stats, STATS_WINDOW);
  }

  lemma ExpectedOffsets(sealed: bool, s: Settings)
    requires s.Valid()
    ensures var lens, o := LensFor(Expected(sealed, s)), Base(sealed);
            && Off(lens, F_CONN_TOKEN) == o && Off(lens, F_SEQNO) == o + 8 && Off(lens, F_RCOUNT) == o + 12
            && lens[F_CONN_TOKEN] == 8 && lens[F_SEQNO] == 4
            && lens[F_RCOUNT] == CountLen(s.stats) && Off(lens, F_RWINDOW) == o + 12 + CountLen(s.stats)
            && lens[F_RWINDOW] == WindowLen(s.stats) && Off(lens, F_RWALL) == StampBase(sealed, s.stats)
  {
    RequestOffsets(sealed, Expected(sealed, s));
    StatsLens(sealed, s);
    var lens := LensFor(Expected(sealed, s));
    assert Off(lens, F_RWINDOW) == Off(lens, F_RCOUNT) + lens[F_RCOUNT];
  }

  /** The lengths of the wall and the monotonic field of a stamp. */
  function WallLen(wanted: bool, clock: nat): nat { if wanted && clock != 2 then 8 else 0 }

  function MonoLen(wanted: bool, clock: nat): nat { if wanted && clock != 1 then 8 else 0 }

  lemma StampLens(sealed: bool, s: Settings)
    requires s.Valid()
    ensures var lens := LensFor(Expected(sealed, s));
            && lens[F_RWALL] == WallLen(s.at == 2 || s.at == 3, s.clock)
            && lens[F_RMONO] == MonoLen(s.at == 2 || s.at == 3, s.clock)
            && lens[F_MWALL] == WallLen(s.at == 4, s.clock) && lens[F_MMONO] == MonoLen(s.at == 4, s.clock)
            && lens[F_SWALL] == WallLen(s.at == 1 || s.at == 3, s.clock)
            && lens[F_SMONO] == MonoLen(s.at == 1 || s.at == 3, s.clock)
  {
    AtBits(s.at);
    SettingBits(s.clock);
  }

  lemma StampOffsets(sealed: bool, s: Settings)
    requires s.Valid()
    ensures var lens, o := LensFor(Expected(sealed, s)), StampBase(sealed, s.stats);
            var k := ClockLen(s.clock);
            && o + 32 <= MAX_HEADER_LEN
            && (s.at == 2 || s.at == 3 ==> Off(lens, F_RWALL) == o && Off(lens, F_RMONO) == o + lens[F_RWALL])
            && (s.at == 4 ==> Off(lens, F_MWALL) == o && Off(lens, F_MMONO) == o + lens[F_MWALL])
            && (s.at == 1 ==> Off(lens, F_SWALL) == o && Off(lens, F_SMONO) == o + lens[F_SWALL])
            && (s.at == 3 ==> Off(lens, F_SWALL) == o + k && Off(lens, F_SMONO) == o + k + lens[F_SWALL])
  {
    ExpectedOffsets(sealed, s);
    StampLens(sealed, s);
    var lens := LensFor(Expected(sealed, s));
    assert Off(lens, F_RMONO) == Off(lens, F_RWALL) + lens[F_RWALL];
    assert Off(lens, F_MWALL) == Off(lens, F_RMONO) + lens[F_RMONO];
    assert Off(lens, F_MMONO) == Off(lens, F_MWALL) + lens[F_MWALL];
    assert Off(lens, F_SWALL) == Off(lens, F_MMONO) + lens[F_MMONO];
    assert Off(lens, F_SMONO) == Off(lens, F_SWALL) + lens[F_SWALL];
  }

  /** The time read from two neighbouring fields. */
  lemma TimeFrom(fs: seq<seq<byte>>, m: seq<byte>, t: Time, wf: nat, o: nat, clock: nat)
    requires IsSized(fs) && F_RWALL <= wf && wf + 1 < FCOUNT && 1 <= clock <= 3 && o + ClockLen(clock) <= |m|
    requires fs[wf] == m[o..o + WallLen(true, clock)]
    requires fs[wf + 1] == m[o + WallLen(true, clock)..o + WallLen(true, clock) + MonoLen(true, clock)]
    ensures var r := TimeAt(m, o, clock);
            GetTime(fs, t, wf, wf + 1)
              == Time(if clock == 2 then t.wall else r.wall, if clock == 1 then t.mono else r.mono)
  {
  }

  lemma NoTimeFrom(fs: seq<seq<byte>>, t: Time, wf: nat)
    requires IsSized(fs) && F_RWALL <= wf && wf + 1 < FCOUNT && fs[wf] == [] && fs[wf + 1] == []
    ensures GetTime(fs, t, wf, wf + 1) == t
  {
  }

  /** A stamp's two fields, there or not. */
  ghost predicate IsStampField(fs: seq<seq<byte>>, m: seq<byte>, wf: nat, wanted: bool, o: nat, clock: nat)
    requires |fs| == FCOUNT && wf + 1 < FCOUNT && 1 <= clock <= 3 && o + ClockLen(clock) <= |m|
  {
    if wanted then
      && fs[wf] == m[o..o + WallLen(true, clock)]
      && fs[wf + 1] == m[o + WallLen(true, clock)..o + WallLen(true, clock) + MonoLen(true, clock)]
    else fs[wf] == [] && fs[wf + 1] == []
  }

  lemma StampFieldFrom(m: seq<byte>, m': seq<byte>, base: nat, n: nat, wanted: set<int>, wf: nat, there: bool, o: nat,
                       clock: nat)
    requires MAX_HEADER_LEN <= |m| == |m'| && n <= |m| && base <= |m| && m'[base..] == m[base..] && base <= o
    requires wf + 1 < FCOUNT && 1 <= clock <= 3 && o + ClockLen(clock) <= |m|
    requires var lens := LensFor(wanted);
             && lens[wf] == WallLen(there, clock) && lens[wf + 1] == MonoLen(there, clock)
             && (there ==> Off(lens, wf) == o && Off(lens, wf + 1) == o + lens[wf])
    ensures IsStampField(FramedAs(m', n, wanted).fs, m, wf, there, o, clock)
  {
    if there {
      FieldFrom(m, m', base, n, wanted, wf);
      FieldFrom(m, m', base, n, wanted, wf + 1);
    } else {
      assert |FramedAs(m', n, wanted).fs[wf]| == LensFor(wanted)[wf];
      assert |FramedAs(m', n, wanted).fs[wf + 1]| == LensFor(wanted)[wf + 1];
    }
  }

  lemma FieldStamp(fs: seq<seq<byte>>, m: seq<byte>, o: nat, at: nat, clock: nat)
    requires IsSized(fs) && at <= 4 && 1 <= clock <= 3 && o + 32 <= |m|
    requires IsStampField(fs, m, F_RWALL, at == 2 || at == 3, o, clock)
    requires IsStampField(fs, m, F_MWALL, at == 4, o, clock)
    requires IsStampField(fs, m, F_SWALL, at == 1 || at == 3, if at == 3 then o + ClockLen(clock) else o, clock)
    ensures GetStamp(fs) == StampFrom(m, o, at, clock)
  {
    var receive := GetTime(fs, NO_TIME, F_RWALL, F_RMONO);
    var midpoint := GetTime(fs, NO_TIME, F_MWALL, F_MMONO);
    if at == 2 || at == 3 {
      TimeFrom(fs, m, NO_TIME, F_RWALL, o, clock);
    } else {
      NoTimeFrom(fs, NO_TIME, F_RWALL);
    }
    if at == 4 {
      TimeFrom(fs, m, NO_TIME, F_MWALL, o, clock);
      TimeFrom(fs, m, receive, F_MWALL, o, clock);
    } else {
      NoTimeFrom(fs, NO_TIME, F_MWALL);
      NoTimeFrom(fs, receive, F_MWALL);
    }
    if at == 1 || at == 3 {
      TimeFrom(fs, m, midpoint, F_SWALL, if at == 3 then o + ClockLen(clock) else o, clock);
    } else {
      NoTimeFrom(fs, midpoint, F_SWALL);
    }
  }

  /** What a client reads from the bytes of a reply it takes: token, seqno, then the statistics and stamps it asked
      for, each where the others asked for put it, whether or not the reply is that long. */
  function Reading(m: seq<byte>, n: nat, sealed: bool, s: Settings): Decoded
    requires MAX_HEADER_LEN <= |m| && s.Valid()
  {
    var o := Base(sealed);
    var c := CountLen(s.stats);
    Decoded(GetLE(m[o..o + 8]), GetLE(m[o + 8..o + 12]),
            if s.stats == 1 || s.stats == 3 then Some(GetLE(m[o + 12..o + 16])) else None,
            if s.stats == 2 || s.stats == 3 then Some(GetLE(m[o + 12 + c..o + 20 + c])) else None,
            StampFrom(m, StampBase(sealed, s.stats), s.at, s.clock), n)
  }

  lemma ValuesFrom(m: seq<byte>, m': seq<byte>, n: nat, sealed: bool, s: Settings)
    requires MAX_HEADER_LEN <= |m| == |m'| && n <= |m| && m'[Base(sealed)..] == m[Base(sealed)..] && s.Valid()
    ensures var b := FramedAs(m', n, Expected(sealed, s)); IsSized(b.fs) && Values(b) == Reading(m, n, sealed, s)
  {
    var w, base := Expected(sealed, s), Base(sealed);
    var fs := FramedAs(m', n, w).fs;
    ExpectedOffsets(sealed, s);
    FieldFrom(m, m', base, n, w, F_CONN_TOKEN);
    FieldFrom(m, m', base, n, w, F_SEQNO);
    FieldFrom(m, m', base, n, w, F_RCOUNT);
    FieldFrom(m, m', base, n, w, F_RWINDOW);
    StampValueFrom(m, m', n, sealed, s);
  }

  lemma StampValueFrom(m: seq<byte>, m': seq<byte>, n: nat, sealed: bool, s: Settings)
    requires MAX_HEADER_LEN <= |m| == |m'| && n <= |m| && m'[Base(sealed)..] == m[Base(sealed)..] && s.Valid()
    ensures var fs := FramedAs(m', n, Expected(sealed, s)).fs;
            IsSized(fs) && GetStamp(fs) == StampFrom(m, StampBase(sealed, s.stats), s.at, s.clock)
  {
    var w, o := Expected(sealed, s), StampBase(sealed, s.stats);
    StampOffsets(sealed, s);
    ReceiveFrom(m, m', n, sealed, s);
    MidpointFrom(m, m', n, sealed, s);
    SendFrom(m, m', n, sealed, s);
    FieldStamp(FramedAs(m', n, w).fs, m, o, s.at, s.clock);
  }

  lemma ReceiveFrom(m: seq<byte>, m': seq<byte>, n: nat, sealed: bool, s: Settings)
    requires MAX_HEADER_LEN <= |m| == |m'| && n <= |m| && m'[Base(sealed)..] == m[Base(sealed)..] && s.Valid()
    requires StampBase(sealed, s.stats) + 32 <= |m|
    ensures IsStampField(FramedAs(m', n, Expected(sealed, s)).fs, m, F_RWALL, s.at == 2 || s.at == 3,
                         StampBase(sealed, s.stats), s.clock)
  {
    StampLens(sealed, s);
    StampOffsets(sealed, s);
    StampFieldFrom(m, m', Base(sealed), n, Expected(sealed, s), F_RWALL, s.at == 2 || s.at == 3,
                   StampBase(sealed, s.stats), s.clock);
  }

  lemma MidpointFrom(m: seq<byte>, m': seq<byte>, n: nat, sealed: bool, s: Settings)
    requires MAX_HEADER_LEN <= |m| == |m'| && n <= |m| && m'[Base(sealed)..] == m[Base(sealed)..] && s.Valid()
    requires StampBase(sealed, s.stats) + 32 <= |m|
    ensures IsStampField(FramedAs(m', n, Expected(sealed, s)).fs, m, F_MWALL, s.at == 4,
                         StampBase(sealed, s.stats), s.clock)
  {
    StampLens(sealed, s);
    StampOffsets(sealed, s);
    StampFieldFrom(m, m', Base(sealed), n, Expected(sealed, s), F_MWALL, s.at == 4,
                   StampBase(sealed, s.stats), s.clock);
  }

  lemma SendFrom(m: seq<byte>, m': seq<byte>, n: nat, sealed: bool, s: Settings)
    requires MAX_HEADER_LEN <= |m| == |m'| && n <= |m| && m'[Base(sealed)..] == m[Base(sealed)..] && s.Valid()
    requires StampBase(sealed, s.stats) + 32 <= |m|
    ensures var o := StampBase(sealed, s.stats);
            IsStampField(FramedAs(m', n, Expected(sealed, s)).fs, m, F_SWALL, s.at == 1 || s.at == 3,
                         if s.at == 3 then o + ClockLen(s.clock) else o, s.clock)
  {
    var o := StampBase(sealed, s.stats);
    StampLens(sealed, s);
    StampOffsets(sealed, s);
    StampFieldFrom(m, m', Base(sealed), n, Expected(sealed, s), F_SWALL, s.at == 1 || s.at == 3,
                   if s.at == 3 then o + ClockLen(s.clock) else o, s.clock);
  }

  /** What a client makes of n bytes: the error of validation; or that it is no reply, closes, opens or is too short,
      the first of these that applies; or what it reads where the fields it asked for stand. */
  lemma DecodesExactly(m: seq<byte>, n: nat, mac: Option<Mac>, s: Settings)
    requires MAX_HEADER_LEN <= |m| && n <= |m| && s.Valid()
    ensures !Passes(m[..n], mac) ==>
              ReadError(m, n, mac).Some? && Decode(m, n, mac, s) == Err(Unreadable(ReadError(m, n, mac).value))
    ensures Passes(m[..n], mac) ==>
              var fl := m[3];
              Decode(m, n, mac, s) == if fl / 2 % 2 == 0 then Err(ExpectedReplyFlag)
                                      else if fl / 4 % 2 == 1 then Err(ServerClosed)
                                      else if fl % 2 == 1 then Err(UnexpectedOpenFlag)
                                      else if n < s.length then Err(ShortReply)
                                      else Ok(Reading(m, n, mac.Some?, s))
  {
    PassesExactly(m, n, mac);
    if ReadError(m, n, mac) == None {
      LeavesRest(m, n, mac);
      RestDecodes(m, AfterRead(m, n, mac).Memory(), m[3], n, mac.Some?, s);
    }
  }

  lemma RestDecodes(m: seq<byte>, m': seq<byte>, fl: byte, n: nat, sealed: bool, s: Settings)
    requires MAX_HEADER_LEN <= |m| == |m'| && n <= |m| && m'[Base(sealed)..] == m[Base(sealed)..] && s.Valid()
    ensures DecodeRest(m', fl, n, sealed, s)
         == if fl / 2 % 2 == 0 then Err(ExpectedReplyFlag)
            else if fl / 4 % 2 == 1 then Err(ServerClosed)
            else if fl % 2 == 1 then Err(UnexpectedOpenFlag)
            else if n < s.length then Err(ShortReply)
            else Ok(Reading(m, n, sealed, s))
  {
    FlagBits(fl);
    StampChecksNeverFail(m', n, sealed, s);
    ValuesFrom(m, m', n, sealed, s);
  }

  // Numbers.

  /** Each byte of a number is its digit to the base 256, least significant first. */
  lemma {:induction false} LittleEndian(n: nat, k: nat, i: nat)
    requires i < k
    ensures Pow256(i) > 0 && PutLE(n, k)[i] == n / Pow256(i) % 256
  {
    if i > 0 {
      LittleEndian(n / 256, k - 1, i - 1);
      DivDiv(n, 256, Pow256(i - 1), Pow256(i));
    }
  }
}
