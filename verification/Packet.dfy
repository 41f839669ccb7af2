/** The packet format: fields and their sizes, flags, validation and the HMAC seal, over the field buffer. */
module Packet {
  import opened BitOps
  import opened Layout
  import opened Octets
  import opened Times
  import F = Fbuf

  const F_MAGIC: nat := 0
  const F_FLAGS: nat := 1
  const F_HMAC: nat := 2
  const F_CONN_TOKEN: nat := 3
  const F_SEQNO: nat := 4
  const F_RCOUNT: nat := 5
  const F_RWINDOW: nat := 6
  const F_RWALL: nat := 7
  const F_RMONO: nat := 8
  const F_MWALL: nat := 9
  const F_MMONO: nat := 10
  const F_SWALL: nat := 11
  const F_SMONO: nat := 12
  const FCOUNT: nat := 13

  const CAPS: seq<nat> := [3, 1, 16, 8, 4, 4, 8, 8, 8, 8, 8, 8, 8]

  const MAX_HEADER_LEN: nat := 92

  const MAGIC: seq<byte> := [0x14, 0xa7, 0x5b]

  // Flags, by bit number.
  const FL_OPEN: nat := 0
  const FL_REPLY: nat := 1
  const FL_CLOSE: nat := 2
  const FL_HMAC: nat := 3

  const FL_ALL: nat := 15

  type Digest = d: seq<byte> | |d| == 16 witness ZERO_DIGEST

  const ZERO_DIGEST: seq<byte> := [0, 0, 0, 0, 0, 0, 0, 0, 0, 0, 0, 0, 0, 0, 0, 0]

  /** HMAC-MD5 under a key (RFC 2104, section 2), as a function nothing is known about. */
  type Mac = seq<byte> -> Digest

  datatype Error =
    | FieldsLengthTooLarge | BadMagic | InvalidFlagBitsSet | NonexclusiveMidpointTStamp
    | InconsistentClocks | NoHMAC | BadHMAC | UnexpectedHMAC

  // Sizes.

  lemma CapsTotal()
    ensures Total(CAPS) == MAX_HEADER_LEN
  {
    assert Off(CAPS, 1) == 3;
    assert Off(CAPS, 2) == 4;
    assert Off(CAPS, 3) == 20;
    assert Off(CAPS, 4) == 28;
    assert Off(CAPS, 5) == 32;
    assert Off(CAPS, 6) == 36;
    assert Off(CAPS, 7) == 44;
    assert Off(CAPS, 8) == 52;
    assert Off(CAPS, 9) == 60;
    assert Off(CAPS, 10) == 68;
    assert Off(CAPS, 11) == 76;
    assert Off(CAPS, 12) == 84;
  }

  /** Full length for the fields wanted, nothing for the others. */
  function LensFor(wanted: set<int>): (r: seq<nat>)
    ensures |r| == FCOUNT
    ensures Total(r) <= MAX_HEADER_LEN
  {
    var r := seq(FCOUNT, i requires 0 <= i < FCOUNT => if i in wanted then CAPS[i] else 0);
    OffBelow(r, CAPS, FCOUNT);
    CapsTotal();
    r
  }

  lemma {:induction false} OffZeroes(lens: seq<nat>, k: nat, i: nat)
    requires k <= i <= |lens| && forall j :: k <= j < i ==> lens[j] == 0
    ensures Off(lens, i) == Off(lens, k)
  {
    if k < i {
      OffZeroes(lens, k, i - 1);
    }
  }

  /** The fields a packet is read with before anything else is known about it. */
  function InitWanted(sealed: bool): set<int>
  {
    if sealed then {F_MAGIC, F_FLAGS, F_HMAC} else {F_MAGIC, F_FLAGS}
  }

  lemma InitOffsets(sealed: bool)
    ensures var lens := LensFor(InitWanted(sealed));
            && Off(lens, F_MAGIC) == 0 && Off(lens, F_FLAGS) == 3 && Off(lens, F_HMAC) == 4
            && Total(lens) == if sealed then 20 else 4
  {
    var lens := LensFor(InitWanted(sealed));
    assert Off(lens, 1) == 3;
    assert Off(lens, 2) == 4;
    OffZeroes(lens, 3, FCOUNT);
  }

  // Reading.

  function FlagsOf(b: Buf): byte
    requires |b.fs| == FCOUNT && |b.fs[F_FLAGS]| == 1
  {
    b.fs[F_FLAGS][0]
  }

  /** n bytes in memory m, read as the wanted fields and a payload. */
  ghost function FramedAs(m: seq<byte>, n: nat, wanted: set<int>): (b: Buf)
    requires MAX_HEADER_LEN <= |m| && n <= |m|
    ensures |b.fs| == FCOUNT && b.Memory() == m && b.blen == n
    ensures forall i {:trigger b.fs[i]} :: 0 <= i < FCOUNT ==> |b.fs[i]| == if i in wanted then CAPS[i] else 0
    ensures b.HeaderLen() == Total(LensFor(wanted))
    ensures Total(LensFor(wanted)) <= n ==> WellFormed(b, CAPS)
  {
    var lens := LensFor(wanted);
    CapsTotal();
    FlatCut(m, lens, FCOUNT);
    Buf(Cut(m, lens), m[Total(lens)..], n, n)
  }

  /** A packet of n bytes in memory m, before validation. */
  ghost function Header(m: seq<byte>, n: nat, sealed: bool): (b: Buf)
    requires MAX_HEADER_LEN <= |m| && n <= |m|
    ensures |b.fs| == FCOUNT && b.IsSet(F_FLAGS) && b.IsSet(F_HMAC) == sealed
    ensures (if sealed then 20 else 4) <= n ==> WellFormed(b, CAPS)
    ensures b.Memory() == m && b.blen == n
  {
    InitOffsets(sealed);
    FramedAs(m, n, InitWanted(sealed))
  }

  predicate HasReceiveStamp(b: Buf) requires |b.fs| == FCOUNT { b.IsSet(F_RWALL) || b.IsSet(F_RMONO) }

  predicate HasMidpointStamp(b: Buf) requires |b.fs| == FCOUNT { b.IsSet(F_MWALL) || b.IsSet(F_MMONO) }

  predicate HasSendStamp(b: Buf) requires |b.fs| == FCOUNT { b.IsSet(F_SWALL) || b.IsSet(F_SMONO) }

  predicate SameClocks(b: Buf)
    requires |b.fs| == FCOUNT
  {
    b.IsSet(F_RWALL) == b.IsSet(F_SWALL) && b.IsSet(F_RMONO) == b.IsSet(F_SMONO)
  }

  /** The packet with its HMAC field zeroed. */
  ghost function Zeroed(b: Buf): (b': Buf)
    requires WellFormed(b, CAPS) && b.IsSet(F_HMAC)
    ensures WellFormed(b', CAPS) && b'.blen == b.blen && |b'.Memory()| == |b.Memory()|
  {
    SetFieldLaw(b, CAPS, F_HMAC, ZERO_DIGEST);
    b.(fs := b.fs[F_HMAC := ZERO_DIGEST])
  }

  ghost predicate Authentic(b: Buf, mac: Mac)
    requires WellFormed(b, CAPS) && b.IsSet(F_HMAC)
  {
    b.fs[F_HMAC] == mac(Zeroed(b).Wire())
  }

  function StampVerdict(b: Buf): Option<Error>
    requires |b.fs| == FCOUNT
  {
    if HasMidpointStamp(b) && (HasReceiveStamp(b) || HasSendStamp(b)) then Some(NonexclusiveMidpointTStamp)
    else if HasReceiveStamp(b) && HasSendStamp(b) && !SameClocks(b) then Some(InconsistentClocks)
    else None
  }

  function HeaderVerdict(b: Buf): Option<Error>
    requires |b.fs| == FCOUNT && |b.fs[F_FLAGS]| == 1
  {
    if b.fs[F_MAGIC] != MAGIC then Some(BadMagic)
    else if FlagsOf(b) > FL_ALL then Some(InvalidFlagBitsSet)
    else StampVerdict(b)
  }

  ghost function MacVerdict(b: Buf, mac: Option<Mac>): Option<Error>
    requires WellFormed(b, CAPS) && b.IsSet(F_FLAGS) && (mac.Some? ==> b.IsSet(F_HMAC))
  {
    if mac.Some? then
      if !HasBit(FlagsOf(b), FL_HMAC) then Some(NoHMAC)
      else if !Authentic(b, mac.value) then Some(BadHMAC)
      else None
    else if HasBit(FlagsOf(b), FL_HMAC) then Some(UnexpectedHMAC)
    else None
  }

  ghost function Verdict(b: Buf, mac: Option<Mac>): Option<Error>
    requires WellFormed(b, CAPS) && b.IsSet(F_FLAGS) && (mac.Some? ==> b.IsSet(F_HMAC))
  {
    if HeaderVerdict(b) != None then HeaderVerdict(b) else MacVerdict(b, mac)
  }

  lemma HeaderFields(m: seq<byte>, n: nat, sealed: bool)
    requires MAX_HEADER_LEN <= |m| && n <= |m|
    ensures var b := Header(m, n, sealed);
            && b.fs[F_MAGIC] == m[..3] && b.fs[F_FLAGS] == [m[3]] && (sealed ==> b.fs[F_HMAC] == m[4..20])
            && !HasReceiveStamp(b) && !HasMidpointStamp(b) && !HasSendStamp(b)
  {
    var lens := LensFor(InitWanted(sealed));
    InitOffsets(sealed);
    assert FieldAt(m, lens, 0) == m[..3] && FieldAt(m, lens, 1) == [m[3]];
    assert sealed ==> FieldAt(m, lens, 2) == m[4..20];
  }

  ghost function ReadError(m: seq<byte>, n: nat, mac: Option<Mac>): Option<Error>
    requires MAX_HEADER_LEN <= |m| && n <= |m|
  {
    if n < (if mac.Some? then 20 else 4) then Some(FieldsLengthTooLarge)
    else Verdict(Header(m, n, mac.Some?), mac)
  }

  /** A packet that passed: validation leaves its HMAC field zeroed. */
  ghost function AfterRead(m: seq<byte>, n: nat, mac: Option<Mac>): (b: Buf)
    requires MAX_HEADER_LEN <= |m| && n <= |m| && ReadError(m, n, mac) == None
    ensures WellFormed(b, CAPS) && b.blen == n && |b.Memory()| == |m|
    ensures |b.fs[F_FLAGS]| == 1
  {
    if mac.Some? then Zeroed(Header(m, n, true)) else Header(m, n, false)
  }

  /** Setting a field that is there overwrites its bytes. */
  lemma {:induction false} FlatOverwritten(fs: seq<seq<byte>>, f: nat, x: seq<byte>, i: nat)
    requires f < |fs| && i <= |fs| && |fs[f]| == |x|
    ensures i <= f ==> Flat(fs[f := x], i) == Flat(fs, i)
    ensures i > f ==> IsOverwritten(Flat(fs[f := x], i), Flat(fs, i), Off(Lens(fs), f), x)
  {
    FlatLength(fs, f);
    if i > 0 {
      FlatOverwritten(fs, f, x, i - 1);
    }
  }

  lemma MemoryOverwritten(b: Buf, f: nat, x: seq<byte>)
    requires f < |b.fs| && |b.fs[f]| == |x|
    ensures IsOverwritten(b.(fs := b.fs[f := x]).Memory(), b.Memory(), Off(Lens(b.fs), f), x)
  {
    FlatOverwritten(b.fs, f, x, |b.fs|);
  }

  // Sealing.

  /** The packet over which the HMAC is computed: flag set, field zeroed. */
  ghost function Marked(b: Buf, mac: Option<Mac>): (b': Buf)
    requires WellFormed(b, CAPS) && b.IsSet(F_FLAGS) && (mac.Some? ==> b.IsSet(F_HMAC))
    ensures WellFormed(b', CAPS) && b'.blen == b.blen && |b'.Memory()| == |b.Memory()|
  {
    if mac.None? then b
    else
      var x := [SetBit(FlagsOf(b), FL_HMAC)];
      SetFieldLaw(b, CAPS, F_FLAGS, x);
      Zeroed(SetField(b, F_FLAGS, x))
  }

  /** The packet as sent. */
  ghost function Sealed(b: Buf, mac: Option<Mac>): (b': Buf)
    requires WellFormed(b, CAPS) && b.IsSet(F_FLAGS) && (mac.Some? ==> b.IsSet(F_HMAC))
    ensures WellFormed(b', CAPS) && b'.blen == b.blen && |b'.Memory()| == |b.Memory()|
  {
    var m := Marked(b, mac);
    if mac.None? then m
    else
      var x := mac.value(m.Wire());
      SetFieldLaw(m, CAPS, F_HMAC, x);
      m.(fs := m.fs[F_HMAC := x])
  }

  lemma {:induction false} OffAgrees(lens: seq<nat>, more: seq<nat>, k: nat)
    requires k <= |lens| && k <= |more| && forall i :: 0 <= i < k ==> lens[i] == more[i]
    ensures Off(lens, k) == Off(more, k)
  {
    if k > 0 {
      OffAgrees(lens, more, k - 1);
    }
  }

  /** A packet whose header starts with its first three fields in place. */
  ghost predicate IsSendable(b: Buf, mac: Option<Mac>)
  {
    && WellFormed(b, CAPS)
    && b.fs[F_MAGIC] == MAGIC
    && b.IsSet(F_FLAGS) && FlagsOf(b) <= FL_ALL
    && b.IsSet(F_HMAC) == mac.Some?
    && (mac.None? ==> !HasBit(FlagsOf(b), FL_HMAC))
  }

  lemma SendableOffsets(b: Buf, mac: Option<Mac>)
    requires IsSendable(b, mac)
    ensures Off(Lens(b.fs), F_FLAGS) == 3 && Off(Lens(b.fs), F_HMAC) == 4
    ensures b.HeaderLen() >= if mac.Some? then 20 else 4
  {
    var lens := Lens(b.fs);
    assert Off(lens, 1) == 3;
    assert Off(lens, 2) == 4;
    assert Off(lens, 3) == if mac.Some? then 20 else 4;
    OffMonotone(lens, 3, FCOUNT);
    FlatLength(b.fs, FCOUNT);
  }

  /** The first bytes on the wire. */
  lemma WireStart(b: Buf, mac: Option<Mac>)
    requires IsSendable(b, mac)
    ensures var w := b.Wire();
            && |w| >= (if mac.Some? then 20 else 4)
            && w[..3] == MAGIC && w[3] == FlagsOf(b) && (mac.Some? ==> w[4..20] == b.fs[F_HMAC])
  {
    SendableOffsets(b, mac);
    FlatAt(b.fs, FCOUNT, F_MAGIC);
    FlatAt(b.fs, FCOUNT, F_FLAGS);
    FlatAt(b.fs, FCOUNT, F_HMAC);
    var flat := Flat(b.fs, FCOUNT);
    WireSlice(flat, b.tail, b.blen, 0, 3);
    WireSlice(flat, b.tail, b.blen, 3, 4);
    assert flat[3..4] == [FlagsOf(b)] && b.Wire()[3] == b.Wire()[3..4][0];
    if mac.Some? {
      WireSlice(flat, b.tail, b.blen, 4, 20);
    }
  }

  lemma WireSlice(flat: seq<byte>, tail: seq<byte>, n: nat, i: nat, j: nat)
    requires i <= j <= |flat| <= n <= |flat + tail|
    ensures (flat + tail)[..n][i..j] == flat[i..j]
  {
  }

  lemma SealedSendable(b: Buf, mac: Option<Mac>)
    requires IsSendable(b, mac)
    ensures IsSendable(Sealed(b, mac), mac)
    ensures mac.Some? ==> IsSendable(Marked(b, mac), mac) && HasBit(FlagsOf(Sealed(b, mac)), FL_HMAC)
  {
  }

  /** A packet's bytes with zeroes in place of the HMAC. */
  function Blank(w: seq<byte>): seq<byte>
    requires |w| >= 20
  {
    w[..4] + ZERO_DIGEST + w[20..]
  }

  lemma ZeroedWire(m: seq<byte>, n: nat)
    requires 20 <= n <= |m| && MAX_HEADER_LEN <= |m|
    ensures Zeroed(Header(m, n, true)).Wire() == Blank(m[..n])
  {
    var h := Header(m, n, true);
    InitOffsets(true);
    LensCut(m, LensFor(InitWanted(true)));
    MemoryOverwritten(h, F_HMAC, ZERO_DIGEST);
  }

  /** What of a packet's bytes decides whether it is let in. */
  ghost predicate Passes(w: seq<byte>, mac: Option<Mac>)
  {
    && |w| >= (if mac.Some? then 20 else 4)
    && w[..3] == MAGIC && w[3] <= FL_ALL && HasBit(w[3], FL_HMAC) == mac.Some?
    && (mac.Some? ==> w[4..20] == mac.value(Blank(w)))
  }

  lemma StartOf(m: seq<byte>, n: nat)
    requires 4 <= n <= |m|
    ensures m[..n][..3] == m[..3] && m[..n][3] == m[3]
    ensures n >= 20 ==> m[..n][4..20] == m[4..20]
  {
  }

  /** Without time stamps, the checks on them never fire. */
  lemma StamplessVerdict(b: Buf, mac: Option<Mac>)
    requires WellFormed(b, CAPS) && b.IsSet(F_FLAGS) && (mac.Some? ==> b.IsSet(F_HMAC))
    requires !HasReceiveStamp(b) && !HasMidpointStamp(b) && !HasSendStamp(b)
    ensures Verdict(b, mac) == None
       <==> b.fs[F_MAGIC] == MAGIC && FlagsOf(b) <= FL_ALL && HasBit(FlagsOf(b), FL_HMAC) == mac.Some?
            && (mac.Some? ==> Authentic(b, mac.value))
    ensures Verdict(b, mac) != Some(NonexclusiveMidpointTStamp) && Verdict(b, mac) != Some(InconsistentClocks)
  {
  }

  /** Validation after a read lets a packet in exactly if its magic and flags are right and it has an HMAC
      exactly when there is a key, the one of its own bytes. The checks on time stamps never fire there. */
  lemma PassesExactly(m: seq<byte>, n: nat, mac: Option<Mac>)
    requires MAX_HEADER_LEN <= |m| && n <= |m|
    ensures ReadError(m, n, mac) == None <==> Passes(m[..n], mac)
    ensures ReadError(m, n, mac) !in {Some(NonexclusiveMidpointTStamp), Some(InconsistentClocks)}
  {
    if n >= if mac.Some? then 20 else 4 {
      var b := Header(m, n, mac.Some?);
      HeaderFields(m, n, mac.Some?);
      StamplessVerdict(b, mac);
      StartOf(m, n);
      if mac.Some? {
        ZeroedWire(m, n);
      }
    }
  }

  /** The HMAC is computed over the sealed packet's own bytes without it. */
  lemma SealedBlank(b: Buf, mac: Mac)
    requires IsSendable(b, Some(mac))
    ensures |Sealed(b, Some(mac)).Wire()| >= 20
    ensures Blank(Sealed(b, Some(mac)).Wire()) == Marked(b, Some(mac)).Wire()
  {
    var k, s := Marked(b, Some(mac)), Sealed(b, Some(mac));
    SealedSendable(b, Some(mac));
    WireStart(k, Some(mac));
    WireStart(s, Some(mac));
    SendableOffsets(k, Some(mac));
    MemoryOverwritten(k, F_HMAC, s.fs[F_HMAC]);
    BlankBack(s.Wire(), k.Wire(), s.fs[F_HMAC]);
  }

  lemma BlankBack(s: seq<byte>, k: seq<byte>, x: Digest)
    requires IsOverwritten(s, k, 4, x) && k[4..20] == ZERO_DIGEST
    ensures Blank(s) == k
  {
    forall i | 0 <= i < |k|
      ensures Blank(s)[i] == k[i]
    {
      assert 4 <= i < 20 ==> k[4..20][i - 4] == k[i];
    }
  }

  /** A packet sealed under a key passes validation under the same key, and leaves the bytes that were
      sealed; without a key, the bytes that were sent. */
  lemma SealedPasses(b: Buf, mac: Option<Mac>, m: seq<byte>)
    requires IsSendable(b, mac) && b.blen <= |m| && MAX_HEADER_LEN <= |m|
    requires m[..b.blen] == Sealed(b, mac).Wire()
    ensures ReadError(m, b.blen, mac) == None
    ensures AfterRead(m, b.blen, mac).Wire() == Marked(b, mac).Wire()
  {
    SealedSendable(b, mac);
    WireStart(Sealed(b, mac), mac);
    PassesExactly(m, b.blen, mac);
    if mac.Some? {
      SealedBlank(b, mac.value);
      ZeroedWire(m, b.blen);
    }
  }

  // Fields as numbers and times.

  function PutInt64(x: int64): (b: seq<byte>)
    ensures |b| == 8
  {
    PutLE(ToUnsigned(x), 8)
  }

  function GetInt64(b: seq<byte>): int64
    requires |b| == 8
  {
    GetLEBound(b);
    Pow256Values();
    ToSigned(GetLE(b))
  }

  lemma Int64RoundTrip(x: int64)
    ensures GetInt64(PutInt64(x)) == x
  {
    Pow256Values();
    GetPutLE(ToUnsigned(x), 8);
  }

  predicate Fits(t: Time)
  {
    && -0x8000_0000_0000_0000 <= t.wall < 0x8000_0000_0000_0000
    && -0x8000_0000_0000_0000 <= t.mono < 0x8000_0000_0000_0000
  }

  // Which statistics and stamps: bit numbers of the settings.
  const STATS_COUNT: nat := 0
  const STATS_WINDOW: nat := 1
  const AT_SEND: nat := 0
  const AT_RECEIVE: nat := 1
  const AT_MIDPOINT: nat := 2
  const MIDPOINT: nat := 4
  const WALL: nat := 0
  const MONOTONIC: nat := 1

  /** A clock that is not available, 0, is not put. */
  function PutClock(fs: seq<seq<byte>>, v: int64, f: nat): (r: seq<seq<byte>>)
    requires f < |fs|
    ensures |r| == |fs|
  {
    if v != 0 then fs[f := PutInt64(v)] else fs
  }

  function PutTime(fs: seq<seq<byte>>, t: Time, wf: nat, mf: nat): (r: seq<seq<byte>>)
    requires wf < |fs| && mf < |fs| && Fits(t)
    ensures |r| == |fs|
  {
    PutClock(PutClock(fs, t.wall, wf), t.mono, mf)
  }

  function PutStamp(fs: seq<seq<byte>>, at: nat, ts: Timestamp): (r: seq<seq<byte>>)
    requires |fs| == FCOUNT && Fits(ts.receive) && Fits(ts.send)
    ensures |r| == |fs|
  {
    if at == MIDPOINT then PutTime(fs, ts.receive, F_MWALL, F_MMONO)
    else
      var fs1 := if HasBit(at, AT_RECEIVE) then PutTime(fs, ts.receive, F_RWALL, F_RMONO) else fs;
      if HasBit(at, AT_SEND) then PutTime(fs1, ts.send, F_SWALL, F_SMONO) else fs1
  }

  /** Each field is empty or full. */
  predicate IsSized(fs: seq<seq<byte>>)
  {
    |fs| == FCOUNT && forall i {:trigger fs[i]} :: 0 <= i < FCOUNT ==> |fs[i]| == 0 || |fs[i]| == CAPS[i]
  }

  function GetTime(fs: seq<seq<byte>>, t: Time, wf: nat, mf: nat): (r: Time)
    requires IsSized(fs) && F_RWALL <= wf < FCOUNT && F_RWALL <= mf < FCOUNT
  {
    Time(if fs[wf] != [] then GetInt64(fs[wf]) else t.wall, if fs[mf] != [] then GetInt64(fs[mf]) else t.mono)
  }

  function GetStamp(fs: seq<seq<byte>>): (r: Timestamp)
    requires IsSized(fs)
  {
    Timestamp(GetTime(fs, GetTime(fs, NO_TIME, F_RWALL, F_RMONO), F_MWALL, F_MMONO),
              GetTime(fs, GetTime(fs, NO_TIME, F_MWALL, F_MMONO), F_SWALL, F_SMONO))
  }

  // The packet object.

  lemma CapPositive(f: nat)
    requires f < FCOUNT
    ensures CAPS[f] > 0
  {
  }

  lemma TimeCap(f: nat)
    requires F_RWALL <= f < FCOUNT
    ensures CAPS[f] == 8
  {
  }

  /** Nothing after the fields, so that fields can still be inserted. */
  ghost predicate IsBare(b: Buf)
  {
    WellFormed(b, CAPS) && b.blen == b.HeaderLen() && b.tlen <= b.HeaderLen()
  }

  ghost predicate Became(b: Buf, was: Buf, fs: seq<seq<byte>>)
  {
    IsBare(b) && b.fs == fs && b.tlen == was.tlen && |b.Memory()| == |was.Memory()|
  }

  /** In a bare packet any field can be set, and stays apart from the others. */
  lemma BareSet(b: Buf, f: nat, x: seq<byte>)
    requires IsBare(b) && f < FCOUNT && |x| == CAPS[f]
    ensures Settable(b, f, |x|) && Became(SetField(b, f, x), b, b.fs[f := x])
  {
    var fs := b.fs[f := x];
    CapPositive(f);
    FlatLength(fs, FCOUNT);
    FlatUpdate(b.fs, f, x, FCOUNT);
    OffBelow(Lens(fs), CAPS, FCOUNT);
    CapsTotal();
    SetFieldLaw(b, CAPS, f, x);
  }

  lemma FramedLens(lens: seq<nat>, sealed: bool)
    requires |lens| == FCOUNT
    ensures NewLens(CAPS, lens, Picked(InitList(sealed), FCOUNT, 0), false) == LensFor(InitWanted(sealed))
  {
    PickedAll(InitList(sealed), FCOUNT, 0);
  }

  function InitList(sealed: bool): seq<int>
  {
    if sealed then [F_MAGIC, F_FLAGS, F_HMAC] else [F_MAGIC, F_FLAGS]
  }

  /** Adding fields that are set already changes nothing. */
  lemma ReframeSame(b: Buf, f: nat)
    requires WellFormed(b, CAPS) && f < FCOUNT && b.IsSet(f)
    ensures NewLens(CAPS, Lens(b.fs), Picked([f], FCOUNT, 0), true) == Lens(b.fs)
    ensures Total(Lens(b.fs)) <= |b.Memory()| && Reframe(b, Lens(b.fs)) == b
  {
    NewLensSame(b, f);
    CutFlat(b.fs, b.tail);
  }

  lemma NewLensSame(b: Buf, f: nat)
    requires WellFormed(b, CAPS) && f < FCOUNT && b.IsSet(f)
    ensures NewLens(CAPS, Lens(b.fs), Picked([f], FCOUNT, 0), true) == Lens(b.fs)
  {
    PickedAll([f], FCOUNT, 0);
    assert |b.fs[f]| == CAPS[f];
  }

  function NewFields(): seq<F.Field>
  {
    seq(FCOUNT, i requires 0 <= i < FCOUNT => F.Field(0, 0, CAPS[i]))
  }

  lemma NewFieldsTiled()
    ensures F.Tiled(NewFields()) && F.CapsOf(NewFields()) == CAPS && Total(F.LensOf(NewFields())) == 0
  {
    var fs := NewFields();
    forall i | 0 <= i <= FCOUNT
      ensures Off(F.LensOf(fs), i) == 0
    {
      OffZeroes(F.LensOf(fs), 0, i);
    }
  }

  ghost predicate IsZero(m: seq<byte>)
  {
    forall k :: 0 <= k < |m| ==> m[k] == 0
  }

  /** A new packet: no flags, no other fields than magic, flags and perhaps the HMAC. */
  ghost predicate IsBlankPacket(fs: seq<seq<byte>>, sealed: bool)
  {
    Lens(fs) == LensFor(InitWanted(sealed)) && fs[F_FLAGS] == [0]
  }

  lemma BlankBare(was: Buf, b: Buf, wanted: set<int>)
    requires MAX_HEADER_LEN <= |was.Memory()| && Total(LensFor(wanted)) <= |was.Memory()|
    requires b == SetLen(Reframe(was, LensFor(wanted)), Total(LensFor(wanted)))
    ensures IsBare(b) && b.fs == FramedAs(was.Memory(), 0, wanted).fs
  {
    var lens := LensFor(wanted);
    ReframeLaw(was, lens);
    CapsTotal();
    assert forall i :: 0 <= i < FCOUNT ==> |b.fs[i]| == lens[i];
  }

  lemma BlankFields(m: seq<byte>, sealed: bool)
    requires MAX_HEADER_LEN <= |m| && IsZero(m)
    ensures IsBlankPacket(FramedAs(m, 0, InitWanted(sealed)).fs, sealed)
  {
    HeaderFields(m, 0, sealed);
    LensCut(m, LensFor(InitWanted(sealed)));
  }

  lemma BlankStart(was: Buf, b: Buf, sealed: bool)
    requires MAX_HEADER_LEN <= |was.Memory()| && IsZero(was.Memory())
    requires b == SetLen(Reframe(was, LensFor(InitWanted(sealed))), Total(LensFor(InitWanted(sealed))))
    ensures IsBare(b) && IsBlankPacket(b.fs, sealed)
  {
    BlankBare(was, b, InitWanted(sealed));
    BlankFields(was.Memory(), sealed);
  }

  class Packet {
    const fb: F.Fbuf
    const mac: Option<Mac>

    ghost predicate Framed()
      reads fb
    {
      fb.Framed() && fb.Caps() == CAPS
    }

    ghost predicate Valid()
      reads fb
    {
      Framed() && fb.Valid()
    }

    ghost function View(): (b: Buf)
      requires Framed()
      reads fb, fb.mem
      ensures |b.fs| == FCOUNT && MAX_HEADER_LEN <= |b.Memory()|
      ensures Valid() ==> WellFormed(b, CAPS)
    {
      CapsTotal();
      if Valid() then fb.ViewWellFormed(); fb.View() else fb.View()
    }

    constructor (tlen: nat, capacity: nat, key: Option<Mac>)
      requires tlen <= Max(capacity, MAX_HEADER_LEN)
      ensures Valid() && fresh(fb) && fresh(fb.mem) && mac == key && fb.mem.Length == Max(capacity, MAX_HEADER_LEN)
      ensures IsBare(View()) && View().fs[F_MAGIC] == MAGIC && IsBlankPacket(View().fs, mac.Some?)
    {
      NewFieldsTiled();
      CapsTotal();
      fb := new F.Fbuf(NewFields(), tlen, Max(capacity, MAX_HEADER_LEN));
      mac := key;
      new;
      InitFields();
      ghost var fs := View().fs;
      assert Lens(fs[F_MAGIC := MAGIC]) == Lens(fs) by {
        assert CAPS[F_MAGIC] == |MAGIC|;
        assert Lens(fs)[F_MAGIC] == LensFor(InitWanted(mac.Some?))[F_MAGIC];
      }
      Put(F_MAGIC, MAGIC);
    }

    method FrameToFit()
      requires Framed()
      modifies fb
      ensures Valid() && Total(LensFor(InitWanted(mac.Some?))) <= |old(View()).Memory()|
      ensures var lens := LensFor(InitWanted(mac.Some?));
              View() == SetLen(Reframe(old(View()), lens), Total(lens))
    {
      FramedLens(F.LensOf(fb.fields), mac.Some?);
      var _ := fb.SetFields(InitList(mac.Some?), true);
    }

    /** Frames a zeroed buffer with the fields every packet has. */
    method InitFields()
      requires Framed() && IsZero(fb.mem[..])
      modifies fb
      ensures Valid() && IsBare(View()) && IsBlankPacket(View().fs, mac.Some?)
    {
      ghost var was := View();
      FrameToFit();
      BlankStart(was, View(), mac.Some?);
    }

    method Flags() returns (fl: byte)
      requires Valid() && View().IsSet(F_FLAGS)
      ensures fl == FlagsOf(View())
    {
      var x := fb.Get(F_FLAGS);
      return x[0];
    }

    method SetFlagBit(bit: nat)
      requires Valid() && View().IsSet(F_FLAGS) && bit < 4
      modifies fb, fb.mem
      ensures Valid() && View() == old(View()).(fs := old(View()).fs[F_FLAGS := [SetBit(FlagsOf(old(View())), bit)]])
    {
      var fl := Flags();
      fb.Set(F_FLAGS, [SetBit(fl, bit)]);
    }

    /** Sets a field of a packet that has no payload yet. */
    method Put(f: nat, x: seq<byte>)
      requires Valid() && IsBare(View()) && f < FCOUNT && |x| == CAPS[f]
      modifies fb, fb.mem
      ensures Valid() && Became(View(), old(View()), old(View()).fs[f := x])
    {
      BareSet(View(), f, x);
      fb.Set(f, x);
    }

    /** Overwrites a field that is there. */
    method Overwrite(f: nat, x: seq<byte>)
      requires Valid() && f < FCOUNT && View().IsSet(f) && |x| == CAPS[f]
      modifies fb, fb.mem
      ensures Valid() && View() == old(View()).(fs := old(View()).fs[f := x])
    {
      fb.Set(f, x);
    }

    method SetTime(t: Time, wf: nat, mf: nat)
      requires Valid() && IsBare(View()) && F_RWALL <= wf < FCOUNT && F_RWALL <= mf < FCOUNT && Fits(t)
      modifies fb, fb.mem
      ensures Valid() && Became(View(), old(View()), PutTime(old(View()).fs, t, wf, mf))
    {
      TimeCap(wf);
      TimeCap(mf);
      if t.wall != 0 {
        Put(wf, PutInt64(t.wall));
      }
      if t.mono != 0 {
        Put(mf, PutInt64(t.mono));
      }
    }

    method SetTimestamp(at: nat, ts: Timestamp)
      requires Valid() && IsBare(View()) && Fits(ts.receive) && Fits(ts.send)
      modifies fb, fb.mem
      ensures Valid() && Became(View(), old(View()), PutStamp(old(View()).fs, at, ts))
    {
      if at == MIDPOINT {
        SetTime(ts.receive, F_MWALL, F_MMONO);
        return;
      }
      if HasBit(at, AT_RECEIVE) {
        SetTime(ts.receive, F_RWALL, F_RMONO);
      }
      if HasBit(at, AT_SEND) {
        SetTime(ts.send, F_SWALL, F_SMONO);
      }
    }

    /** Seals the packet if there is a key. */
    method UpdateHMAC()
      requires Valid() && View().IsSet(F_FLAGS) && View().IsSet(F_HMAC) == mac.Some?
      modifies fb, fb.mem
      ensures Valid() && View() == Sealed(old(View()), mac)
    {
      if mac.Some? {
        Mark();
        Sign();
      }
    }

    method Sign()
      requires Valid() && View().IsSet(F_HMAC) && mac.Some?
      modifies fb, fb.mem
      ensures Valid() && View() == old(View()).(fs := old(View()).fs[F_HMAC := mac.value(old(View()).Wire())])
    {
      var x := fb.Bytes();
      Overwrite(F_HMAC, mac.value(x));
    }

    method Mark()
      requires Valid() && View().IsSet(F_FLAGS) && View().IsSet(F_HMAC) && mac.Some?
      modifies fb, fb.mem
      ensures Valid() && View() == Marked(old(View()), mac)
    {
      SetFlagBit(FL_HMAC);
      Overwrite(F_HMAC, ZERO_DIGEST);
    }

    predicate HasStamp(wf: nat, mf: nat)
      requires wf < |fb.fields| && mf < |fb.fields|
      reads fb
    {
      fb.IsSet(wf) || fb.IsSet(mf)
    }

    lemma HasStampView()
      requires Framed()
      ensures |fb.fields| == FCOUNT
      ensures HasStamp(F_RWALL, F_RMONO) == HasReceiveStamp(View())
      ensures HasStamp(F_MWALL, F_MMONO) == HasMidpointStamp(View())
      ensures HasStamp(F_SWALL, F_SMONO) == HasSendStamp(View())
      ensures SameClocks(View()) == (fb.IsSet(F_RWALL) == fb.IsSet(F_SWALL) && fb.IsSet(F_RMONO) == fb.IsSet(F_SMONO))
    {
      fb.IsSetView(F_RWALL);
      fb.IsSetView(F_RMONO);
      fb.IsSetView(F_MWALL);
      fb.IsSetView(F_MMONO);
      fb.IsSetView(F_SWALL);
      fb.IsSetView(F_SMONO);
    }

    method ValidateStamps() returns (err: Option<Error>)
      requires Framed()
      ensures err == StampVerdict(View())
      ensures var b := View();
              var r, m, s := b.IsSet(F_RWALL) || b.IsSet(F_RMONO), b.IsSet(F_MWALL) || b.IsSet(F_MMONO),
                             b.IsSet(F_SWALL) || b.IsSet(F_SMONO);
              && (err == Some(NonexclusiveMidpointTStamp) <==> m && (r || s))
              && (err == Some(InconsistentClocks)
                  <==> r && s && !m && !(b.IsSet(F_RWALL) == b.IsSet(F_SWALL) && b.IsSet(F_RMONO) == b.IsSet(F_SMONO)))
    {
      HasStampView();
      if HasStamp(F_MWALL, F_MMONO) && (HasStamp(F_RWALL, F_RMONO) || HasStamp(F_SWALL, F_SMONO)) {
        return Some(NonexclusiveMidpointTStamp);
      }
      if HasStamp(F_RWALL, F_RMONO) && HasStamp(F_SWALL, F_SMONO) {
        if fb.IsSet(F_RWALL) != fb.IsSet(F_SWALL) || fb.IsSet(F_RMONO) != fb.IsSet(F_SMONO) {
          return Some(InconsistentClocks);
        }
      }
      return None;
    }

    method ValidateHeader() returns (err: Option<Error>)
      requires Valid() && View().IsSet(F_FLAGS)
      ensures err == HeaderVerdict(View())
    {
      var magic := fb.Get(F_MAGIC);
      if magic != MAGIC {
        return Some(BadMagic);
      }
      var fl := Flags();
      if fl > FL_ALL {
        return Some(InvalidFlagBitsSet);
      }
      err := ValidateStamps();
    }

    /** The HMAC field is set already whenever there is a key, so this changes nothing. */
    method AddHMAC()
      requires Valid() && View().IsSet(F_HMAC)
      modifies fb
      ensures Valid() && View() == old(View())
    {
      ghost var was := View();
      ReframeSame(was, F_HMAC);
      fb.ViewLens();
      var _ := fb.AddFields([F_HMAC], false);
    }

    method ValidateHMAC() returns (ok: bool)
      requires Valid() && mac.Some? && View().IsSet(F_HMAC)
      modifies fb, fb.mem
      ensures Valid() && View() == Zeroed(old(View())) && ok == Authentic(old(View()), mac.value)
    {
      AddHMAC();
      var y := fb.Get(F_HMAC);
      var x := ZeroAndHash();
      return y == x;
    }

    method ZeroAndHash() returns (x: Digest)
      requires Valid() && mac.Some? && View().IsSet(F_HMAC)
      modifies fb, fb.mem
      ensures Valid() && View() == Zeroed(old(View())) && x == mac.value(Zeroed(old(View())).Wire())
    {
      Overwrite(F_HMAC, ZERO_DIGEST);
      var bytes := fb.Bytes();
      return mac.value(bytes);
    }

    method Validate() returns (err: Option<Error>)
      requires Valid() && View().IsSet(F_FLAGS) && (mac.Some? ==> View().IsSet(F_HMAC))
      modifies fb, fb.mem
      ensures Valid() && err == Verdict(old(View()), mac)
      ensures err == None ==> View() == if mac.Some? then Zeroed(old(View())) else old(View())
    {
      err := ValidateHeader();
      if err != None {
        return;
      }
      var fl := Flags();
      if mac.Some? {
        if !HasBit(fl, FL_HMAC) {
          return Some(NoHMAC);
        }
        var ok := ValidateHMAC();
        if !ok {
          return Some(BadHMAC);
        }
      } else if HasBit(fl, FL_HMAC) {
        return Some(UnexpectedHMAC);
      }
    }

    method FrameFirst()
      requires Framed()
      modifies fb
      ensures Framed() && F.LensOf(fb.fields) == LensFor(InitWanted(mac.Some?))
      ensures View() == Reframe(old(View()), LensFor(InitWanted(mac.Some?)))
    {
      FramedLens(F.LensOf(fb.fields), mac.Some?);
      var _ := fb.SetFields(InitList(mac.Some?), false);
    }

    /** Frames n bytes that have been read into the buffer. */
    method FrameHeader(n: nat) returns (short: bool)
      requires Framed() && n <= fb.mem.Length && MAX_HEADER_LEN <= fb.mem.Length
      modifies fb
      ensures Framed() && View() == Header(fb.mem[..], n, mac.Some?)
      ensures short == (n < if mac.Some? then 20 else 4) && (!short ==> Valid())
    {
      FrameFirst();
      fb.Reslice(n);
      InitOffsets(mac.Some?);
      var err := fb.Validate();
      return err.Some?;
    }

    /** Frames n bytes that have been read into the buffer, and validates them. */
    method ReadReset(n: nat) returns (err: Option<Error>)
      requires Framed() && n <= fb.mem.Length && MAX_HEADER_LEN <= fb.mem.Length
      modifies fb, fb.mem
      ensures Framed() && err == ReadError(old(fb.mem[..]), n, mac)
      ensures err == None ==> Valid() && View() == AfterRead(old(fb.mem[..]), n, mac)
    {
      var short := FrameHeader(n);
      if short {
        return Some(FieldsLengthTooLarge);
      }
      err := Validate();
    }
  }
}
