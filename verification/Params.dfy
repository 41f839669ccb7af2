/** The test parameters and their tag/varint encoding. */
module Params {
  import opened Octets
  import opened Varint

  const PARAMS_MAX_LEN: nat := 128
  const MAX_SERVER_FILL_LEN: nat := 32

  datatype Params = Params(protocolVersion: int64, duration: int64, interval: int64, length: int64,
                           receivedStats: int64, stampAt: int64, clock: int64, dscp: int64, serverFill: Text)

  const ZERO := Params(0, 0, 0, 0, 0, 0, 0, 0, [])

  const P_PROTOCOL_VERSION: nat := 1
  const P_DURATION: nat := 2
  const P_INTERVAL: nat := 3
  const P_LENGTH: nat := 4
  const P_RECEIVED_STATS: nat := 5
  const P_STAMP_AT: nat := 6
  const P_CLOCK: nat := 7
  const P_DSCP: nat := 8
  const P_SERVER_FILL: nat := 9

  datatype Error = ShortParamBuffer | ParamOverflow | InvalidParamValue | InvalidEnum

  /** The parameters that survive the trip: those a decoder accepts. 0 stands for a value not sent. */
  predicate Sendable(p: Params)
  {
    && p.duration >= 0 && p.interval >= 0
    && 0 <= p.receivedStats <= 3 && 0 <= p.stampAt <= 4 && 0 <= p.clock <= 3
    && |p.serverFill| <= MAX_SERVER_FILL_LEN
  }

  // Encoding.

  function Number(tag: nat, v: int64): seq<byte>
  {
    if v == 0 then [] else PutUvarint(tag) + PutVarint(v)
  }

  function FillText(s: Text): seq<byte>
  {
    if s == [] then []
    else
      var l := Min(|s|, MAX_SERVER_FILL_LEN);
      PutUvarint(P_SERVER_FILL) + (PutUvarint(l) + s[..l])
  }

  function EncodeTest(p: Params): seq<byte>
  {
    Number(P_PROTOCOL_VERSION, p.protocolVersion)
    + Number(P_DURATION, p.duration)
    + Number(P_INTERVAL, p.interval)
    + Number(P_LENGTH, p.length)
  }

  function EncodeStamps(p: Params): seq<byte>
  {
    EncodeTest(p)
    + Number(P_RECEIVED_STATS, p.receivedStats)
    + Number(P_STAMP_AT, p.stampAt)
    + Number(P_CLOCK, p.clock)
  }

  function Encode(p: Params): seq<byte>
  {
    EncodeStamps(p)
    + Number(P_DSCP, p.dscp)
    + FillText(p.serverFill)
  }

  // Decoding.

  /** Stores the value of a numeric parameter; unknown tags change nothing. */
  function SetNumber(p: Params, tag: nat, v: int64): Result<Params, Error>
  {
    if tag == P_PROTOCOL_VERSION then Ok(p.(protocolVersion := v))
    else if tag == P_DURATION then if v <= 0 then Err(InvalidParamValue) else Ok(p.(duration := v))
    else if tag == P_INTERVAL then if v <= 0 then Err(InvalidParamValue) else Ok(p.(interval := v))
    else if tag == P_LENGTH then Ok(p.(length := v))
    else if tag == P_RECEIVED_STATS then if v < 0 || v > 3 then Err(InvalidEnum) else Ok(p.(receivedStats := v))
    else if tag == P_STAMP_AT then if v < 0 || v > 4 then Err(InvalidEnum) else Ok(p.(stampAt := v))
    else if tag == P_CLOCK then if v < 1 || v > 3 then Err(InvalidEnum) else Ok(p.(clock := v))
    else if tag == P_DSCP then Ok(p.(dscp := v))
    else Ok(p)
  }

  function ErrorOf(r: Reading): Error
    requires !r.Read?
  {
    if r.Short? then ShortParamBuffer else ParamOverflow
  }

  datatype TextReading = Chars(s: Text, n: nat) | BadChars(error: Error)

  function ReadString(b: seq<byte>): (r: TextReading)
    ensures r.Chars? ==> 1 <= r.n <= |b| && |r.s| <= MAX_SERVER_FILL_LEN
  {
    var l := Uvarint(b);
    if !l.Read? then BadChars(ErrorOf(l))
    else if l.v > MAX_SERVER_FILL_LEN then BadChars(ParamOverflow)
    else if |b| - l.n < l.v then BadChars(ShortParamBuffer)
    else Chars(b[l.n..l.n + l.v], l.n + l.v)
  }

  datatype ParamReading = Param(params: Params, n: nat) | BadParam(error: Error)

  /** Reads one parameter: the updated parameters and the bytes consumed, always at least two. */
  function ReadParam(p: Params, b: seq<byte>): (r: ParamReading)
    ensures r.Param? ==> 2 <= r.n <= |b|
    ensures r.Param? && Sendable(p) ==> Sendable(r.params)
  {
    var tag := Uvarint(b);
    if !tag.Read? then BadParam(ErrorOf(tag))
    else if tag.v == P_SERVER_FILL then
      var s := ReadString(b[tag.n..]);
      if s.BadChars? then BadParam(s.error) else Param(p.(serverFill := s.s), tag.n + s.n)
    else
      var u := Uvarint(b[tag.n..]);
      if !u.Read? then BadParam(ErrorOf(u))
      else
        var q := SetNumber(p, tag.v, UnZigZag(u.v));
        if q.Err? then BadParam(q.error) else Param(q.value, tag.n + u.n)
  }

  function ParseFrom(p: Params, b: seq<byte>): (r: Result<Params, Error>)
    ensures r.Ok? && Sendable(p) ==> Sendable(r.value)
    decreases |b|
  {
    if b == [] then Ok(p)
    else
      var r := ReadParam(p, b);
      if r.BadParam? then Err(r.error) else ParseFrom(r.params, b[r.n..])
  }

  function Parse(b: seq<byte>): Result<Params, Error>
  {
    ParseFrom(ZERO, b)
  }

  // The codec laws.

  lemma ReadWritten(x: uint64, rest: seq<byte>)
    ensures Uvarint(PutUvarint(x) + rest) == Read(x, |PutUvarint(x)|)
    ensures (PutUvarint(x) + rest)[|PutUvarint(x)|..] == rest
  {
    UvarintRoundTrip(x, rest);
  }

  lemma ReadNumber(p: Params, tag: uint64, v: int64, rest: seq<byte>)
    requires tag != P_SERVER_FILL
    ensures ReadParam(p, PutUvarint(tag) + (PutVarint(v) + rest))
         == if SetNumber(p, tag, v).Ok? then Param(SetNumber(p, tag, v).value, |PutUvarint(tag)| + |PutVarint(v)|)
            else BadParam(SetNumber(p, tag, v).error)
  {
    ReadWritten(tag, PutVarint(v) + rest);
    ReadWritten(ZigZag(v), rest);
    ZigZagRoundTrip(v);
  }

  /** A numeric parameter in front of other bytes is stored, or refused, before they are read. */
  lemma ParseNumber(p: Params, tag: uint64, v: int64, rest: seq<byte>)
    requires tag != P_SERVER_FILL
    ensures ParseFrom(p, PutUvarint(tag) + PutVarint(v) + rest)
         == if SetNumber(p, tag, v).Ok? then ParseFrom(SetNumber(p, tag, v).value, rest)
            else Err(SetNumber(p, tag, v).error)
  {
    var b := PutUvarint(tag) + PutVarint(v) + rest;
    assert b == PutUvarint(tag) + (PutVarint(v) + rest);
    ReadNumber(p, tag, v, rest);
    assert b[|PutUvarint(tag)| + |PutVarint(v)|..] == rest;
  }

  lemma UvarintPrefix(b: seq<byte>, rest: seq<byte>)
    requires Uvarint(b).Read?
    ensures Uvarint(b + rest) == Uvarint(b)
    ensures (b + rest)[Uvarint(b).n..] == b[Uvarint(b).n..] + rest
  {
    GroupsPrefix(b, rest, FIRST);
  }

  lemma StringPrefix(b: seq<byte>, rest: seq<byte>)
    requires ReadString(b).Chars?
    ensures ReadString(b + rest) == ReadString(b)
  {
    UvarintPrefix(b, rest);
    var l := Uvarint(b);
    assert (b + rest)[l.n..l.n + l.v] == b[l.n..l.n + l.v];
  }

  lemma ReadParamPrefix(p: Params, b: seq<byte>, rest: seq<byte>)
    requires ReadParam(p, b).Param?
    ensures ReadParam(p, b + rest) == ReadParam(p, b)
  {
    UvarintPrefix(b, rest);
    var tag := Uvarint(b);
    if tag.v == P_SERVER_FILL {
      StringPrefix(b[tag.n..], rest);
    } else {
      UvarintPrefix(b[tag.n..], rest);
    }
  }

  /** Parsing goes on after any parsed prefix as if from there. */
  lemma {:induction false} ParseConcat(p: Params, a: seq<byte>, rest: seq<byte>)
    requires ParseFrom(p, a).Ok?
    ensures ParseFrom(p, a + rest) == ParseFrom(ParseFrom(p, a).value, rest)
    decreases |a|
  {
    if a == [] {
      assert a + rest == rest;
    } else {
      ReadParamPrefix(p, a, rest);
      var r := ReadParam(p, a);
      assert (a + rest)[r.n..] == a[r.n..] + rest;
      ParseConcat(r.params, a[r.n..], rest);
    }
  }

  /** One more numeric parameter at the end. */
  lemma ThenNumber(a: seq<byte>, p: Params, tag: uint64, v: int64, q: Params)
    requires Parse(a) == Ok(p) && tag != P_SERVER_FILL
    requires if v == 0 then q == p else SetNumber(p, tag, v) == Ok(q)
    ensures Parse(a + Number(tag, v)) == Ok(q)
  {
    if v == 0 {
      assert a + Number(tag, v) == a;
    } else {
      ParseConcat(ZERO, a, Number(tag, v));
      ParseNumber(p, tag, v, []);
      assert PutUvarint(tag) + PutVarint(v) + [] == Number(tag, v);
    }
  }

  lemma FillAlone(p: Params, s: Text)
    requires 0 < |s| <= MAX_SERVER_FILL_LEN
    ensures ReadParam(p, FillText(s)) == Param(p.(serverFill := s), |FillText(s)|)
  {
    var tail := PutUvarint(|s|) + s;
    assert s[..|s|] == s;
    ReadWritten(P_SERVER_FILL, tail);
    ReadWritten(|s|, s);
    assert tail[|PutUvarint(|s|)|..|PutUvarint(|s|)| + |s|] == s;
  }

  lemma ThenFill(a: seq<byte>, p: Params, s: Text)
    requires Parse(a) == Ok(p) && |s| <= MAX_SERVER_FILL_LEN && p.serverFill == []
    ensures Parse(a + FillText(s)) == Ok(p.(serverFill := s))
  {
    if s == [] {
      assert a + FillText(s) == a;
    } else {
      ParseConcat(ZERO, a, FillText(s));
      FillAlone(p, s);
      assert FillText(s)[|FillText(s)|..] == [];
    }
  }

  lemma TestRoundTrip(p: Params)
    requires p.duration >= 0 && p.interval >= 0
    ensures Parse(EncodeTest(p)) == Ok(ZERO.(protocolVersion := p.protocolVersion, duration := p.duration,
                                             interval := p.interval, length := p.length))
  {
    var q1 := ZERO.(protocolVersion := p.protocolVersion);
    var q2 := q1.(duration := p.duration);
    var q3 := q2.(interval := p.interval);
    var b1 := Number(P_PROTOCOL_VERSION, p.protocolVersion);
    var b2 := b1 + Number(P_DURATION, p.duration);
    var b3 := b2 + Number(P_INTERVAL, p.interval);
    assert Parse([]) == Ok(ZERO) && [] + b1 == b1;
    ThenNumber([], ZERO, P_PROTOCOL_VERSION, p.protocolVersion, q1);
    ThenNumber(b1, q1, P_DURATION, p.duration, q2);
    ThenNumber(b2, q2, P_INTERVAL, p.interval, q3);
    ThenNumber(b3, q3, P_LENGTH, p.length, q3.(length := p.length));
  }

  lemma StampsRoundTrip(p: Params)
    requires Sendable(p)
    ensures Parse(EncodeStamps(p)) == Ok(p.(dscp := 0, serverFill := []))
  {
    var q4 := ZERO.(protocolVersion := p.protocolVersion, duration := p.duration, interval := p.interval,
                    length := p.length);
    var q5 := q4.(receivedStats := p.receivedStats);
    var q6 := q5.(stampAt := p.stampAt);
    var b4 := EncodeTest(p);
    var b5 := b4 + Number(P_RECEIVED_STATS, p.receivedStats);
    var b6 := b5 + Number(P_STAMP_AT, p.stampAt);
    TestRoundTrip(p);
    ThenNumber(b4, q4, P_RECEIVED_STATS, p.receivedStats, q5);
    ThenNumber(b5, q5, P_STAMP_AT, p.stampAt, q6);
    ThenNumber(b6, q6, P_CLOCK, p.clock, q6.(clock := p.clock));
  }

  /** Sendable parameters come back unchanged. */
  lemma RoundTrip(p: Params)
    requires Sendable(p)
    ensures Parse(Encode(p)) == Ok(p)
  {
    var q := p.(dscp := 0, serverFill := []);
    var b := EncodeStamps(p);
    StampsRoundTrip(p);
    ThenNumber(b, q, P_DSCP, p.dscp, p.(serverFill := []));
    ThenFill(b + Number(P_DSCP, p.dscp), p.(serverFill := []), p.serverFill);
  }

  /** The round trip succeeds for exactly the sendable parameters. */
  lemma RoundTripExactly(p: Params)
    ensures Parse(Encode(p)) == Ok(p) <==> Sendable(p)
  {
    if Sendable(p) {
      RoundTrip(p);
    }
  }

  /** Whatever a decoder accepts, it can encode and decode again without change. */
  lemma AcceptedIsStable(b: seq<byte>)
    requires Parse(b).Ok?
    ensures Parse(Encode(Parse(b).value)) == Parse(b)
  {
    RoundTrip(Parse(b).value);
  }

  /** A parameter this version does not know changes nothing, wherever it stands between parameters. */
  lemma UnknownIgnored(a: seq<byte>, tag: uint64, v: int64, c: seq<byte>)
    requires Parse(a).Ok? && (tag == 0 || tag > P_SERVER_FILL)
    ensures Parse(a + (PutUvarint(tag) + PutVarint(v) + c)) == Parse(a + c)
  {
    var p := Parse(a).value;
    calc {
      Parse(a + (PutUvarint(tag) + PutVarint(v) + c));
    ==  { ParseConcat(ZERO, a, PutUvarint(tag) + PutVarint(v) + c); }
      ParseFrom(p, PutUvarint(tag) + PutVarint(v) + c);
    ==  { ParseNumber(p, tag, v, c); }
      ParseFrom(p, c);
    ==  { ParseConcat(ZERO, a, c); }
      Parse(a + c);
    }
  }

  /** What one more numeric parameter does: its field takes the value if that is allowed, and no other field changes;
      durations and intervals must be positive, enumerations in their range, and a clock must be given. */
  lemma NumberExactly(a: seq<byte>, tag: uint64, v: int64)
    requires Parse(a).Ok? && tag != 9
    ensures var p, r := Parse(a).value, Parse(a + (PutUvarint(tag) + PutVarint(v)));
            && (r == Err(InvalidParamValue) <==> (tag == 2 || tag == 3) && v <= 0)
            && (r == Err(InvalidEnum) <==> (tag == 5 && !(0 <= v <= 3)) || (tag == 6 && !(0 <= v <= 4))
                                           || (tag == 7 && !(1 <= v <= 3)))
            && (r.Err? ==> r.error == InvalidParamValue || r.error == InvalidEnum)
            && (r.Ok? ==> r.value == Params(if tag == 1 then v else p.protocolVersion,
                                            if tag == 2 then v else p.duration, if tag == 3 then v else p.interval,
                                            if tag == 4 then v else p.length, if tag == 5 then v else p.receivedStats,
                                            if tag == 6 then v else p.stampAt, if tag == 7 then v else p.clock,
                                            if tag == 8 then v else p.dscp, p.serverFill))
  {
    ParseConcat(ZERO, a, PutUvarint(tag) + PutVarint(v));
    ParseNumber(Parse(a).value, tag, v, []);
    assert PutUvarint(tag) + PutVarint(v) + [] == PutUvarint(tag) + PutVarint(v);
  }

  /** What a fill does: of at most 32 bytes, all of them there, it is stored. */
  lemma FillExactly(a: seq<byte>, l: uint64, s: Text)
    requires Parse(a).Ok? && |s| <= l
    ensures Parse(a + (PutUvarint(9) + (PutUvarint(l) + s)))
         == if l > 32 then Err(ParamOverflow)
            else if |s| < l then Err(ShortParamBuffer)
            else Ok(Parse(a).value.(serverFill := s))
  {
    var b := PutUvarint(9) + (PutUvarint(l) + s);
    ParseConcat(ZERO, a, b);
    StringRead(l, s);
    ReadWritten(9, PutUvarint(l) + s);
    assert b[|b|..] == [];
  }

  lemma StringRead(l: uint64, s: Text)
    requires |s| <= l
    ensures ReadString(PutUvarint(l) + s)
         == if l > 32 then BadChars(ParamOverflow)
            else if |s| < l then BadChars(ShortParamBuffer)
            else Chars(s, |PutUvarint(l)| + |s|)
  {
    ReadWritten(l, s);
    if |s| == l {
      assert (PutUvarint(l) + s)[|PutUvarint(l)|..|PutUvarint(l)| + |s|] == s;
    }
  }

  /** Bytes that do not end a number, in place of a tag or of the value after a numeric one: the buffer is too short,
      unless there are more than ten of them. */
  lemma UnendedRefused(a: seq<byte>, tag: uint64, rest: seq<byte>)
    requires Parse(a).Ok? && tag != 9 && forall i :: 0 <= i < |rest| ==> rest[i] >= 128
    ensures var error := Err(if |rest| <= 10 then ShortParamBuffer else ParamOverflow);
            && (rest != [] ==> Parse(a + rest) == error)
            && Parse(a + (PutUvarint(tag) + rest)) == error
  {
    UnendedExactly(rest);
    BrokenRefused(a, tag, rest);
  }

  /** And a number that is too long, or does not fit 64 bits, overflows. */
  lemma TooLargeRefused(a: seq<byte>, tag: uint64, rest: seq<byte>, n: nat)
    requires Parse(a).Ok? && tag != 9 && IsNumber(rest, n) && (n > 10 || (n == 10 && rest[9] > 1))
    ensures Parse(a + rest) == Err(ParamOverflow) && Parse(a + (PutUvarint(tag) + rest)) == Err(ParamOverflow)
  {
    UvarintExactly(rest, n);
    BrokenRefused(a, tag, rest);
  }

  lemma BrokenRefused(a: seq<byte>, tag: uint64, rest: seq<byte>)
    requires Parse(a).Ok? && tag != 9 && !Uvarint(rest).Read?
    ensures rest != [] ==> Parse(a + rest) == Err(ErrorOf(Uvarint(rest)))
    ensures Parse(a + (PutUvarint(tag) + rest)) == Err(ErrorOf(Uvarint(rest)))
  {
    ParseConcat(ZERO, a, rest);
    ParseConcat(ZERO, a, PutUvarint(tag) + rest);
    ReadWritten(tag, rest);
  }

  lemma NumberLength(tag: nat, v: int64)
    requires tag < 128
    ensures |Number(tag, v)| <= 11
  {
    UvarintRoundTrip(ZigZag(v), []);
  }

  // The imperative forms.

  /** copy(b[pos:], s) followed by advancing pos. */
  method Append(b: array<byte>, pos: nat, s: seq<byte>) returns (end: nat)
    requires pos + |s| <= b.Length
    modifies b
    ensures end == pos + |s| && b[..end] == old(b[..pos]) + s
  {
    forall k | 0 <= k < |s| {
      b[pos + k] := s[k];
    }
    end := pos + |s|;
    assert b[pos..end] == s;
    assert b[..end] == b[..pos] + b[pos..end];
  }

  method AppendNumber(b: array<byte>, pos: nat, tag: nat, v: int64, ghost done: seq<byte>) returns (end: nat)
    requires tag < 128 && pos + 11 <= b.Length && b[..pos] == done
    modifies b
    ensures pos <= end <= pos + 11
    ensures b[..end] == done + Number(tag, v)
  {
    NumberLength(tag, v);
    end := pos;
    if v != 0 {
      end := Append(b, end, PutUvarint(tag));
      end := Append(b, end, PutVarint(v));
      Associate(done, PutUvarint(tag), PutVarint(v));
    }
  }

  lemma Associate(a: seq<byte>, b: seq<byte>, c: seq<byte>)
    ensures a + b + c == a + (b + c)
  {
  }

  method AppendFill(b: array<byte>, pos: nat, fill: Text, ghost done: seq<byte>) returns (end: nat)
    requires pos + 34 <= b.Length && b[..pos] == done
    modifies b
    ensures pos <= end <= pos + 34
    ensures b[..end] == done + FillText(fill)
  {
    end := pos;
    if fill != [] {
      var l := Min(|fill|, MAX_SERVER_FILL_LEN);
      end := Append(b, end, PutUvarint(P_SERVER_FILL));
      end := Append(b, end, PutUvarint(l));
      end := Append(b, end, fill[..l]);
      Associate(done + PutUvarint(P_SERVER_FILL), PutUvarint(l), fill[..l]);
      Associate(done, PutUvarint(P_SERVER_FILL), PutUvarint(l) + fill[..l]);
    }
  }

  /** Params.bytes: whatever the parameters, at most 122 of the 128 bytes of scratch are used. */
  method EncodeParams(p: Params) returns (out: seq<byte>)
    ensures out == Encode(p)
    ensures |out| <= 122
  {
    var b := new byte[PARAMS_MAX_LEN];
    var pos := AppendNumber(b, 0, P_PROTOCOL_VERSION, p.protocolVersion, []);
    assert [] + Number(P_PROTOCOL_VERSION, p.protocolVersion) == Number(P_PROTOCOL_VERSION, p.protocolVersion);
    pos := AppendNumber(b, pos, P_DURATION, p.duration, b[..pos]);
    pos := AppendNumber(b, pos, P_INTERVAL, p.interval, b[..pos]);
    pos := AppendNumber(b, pos, P_LENGTH, p.length, b[..pos]);
    pos := AppendNumber(b, pos, P_RECEIVED_STATS, p.receivedStats, b[..pos]);
    pos := AppendNumber(b, pos, P_STAMP_AT, p.stampAt, b[..pos]);
    pos := AppendNumber(b, pos, P_CLOCK, p.clock, b[..pos]);
    pos := AppendNumber(b, pos, P_DSCP, p.dscp, b[..pos]);
    pos := AppendFill(b, pos, p.serverFill, b[..pos]);
    out := b[..pos];
  }

  /** The parameters as an object that reading and restricting overwrite. */
  class ParamSet {
    var v: Params

    constructor (p: Params)
      ensures v == p
    {
      v := p;
    }

    method Read(b: seq<byte>) returns (r: Result<nat, Error>)
      modifies this
      ensures r.Ok? <==> ReadParam(old(v), b).Param?
      ensures r.Ok? ==> ReadParam(old(v), b) == Param(v, r.value)
      ensures r.Err? ==> ReadParam(old(v), b) == BadParam(r.error)
    {
      var pos := 0;
      var t := Uvarint(b);
      if !t.Read? {
        return Err(ErrorOf(t));
      }
      pos := pos + t.n;
      if t.v == P_SERVER_FILL {
        var s := ReadString(b[pos..]);
        if s.BadChars? {
          return Err(s.error);
        }
        v := v.(serverFill := s.s);
        pos := pos + s.n;
      } else {
        var u := Uvarint(b[pos..]);
        if !u.Read? {
          return Err(ErrorOf(u));
        }
        var q := SetNumber(v, t.v, UnZigZag(u.v));
        if q.Err? {
          return Err(q.error);
        }
        v := q.value;
        pos := pos + u.n;
      }
      return Ok(pos);
    }
  }

  lemma ParseStep(p: Params, b: seq<byte>, q: Params, n: nat, rest: seq<byte>)
    requires b != [] && ReadParam(p, b) == Param(q, n) && n <= |b| && rest == b[n..]
    ensures ParseFrom(p, b) == ParseFrom(q, rest)
  {
  }

  lemma SuffixOfSuffix(b: seq<byte>, pos: nat, n: nat)
    requires pos + n <= |b|
    ensures b[pos + n..] == b[pos..][n..]
  {
  }

  lemma ParseStop(p: Params, b: seq<byte>, pos: nat, error: Error)
    requires pos < |b| && ReadParam(p, b[pos..]) == BadParam(error)
    ensures ParseFrom(p, b[pos..]) == Err(error)
  {
  }

  /** Reads the parameter at pos: parsing from there is parsing from where it ends, or fails. */
  method ReadNext(p: ParamSet, b: seq<byte>, pos: nat) returns (r: Result<nat, Error>)
    requires pos < |b|
    modifies p
    ensures r.Ok? ==> pos < r.value <= |b| && ParseFrom(old(p.v), b[pos..]) == ParseFrom(p.v, b[r.value..])
    ensures r.Err? ==> ParseFrom(old(p.v), b[pos..]) == Err(r.error)
  {
    ghost var before := p.v;
    r := p.Read(b[pos..]);
    if r.Ok? {
      var end := pos + r.value;
      SuffixOfSuffix(b, pos, r.value);
      ParseStep(before, b[pos..], p.v, r.value, b[end..]);
      r := Ok(end);
    } else {
      ParseStop(before, b, pos, r.error);
    }
  }

  method ParseParams(b: seq<byte>) returns (r: Result<Params, Error>)
    ensures r == Parse(b)
  {
    var p := new ParamSet(ZERO);
    var pos := 0;
    while pos < |b|
      invariant 0 <= pos <= |b|
      invariant ParseFrom(p.v, b[pos..]) == Parse(b)
    {
      var next := ReadNext(p, b, pos);
      if next.Err? {
        return Err(next.error);
      }
      pos := next.value;
    }
    return Ok(p.v);
  }
}
