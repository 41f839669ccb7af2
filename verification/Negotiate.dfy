/** Parameter negotiation: the server's restriction of what a client asks for, and the client's check
    of what came back. */
module Negotiate {
  import opened Octets
  import opened Params
  import G = Glob
  import S = Sconn

  const PROTOCOL_VERSION: int64 := 1
  const MAX_INTERVAL_TIMEOUT_FACTOR: int64 := 4
  const MIN_RESTRICTED_INTERVAL: int64 := 1_000_000_000

  const AT_NONE: int64 := 0
  const AT_BOTH: int64 := 3
  const AT_MIDPOINT: int64 := 4

  /** "pattern:69727474" */
  const DEFAULT_FILL: Text := [112, 97, 116, 116, 101, 114, 110, 58, 54, 57, 55, 50, 55, 52, 55, 52]

  datatype AllowStamp = NoStamp | SingleStamp | DualStamps {
    function Restrict(at: int64): int64
    {
      if at == AT_NONE then AT_NONE
      else match this
           case NoStamp => AT_NONE
           case SingleStamp => if at == AT_BOTH then AT_MIDPOINT else at
           case DualStamps => at
    }
  }

  /** allowDSCP also says that the socket supports it. */
  datatype Policy = Policy(lim: S.Limits, allowStamp: AllowStamp, allowDSCP: bool, allowFills: seq<Text>)

  ghost predicate FillAllowed(pol: Policy, fill: Text)
  {
    exists i :: 0 <= i < |pol.allowFills| && G.Matches(pol.allowFills[i], fill)
  }

  function RestrictInterval(lim: S.Limits, interval: int64): int64
  {
    var raised := if lim.minInterval > 0 && interval < lim.minInterval then lim.minInterval else interval;
    if lim.timeout > 0 && raised > lim.timeout / MAX_INTERVAL_TIMEOUT_FACTOR
    then lim.timeout / MAX_INTERVAL_TIMEOUT_FACTOR else raised
  }

  ghost function Restrict(pol: Policy, p: Params): Params
  {
    p.(protocolVersion := PROTOCOL_VERSION,
       duration := if pol.lim.maxDuration > 0 && p.duration > pol.lim.maxDuration then pol.lim.maxDuration
                   else p.duration,
       interval := RestrictInterval(pol.lim, p.interval),
       length := if pol.lim.maxLength > 0 && p.length > pol.lim.maxLength then pol.lim.maxLength else p.length,
       stampAt := pol.allowStamp.Restrict(p.stampAt),
       dscp := if pol.allowDSCP then p.dscp else 0,
       serverFill := if p.serverFill != [] && !FillAllowed(pol, p.serverFill) then DEFAULT_FILL else p.serverFill)
  }

  method RestrictParams(pol: Policy, p: ParamSet)
    modifies p
    ensures p.v == Restrict(pol, old(p.v))
  {
    var lim := pol.lim;
    if p.v.protocolVersion != PROTOCOL_VERSION {
      p.v := p.v.(protocolVersion := PROTOCOL_VERSION);
    }
    if lim.maxDuration > 0 && p.v.duration > lim.maxDuration {
      p.v := p.v.(duration := lim.maxDuration);
    }
    if lim.minInterval > 0 && p.v.interval < lim.minInterval {
      p.v := p.v.(interval := lim.minInterval);
    }
    if lim.timeout > 0 && p.v.interval > lim.timeout / MAX_INTERVAL_TIMEOUT_FACTOR {
      p.v := p.v.(interval := lim.timeout / MAX_INTERVAL_TIMEOUT_FACTOR);
    }
    if lim.maxLength > 0 && p.v.length > lim.maxLength {
      p.v := p.v.(length := lim.maxLength);
    }
    p.v := p.v.(stampAt := pol.allowStamp.Restrict(p.v.stampAt));
    if !pol.allowDSCP {
      p.v := p.v.(dscp := 0);
    }
    assert p.v == Restrict(pol, old(p.v)).(serverFill := old(p.v.serverFill));
    RestrictFill(pol, p);
  }

  method RestrictFill(pol: Policy, p: ParamSet)
    modifies p
    ensures var fill := old(p.v.serverFill);
            p.v == old(p.v).(serverFill := if fill != [] && !FillAllowed(pol, fill) then DEFAULT_FILL else fill)
  {
    if p.v.serverFill != [] {
      var allowed := G.GlobAny(pol.allowFills, p.v.serverFill);
      if !allowed {
        p.v := p.v.(serverFill := DEFAULT_FILL);
      }
    }
  }

  /** Restricting twice is restricting once. */
  lemma RestrictIdempotent(pol: Policy, p: Params)
    ensures Restrict(pol, Restrict(pol, p)) == Restrict(pol, p)
  {
  }

  /** Every limit is met, except that the minimum interval gives way to a quarter of the timeout. */
  lemma RestrictMeetsLimits(pol: Policy, p: Params)
    ensures var r, lim := Restrict(pol, p), pol.lim;
            && (lim.maxDuration > 0 ==> r.duration <= lim.maxDuration)
            && (lim.maxLength > 0 ==> r.length <= lim.maxLength)
            && (lim.timeout > 0 ==> r.interval <= lim.timeout / 4)
            && (lim.minInterval > 0 ==>
                  (r.interval >= lim.minInterval <==> lim.timeout <= 0 || lim.minInterval <= lim.timeout / 4))
            && (pol.allowStamp == NoStamp ==> r.stampAt == AT_NONE)
            && (pol.allowStamp == SingleStamp ==> r.stampAt != AT_BOTH)
            && (r.dscp != 0 ==> pol.allowDSCP)
            && (r.serverFill != [] && r.serverFill != DEFAULT_FILL ==> FillAllowed(pol, r.serverFill))
  {
  }

  /** What restriction leaves alone and what it changes to what, for each parameter. The interval is raised to a set
      minimum, and whatever it is then, lowered to a quarter of a set timeout. */
  lemma RestrictExactly(pol: Policy, p: Params)
    ensures var r, lim := Restrict(pol, p), pol.lim;
            && r.protocolVersion == 1 && r.receivedStats == p.receivedStats && r.clock == p.clock
            && (r.duration != p.duration <==> lim.maxDuration > 0 && p.duration > lim.maxDuration)
            && (r.duration != p.duration ==> r.duration == lim.maxDuration)
            && (r.length != p.length <==> lim.maxLength > 0 && p.length > lim.maxLength)
            && (r.length != p.length ==> r.length == lim.maxLength)
            && (r.dscp != p.dscp <==> p.dscp != 0 && !pol.allowDSCP)
            && (r.dscp != p.dscp ==> r.dscp == 0)
            && (r.serverFill != p.serverFill
                <==> p.serverFill != [] && p.serverFill != DEFAULT_FILL && !FillAllowed(pol, p.serverFill))
            && (r.serverFill != p.serverFill ==> r.serverFill == DEFAULT_FILL)
    ensures var at, r := p.stampAt, Restrict(pol, p).stampAt;
            && (r != at <==> (pol.allowStamp == NoStamp && at != 0) || (pol.allowStamp == SingleStamp && at == 3))
            && (r != at && pol.allowStamp == NoStamp ==> r == 0)
            && (r != at && pol.allowStamp == SingleStamp ==> r == 4)
  {
  }

  lemma IntervalExactly(pol: Policy, p: Params)
    ensures var r, i, least, most := Restrict(pol, p).interval, p.interval, pol.lim.minInterval, pol.lim.timeout / 4;
            && (pol.lim.timeout > 0 ==> r <= most)
            && (r > i ==> least > i && r == if pol.lim.timeout > 0 && most < least then most else least)
            && (r < i ==> pol.lim.timeout > 0 && r == most)
            && (r == i <==> && (pol.lim.timeout > 0 ==> i <= most)
                            && (least > 0 ==> i >= least || (pol.lim.timeout > 0 && i == most)))
  {
  }

  // What the server sends back: the restricted parameters, with a fill it can make.

  ghost function Granted(pol: Policy, makes: Text -> bool, p: Params): Params
  {
    var r := Restrict(pol, p);
    if r.serverFill != [] && r.serverFill != DEFAULT_FILL && !makes(r.serverFill)
    then r.(serverFill := DEFAULT_FILL) else r
  }

  /** The request keeps within the server's policy: its limits, the stamps, DSCP and fill it allows, and what it can
      make. */
  ghost predicate IsWithin(pol: Policy, makes: Text -> bool, p: Params)
  {
    && p.protocolVersion == 1
    && (pol.lim.maxDuration > 0 ==> p.duration <= pol.lim.maxDuration)
    && (pol.lim.maxLength > 0 ==> p.length <= pol.lim.maxLength)
    && (pol.lim.timeout > 0 ==> p.interval <= pol.lim.timeout / 4)
    && (pol.lim.minInterval > 0 ==>
          p.interval >= pol.lim.minInterval || (pol.lim.timeout > 0 && p.interval == pol.lim.timeout / 4))
    && (pol.allowStamp == NoStamp ==> p.stampAt == 0)
    && (pol.allowStamp == SingleStamp ==> p.stampAt != 3)
    && (p.dscp != 0 ==> pol.allowDSCP)
    && (p.serverFill != [] && p.serverFill != DEFAULT_FILL ==> FillAllowed(pol, p.serverFill) && makes(p.serverFill))
  }

  /** Exactly the requests within the policy are granted as they stand. */
  lemma GrantedAsIsExactly(pol: Policy, makes: Text -> bool, p: Params)
    ensures Granted(pol, makes, p) == p <==> IsWithin(pol, makes, p)
  {
    RestrictExactly(pol, p);
    IntervalExactly(pol, p);
  }

  /** Besides what is restricted, a fill the server cannot make becomes the default one. */
  lemma GrantedFill(pol: Policy, makes: Text -> bool, p: Params)
    ensures var g, r := Granted(pol, makes, p), Restrict(pol, p);
            && g == r.(serverFill := g.serverFill)
            && (g.serverFill != p.serverFill <==> p.serverFill != [] && p.serverFill != DEFAULT_FILL
                                                  && !(FillAllowed(pol, p.serverFill) && makes(p.serverFill)))
            && (g.serverFill != p.serverFill ==> g.serverFill == DEFAULT_FILL)
  {
  }

  // The client's side.

  datatype Code = ProtocolVersionMismatch | ServerRestriction | InvalidServerRestriction

  /** What the client accepts from its own configuration. */
  predicate ClientMayAsk(p: Params)
  {
    Sendable(p) && p.duration > 0 && p.interval > 0 && p.protocolVersion == PROTOCOL_VERSION
  }

  predicate IsInvalid(c: Params, supplied: Params)
  {
    || c.duration > supplied.duration
    || c.length > supplied.length
    || (c.interval < supplied.interval && c.interval < MIN_RESTRICTED_INTERVAL)
  }

  /** Something is invalid, and nothing compared before that is changed: what a strict client calls invalid,
      because it stops at the first change. */
  predicate IsInvalidFirst(c: Params, supplied: Params)
  {
    || c.duration > supplied.duration
    || (c.duration == supplied.duration && c.interval < supplied.interval && c.interval < MIN_RESTRICTED_INTERVAL)
    || (c.duration == supplied.duration && c.interval == supplied.interval && c.length > supplied.length)
  }

  /** The eight compared fields. */
  predicate Unchanged(c: Params, supplied: Params)
  {
    c.protocolVersion == PROTOCOL_VERSION && c.(protocolVersion := 0, receivedStats := 0)
                                          == supplied.(protocolVersion := 0, receivedStats := 0)
  }

  function ParamEvent(loose: bool): Option<Code>
  {
    if loose then None else Some(ServerRestriction)
  }

  method CheckParameters(c: Params, supplied: Params, loose: bool) returns (err: Option<Code>)
    ensures err == Some(ProtocolVersionMismatch) <==> c.protocolVersion != 1
    ensures loose && c.protocolVersion == 1 ==>
              && (err == None <==> && c.duration <= supplied.duration && c.length <= supplied.length
                                   && (c.interval >= supplied.interval || c.interval >= 1_000_000_000))
              && (err == None || err == Some(InvalidServerRestriction))
    ensures !loose ==>
              (err == None <==> && c.protocolVersion == 1 && c.duration == supplied.duration
                                && c.interval == supplied.interval && c.length == supplied.length
                                && c.stampAt == supplied.stampAt && c.clock == supplied.clock
                                && c.dscp == supplied.dscp && c.serverFill == supplied.serverFill)
    ensures !loose && c.protocolVersion == 1 ==>
              (err == Some(InvalidServerRestriction)
               <==> || c.duration > supplied.duration
                    || (c.duration == supplied.duration && c.interval < supplied.interval
                        && c.interval < 1_000_000_000)
                    || (c.duration == supplied.duration && c.interval == supplied.interval
                        && c.length > supplied.length))
  {
    err := None;
    if c.protocolVersion != PROTOCOL_VERSION {
      return Some(ProtocolVersionMismatch);
    }
    if c.duration < supplied.duration {
      err := ParamEvent(loose);
      if err != None { return; }
    }
    if c.duration > supplied.duration {
      return Some(InvalidServerRestriction);
    }
    if c.interval > supplied.interval {
      err := ParamEvent(loose);
      if err != None { return; }
    }
    if c.interval < supplied.interval {
      if c.interval < MIN_RESTRICTED_INTERVAL {
        return Some(InvalidServerRestriction);
      }
      err := ParamEvent(loose);
      if err != None { return; }
    }
    if c.length < supplied.length {
      err := ParamEvent(loose);
      if err != None { return; }
    }
    if c.length > supplied.length {
      return Some(InvalidServerRestriction);
    }
    if c.stampAt != supplied.stampAt {
      err := ParamEvent(loose);
      if err != None { return; }
    }
    if c.clock != supplied.clock {
      err := ParamEvent(loose);
      if err != None { return; }
    }
    if c.dscp != supplied.dscp {
      err := ParamEvent(loose);
      if err != None { return; }
    }
    if c.serverFill != supplied.serverFill {
      err := ParamEvent(loose);
      if err != None { return; }
    }
  }

  /** What the client ends up with: its request encoded, decoded and restricted by the server, and the
      grant encoded and decoded on the way back. */
  ghost function Negotiated(pol: Policy, makes: Text -> bool, p: Params): Result<Params, Error>
  {
    var asked := Parse(Encode(p));
    if asked.Err? then Err(asked.error) else Parse(Encode(Granted(pol, makes, asked.value)))
  }

  /** Both trips are lossless, so the client checks exactly what the server granted. */
  lemma NegotiatedIsGranted(pol: Policy, makes: Text -> bool, p: Params)
    requires ClientMayAsk(p)
    ensures Negotiated(pol, makes, p) == Ok(Granted(pol, makes, p))
  {
    RoundTrip(p);
    RoundTrip(Granted(pol, makes, p));
  }

  /** What comes back is invalid exactly when a quarter of a set timeout is below both one
      second and the interval asked for; so a loose client accepts in every other case, and in particular
      whenever the timeout is off or at least four seconds. */
  lemma InvalidExactlyWhen(pol: Policy, makes: Text -> bool, p: Params)
    requires ClientMayAsk(p)
    ensures var c := Granted(pol, makes, p);
            && c.protocolVersion == PROTOCOL_VERSION
            && (IsInvalid(c, p) <==> pol.lim.timeout > 0 && pol.lim.timeout / 4 < p.interval
                                     && pol.lim.timeout / 4 < MIN_RESTRICTED_INTERVAL)
    ensures pol.lim.timeout <= 0 || pol.lim.timeout >= 4 * MIN_RESTRICTED_INTERVAL
            ==> !IsInvalid(Granted(pol, makes, p), p)
  {
  }

  /** A strict client accepts exactly the requests the server grants as they stand. */
  lemma StrictAcceptsUnchanged(pol: Policy, makes: Text -> bool, p: Params)
    requires ClientMayAsk(p)
    ensures Unchanged(Granted(pol, makes, p), p) <==> Granted(pol, makes, p) == p
    ensures Unchanged(Granted(pol, makes, p), p) ==> !IsInvalid(Granted(pol, makes, p), p)
  {
  }

  /** A strict client reports the invalid interval exactly if the duration was granted as asked for; otherwise
      it reports the shorter duration first. */
  lemma InvalidFirstExactlyWhen(pol: Policy, makes: Text -> bool, p: Params)
    requires ClientMayAsk(p)
    ensures var c := Granted(pol, makes, p);
            IsInvalidFirst(c, p) <==> c.duration == p.duration && IsInvalid(c, p)
  {
    var c := Granted(pol, makes, p);
    assert c.duration <= p.duration && c.length <= p.length;
  }

  /** The server's part of an open: the payload of the request in, the payload of the reply out. */
  method AcceptOpen(pol: Policy, makes: Text -> bool, request: seq<byte>) returns (r: Result<seq<byte>, Error>)
    ensures r == if Parse(request).Ok? then Ok(Encode(Granted(pol, makes, Parse(request).value)))
                 else Err(Parse(request).error)
  {
    var asked := ParseParams(request);
    if asked.Err? {
      return Err(asked.error);
    }
    var p := new ParamSet(asked.value);
    RestrictParams(pol, p);
    var fill := p.v.serverFill;
    if fill != [] && fill != DEFAULT_FILL && !makes(fill) {
      p.v := p.v.(serverFill := DEFAULT_FILL);
    }
    var reply := EncodeParams(p.v);
    return Ok(reply);
  }

  /** One whole negotiation. */
  method Open(pol: Policy, makes: Text -> bool, supplied: Params, loose: bool)
    returns (c: Params, err: Option<Code>)
    requires ClientMayAsk(supplied)
    ensures c == Granted(pol, makes, supplied)
    ensures !loose ==> (err == None <==> c == supplied)
    ensures loose ==> (err == None <==> pol.lim.timeout <= 0 || pol.lim.timeout / 4 >= supplied.interval
                                        || pol.lim.timeout / 4 >= MIN_RESTRICTED_INTERVAL)
    ensures loose ==> err == None || err == Some(InvalidServerRestriction)
    ensures !loose ==> (err == Some(InvalidServerRestriction)
                        <==> c.duration == supplied.duration && IsInvalid(c, supplied))
    ensures err == Some(InvalidServerRestriction) ==>
              pol.lim.timeout > 0 && pol.lim.timeout / 4 < MIN_RESTRICTED_INTERVAL
  {
    NegotiatedIsGranted(pol, makes, supplied);
    InvalidExactlyWhen(pol, makes, supplied);
    InvalidFirstExactlyWhen(pol, makes, supplied);
    StrictAcceptsUnchanged(pol, makes, supplied);
    var request := EncodeParams(supplied);
    var reply := AcceptOpen(pol, makes, request);
    var got := ParseParams(reply.value);
    c := got.value;
    err := CheckParameters(c, supplied, loose);
  }
}
