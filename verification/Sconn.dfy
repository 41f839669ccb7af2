/** One client's connection on the server: what an echo request does to its state. */
module Sconn {
  import opened RateLimit
  import opened Octets
  import opened Window

  const SECOND: int := 1_000_000_000

  const TIMEOUT_GRACE: int := 5 * SECOND
  const MAX_DURATION_GRACE: int := 2 * SECOND

  /** The server's limits; a limit of 0 or less is off. Durations are in nanoseconds. */
  datatype Limits = Limits(maxDuration: int64, minInterval: int64, maxLength: int64, timeout: int64,
                           packetBurst: int64) {
    function Rate(): Limit { Limit(minInterval, packetBurst) }
  }

  /** An address in canonical form. */
  datatype Addr = Addr(ip: seq<byte>, port: nat, zone: string)

  datatype Conn = Conn(firstUsed: Option<int>, bucket: Bucket, win: State)

  /** An echo request: its length, and the clock when it is admitted and when it is answered. */
  datatype Echo = Echo(seqno: Seqno, length: nat, now: int, later: int)

  datatype Verdict = LargeRequest | ShortInterval | Answered(closed: bool)

  function NewConn(lim: Limits): Conn
  {
    Conn(None, Full(lim.Rate()), INIT)
  }

  function Judge(lim: Limits, c: Conn, e: Echo): Verdict
  {
    if lim.maxLength > 0 && e.length > lim.maxLength then LargeRequest
    else if !Admits(lim.Rate(), c.bucket, e.now) then ShortInterval
    else
      var first := if c.firstUsed.Some? then c.firstUsed.value else e.now;
      Answered(lim.maxDuration > 0 && e.later - first > lim.maxDuration + MAX_DURATION_GRACE)
  }

  function Admit(lim: Limits, c: Conn, e: Echo): Conn
  {
    var first := if c.firstUsed.Some? then c.firstUsed else Some(e.now);
    match Judge(lim, c, e)
    case LargeRequest => c
    case ShortInterval => Conn(first, Use(lim.Rate(), c.bucket, e.now), c.win)
    case Answered(_) => Conn(first, Use(lim.Rate(), c.bucket, e.now), Accept(c.win, e.seqno))
  }

  function Run(lim: Limits, echoes: seq<Echo>): Conn
  {
    if echoes == [] then NewConn(lim)
    else Admit(lim, Run(lim, echoes[..|echoes| - 1]), echoes[|echoes| - 1])
  }

  /** The seqnos answered, in order: what the received window is about. */
  function AnsweredSeqnos(lim: Limits, echoes: seq<Echo>): seq<Seqno>
  {
    if echoes == [] then []
    else
      var front, e := echoes[..|echoes| - 1], echoes[|echoes| - 1];
      AnsweredSeqnos(lim, front) + if Judge(lim, Run(lim, front), e).Answered? then [e.seqno] else []
  }

  /** The times of the requests that reach the bucket: those that are not too large. */
  function RatedTimes(lim: Limits, echoes: seq<Echo>): seq<int>
  {
    if echoes == [] then []
    else
      var front, e := echoes[..|echoes| - 1], echoes[|echoes| - 1];
      RatedTimes(lim, front) + if lim.maxLength > 0 && e.length > lim.maxLength then [] else [e.now]
  }

  lemma {:induction false} RunWindow(lim: Limits, echoes: seq<Echo>)
    ensures Run(lim, echoes).win == Window.Run(AnsweredSeqnos(lim, echoes))
  {
    if echoes != [] {
      var front, e := echoes[..|echoes| - 1], echoes[|echoes| - 1];
      RunWindow(lim, front);
      var seqnos := AnsweredSeqnos(lim, front);
      if Judge(lim, Run(lim, front), e).Answered? {
        RunSnoc(seqnos, e.seqno);
      } else {
        assert seqnos + [] == seqnos;
      }
    }
  }

  lemma {:induction false} RunBucket(lim: Limits, echoes: seq<Echo>)
    ensures Run(lim, echoes).bucket == RateLimit.Run(lim.Rate(), RatedTimes(lim, echoes))
  {
    if echoes != [] {
      var front, e := echoes[..|echoes| - 1], echoes[|echoes| - 1];
      RunBucket(lim, front);
      var times := RatedTimes(lim, front);
      if lim.maxLength > 0 && e.length > lim.maxLength {
        assert times + [] == times;
      } else {
        assert (times + [e.now])[..|times|] == times;
      }
    }
  }

  class Sconn {
    const lim: Limits
    const raddr: Addr
    var ctoken: uint64
    var firstUsed: Option<int>
    var lastUsed: Option<int>
    var packetBucket: real
    var lastSeqno: Seqno
    var receivedCount: uint32
    var receivedWindow: Bits
    var rwinValid: bool

    function View(): Conn
      reads this
    {
      Conn(firstUsed, Bucket(packetBucket, lastUsed), State(lastSeqno, receivedWindow, rwinValid, receivedCount))
    }

    constructor (l: Limits, addr: Addr)
      ensures View() == NewConn(l) && lim == l && raddr == addr && ctoken == 0
    {
      lim, raddr, ctoken := l, addr, 0;
      firstUsed, lastUsed, packetBucket := None, None, l.packetBurst as real;
      lastSeqno, receivedCount, receivedWindow, rwinValid := INVALID_SEQNO, 0, {}, false;
    }

    /** The part of serving an echo request that decides whether to answer it and updates the state. */
    method AdmitEcho(e: Echo) returns (v: Verdict)
      modifies this
      ensures v == Judge(lim, old(View()), e)
      ensures View() == Admit(lim, old(View()), e)
      ensures ctoken == old(ctoken)
    {
      if lim.maxLength > 0 && e.length > lim.maxLength {
        return LargeRequest;
      }
      if firstUsed.None? {
        firstUsed := Some(e.now);
      }
      var ok := Spend(e.now);
      if !ok {
        return ShortInterval;
      }
      SlideWindow(e.seqno);
      var closed := false;
      if lim.maxDuration > 0 && e.later - firstUsed.value > lim.maxDuration + MAX_DURATION_GRACE {
        closed := true;
      }
      return Answered(closed);
    }

    method Spend(now: int) returns (ok: bool)
      modifies `packetBucket, `lastUsed
      ensures ok == Admits(lim.Rate(), old(View().bucket), now)
      ensures View().bucket == Use(lim.Rate(), old(View().bucket), now)
    {
      if lim.minInterval > 0 {
        if lastUsed.Some? {
          var earned := (now - lastUsed.value) as real / lim.minInterval as real;
          packetBucket := packetBucket + earned;
          if packetBucket > lim.packetBurst as real {
            packetBucket := lim.packetBurst as real;
          }
        }
        if packetBucket < 1.0 {
          lastUsed := Some(now);
          return false;
        }
        packetBucket := packetBucket - 1.0;
      }
      lastUsed := Some(now);
      return true;
    }

    method SlideWindow(seqno: Seqno)
      modifies `lastSeqno, `receivedCount, `receivedWindow, `rwinValid
      ensures View().win == Accept(old(View().win), seqno)
    {
      var since := Since(seqno, lastSeqno);
      ShlZero(receivedWindow);
      if since > 0 {
        receivedWindow := Shl(receivedWindow, since);
      }
      if since >= 0 {
        receivedWindow := receivedWindow + {0};
        rwinValid := true;
      } else {
        assert false;  // since is unsigned, so the source's branch for late packets is never taken
      }
      receivedCount := if receivedCount + 1 == TWO_TO_32 then 0 else receivedCount + 1;
      lastSeqno := seqno;
    }

    method Expired(now: int) returns (x: bool)
      ensures x == IsExpired(lim, View(), now)
    {
      if lim.timeout == 0 {
        return false;
      }
      return lastUsed.Some? && now - lastUsed.value > lim.timeout + TIMEOUT_GRACE;
    }
  }

  predicate IsExpired(lim: Limits, c: Conn, now: int)
  {
    lim.timeout != 0 && c.bucket.lastUsed.Some? && now - c.bucket.lastUsed.value > lim.timeout + TIMEOUT_GRACE
  }

  lemma ShlZero(w: Bits)
    ensures Shl(w, 0) == w
  {
    assert forall j: nat :: j in Shl(w, 0) <==> j - 0 in w && j < 64;
  }
}
