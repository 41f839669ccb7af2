/** What one connection answers over a whole run of echo requests, in terms of their times, lengths and verdicts. */
module ConnRun {
  import opened BitOps
  import opened Octets
  import opened Sconn
  import L = RateLimit
  import W = Window

  predicate TooLarge(lim: Limits, e: Echo)
  {
    lim.maxLength > 0 && e.length > lim.maxLength
  }

  /** The verdict on each request of a run. */
  function Verdicts(lim: Limits, echoes: seq<Echo>): (vs: seq<Verdict>)
    ensures |vs| == |echoes|
  {
    if echoes == [] then []
    else
      var front, e := echoes[..|echoes| - 1], echoes[|echoes| - 1];
      Verdicts(lim, front) + [Judge(lim, Run(lim, front), e)]
  }

  /** How many of the requests i .. j - 1 were answered. */
  function Answers(vs: seq<Verdict>, i: nat, j: nat): nat
    requires i <= j <= |vs|
  {
    if i == j then 0
    else Answers(vs, i, j - 1) + if vs[j - 1].Answered? then 1 else 0
  }

  /** The burst and one packet per minimum interval, over the time from request i to request j. */
  function Allowed(lim: Limits, echoes: seq<Echo>, i: nat, j: nat): real
    requires lim.minInterval > 0 && i < |echoes| && j < |echoes|
  {
    lim.packetBurst as real + (echoes[j].now - echoes[i].now) as real / lim.minInterval as real
  }

  ghost predicate InTime(echoes: seq<Echo>)
  {
    forall i, j :: 0 <= i < j < |echoes| ==> echoes[i].now <= echoes[j].now
  }

  /** No request before it was not too large. */
  ghost predicate IsFirstUse(lim: Limits, echoes: seq<Echo>, f: nat)
  {
    && f < |echoes| && !TooLarge(lim, echoes[f])
    && forall i :: 0 <= i < f ==> TooLarge(lim, echoes[i])
  }

  ghost predicate IsLastUse(lim: Limits, echoes: seq<Echo>, l: nat)
  {
    && l < |echoes| && !TooLarge(lim, echoes[l])
    && forall i :: l < i < |echoes| ==> TooLarge(lim, echoes[i])
  }

  // The requests that reach the bucket, and their place among the others.

  lemma VerdictAt(lim: Limits, echoes: seq<Echo>, k: nat)
    requires k < |echoes|
    ensures Verdicts(lim, echoes)[k] == Judge(lim, Run(lim, echoes[..k]), echoes[k])
  {
    if k < |echoes| - 1 {
      VerdictAt(lim, echoes[..|echoes| - 1], k);
      assert echoes[..|echoes| - 1][..k] == echoes[..k];
    }
  }

  function Place(lim: Limits, echoes: seq<Echo>, k: nat): nat
    requires k <= |echoes|
  {
    |RatedTimes(lim, echoes[..k])|
  }

  lemma RatedStep(lim: Limits, echoes: seq<Echo>, k: nat)
    requires k < |echoes|
    ensures RatedTimes(lim, echoes[..k + 1])
         == RatedTimes(lim, echoes[..k]) + if TooLarge(lim, echoes[k]) then [] else [echoes[k].now]
  {
    assert echoes[..k + 1][..k] == echoes[..k];
  }

  lemma {:induction false} RatedPrefix(lim: Limits, echoes: seq<Echo>, k: nat, n: nat)
    requires k <= n <= |echoes|
    ensures RatedTimes(lim, echoes[..k]) <= RatedTimes(lim, echoes[..n])
  {
    if k < n {
      RatedPrefix(lim, echoes, k, n - 1);
      RatedStep(lim, echoes, n - 1);
    }
  }

  lemma RatedAt(lim: Limits, echoes: seq<Echo>, k: nat)
    requires k < |echoes| && !TooLarge(lim, echoes[k])
    ensures var times, p := RatedTimes(lim, echoes), Place(lim, echoes, k);
            p < |times| && times[p] == echoes[k].now && times[..p] == RatedTimes(lim, echoes[..k])
  {
    RatedStep(lim, echoes, k);
    RatedPrefix(lim, echoes, k + 1, |echoes|);
    assert echoes[..|echoes|] == echoes;
  }

  /** Every place is that of a request. */
  lemma {:induction false} RatedFrom(lim: Limits, echoes: seq<Echo>, n: nat, p: nat) returns (k: nat)
    requires n <= |echoes| && p < Place(lim, echoes, n)
    ensures k < n && !TooLarge(lim, echoes[k]) && Place(lim, echoes, k) == p
  {
    RatedStep(lim, echoes, n - 1);
    if p == Place(lim, echoes, n - 1) {
      k := n - 1;
    } else {
      k := RatedFrom(lim, echoes, n - 1, p);
    }
  }

  lemma AnsweredIsAccepted(lim: Limits, echoes: seq<Echo>, k: nat)
    requires k < |echoes| && !TooLarge(lim, echoes[k])
    ensures var times, p := RatedTimes(lim, echoes), Place(lim, echoes, k);
            p < |times| && (Verdicts(lim, echoes)[k].Answered? <==> L.Accepted(lim.Rate(), times, p))
  {
    VerdictAt(lim, echoes, k);
    RatedAt(lim, echoes, k);
    RunBucket(lim, echoes[..k]);
  }

  lemma {:induction false} AnswersAreCounted(lim: Limits, echoes: seq<Echo>, i: nat, j: nat)
    requires i <= j <= |echoes|
    ensures var times, p, q := RatedTimes(lim, echoes), Place(lim, echoes, i), Place(lim, echoes, j);
            p <= q <= |times| && Answers(Verdicts(lim, echoes), i, j) == L.Count(lim.Rate(), times, p, q)
  {
    assert echoes[..|echoes|] == echoes;
    RatedPrefix(lim, echoes, j, |echoes|);
    if i < j {
      AnswersAreCounted(lim, echoes, i, j - 1);
      RatedStep(lim, echoes, j - 1);
      if TooLarge(lim, echoes[j - 1]) {
        VerdictAt(lim, echoes, j - 1);
      } else {
        AnsweredIsAccepted(lim, echoes, j - 1);
      }
    }
  }

  // What is answered.

  /** Answering request j keeps within the allowance since request i. */
  ghost predicate Fits(lim: Limits, echoes: seq<Echo>, i: nat, j: nat)
    requires lim.minInterval > 0 && i <= j < |echoes|
  {
    Answers(Verdicts(lim, echoes), i, j) as real + 1.0 <= Allowed(lim, echoes, i, j)
  }

  lemma FitsAtPlace(lim: Limits, echoes: seq<Echo>, i: nat, j: nat)
    requires lim.minInterval > 0 && i <= j < |echoes| && !TooLarge(lim, echoes[i]) && !TooLarge(lim, echoes[j])
    ensures var times, p, q := RatedTimes(lim, echoes), Place(lim, echoes, i), Place(lim, echoes, j);
            && p <= q < |times|
            && (Fits(lim, echoes, i, j) <==> L.Allowance(lim.Rate(), times, p, q) >= 1.0)
  {
    RatedAt(lim, echoes, i);
    RatedAt(lim, echoes, j);
    AnswersAreCounted(lim, echoes, i, j);
  }

  lemma AnsweredFits(lim: Limits, echoes: seq<Echo>, i: nat, j: nat)
    requires lim.minInterval > 0 && i <= j < |echoes| && !TooLarge(lim, echoes[i]) && !TooLarge(lim, echoes[j])
    requires Verdicts(lim, echoes)[j].Answered?
    ensures Fits(lim, echoes, i, j)
  {
    FitsAtPlace(lim, echoes, i, j);
    AnsweredIsAccepted(lim, echoes, j);
    L.LevelIsLeastAllowance(lim.Rate(), RatedTimes(lim, echoes), Place(lim, echoes, j));
  }

  lemma DroppedOverflows(lim: Limits, echoes: seq<Echo>, j: nat) returns (i: nat)
    requires lim.minInterval > 0 && j < |echoes| && !TooLarge(lim, echoes[j])
    requires !Verdicts(lim, echoes)[j].Answered?
    ensures i <= j && !TooLarge(lim, echoes[i]) && !Fits(lim, echoes, i, j)
  {
    var times, q := RatedTimes(lim, echoes), Place(lim, echoes, j);
    AnsweredIsAccepted(lim, echoes, j);
    L.LevelIsLeastAllowance(lim.Rate(), times, q);
    var p :| 0 <= p <= q && L.Allowance(lim.Rate(), times, p, q) < 1.0;
    RatedStep(lim, echoes, j);
    i := RatedFrom(lim, echoes, j + 1, p);
    FitsAtPlace(lim, echoes, i, j);
  }

  /** A request that is not too large is answered exactly if, whichever such request one starts from, answering
      it keeps within the burst and one packet per minimum interval. */
  lemma AnsweredExactly(lim: Limits, echoes: seq<Echo>, j: nat)
    requires lim.minInterval > 0 && j < |echoes| && !TooLarge(lim, echoes[j])
    ensures Verdicts(lim, echoes)[j].Answered?
       <==> forall i :: 0 <= i <= j && !TooLarge(lim, echoes[i]) ==> Fits(lim, echoes, i, j)
  {
    if Verdicts(lim, echoes)[j].Answered? {
      forall i | 0 <= i <= j && !TooLarge(lim, echoes[i])
        ensures Fits(lim, echoes, i, j)
      {
        AnsweredFits(lim, echoes, i, j);
      }
    } else {
      var i := DroppedOverflows(lim, echoes, j);
    }
  }

  /** Without a minimum interval, a request is answered exactly if it is not too large; and in any case it
      is refused as too large exactly if it is, and dropped for its interval only if there is one to keep. */
  lemma RefusedExactly(lim: Limits, echoes: seq<Echo>, j: nat)
    requires j < |echoes|
    ensures Verdicts(lim, echoes)[j] == LargeRequest <==> lim.maxLength > 0 && echoes[j].length > lim.maxLength
    ensures Verdicts(lim, echoes)[j] == ShortInterval ==> lim.minInterval > 0
  {
    VerdictAt(lim, echoes, j);
  }

  /** In any span of requests no more are answered than the burst and one per minimum interval. */
  lemma {:induction false} AnswersAreBounded(lim: Limits, echoes: seq<Echo>, i: nat, j: nat)
    requires lim.minInterval > 0 && lim.packetBurst >= 0 && InTime(echoes) && i <= j < |echoes|
    ensures Answers(Verdicts(lim, echoes), i, j + 1) as real <= Allowed(lim, echoes, i, j)
    decreases j - i
  {
    var vs := Verdicts(lim, echoes);
    L.DivideMonotone(0, echoes[j].now - echoes[i].now, lim.minInterval);
    if TooLarge(lim, echoes[i]) {
      RefusedExactly(lim, echoes, i);
      SkipFirst(vs, i, j + 1);
      if i < j {
        AnswersAreBounded(lim, echoes, i + 1, j);
        L.DivideMonotone(echoes[j].now - echoes[i + 1].now, echoes[j].now - echoes[i].now, lim.minInterval);
      }
    } else if vs[j].Answered? {
      RefusedExactly(lim, echoes, j);
      AnsweredExactly(lim, echoes, j);
      assert Fits(lim, echoes, i, j);
    } else if i < j {
      AnswersAreBounded(lim, echoes, i, j - 1);
      L.DivideMonotone(echoes[j - 1].now - echoes[i].now, echoes[j].now - echoes[i].now, lim.minInterval);
    }
  }

  lemma {:induction false} SkipFirst(vs: seq<Verdict>, i: nat, j: nat)
    requires i < j <= |vs| && !vs[i].Answered?
    ensures Answers(vs, i, j) == Answers(vs, i + 1, j)
  {
    if i + 1 < j {
      SkipFirst(vs, i, j - 1);
    }
  }

  // What the answers tell.

  /** The seqnos of the requests answered, in order. */
  function AnsweredBy(vs: seq<Verdict>, echoes: seq<Echo>): seq<W.Seqno>
    requires |vs| == |echoes|
  {
    if echoes == [] then []
    else
      var n := |echoes| - 1;
      AnsweredBy(vs[..n], echoes[..n]) + if vs[n].Answered? then [echoes[n].seqno] else []
  }

  lemma {:induction false} AnsweredSeqnosBy(lim: Limits, echoes: seq<Echo>)
    ensures AnsweredSeqnos(lim, echoes) == AnsweredBy(Verdicts(lim, echoes), echoes)
  {
    if echoes != [] {
      AnsweredSeqnosBy(lim, echoes[..|echoes| - 1]);
    }
  }

  /** The window and count after any run: of the integer that is sent for the window, bit i is set exactly if the
      seqno i behind the last one answered was answered and shows there, and the count is the number of answers. */
  lemma AnswersTell(lim: Limits, echoes: seq<Echo>, i: nat)
    requires i < 64
    ensures var seqnos, win := AnsweredBy(Verdicts(lim, echoes), echoes), Run(lim, echoes).win;
            && win.count == |seqnos| % 0x1_0000_0000
            && (win.valid <==> seqnos != [])
            && (seqnos != [] ==> (HasBit(W.Value(win.bits, 0), i) <==> exists k: nat :: W.ShowsAt(seqnos, k, i)))
  {
    AnsweredSeqnosBy(lim, echoes);
    RunWindow(lim, echoes);
    var seqnos := AnsweredSeqnos(lim, echoes);
    W.CountIsLength(seqnos);
    W.ValueBits(W.Run(seqnos).bits, 0, i);
    W.ValidIfAny(seqnos);
    if seqnos != [] {
      W.BitExactly(seqnos, i);
    }
  }

  // First and last use.

  lemma {:induction false} Unused(lim: Limits, echoes: seq<Echo>)
    requires forall i :: 0 <= i < |echoes| ==> TooLarge(lim, echoes[i])
    ensures Run(lim, echoes).firstUsed == None && Run(lim, echoes).bucket.lastUsed == None
  {
    if echoes != [] {
      Unused(lim, echoes[..|echoes| - 1]);
    }
  }

  lemma {:induction false} FirstUsed(lim: Limits, echoes: seq<Echo>, f: nat)
    requires IsFirstUse(lim, echoes, f)
    ensures Run(lim, echoes).firstUsed == Some(echoes[f].now)
  {
    var n := |echoes| - 1;
    var front := echoes[..n];
    if f < n {
      FirstUsed(lim, front, f);
    } else {
      Unused(lim, front);
    }
  }

  lemma {:induction false} LastUsed(lim: Limits, echoes: seq<Echo>, l: nat)
    requires IsLastUse(lim, echoes, l)
    ensures Run(lim, echoes).bucket.lastUsed == Some(echoes[l].now)
  {
    if l < |echoes| - 1 {
      LastUsed(lim, echoes[..|echoes| - 1], l);
    }
  }

  /** An answer closes the connection exactly if there is a maximum duration and the first request that was not
      too large came more than that and two seconds before. */
  lemma ClosesExactly(lim: Limits, echoes: seq<Echo>, f: nat, j: nat)
    requires IsFirstUse(lim, echoes, f) && j < |echoes| && Verdicts(lim, echoes)[j].Answered?
    ensures f <= j
    ensures Verdicts(lim, echoes)[j].closed
       <==> lim.maxDuration > 0 && echoes[j].later - echoes[f].now > lim.maxDuration + 2_000_000_000
  {
    VerdictAt(lim, echoes, j);
    RefusedExactly(lim, echoes, j);
    var before := echoes[..j];
    if f < j {
      FirstUsed(lim, before, f);
    } else {
      Unused(lim, before);
    }
  }

  /** A connection has expired exactly if there is a timeout and its last request that was not too large came
      more than that and five seconds before. One that was never used does not expire. */
  lemma ExpiredExactly(lim: Limits, echoes: seq<Echo>, now: int)
    ensures IsExpired(lim, Run(lim, echoes), now) <==> IsIdle(lim, echoes, now)
  {
    if l: nat :| IsLastUse(lim, echoes, l) {
      LastUsed(lim, echoes, l);
      forall k: nat | IsLastUse(lim, echoes, k)
        ensures echoes[k].now == echoes[l].now
      {
        LastUsed(lim, echoes, k);
      }
    } else {
      NeverUsed(lim, echoes);
      Unused(lim, echoes);
    }
  }

  ghost predicate IsIdle(lim: Limits, echoes: seq<Echo>, now: int)
  {
    lim.timeout != 0
    && exists l: nat :: IsLastUse(lim, echoes, l) && now - echoes[l].now > lim.timeout + 5_000_000_000
  }

  lemma {:induction false} NeverUsed(lim: Limits, echoes: seq<Echo>)
    requires !exists l: nat :: IsLastUse(lim, echoes, l)
    ensures forall i :: 0 <= i < |echoes| ==> TooLarge(lim, echoes[i])
  {
    if echoes != [] {
      var n := |echoes| - 1;
      assert !IsLastUse(lim, echoes, n);
      var front := echoes[..n];
      forall l: nat
        ensures !IsLastUse(lim, front, l)
      {
        if IsLastUse(lim, front, l) {
          assert front[l] == echoes[l] && forall i :: l < i < n ==> echoes[i] == front[i];
          assert IsLastUse(lim, echoes, l);
        }
      }
      NeverUsed(lim, front);
      assert forall i :: 0 <= i < n ==> front[i] == echoes[i];
    }
  }

  /** A run of the connection's code. */
  method Serve(sc: Sconn, echoes: seq<Echo>) returns (vs: seq<Verdict>)
    requires sc.View() == NewConn(sc.lim)
    modifies sc
    ensures vs == Verdicts(sc.lim, echoes) && sc.View() == Run(sc.lim, echoes)
  {
    vs := [];
    for k := 0 to |echoes|
      invariant vs == Verdicts(sc.lim, echoes[..k]) && sc.View() == Run(sc.lim, echoes[..k])
    {
      var v := sc.AdmitEcho(echoes[k]);
      vs := vs + [v];
      assert echoes[..k + 1][..k] == echoes[..k];
    }
    assert echoes[..|echoes|] == echoes;
  }
}
