/** The server's packet bucket: rate limiting of one connection, over whole runs. */
module RateLimit {
  import opened Octets

  /** minInterval is in nanoseconds; 0 or less turns the limit off. */
  datatype Limit = Limit(minInterval: int, burst: int)

  /** The bucket is a float64 in the source, an exact real here. lastUsed is None before first use. */
  datatype Bucket = Bucket(level: real, lastUsed: Option<int>)

  function Full(lim: Limit): Bucket
  {
    Bucket(lim.burst as real, None)
  }

  /** The level at time now, after what was earned since the last use, capped at the burst. */
  function Earned(lim: Limit, b: Bucket, now: int): real
    requires lim.minInterval > 0
  {
    if b.lastUsed.None? then b.level
    else
      var level := b.level + (now - b.lastUsed.value) as real / lim.minInterval as real;
      if level > lim.burst as real then lim.burst as real else level
  }

  predicate Admits(lim: Limit, b: Bucket, now: int)
  {
    lim.minInterval > 0 ==> Earned(lim, b, now) >= 1.0
  }

  /** The bucket after a request at time now. */
  function Use(lim: Limit, b: Bucket, now: int): Bucket
  {
    if lim.minInterval <= 0 then Bucket(b.level, Some(now))
    else
      var level := Earned(lim, b, now);
      Bucket(if level < 1.0 then level else level - 1.0, Some(now))
  }

  /** The bucket after requests at the given times. */
  function Run(lim: Limit, times: seq<int>): Bucket
  {
    if times == [] then Full(lim)
    else Use(lim, Run(lim, times[..|times| - 1]), times[|times| - 1])
  }

  /** Whether the j-th request is accepted. */
  predicate Accepted(lim: Limit, times: seq<int>, j: nat)
    requires j < |times|
  {
    Admits(lim, Run(lim, times[..j]), times[j])
  }

  /** How many of the requests i .. j - 1 are accepted. */
  function Count(lim: Limit, times: seq<int>, i: nat, j: nat): nat
    requires i <= j <= |times|
  {
    if i == j then 0
    else Count(lim, times, i, j - 1) + if Accepted(lim, times, j - 1) then 1 else 0
  }

  /** What the burst and the time since request i allow up to request j, less what was used. */
  function Allowance(lim: Limit, times: seq<int>, i: nat, j: nat): real
    requires lim.minInterval > 0 && i <= j < |times|
  {
    lim.burst as real + (times[j] - times[i]) as real / lim.minInterval as real - Count(lim, times, i, j) as real
  }

  ghost predicate Nondecreasing(times: seq<int>)
  {
    forall i, j :: 0 <= i < j < |times| ==> times[i] <= times[j]
  }

  lemma RunLast(lim: Limit, times: seq<int>, j: nat)
    requires j < |times|
    ensures Run(lim, times[..j + 1]) == Use(lim, Run(lim, times[..j]), times[j])
  {
    assert times[..j + 1][..j] == times[..j];
  }

  lemma Divide(a: int, b: int, c: int, m: int)
    requires m > 0
    ensures (b - a) as real / m as real + (c - b) as real / m as real == (c - a) as real / m as real
  {
  }

  /** One step of the closed form: allowances before request j, carried over to request j + 1. */
  lemma Carry(lim: Limit, times: seq<int>, i: nat, j: nat)
    requires lim.minInterval > 0 && i <= j && j + 1 < |times|
    ensures Allowance(lim, times, i, j + 1)
         == Allowance(lim, times, i, j) - (if Accepted(lim, times, j) then 1.0 else 0.0)
            + (times[j + 1] - times[j]) as real / lim.minInterval as real
  {
    Divide(times[i], times[j], times[j + 1], lim.minInterval);
  }

  /** From the level at request j to that at j + 1: lose a token if accepted, gain the gap, stay
      within the burst. */
  function Refill(lim: Limit, times: seq<int>, j: nat, before: real): real
    requires lim.minInterval > 0 && j + 1 < |times|
  {
    var level := before - (if Accepted(lim, times, j) then 1.0 else 0.0)
                 + (times[j + 1] - times[j]) as real / lim.minInterval as real;
    if level > lim.burst as real then lim.burst as real else level
  }

  lemma NextLevel(lim: Limit, times: seq<int>, j: nat)
    requires lim.minInterval > 0 && j + 1 < |times|
    ensures Earned(lim, Run(lim, times[..j + 1]), times[j + 1])
         == Refill(lim, times, j, Earned(lim, Run(lim, times[..j]), times[j]))
  {
    RunLast(lim, times, j);
  }

  ghost predicate IsLeastAllowance(lim: Limit, times: seq<int>, j: nat, level: real)
    requires lim.minInterval > 0 && j < |times|
  {
    && (forall i :: 0 <= i <= j ==> level <= Allowance(lim, times, i, j))
    && (exists i :: 0 <= i <= j && level == Allowance(lim, times, i, j))
  }

  /** The level seen by request j is the least allowance over all starting points. */
  lemma {:induction false} LevelIsLeastAllowance(lim: Limit, times: seq<int>, j: nat)
    requires lim.minInterval > 0 && j < |times|
    ensures IsLeastAllowance(lim, times, j, Earned(lim, Run(lim, times[..j]), times[j]))
  {
    assert Allowance(lim, times, j, j) == lim.burst as real;
    if j > 0 {
      LevelIsLeastAllowance(lim, times, j - 1);
      NextLevel(lim, times, j - 1);
      LeastAllowanceStep(lim, times, j - 1, Earned(lim, Run(lim, times[..j - 1]), times[j - 1]));
    }
  }

  lemma LeastAllowanceStep(lim: Limit, times: seq<int>, j: nat, before: real)
    requires lim.minInterval > 0 && j + 1 < |times| && IsLeastAllowance(lim, times, j, before)
    ensures IsLeastAllowance(lim, times, j + 1, Refill(lim, times, j, before))
  {
    var next, j' := Refill(lim, times, j, before), j + 1;
    assert Allowance(lim, times, j', j') == lim.burst as real;
    forall i | 0 <= i <= j'
      ensures next <= Allowance(lim, times, i, j')
    {
      if i <= j { Carry(lim, times, i, j); }
    }
    var i :| 0 <= i <= j && before == Allowance(lim, times, i, j);
    Carry(lim, times, i, j);
    assert next == Allowance(lim, times, if next == lim.burst as real then j' else i, j');
  }

  /** The limiter drops a request exactly when accepting it would let some span that ends with it
      exceed the burst plus one packet per minimum interval. */
  lemma Conformance(lim: Limit, times: seq<int>, j: nat)
    requires lim.minInterval > 0 && j < |times|
    ensures Accepted(lim, times, j)
       <==> forall i :: 0 <= i <= j ==>
              Count(lim, times, i, j) as real + 1.0
                <= lim.burst as real + (times[j] - times[i]) as real / lim.minInterval as real
  {
    LevelIsLeastAllowance(lim, times, j);
    if !Accepted(lim, times, j) {
      var i :| 0 <= i <= j && Earned(lim, Run(lim, times[..j]), times[j]) == Allowance(lim, times, i, j);
      assert Count(lim, times, i, j) as real + 1.0
           > lim.burst as real + (times[j] - times[i]) as real / lim.minInterval as real;
    } else {
      forall i | 0 <= i <= j
        ensures Count(lim, times, i, j) as real + 1.0
             <= lim.burst as real + (times[j] - times[i]) as real / lim.minInterval as real
      {
        assert Allowance(lim, times, i, j) >= 1.0;
      }
    }
  }

  /** In any span of requests, at most burst + T / minInterval are accepted, T its duration. */
  lemma {:induction false} RateBound(lim: Limit, times: seq<int>, i: nat, j: nat)
    requires lim.minInterval > 0 && lim.burst >= 0 && Nondecreasing(times) && i <= j < |times|
    ensures Count(lim, times, i, j + 1) as real
         <= lim.burst as real + (times[j] - times[i]) as real / lim.minInterval as real
    decreases j
  {
    if Accepted(lim, times, j) {
      Conformance(lim, times, j);
    } else if i < j {
      RateBound(lim, times, i, j - 1);
      DivideMonotone(times[j - 1] - times[i], times[j] - times[i], lim.minInterval);
    } else {
      DivideMonotone(0, times[j] - times[i], lim.minInterval);
    }
  }

  lemma DivideMonotone(a: int, b: int, m: int)
    requires m > 0 && a <= b
    ensures a as real / m as real <= b as real / m as real
  {
  }

  /** The bucket stays between 0 and the burst. */
  lemma {:induction false} LevelInRange(lim: Limit, times: seq<int>)
    requires lim.burst >= 0 && Nondecreasing(times)
    ensures 0.0 <= Run(lim, times).level <= lim.burst as real
    ensures times == [] <==> Run(lim, times).lastUsed.None?
    ensures times != [] ==> Run(lim, times).lastUsed == Some(times[|times| - 1])
  {
    if times != [] {
      var front := times[..|times| - 1];
      LevelInRange(lim, front);
      if lim.minInterval > 0 && front != [] {
        DivideMonotone(0, times[|times| - 1] - front[|front| - 1], lim.minInterval);
      }
    }
  }

  lemma {:induction false} NeverAboveBurst(lim: Limit, times: seq<int>)
    requires Nondecreasing(times)
    ensures Run(lim, times).level <= lim.burst as real
    ensures times == [] <==> Run(lim, times).lastUsed.None?
    ensures times != [] ==> Run(lim, times).lastUsed == Some(times[|times| - 1])
  {
    if times != [] {
      NeverAboveBurst(lim, times[..|times| - 1]);
    }
  }

  lemma DivideSelf(m: int)
    requires m > 0
    ensures m as real / m as real == 1.0
  {
  }

  /** A client spaced at least the minimum interval apart is never dropped. */
  lemma {:induction false} SpacedNeverDropped(lim: Limit, times: seq<int>, j: nat)
    requires lim.burst >= 1 && j < |times|
    requires forall i :: 0 <= i < |times| - 1 ==> times[i + 1] - times[i] >= lim.minInterval
    ensures Accepted(lim, times, j)
  {
    if lim.minInterval > 0 && j > 0 {
      SpacedNeverDropped(lim, times, j - 1);
      NextLevel(lim, times, j - 1);
      assert times[j - 1 + 1] - times[j - 1] >= lim.minInterval;
      DivideMonotone(lim.minInterval, times[j] - times[j - 1], lim.minInterval);
      DivideSelf(lim.minInterval);
    }
  }

  /** After a dropped request at time t, a request at time u fares as if the drop had never come. */
  lemma DropLeavesNoTrace(lim: Limit, b: Bucket, t: int, u: int)
    requires t <= u && !Admits(lim, b, t) && b.level <= lim.burst as real
    requires b.lastUsed.None? ==> b.level == lim.burst as real
    ensures Admits(lim, Use(lim, b, t), u) == Admits(lim, b, u)
    ensures Use(lim, Use(lim, b, t), u) == Use(lim, b, u)
  {
    DivideMonotone(0, u - t, lim.minInterval);
    if b.lastUsed.Some? {
      Divide(b.lastUsed.value, t, u, lim.minInterval);
    }
  }

  lemma RunPush(lim: Limit, times: seq<int>, t: int)
    ensures Run(lim, times + [t]) == Use(lim, Run(lim, times), t)
  {
    assert (times + [t])[..|times|] == times;
  }

  lemma NondecreasingParts(pre: seq<int>, t: int, suf: seq<int>, n: nat)
    requires Nondecreasing(pre + [t] + suf) && n < |suf|
    ensures Nondecreasing(pre) && t <= suf[n] && Nondecreasing(pre + [t] + suf[..n])
  {
    var all := pre + [t] + suf;
    assert all[|pre|] == t && all[|pre| + 1 + n] == suf[n];
    assert forall i :: 0 <= i < |pre| ==> pre[i] == all[i];
    assert forall i :: 0 <= i <= |pre| + n ==> (pre + [t] + suf[..n])[i] == all[i];
  }

  /** The first request after a drop. */
  lemma NextAfterDrop(lim: Limit, pre: seq<int>, t: int, u: int)
    requires Nondecreasing(pre) && t <= u && !Admits(lim, Run(lim, pre), t)
    ensures Use(lim, Run(lim, pre + [t]), u) == Use(lim, Run(lim, pre), u)
    ensures Admits(lim, Run(lim, pre + [t]), u) == Admits(lim, Run(lim, pre), u)
  {
    RunPush(lim, pre, t);
    NeverAboveBurst(lim, pre);
    DropLeavesNoTrace(lim, Run(lim, pre), t, u);
  }

  /** The bucket after a non-empty suffix does not depend on a request dropped before it. */
  lemma {:induction false} RunWithoutDrop(lim: Limit, pre: seq<int>, t: int, suf: seq<int>)
    requires Nondecreasing(pre + [t] + suf) && suf != [] && !Admits(lim, Run(lim, pre), t)
    ensures Run(lim, pre + [t] + suf) == Run(lim, pre + suf)
  {
    var n := |suf| - 1;
    var front, u := suf[..n], suf[n];
    NondecreasingParts(pre, t, suf, n);
    RunPush(lim, pre + [t] + front, u);
    RunPush(lim, pre + front, u);
    assert pre + [t] + suf == pre + [t] + front + [u] && pre + suf == pre + front + [u];
    if n == 0 {
      assert pre + [t] + front == pre + [t] && pre + front == pre;
      NextAfterDrop(lim, pre, t, u);
    } else {
      RunWithoutDrop(lim, pre, t, front);
    }
  }

  /** Deleting a dropped request from a trace changes no other decision. */
  lemma DeletingADrop(lim: Limit, pre: seq<int>, t: int, suf: seq<int>, j: nat)
    requires Nondecreasing(pre + [t] + suf) && j < |pre + suf|
    requires !Accepted(lim, pre + [t] + suf, |pre|)
    ensures Accepted(lim, pre + suf, j) == Accepted(lim, pre + [t] + suf, if j < |pre| then j else j + 1)
  {
    var with, without := pre + [t] + suf, pre + suf;
    assert with[..|pre|] == pre && with[|pre|] == t;
    if j < |pre| {
      assert with[..j] == without[..j];
    } else {
      var k := j - |pre|;
      assert without[..j] == pre + suf[..k] && with[..j + 1] == pre + [t] + suf[..k];
      NondecreasingParts(pre, t, suf, k);
      if k == 0 {
        assert pre + suf[..k] == pre && pre + [t] + suf[..k] == pre + [t];
        NextAfterDrop(lim, pre, t, suf[0]);
      } else {
        RunWithoutDrop(lim, pre, t, suf[..k]);
      }
    }
  }
}
