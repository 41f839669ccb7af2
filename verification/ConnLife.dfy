/** How long a connection lives on the server, and what it answers, over any run of the server. */
module ConnLife {
  import opened ConnTable
  import opened Octets
  import opened Sconn
  import R = ConnRun

  ghost predicate CanCome(lim: Limits, events: seq<Event>, e: Event)
  {
    Possible(lim, TableAfter(lim, events), e)
  }

  /** The answer to a packet that comes after some events. */
  function Answer(lim: Limits, events: seq<Event>, e: Event): Response
    requires CanCome(lim, events, e)
  {
    Respond(lim, TableAfter(lim, events), e)
  }

  /** The echo requests since event k from the address that opened token t with it. */
  function Since(events: seq<Event>, k: nat, t: Token): seq<Echo>
    requires k < |events|
  {
    EchoesOf(events[k + 1..], t, events[k].raddr)
  }

  /** What ends the connection opened under token t by event k: a close from its address, a reply that closes,
      or being found idle, by any packet that carries the token or among the first five entries an open
      happens to look at. */
  ghost predicate Ends(lim: Limits, events: seq<Event>, e: Event, k: nat, t: Token)
    requires k < |events| && CanCome(lim, events, e)
  {
    var idle := R.IsIdle(lim, Since(events, k, t), e.at);
    var answer := Answer(lim, events, e);
    if e.Open? then answer.Opened? && idle && t in e.order[..Min(|e.order|, 5)]
    else
      && e.hasToken && e.token == t
      && (idle || (e.close && e.raddr == events[k].raddr) || (answer.Replied? && answer.closed))
  }

  ghost predicate Survives(lim: Limits, events: seq<Event>, m: nat, k: nat, t: Token)
    requires k < m < |events|
  {
    CanCome(lim, events[..m], events[m]) ==> !Ends(lim, events[..m], events[m], k, t)
  }

  /** Event k was an open answered with token t, and no event since has ended that connection. */
  ghost predicate Alive(lim: Limits, events: seq<Event>, k: nat, t: Token)
  {
    && k < |events|
    && CanCome(lim, events[..k], events[k]) && Answer(lim, events[..k], events[k]) == Opened(t)
    && forall m {:trigger Survives(lim, events, m, k, t)} :: k < m < |events| ==> Survives(lim, events, m, k, t)
  }

  lemma AliveBefore(lim: Limits, events: seq<Event>, k: nat, t: Token)
    requires events != [] && k < |events| - 1
    ensures Alive(lim, events, k, t)
       <==> Alive(lim, events[..|events| - 1], k, t) && Survives(lim, events, |events| - 1, k, t)
  {
    var n := |events| - 1;
    var front := events[..n];
    assert front[..k] == events[..k];
    forall m | k < m < n
      ensures Survives(lim, events, m, k, t) <==> Survives(lim, front, m, k, t)
    {
      assert front[..m] == events[..m];
    }
    if Alive(lim, events, k, t) {
      forall m | k < m < n
        ensures Survives(lim, front, m, k, t)
      {
        assert Survives(lim, events, m, k, t);
      }
    }
  }

  /** A packet comes for an entry that is the fold of its packets: the entry stays unless this ends it. */
  lemma StepEnds(lim: Limits, events: seq<Event>, e: Event, k: nat, t: Token)
    requires IsProjection(lim, events, t, k) && CanCome(lim, events, e)
    ensures t in Step(lim, TableAfter(lim, events), e)
       <==> !Ends(lim, events, e, k, t) || Answer(lim, events, e) == Opened(t)
    ensures Answer(lim, events, e) == Opened(t) ==> Ends(lim, events, e, k, t)
  {
    R.ExpiredExactly(lim, Since(events, k, t), e.at);
  }

  lemma {:induction false} AliveProjects(lim: Limits, events: seq<Event>, k: nat, t: Token)
    requires Alive(lim, events, k, t)
    ensures IsProjection(lim, events, t, k)
  {
    var n := |events| - 1;
    var front, e := events[..n], events[n];
    assert events == front + [e];
    if k == n {
      PutProjects(lim, front, e);
    } else {
      AliveBefore(lim, events, k, t);
      AliveProjects(lim, front, k, t);
      assert Survives(lim, events, n, k, t);
      if CanCome(lim, front, e) {
        StepEnds(lim, front, e, k, t);
        Follows(lim, front, e, t, k);
      } else {
        Skipped(lim, front, e, t, k);
      }
    }
  }

  lemma {:induction false} PresentIsAlive(lim: Limits, events: seq<Event>, t: Token) returns (k: nat)
    requires t in TableAfter(lim, events)
    ensures Alive(lim, events, k, t)
  {
    var n := |events| - 1;
    var front, e := events[..n], events[n];
    if CanCome(lim, front, e) && Puts(e) && t == PutToken(lim, TableAfter(lim, front), e) {
      k := n;
    } else {
      if CanCome(lim, front, e) {
        EntryStep(lim, TableAfter(lim, front), e, t);
      }
      k := PresentIsAlive(lim, front, t);
      AliveProjects(lim, front, k, t);
      if CanCome(lim, front, e) {
        StepEnds(lim, front, e, k, t);
      }
      assert Survives(lim, events, n, k, t);
      AliveBefore(lim, events, k, t);
    }
  }

  /** A token is in the table exactly from the open that gave it out to the first event that ends its
      connection. */
  lemma PresentExactly(lim: Limits, events: seq<Event>, t: Token)
    ensures t in TableAfter(lim, events) <==> exists k: nat :: Alive(lim, events, k, t)
  {
    if t in TableAfter(lim, events) {
      var k := PresentIsAlive(lim, events, t);
    }
    if k: nat :| Alive(lim, events, k, t) {
      AliveProjects(lim, events, k, t);
    }
  }

  lemma TableAfterOne(lim: Limits, events: seq<Event>, e: Event)
    requires CanCome(lim, events, e)
    ensures TableAfter(lim, events + [e]) == Step(lim, TableAfter(lim, events), e)
  {
    assert (events + [e])[..|events|] == events;
  }

  /** So an ended connection is out of the table, unless the same event opens another under its token. */
  lemma EndedIsGone(lim: Limits, events: seq<Event>, e: Event, k: nat, t: Token)
    requires Alive(lim, events, k, t) && CanCome(lim, events, e) && Ends(lim, events, e, k, t)
    ensures t !in TableAfter(lim, events + [e]) || Answer(lim, events, e) == Opened(t)
    ensures e.Data? ==> t !in TableAfter(lim, events + [e])
  {
    AliveProjects(lim, events, k, t);
    StepEnds(lim, events, e, k, t);
    TableAfterOne(lim, events, e);
  }

  // What is answered.

  /** A packet with the token of a live connection: dropped if it comes from elsewhere or has no seqno,
      acknowledged if it closes, and otherwise answered as the connection's run of echo requests says, with
      the window and count after this very request. */
  lemma AnswerToLive(lim: Limits, events: seq<Event>, e: Event, k: nat)
    requires e.Data? && e.hasToken && Alive(lim, events, k, e.token)
    ensures var echoes := Since(events, k, e.token) + [e.echo];
            var verdict := R.Verdicts(lim, echoes)[|echoes| - 1];
            Answer(lim, events, e)
              == if e.raddr != events[k].raddr then Dropped
                 else if e.close then Closed
                 else if e.hasSeqno && verdict.Answered? then Replied(Run(lim, echoes).win, verdict.closed)
                 else Dropped
  {
    AliveProjects(lim, events, k, e.token);
    var before := Since(events, k, e.token);
    RunSnoc(lim, before, e.echo);
    var echoes := before + [e.echo];
    R.VerdictAt(lim, echoes, |before|);
    assert echoes[..|before|] == before;
  }

  /** A packet with any other token, or none, is dropped and changes nothing. */
  lemma AnswerToOther(lim: Limits, events: seq<Event>, e: Event)
    requires e.Data? && (e.hasToken ==> forall k: nat :: !Alive(lim, events, k, e.token))
    ensures Answer(lim, events, e) == Dropped && TableAfter(lim, events + [e]) == TableAfter(lim, events)
  {
    PresentExactly(lim, events, e.token);
    TableAfterOne(lim, events, e);
  }

  ghost predicate OpensAt(lim: Limits, events: seq<Event>, m: nat, t: Token)
    requires m < |events|
  {
    CanCome(lim, events[..m], events[m]) && Answer(lim, events[..m], events[m]) == Opened(t)
  }

  /** So a token that has left the table stays out of it, and nothing that carries it is answered, until an open is
      answered with it again. */
  lemma {:induction false} LeftUntilOpened(lim: Limits, events: seq<Event>, n: nat, t: Token)
    requires n <= |events| && t !in TableAfter(lim, events[..n])
    requires forall m :: n <= m < |events| ==> !OpensAt(lim, events, m, t)
    ensures t !in TableAfter(lim, events)
    ensures forall e: Event :: e.Data? && e.token == t ==> Answer(lim, events, e) == Dropped
  {
    if n == |events| {
      assert events[..n] == events;
    } else {
      var front, e := events[..|events| - 1], events[|events| - 1];
      assert front[..n] == events[..n];
      forall m | n <= m < |front|
        ensures !OpensAt(lim, front, m, t)
      {
        assert front[..m] == events[..m] && !OpensAt(lim, events, m, t);
      }
      LeftUntilOpened(lim, front, n, t);
      assert !OpensAt(lim, events, |front|, t);
      if CanCome(lim, front, e) && t in TableAfter(lim, events) {
        EntryStep(lim, TableAfter(lim, front), e, t);
      }
    }
  }

  /** An open with parameters that parse is answered; unless it also closes, with the first token drawn that is not
      in the table after the clean-up. */
  lemma AnswerToOpen(lim: Limits, events: seq<Event>, e: Event)
    requires e.Open? && CanCome(lim, events, e)
    ensures Answer(lim, events, e) == Dropped <==> !e.paramsOk
    ensures Answer(lim, events, e) == OpenClosed <==> e.paramsOk && e.close
    ensures Answer(lim, events, e).Opened? <==> e.paramsOk && !e.close
    ensures Answer(lim, events, e).Opened? ==>
              var t := Answer(lim, events, e).token;
              exists i :: 0 <= i < |e.rands| && e.rands[i] == t
                          && forall j :: 0 <= j < i ==> e.rands[j] != t && e.rands[j] in TableAfter(lim, events + [e])
    ensures !Answer(lim, events, e).Opened? ==> TableAfter(lim, events + [e]) == TableAfter(lim, events)
  {
    TableAfterOne(lim, events, e);
    if Puts(e) {
      var table := TableAfter(lim, events);
      var i := FirstFree(Cleaned(lim, table, e.order, e.at), e.rands, PutToken(lim, table, e));
    }
  }

  lemma {:induction false} FirstFree(table: Table, rands: seq<Token>, t: Token) returns (i: nat)
    requires (exists j :: 0 <= j < |rands| && rands[j] !in table) && t == FreshToken(table, rands)
    ensures i < |rands| && rands[i] == t && forall j :: 0 <= j < i ==> rands[j] in table
  {
    if rands[0] !in table {
      i := 0;
    } else {
      var j :| 0 <= j < |rands| && rands[j] !in table;
      assert rands[1..][j - 1] == rands[j];
      i := FirstFree(table, rands[1..], t);
      i := i + 1;
    }
  }
}
