/** The server's connection table and packet dispatch, over any interleaving of clients. */
module ConnTable {
  import opened Octets
  import opened Sconn
  import W = Window

  const CHECK_EXPIRED_COUNT: nat := 5

  type Token = uint64

  datatype Entry = Entry(raddr: Addr, conn: Conn)

  type Table = map<Token, Entry>

  /** A packet that passed validation. order is the order in which the runtime happens to iterate the
      table, rands the random tokens it draws; at is the clock when the table is consulted. */
  datatype Event =
    | Open(raddr: Addr, paramsOk: bool, close: bool, at: int, order: seq<Token>, rands: seq<Token>)
    | Data(raddr: Addr, hasToken: bool, token: Token, close: bool, hasSeqno: bool, at: int, echo: Echo)

  datatype Response =
    | Dropped
    | Opened(token: Token)
    | OpenClosed
    | Closed
    | Replied(win: W.State, closed: bool)

  predicate Expired(lim: Limits, table: Table, t: Token, now: int)
  {
    t in table && IsExpired(lim, table[t].conn, now)
  }

  /** The table without the expired ones among some tokens. */
  function Without(lim: Limits, table: Table, tokens: seq<Token>, now: int): Table
  {
    map t | t in table && !(t in tokens && Expired(lim, table, t, now)) :: table[t]
  }

  /** Of the first few entries iterated, the expired ones go. */
  function Cleaned(lim: Limits, table: Table, order: seq<Token>, now: int): Table
  {
    Without(lim, table, order[..Min(|order|, CHECK_EXPIRED_COUNT)], now)
  }

  lemma WithoutOneMore(lim: Limits, table: Table, tokens: seq<Token>, t: Token, now: int)
    ensures Without(lim, table, tokens + [t], now)
         == if Expired(lim, table, t, now) then Without(lim, table, tokens, now) - {t}
            else Without(lim, table, tokens, now)
  {
  }

  lemma CleanedFirst(lim: Limits, table: Table, order: seq<Token>, i: nat, now: int)
    requires i == Min(|order|, CHECK_EXPIRED_COUNT)
    ensures Cleaned(lim, table, order, now) == Without(lim, table, order[..i], now)
  {
  }

  lemma WithoutNone(lim: Limits, table: Table, order: seq<Token>, now: int)
    ensures Without(lim, table, order[..0], now) == table
  {
  }

  lemma WithoutNext(lim: Limits, table: Table, order: seq<Token>, i: nat, now: int)
    requires i < |order|
    ensures var rest := Without(lim, table, order[..i], now);
            Without(lim, table, order[..i + 1], now)
              == if Expired(lim, rest, order[i], now) then rest - {order[i]} else rest
  {
    assert order[..i + 1] == order[..i] + [order[i]];
    WithoutOneMore(lim, table, order[..i], order[i], now);
  }

  /** The first random token not in use. */
  function FreshToken(table: Table, rands: seq<Token>): (t: Token)
    requires exists i :: 0 <= i < |rands| && rands[i] !in table
    ensures t !in table
  {
    if rands[0] !in table then rands[0] else FreshToken(table, rands[1..])
  }

  predicate Possible(lim: Limits, table: Table, e: Event)
  {
    e.Open? ==>
      && (forall i :: 0 <= i < |e.order| ==> e.order[i] in table)
      && (exists i :: 0 <= i < |e.rands| && e.rands[i] !in table)
  }

  predicate Puts(e: Event)
  {
    e.Open? && e.paramsOk && !e.close
  }

  function PutToken(lim: Limits, table: Table, e: Event): (t: Token)
    requires Possible(lim, table, e) && Puts(e)
  {
    var table' := Cleaned(lim, table, e.order, e.at);
    assert exists i :: 0 <= i < |e.rands| && e.rands[i] !in table' by {
      var i :| 0 <= i < |e.rands| && e.rands[i] !in table;
      assert e.rands[i] !in table';
    }
    FreshToken(table', e.rands)
  }

  /** Whether a data packet reaches the echo handler of its connection. */
  predicate Echoes(table: Table, e: Event)
  {
    e.Data? && e.hasToken && e.token in table && e.raddr == table[e.token].raddr && !e.close && e.hasSeqno
  }

  function Respond(lim: Limits, table: Table, e: Event): Response
    requires Possible(lim, table, e)
  {
    match e
    case Open(_, paramsOk, close, _, _, _) =>
      if !paramsOk then Dropped else if close then OpenClosed else Opened(PutToken(lim, table, e))
    case Data(raddr, hasToken, token, close, _, _, echo) =>
      if Echoes(table, e) then
        var v := Judge(lim, table[token].conn, echo);
        if v.Answered? then Replied(Admit(lim, table[token].conn, echo).win, v.closed) else Dropped
      else if hasToken && token in table && raddr == table[token].raddr && close then Closed
      else Dropped
  }

  function Step(lim: Limits, table: Table, e: Event): Table
    requires Possible(lim, table, e)
  {
    match e
    case Open(raddr, _, _, at, order, _) =>
      if Puts(e) then Cleaned(lim, table, order, at)[PutToken(lim, table, e) := Entry(raddr, NewConn(lim))] else table
    case Data(raddr, hasToken, token, close, _, at, echo) =>
      if !hasToken || token !in table then table
      else
        var gone := Expired(lim, table, token, at) || Respond(lim, table, e) == Closed
                    || (Respond(lim, table, e).Replied? && Respond(lim, table, e).closed);
        if gone then table - {token}
        else if Echoes(table, e) then table[token := Entry(raddr, Admit(lim, table[token].conn, echo))]
        else table
  }

  // Whole runs.

  /** The table after some events, from an empty one; an event the runtime cannot produce is skipped. */
  function TableAfter(lim: Limits, events: seq<Event>): Table
  {
    if events == [] then map[]
    else
      var table, e := TableAfter(lim, events[..|events| - 1]), events[|events| - 1];
      if Possible(lim, table, e) then Step(lim, table, e) else table
  }

  function EchoOf(e: Event, token: Token, raddr: Addr): seq<Echo>
  {
    if e.Data? && e.hasToken && e.token == token && e.raddr == raddr && !e.close && e.hasSeqno then [e.echo] else []
  }

  /** The echo requests among some events that carry this token and come from this address. */
  function EchoesOf(events: seq<Event>, token: Token, raddr: Addr): seq<Echo>
  {
    if events == [] then []
    else
      var e := events[|events| - 1];
      EchoesOf(events[..|events| - 1], token, raddr)
      + EchoOf(e, token, raddr)
  }

  /** The token was given out by event k, to an opener at that address, and was not in use. */
  ghost predicate PutAt(lim: Limits, table: Table, e: Event, token: Token, raddr: Addr)
  {
    && Possible(lim, table, e) && Puts(e) && e.raddr == raddr
    && token == PutToken(lim, table, e) && token !in Cleaned(lim, table, e.order, e.at)
  }

  /** The entry for a token was put by event k and has seen just the echo requests since then that carry
      the token and come from the address that opened it. */
  ghost predicate IsProjection(lim: Limits, events: seq<Event>, token: Token, k: nat)
  {
    var table := TableAfter(lim, events);
    && k < |events| && token in table
    && PutAt(lim, TableAfter(lim, events[..k]), events[k], token, events[k].raddr)
    && table[token] == Entry(events[k].raddr, Run(lim, EchoesOf(events[k + 1..], token, events[k].raddr)))
  }

  lemma EchoesOfSnoc(events: seq<Event>, e: Event, token: Token, raddr: Addr)
    ensures EchoesOf(events + [e], token, raddr)
         == EchoesOf(events, token, raddr) + EchoOf(e, token, raddr)
  {
    assert (events + [e])[..|events|] == events;
  }

  lemma RunSnoc(lim: Limits, echoes: seq<Echo>, e: Echo)
    ensures Run(lim, echoes + [e]) == Admit(lim, Run(lim, echoes), e)
  {
    assert (echoes + [e])[..|echoes|] == echoes;
  }

  /** One step of another client, or of this one, for an entry that stays. */
  lemma EntryStep(lim: Limits, table: Table, e: Event, token: Token)
    requires Possible(lim, table, e) && token in Step(lim, table, e)
    requires !(Puts(e) && token == PutToken(lim, table, e))
    ensures token in table
    ensures Step(lim, table, e)[token]
         == if e.Data? && e.token == token && Echoes(table, e)
            then Entry(e.raddr, Admit(lim, table[token].conn, e.echo)) else table[token]
  {
  }

  lemma PutStep(lim: Limits, table: Table, e: Event)
    requires Possible(lim, table, e) && Puts(e)
    ensures var t := PutToken(lim, table, e);
            && t !in Cleaned(lim, table, e.order, e.at)
            && Step(lim, table, e)[t] == Entry(e.raddr, NewConn(lim))
  {
  }

  lemma PutProjects(lim: Limits, events: seq<Event>, e: Event)
    requires Possible(lim, TableAfter(lim, events), e) && Puts(e)
    ensures IsProjection(lim, events + [e], PutToken(lim, TableAfter(lim, events), e), |events|)
  {
    var n, all := |events|, events + [e];
    assert all[..n] == events && all[n] == e && all[n + 1..] == [];
    assert all[..|all| - 1] == events;
    PutStep(lim, TableAfter(lim, events), e);
  }

  /** Server run projection: whatever other clients send, each live entry is the fold of the echo
      handler over its own packets. */
  lemma {:induction false} Projection(lim: Limits, events: seq<Event>, token: Token) returns (k: nat)
    requires token in TableAfter(lim, events)
    ensures IsProjection(lim, events, token, k)
  {
    var n := |events| - 1;
    var front, e := events[..n], events[n];
    var table := TableAfter(lim, front);
    if !Possible(lim, table, e) {
      k := Projection(lim, front, token);
      Skipped(lim, front, e, token, k);
    } else if Puts(e) && token == PutToken(lim, table, e) {
      k := n;
      PutProjects(lim, front, e);
    } else {
      EntryStep(lim, table, e, token);
      k := Projection(lim, front, token);
      Follows(lim, front, e, token, k);
    }
    assert events == front + [e];
  }

  lemma Skipped(lim: Limits, events: seq<Event>, e: Event, token: Token, k: nat)
    requires IsProjection(lim, events, token, k) && !Possible(lim, TableAfter(lim, events), e)
    ensures IsProjection(lim, events + [e], token, k)
  {
    Extend(lim, events, e, token, k);
    assert EchoOf(e, token, events[k].raddr) == [];
    var echoes := EchoesOf(events[k + 1..], token, events[k].raddr);
    assert echoes + [] == echoes;
  }

  lemma Extend(lim: Limits, events: seq<Event>, e: Event, token: Token, k: nat)
    requires k < |events|
    ensures (events + [e])[..|events|] == events && (events + [e])[..k] == events[..k] && (events + [e])[k] == events[k]
    ensures EchoesOf((events + [e])[k + 1..], token, events[k].raddr)
         == EchoesOf(events[k + 1..], token, events[k].raddr) + EchoOf(e, token, events[k].raddr)
  {
    assert (events + [e])[k + 1..] == events[k + 1..] + [e];
    EchoesOfSnoc(events[k + 1..], e, token, events[k].raddr);
  }

  /** An entry that was a fold and stays is the fold one event later. */
  lemma Follows(lim: Limits, events: seq<Event>, e: Event, token: Token, k: nat)
    requires IsProjection(lim, events, token, k)
    requires var table := TableAfter(lim, events);
             && Possible(lim, table, e) && token in Step(lim, table, e)
             && !(Puts(e) && token == PutToken(lim, table, e))
    ensures IsProjection(lim, events + [e], token, k)
  {
    Extend(lim, events, e, token, k);
    EntryStep(lim, TableAfter(lim, events), e, token);
    FoldStep(lim, events[k + 1..], TableAfter(lim, events), e, token, events[k].raddr);
    EchoesOfSnoc(events[k + 1..], e, token, events[k].raddr);
  }

  /** One more event, for an entry that is the fold of its packets so far. */
  lemma FoldStep(lim: Limits, events: seq<Event>, table: Table, e: Event, token: Token, raddr: Addr)
    requires token in table && table[token] == Entry(raddr, Run(lim, EchoesOf(events, token, raddr)))
    ensures Run(lim, EchoesOf(events + [e], token, raddr))
         == if e.Data? && e.token == token && Echoes(table, e) then Admit(lim, table[token].conn, e.echo)
            else table[token].conn
  {
    EchoesOfSnoc(events, e, token, raddr);
    var before := EchoesOf(events, token, raddr);
    if e.Data? && e.token == token && Echoes(table, e) {
      RunSnoc(lim, before, e.echo);
    } else {
      assert before + [] == before;
    }
  }

  /** And each reply carries the window and count of that fold, the packet being answered included: also
      when that packet is the last one, on which the entry is deleted. */
  lemma ReplyProjection(lim: Limits, events: seq<Event>, e: Event) returns (k: nat)
    requires e.Data? && Respond(lim, TableAfter(lim, events), e).Replied?
    ensures IsProjection(lim, events, e.token, k) && e.raddr == events[k].raddr
    ensures Respond(lim, TableAfter(lim, events), e).win
         == Run(lim, EchoesOf(events[k + 1..] + [e], e.token, e.raddr)).win
  {
    k := Projection(lim, events, e.token);
    FoldStep(lim, events[k + 1..], TableAfter(lim, events), e, e.token, e.raddr);
  }

  /** An open changes no live connection: it removes expired entries only, and its token is new. */
  lemma OpenKeepsLive(lim: Limits, table: Table, e: Event, t: Token)
    requires Possible(lim, table, e) && e.Open? && t in table && !Expired(lim, table, t, e.at)
    ensures t in Step(lim, table, e) && Step(lim, table, e)[t] == table[t]
    ensures Puts(e) ==> PutToken(lim, table, e) != t
  {
  }

  /** A packet with the wrong address changes no live connection, whatever token it carries. */
  lemma WrongAddressKeepsLive(lim: Limits, table: Table, e: Event, t: Token)
    requires Possible(lim, table, e) && e.Data? && t in table && !Expired(lim, table, t, e.at)
    requires e.raddr != table[t].raddr
    ensures t in Step(lim, table, e) && Step(lim, table, e)[t] == table[t]
  {
  }

  // The imperative form.

  class ConnMgr {
    const lim: Limits
    var sconns: map<Token, Sconn>

    /** Each entry carries its own key as its token, so no connection is in the table twice. */
    ghost predicate Valid()
      reads this, sconns.Values
    {
      forall t :: t in sconns ==> sconns[t].ctoken == t && sconns[t].lim == lim
    }

    ghost function View(): Table
      reads this, sconns.Values
    {
      map t | t in sconns :: Entry(sconns[t].raddr, sconns[t].View())
    }

    constructor (l: Limits)
      ensures Valid() && View() == map[] && lim == l
    {
      lim, sconns := l, map[];
    }

    method RemoveSomeExpired(order: seq<Token>, now: int)
      requires Valid() && forall i :: 0 <= i < |order| ==> order[i] in sconns
      modifies `sconns
      ensures Valid() && Within(old(sconns))
      ensures View() == Cleaned(lim, old(View()), order, now)
    {
      var i := RemoveExpired(order, now);
      CleanedFirst(lim, old(View()), order, i, now);
    }

    /** The loop, up to the count of entries checked. */
    method RemoveExpired(order: seq<Token>, now: int) returns (i: nat)
      requires Valid()
      modifies `sconns
      ensures Valid() && Within(old(sconns)) && i == Min(|order|, CHECK_EXPIRED_COUNT)
      ensures View() == Without(lim, old(View()), order[..i], now)
    {
      WithoutNone(lim, View(), order, now);
      i := 0;
      while i < |order|
        invariant 0 <= i <= Min(|order|, CHECK_EXPIRED_COUNT)
        invariant i < |order| ==> i < CHECK_EXPIRED_COUNT
        invariant Valid() && Within(old(sconns))
        invariant View() == Without(lim, old(View()), order[..i], now)
      {
        var ct := order[i];
        WithoutNext(lim, old(View()), order, i, now);
        DeleteIfExpired(ct, now);
        i := i + 1;
        if i >= CHECK_EXPIRED_COUNT {
          break;
        }
      }
    }

    /** The body of the loop, for one entry iterated. */
    method DeleteIfExpired(ct: Token, now: int)
      requires Valid()
      modifies `sconns
      ensures Valid() && Within(old(sconns))
      ensures View() == if Expired(lim, old(View()), ct, now) then old(View()) - {ct} else old(View())
    {
      if ct in sconns {
        var x := sconns[ct].Expired(now);
        if x {
          sconns := sconns - {ct};
        }
      }
    }

    /** Every entry left is one of these. */
    ghost predicate Within(entries: map<Token, Sconn>)
      reads this
    {
      forall t :: t in sconns ==> t in entries && sconns[t] == entries[t]
    }

    method NewCtoken(rands: seq<Token>) returns (ct: Token)
      requires exists i :: 0 <= i < |rands| && rands[i] !in sconns
      ensures ct == FreshToken(View(), rands)
    {
      var i := 0;
      while rands[i] in sconns
        invariant 0 <= i < |rands|
        invariant exists j :: i <= j < |rands| && rands[j] !in sconns
        invariant FreshToken(View(), rands) == FreshToken(View(), rands[i..])
        decreases |rands| - i
      {
        i := i + 1;
      }
      ct := rands[i];
    }
  
    method Put(sc: Sconn, order: seq<Token>, rands: seq<Token>, now: int)
      requires Valid() && sc !in sconns.Values && sc.lim == lim
      requires forall i :: 0 <= i < |order| ==> order[i] in sconns
      requires exists i :: 0 <= i < |rands| && rands[i] !in sconns
      modifies `sconns, sc`ctoken
      ensures Valid()
      ensures var table := Cleaned(lim, old(View()), order, now);
              && (exists i :: 0 <= i < |rands| && rands[i] !in table)
              && sc.ctoken == FreshToken(table, rands)
              && View() == table[sc.ctoken := Entry(sc.raddr, sc.View())]
    {
      RemoveSomeExpired(order, now);
      ghost var table := View();
      assert sc !in sconns.Values;
      var ct := NewCtoken(rands);
      Insert(ct, sc);
    }

    method Insert(ct: Token, sc: Sconn)
      requires Valid() && sc !in sconns.Values && sc.lim == lim
      modifies `sconns, sc`ctoken
      ensures Valid() && sc.ctoken == ct && sc.View() == old(sc.View())
      ensures View() == old(View())[ct := Entry(sc.raddr, sc.View())]
    {
      sc.ctoken := ct;
      sconns := sconns[ct := sc];
    }

    /** An expired connection is deleted but still handed out, for this one packet. */
    method Get(ct: Token, now: int) returns (sc: Sconn?)
      requires Valid()
      modifies `sconns
      ensures Valid() && Within(old(sconns))
      ensures sc == if ct in old(sconns) then old(sconns)[ct] else null
      ensures View() == if Expired(lim, old(View()), ct, now) then old(View()) - {ct} else old(View())
    {
      if ct !in sconns {
        return null;
      }
      sc := sconns[ct];
      var x := sc.Expired(now);
      if x {
        sconns := sconns - {ct};
      }
    }

    method Remove(ct: Token) returns (sc: Sconn?)
      requires Valid()
      modifies `sconns
      ensures Valid() && Within(old(sconns))
      ensures sc == if ct in old(sconns) then old(sconns)[ct] else null
      ensures View() == old(View()) - {ct}
    {
      sc := null;
      if ct in sconns {
        sc := sconns[ct];
        sconns := sconns - {ct};
      }
    }
  
    /** An open request. */
    method HandleOpen(e: Event) returns (r: Response)
      requires Valid() && e.Open? && Possible(lim, View(), e)
      modifies `sconns
      ensures Valid()
      ensures r == Respond(lim, old(View()), e) && View() == Step(lim, old(View()), e)
    {
      if !e.paramsOk {
        return Dropped;
      }
      var sc := new Sconn(lim, e.raddr);
      if e.close {
        return OpenClosed;
      }
      var ct := PutNew(sc, e);
      return Opened(ct);
    }

    /** Puts the connection of an open request that is accepted. */
    method PutNew(sc: Sconn, e: Event) returns (ct: Token)
      requires Valid() && e.Open? && Possible(lim, View(), e) && Puts(e)
      requires sc !in sconns.Values && sc.lim == lim && sc.raddr == e.raddr && sc.View() == NewConn(lim)
      modifies `sconns, sc`ctoken
      ensures Valid() && ct == PutToken(lim, old(View()), e) && View() == Step(lim, old(View()), e)
    {
      Put(sc, e.order, e.rands, e.at);
      ct := sc.ctoken;
    }

    /** A packet for a connection: look it up, check the address, then close it or serve an echo. */
    method HandleData(e: Event) returns (r: Response)
      requires Valid() && e.Data?
      modifies this, sconns.Values
      ensures Valid()
      ensures r == Respond(lim, old(View()), e) && View() == Step(lim, old(View()), e)
    {
      if !e.hasToken {
        return Dropped;
      }
      var sc := Get(e.token, e.at);
      if sc == null || e.raddr != sc.raddr {
        return Dropped;
      }
      if e.close {
        var _ := Remove(sc.ctoken);
        return Closed;
      }
      if !e.hasSeqno {
        return Dropped;
      }
      r := ServeEcho(sc, e);
    }

    method ServeEcho(sc: Sconn, e: Event) returns (r: Response)
      requires Valid() && e.Data? && sc.ctoken == e.token && sc.lim == lim
      requires forall t :: t in sconns && sconns[t] == sc ==> t == e.token
      requires e.token in sconns ==> sconns[e.token] == sc
      modifies `sconns, sc
      ensures Valid()
      ensures var v := Judge(lim, old(sc.View()), e.echo);
              && r == (if v.Answered? then Replied(Admit(lim, old(sc.View()), e.echo).win, v.closed) else Dropped)
              && View() == if v.Answered? && v.closed then old(View()) - {e.token}
                           else if e.token in old(View()) then
                             old(View())[e.token := Entry(sc.raddr, Admit(lim, old(sc.View()), e.echo))]
                           else old(View())
    {
      var v := sc.AdmitEcho(e.echo);
      if !v.Answered? {
        return Dropped;
      }
      if v.closed {
        var _ := Remove(sc.ctoken);
      }
      return Replied(sc.View().win, v.closed);
    }
  }
}
