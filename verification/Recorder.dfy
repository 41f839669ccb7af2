/** The client's recorder: a ring of round trips and running totals, refining a log of what was
    sent and of the first reply to each seqno. */
module Recorder {
  import opened Arith
  import opened Octets
  import opened Times
  import opened Window
  import Stats

  datatype RoundTrip = RoundTrip(clientSend: Time, clientReceive: Time, server: Timestamp, window: Bits, late: bool) {
    predicate ReplyReceived() { !clientReceive.IsZero() }

    /** The round-trip time less the server's processing time, when both stamps of one clock are known. */
    function RTT(): int
    {
      clientReceive.mono - clientSend.mono
      - if server.IsBothMono() then server.send.mono - server.receive.mono
        else if server.IsBothWall() then server.send.wall - server.receive.wall
        else 0
    }
  }

  /** What the recorder takes from a reply: trcvd is the local time of receipt. */
  datatype Reply = Reply(seqno: Seqno, trcvd: Time, server: Timestamp, window: Option<Bits>,
                         count: Option<uint32>, length: nat)

  /** The abstract state: send times in seqno order, first replies in order of arrival, duplicates. */
  datatype Log = Log(sends: seq<Time>, firsts: seq<Reply>, dups: nat)

  const EMPTY := Log([], [], 0)

  datatype Outcome = Unexpected | AgedOut | Duplicate | First

  /** The position in firsts of the reply to seqno s, or -1. */
  function Find(firsts: seq<Reply>, s: int): (k: int)
    ensures -1 <= k < |firsts|
    ensures k >= 0 ==> firsts[k].seqno == s
    ensures k == -1 ==> forall j :: 0 <= j < |firsts| ==> firsts[j].seqno != s
  {
    if firsts == [] then -1
    else if firsts[|firsts| - 1].seqno == s then |firsts| - 1
    else Find(firsts[..|firsts| - 1], s)
  }

  predicate Replied(log: Log, s: int)
  {
    Find(log.firsts, s) >= 0
  }

  /** The fate of a reply: it depends on the newest seqno, the capacity and the earlier replies only. */
  function Fate(log: Log, capacity: nat, seqno: Seqno): Outcome
  {
    var n := |log.sends|;
    if seqno > Max(n - 1, 0) then Unexpected
    else if n == 0 || n - 1 - seqno >= capacity then AgedOut
    else if Replied(log, seqno) then Duplicate
    else First
  }

  function Observe(log: Log, capacity: nat, p: Reply): Log
  {
    match Fate(log, capacity, p.seqno)
    case Unexpected => log
    case AgedOut => log
    case Duplicate => log.(dups := log.dups + 1)
    case First => log.(firsts := log.firsts + [p])
  }

  predicate IsLate(firsts: seq<Reply>, k: nat)
    requires k < |firsts|
  {
    k > 0 && firsts[k].seqno < firsts[k - 1].seqno
  }

  /** The record of seqno s. */
  function RecordOf(log: Log, s: nat): RoundTrip
    requires s < |log.sends|
  {
    if Replied(log, s) then Filled(log, s, Find(log.firsts, s))
    else RoundTrip(log.sends[s], NO_TIME, NO_STAMP, {}, false)
  }

  function Filled(log: Log, s: nat, k: nat): RoundTrip
    requires s < |log.sends| && k < |log.firsts|
  {
    var p := log.firsts[k];
    RoundTrip(log.sends[s], p.trcvd, p.server, if p.window.Some? then p.window.value else {}, IsLate(log.firsts, k))
  }

  /** The number of descents in the seqnos of the first replies. */
  function Descents(firsts: seq<Reply>): nat
  {
    if |firsts| < 2 then 0
    else Descents(firsts[..|firsts| - 1])
         + if firsts[|firsts| - 1].seqno < firsts[|firsts| - 2].seqno then 1 else 0
  }

  function TotalLength(firsts: seq<Reply>): nat
  {
    if firsts == [] then 0 else TotalLength(firsts[..|firsts| - 1]) + firsts[|firsts| - 1].length
  }

  /** The count in the last of the first replies that has one. */
  function LastCount(firsts: seq<Reply>): uint32
  {
    if firsts == [] then 0
    else if firsts[|firsts| - 1].count.Some? then firsts[|firsts| - 1].count.value
    else LastCount(firsts[..|firsts| - 1])
  }

  /** No seqno has two first replies, and every reply is to something sent. */
  ghost predicate WellFormed(log: Log)
  {
    && (forall j, k :: 0 <= j < k < |log.firsts| ==> log.firsts[j].seqno != log.firsts[k].seqno)
    && (forall k :: 0 <= k < |log.firsts| ==> log.firsts[k].seqno < |log.sends| && !log.firsts[k].trcvd.IsZero())
  }

  /** The round-trip times of the first replies, in order of arrival. */
  function RTTs(log: Log): seq<int>
    decreases |log.firsts|
  {
    if log.firsts == [] then []
    else
      var k := |log.firsts| - 1;
      var s := log.firsts[k].seqno;
      RTTs(log.(firsts := log.firsts[..k])) + if s < |log.sends| then [Filled(log, s, k).RTT()] else []
  }

  /** The round-trip time of a reply, if it is the first to its seqno. */
  function Owed(log: Log, capacity: nat, p: Reply): Option<int>
  {
    if Fate(log, capacity, p.seqno) == First
    then Some(Filled(log.(firsts := log.firsts + [p]), p.seqno, |log.firsts|).RTT())
    else None
  }

  /** What a first reply measures: with both of the server's monotonic stamps, the way up and the way down; with
      its wall stamps only, the time from send to receive less the wall time the server took; and otherwise
      all of the time from send to receive. */
  lemma FirstMeasures(log: Log, capacity: nat, p: Reply)
    requires Fate(log, capacity, p.seqno) == First
    ensures Owed(log, capacity, p).Some?
    ensures var rtt, sent, back, at := Owed(log, capacity, p).value, log.sends[p.seqno].mono, p.trcvd.mono, p.server;
            if at.receive.mono != 0 && at.send.mono != 0 then
              rtt == (at.receive.mono - sent) + (back - at.send.mono)
            else if at.receive.wall != 0 && at.send.wall != 0 then
              rtt == (back - sent) - (at.send.wall - at.receive.wall)
            else rtt == back - sent
  {
  }

  /** The server's time is taken off however long it is: the result is negative exactly if the server says it took
      longer than the client waited. */
  lemma NegativeExactly(log: Log, capacity: nat, p: Reply)
    requires Fate(log, capacity, p.seqno) == First && p.server.IsBothMono()
    ensures Owed(log, capacity, p).value < 0
       <==> p.server.send.mono - p.server.receive.mono > p.trcvd.mono - log.sends[p.seqno].mono
  {
    FirstMeasures(log, capacity, p);
  }

  /** For instance, 2 ns at the server of a reply that came after 1 ns. */
  lemma NegativeRTT()
    ensures var p := Reply(0, Time(2, 2), Timestamp(Time(1, 1), Time(3, 3)), None, None, 60);
            Owed(Log([Time(1, 1)], [], 0), 1, p) == Some(-1)
  {
    var log := Log([Time(1, 1)], [], 0);
    var p := Reply(0, Time(2, 2), Timestamp(Time(1, 1), Time(3, 3)), None, None, 60);
    assert Find(log.firsts, 0) == -1;
    FirstMeasures(log, 1, p);
  }

  function Moved(t: Time, d: int): Time { Time(t.wall + d, t.mono + d) }

  /** How the server's clocks are set does not matter. */
  lemma ServerClocksCancel(log: Log, capacity: nat, p: Reply, d: int)
    requires var at := Timestamp(Moved(p.server.receive, d), Moved(p.server.send, d));
             at.IsBothMono() == p.server.IsBothMono() && at.IsBothWall() == p.server.IsBothWall()
    ensures var at := Timestamp(Moved(p.server.receive, d), Moved(p.server.send, d));
            Owed(log, capacity, p.(server := at)) == Owed(log, capacity, p)
  {
    if Fate(log, capacity, p.seqno) == First {
      FirstMeasures(log, capacity, p);
      FirstMeasures(log, capacity, p.(server := Timestamp(Moved(p.server.receive, d), Moved(p.server.send, d))));
    }
  }

  /** Nor does how long it takes to reply, once it says so. */
  lemma ServerTimeCancels(log: Log, capacity: nat, p: Reply, d: int)
    requires p.server.IsBothMono() || p.server.IsBothWall()
    requires var at := Timestamp(p.server.receive, Moved(p.server.send, d));
             at.IsBothMono() == p.server.IsBothMono() && at.IsBothWall() == p.server.IsBothWall()
    ensures var q := p.(trcvd := Moved(p.trcvd, d), server := Timestamp(p.server.receive, Moved(p.server.send, d)));
            Owed(log, capacity, q) == Owed(log, capacity, p)
  {
    if Fate(log, capacity, p.seqno) == First {
      FirstMeasures(log, capacity, p);
      FirstMeasures(log, capacity, p.(trcvd := Moved(p.trcvd, d),
                                      server := Timestamp(p.server.receive, Moved(p.server.send, d))));
    }
  }

  lemma ObserveWellFormed(log: Log, capacity: nat, p: Reply)
    requires WellFormed(log) && !p.trcvd.IsZero()
    ensures WellFormed(Observe(log, capacity, p))
  {
  }

  lemma RecordReceived(log: Log, s: nat)
    requires WellFormed(log) && s < |log.sends|
    ensures RecordOf(log, s).ReplyReceived() <==> Replied(log, s)
    ensures RecordOf(log, s).clientSend == log.sends[s]
  {
  }

  /** A first reply changes the record it names and no other. */
  lemma RecordsAfterFirst(log: Log, p: Reply, s: nat)
    requires s < |log.sends|
    ensures var log' := log.(firsts := log.firsts + [p]);
            RecordOf(log', s) == if s == p.seqno then Filled(log', s, |log.firsts|) else RecordOf(log, s)
  {
    var log' := log.(firsts := log.firsts + [p]);
    assert log'.firsts[..|log.firsts|] == log.firsts;
    if s != p.seqno {
      var k := Find(log.firsts, s);
      assert Find(log'.firsts, s) == k;
      if k > 0 { assert log'.firsts[k - 1] == log.firsts[k - 1]; }
    }
  }

  lemma WellFormedBefore(log: Log, k: nat)
    requires WellFormed(log) && k <= |log.firsts|
    ensures WellFormed(log.(firsts := log.firsts[..k]))
  {
  }

  /** Neither a send nor a duplicate changes the round-trip times. */
  lemma {:induction false} RTTsKept(log: Log, log': Log)
    requires WellFormed(log) && log.sends <= log'.sends && log.firsts == log'.firsts
    ensures RTTs(log') == RTTs(log)
    decreases |log.firsts|
  {
    if log.firsts != [] {
      var k := |log.firsts| - 1;
      var front, s := log.firsts[..k], log.firsts[k].seqno;
      assert WellFormed(log.(firsts := front)) by { WellFormedBefore(log, k); }
      RTTsKept(log.(firsts := front), log'.(firsts := front));
      assert s < |log.sends| && log'.sends[s] == log.sends[s];
      assert Filled(log', s, k) == Filled(log, s, k);
    }
  }

  /** The slot of the newest of n sends: it advances by one and starts over at the capacity. */
  function NewestSlot(n: nat, capacity: nat): (i: nat)
    requires n >= 1 && capacity >= 1
    ensures i < Min(n, capacity)
    ensures n <= capacity ==> i == n - 1
  {
    if n == 1 then 0
    else
      var i := NewestSlot(n - 1, capacity) + 1;
      if i == capacity then 0 else i
  }

  /** The slot, in a ring of len slots, of the record sent o sends before the newest. */
  function Slot(newest: nat, len: nat, o: nat): (i: nat)
    requires newest < len && o < len
    ensures i < len
  {
    if o <= newest then newest - o else newest + len - o
  }

  /** The record sent o sends before the newest is in its slot. */
  ghost predicate Holds(data: seq<RoundTrip>, newest: nat, log: Log, o: nat)
    requires newest < |data| <= |log.sends| && o < |data|
  {
    data[Slot(newest, |data|, o)] == RecordOf(log, |log.sends| - 1 - o)
  }

  /** The ring holds the records of the last sends, as many as fit. */
  ghost predicate IsRing(data: seq<RoundTrip>, newest: nat, capacity: nat, log: Log)
  {
    var n := |log.sends|;
    && (capacity == 0 ==> n == 0)
    && |data| == Min(n, capacity)
    && newest == (if n == 0 then 0 else NewestSlot(n, capacity))
    && forall o {:trigger Holds(data, newest, log, o)} :: 0 <= o < |data| ==> Holds(data, newest, log, o)
  }

  /** The non-ghost fields of a recorder. */
  datatype Fields = Fields(capacity: nat, data: seq<RoundTrip>, sentIndex: nat, priorSent: Seqno, priorReceived: Seqno,
                           duplicates: nat, latePackets: nat, bytesReceived: nat, serverPackets: uint32)

  /** What the fields hold for a given log. */
  ghost predicate Represents(f: Fields, log: Log)
  {
    && |log.sends| <= TWO_TO_32
    && WellFormed(log)
    && IsRing(f.data, f.sentIndex, f.capacity, log)
    && f.priorSent == Max(|log.sends| - 1, 0)
    && f.duplicates == log.dups
    && AreTotals(f, log.firsts)
  }

  ghost predicate AreTotals(f: Fields, firsts: seq<Reply>)
  {
    && f.priorReceived == (if firsts == [] then 0 else firsts[|firsts| - 1].seqno)
    && f.latePackets == Descents(firsts)
    && f.bytesReceived == TotalLength(firsts)
    && f.serverPackets == LastCount(firsts)
  }

  /** What receiving a reply to seqno reports: an error, whether it counts, and the slot taken to hold the
      preceding seqno's record. */
  ghost predicate Told(f: Fields, log: Log, seqno: Seqno, ok: bool, err: bool, prior: Option<nat>)
    requires Represents(f, log)
  {
    && (err <==> Fate(log, f.capacity, seqno) == Unexpected)
    && (ok <==> Fate(log, f.capacity, seqno) == Duplicate || Fate(log, f.capacity, seqno) == First)
    && prior == if ok && seqno > 0
                then Some(PriorSlot(Slot(f.sentIndex, |f.data|, f.priorSent - seqno), |f.data|))
                else None
  }

  class Recorder {
    const capacity: nat
    var data: seq<RoundTrip>
    var sentIndex: nat
    var priorSent: Seqno
    var priorReceived: Seqno
    var duplicates: nat
    var latePackets: nat
    var bytesReceived: nat
    var serverPacketsReceived: uint32
    const rttStats: Stats.DurationStats
    ghost var log: Log

    ghost function View(): Fields
      reads this
    {
      Fields(capacity, data, sentIndex, priorSent, priorReceived, duplicates, latePackets, bytesReceived,
             serverPacketsReceived)
    }

    ghost predicate RingValid()
      reads this
    {
      Represents(View(), log)
    }

    ghost predicate Valid()
      reads this, rttStats
    {
      && RingValid()
      && rttStats.Valid()
      && rttStats.values == RTTs(log)
    }

    constructor (bufCap: nat)
      ensures Valid() && log == EMPTY && capacity == bufCap && fresh(rttStats)
    {
      capacity, data, sentIndex, priorSent, priorReceived := bufCap, [], 0, 0, 0;
      duplicates, latePackets, bytesReceived, serverPacketsReceived := 0, 0, 0, 0;
      rttStats := new Stats.DurationStats();
      log := EMPTY;
    }

    /** Records a send; seqnos are handed in as 0, 1, 2, ... With no room for a single record the source
        panics here. */
    method RecordPreSend(seqno: Seqno, tsend: Time)
      requires Valid() && seqno == |log.sends| && capacity >= 1
      modifies `data, `sentIndex, `priorSent, `log
      ensures Valid()
      ensures log == old(log).(sends := old(log).sends + [tsend])
    {
      var rtd := RoundTrip(tsend, NO_TIME, NO_STAMP, {}, false);
      if |data| > 0 {
        sentIndex := sentIndex + 1;
      }
      if |data| < capacity {
        data := data + [rtd];
      } else {
        if sentIndex == |data| {
          sentIndex := 0;
        }
        data := data[sentIndex := rtd];
      }
      priorSent := seqno;
      log := log.(sends := log.sends + [tsend]);
      SendRepresents(old(View()), old(log), tsend, View(), log);
      RTTsKept(old(log), log);
    }

    /** The slot handed to the OnSent handler after a send: it is the newest record's unless the ring
        has just started over. */
    method RecordPostSend() returns (i: nat)
      requires Valid() && |log.sends| > 0
      ensures i < |data|
      ensures i == Slot(sentIndex, |data|, 0)
         <==> |log.sends| == 1 || capacity == 1 || NewestSlot(|log.sends|, capacity) != 0
    {
      if sentIndex == 0 {
        i := |data| - 1;
      } else {
        i := sentIndex;
      }
    }

    /** Records a reply. prior is the slot taken for the record of the preceding seqno: it is that
        record's slot exactly as long as the record is retained, and otherwise the newest record's. */
    method RecordReceive(p: Reply) returns (ok: bool, err: bool, prior: Option<nat>)
      requires Valid() && !p.trcvd.IsZero()
      modifies this, rttStats
      ensures Valid()
      ensures log == Observe(old(log), capacity, p)
      ensures Told(old(View()), old(log), p.seqno, ok, err, prior)
    {
      ghost var before := RTTs(log);
      var rtt;
      ok, err, prior, rtt := Receive(p);
      assert RTTs(log) == before + (if rtt.Some? then [rtt.value] else []) by {
        RTTsObserved(old(log), capacity, p);
      }
      PushRTT(rtt);
    }

    method PushRTT(rtt: Option<int>)
      requires rttStats.Valid()
      modifies rttStats
      ensures rttStats.Valid()
      ensures rttStats.values == old(rttStats.values) + if rtt.Some? then [rtt.value] else []
    {
      if rtt.Some? {
        rttStats.Push(rtt.value);
      }
    }

    /** RecordReceive but for the RTT statistics; rtt is what they are owed. */
    method Receive(p: Reply) returns (ok: bool, err: bool, prior: Option<nat>, rtt: Option<int>)
      requires RingValid() && !p.trcvd.IsZero()
      modifies this
      ensures RingValid()
      ensures log == Observe(old(log), capacity, p)
      ensures Told(old(View()), old(log), p.seqno, ok, err, prior)
      ensures rtt == Owed(old(log), capacity, p)
    {
      ok, prior, rtt := false, None, None;
      var slot;
      err, slot := Locate(p.seqno);
      if slot.None? {
        return;
      }
      ok := true;
      if p.seqno > 0 {
        var i := slot.value;
        prior := Some(if i == 0 then |data| - 1 else i - 1);
      }
      rtt := RecordAt(p, slot.value);
    }

    /** The slot of a seqno's record, while it is retained. */
    method Locate(seqno: Seqno) returns (err: bool, slot: Option<nat>)
      requires RingValid()
      ensures err <==> Fate(log, capacity, seqno) == Unexpected
      ensures slot.None? <==> Fate(log, capacity, seqno).Unexpected? || Fate(log, capacity, seqno).AgedOut?
      ensures slot.Some? ==>
                && seqno <= priorSent && priorSent - seqno < |data|
                && slot.value == Slot(sentIndex, |data|, priorSent - seqno)
    {
      ghost var fate := FateByFields(View(), log, seqno);
      if seqno > priorSent {
        return true, None;
      }
      var o := priorSent - seqno;
      if o >= |data| {
        return false, None;
      }
      var i := sentIndex - o;
      if i < 0 {
        i := i + |data|;
      }
      return false, Some(i);
    }

    /** The part of RecordReceive for a record that is retained, in slot i. */
    method RecordAt(p: Reply, i: nat) returns (rtt: Option<int>)
      requires RingValid() && !p.trcvd.IsZero()
      requires p.seqno <= priorSent && priorSent - p.seqno < |data| && i == Slot(sentIndex, |data|, priorSent - p.seqno)
      modifies `data, `priorReceived, `latePackets, `bytesReceived, `serverPacketsReceived, `duplicates, `log
      ensures RingValid() && |data| == |old(data)|
      ensures log == Observe(old(log), capacity, p)
      ensures rtt == Owed(old(log), capacity, p)
    {
      ghost var fate := FateByFields(View(), log, p.seqno);
      if data[i].ReplyReceived() {
        RecordDuplicate();
        return None;
      }
      var t := RecordFirst(p, i);
      return Some(t);
    }

    method RecordDuplicate()
      requires RingValid()
      modifies `duplicates, `log
      ensures RingValid() && log == old(log).(dups := old(log).dups + 1)
    {
      duplicates := duplicates + 1;
      log := log.(dups := log.dups + 1);
      DuplicateRepresents(old(View()), old(log), View(), log);
    }

    /** The record of a first reply, and its round-trip time. */
    method Fill(empty: RoundTrip, p: Reply) returns (rtd: RoundTrip, rtt: int)
      requires empty.window == {}
      ensures rtd == RoundTrip(empty.clientSend, p.trcvd, p.server, if p.window.Some? then p.window.value else {},
                               p.seqno < priorReceived)
      ensures rtt == rtd.RTT()
    {
      rtd := empty.(late := p.seqno < priorReceived, clientReceive := p.trcvd, server := p.server);
      rtt := rtd.RTT();
      if p.window.Some? {
        rtd := rtd.(window := p.window.value);
      }
    }

    /** Stores the record and adds to the totals. */
    method Store(rtd: RoundTrip, p: Reply, i: nat)
      requires i < |data|
      modifies `data, `priorReceived, `latePackets, `bytesReceived, `serverPacketsReceived
      ensures data == old(data)[i := rtd]
      ensures latePackets == old(latePackets) + if rtd.late then 1 else 0
      ensures priorReceived == p.seqno && bytesReceived == old(bytesReceived) + p.length
      ensures serverPacketsReceived == if p.count.Some? then p.count.value else old(serverPacketsReceived)
    {
      if rtd.late {
        latePackets := latePackets + 1;
      }
      priorReceived := p.seqno;
      if p.count.Some? {
        serverPacketsReceived := p.count.value;
      }
      data := data[i := rtd];
      bytesReceived := bytesReceived + p.length;
    }

    /** The part of RecordReceive that takes in a first reply, for the record in slot i. */
    method RecordFirst(p: Reply, i: nat) returns (rtt: int)
      requires RingValid() && !p.trcvd.IsZero() && p.seqno < |log.sends| && !Replied(log, p.seqno)
      requires priorSent - p.seqno < |data| && i == Slot(sentIndex, |data|, priorSent - p.seqno)
      requires data[i] == RoundTrip(log.sends[p.seqno], NO_TIME, NO_STAMP, {}, false)
      modifies `data, `priorReceived, `latePackets, `bytesReceived, `serverPacketsReceived, `log
      ensures RingValid() && |data| == |old(data)|
      ensures log == old(log).(firsts := old(log).firsts + [p])
      ensures rtt == Filled(log, p.seqno, |log.firsts| - 1).RTT()
    {
      ghost var f, before := View(), log;
      var rtd;
      rtd, rtt := Fill(data[i], p);
      FilledNow(f, before, p, rtd);
      Store(rtd, p, i);
      log := log.(firsts := log.firsts + [p]);
      FirstRepresents(f, before, p, i, View(), log);
    }
  }

  /** The slot taken to hold the preceding seqno's record. */
  function PriorSlot(i: nat, len: nat): nat
    requires i < len
  {
    if i == 0 then len - 1 else i - 1
  }

  /** It does hold it exactly as long as that record is retained; otherwise it is the newest record's. */
  lemma PriorSlotIsRight(newest: nat, len: nat, o: nat)
    requires newest < len && o < len
    ensures var j := PriorSlot(Slot(newest, len, o), len);
            if o + 1 < len then j == Slot(newest, len, o + 1) && j != newest else j == newest
  {
  }

  /** The tests on the fields decide the fate. */
  lemma FateByFields(f: Fields, log: Log, seqno: Seqno) returns (fate: Outcome)
    requires Represents(f, log)
    ensures fate == Fate(log, f.capacity, seqno)
    ensures fate == Unexpected <==> seqno > f.priorSent
    ensures fate == AgedOut <==> seqno <= f.priorSent && f.priorSent - seqno >= |f.data|
    ensures fate.Duplicate? || fate.First? ==>
              var record := f.data[Slot(f.sentIndex, |f.data|, f.priorSent - seqno)];
              && (fate == Duplicate <==> record.ReplyReceived())
              && (fate == First ==> record == RoundTrip(log.sends[seqno], NO_TIME, NO_STAMP, {}, false))
  {
    fate := Fate(log, f.capacity, seqno);
    if fate.Duplicate? || fate.First? {
      RetainedRecord(f, log, seqno);
    }
  }

  lemma RetainedRecord(f: Fields, log: Log, seqno: Seqno)
    requires Represents(f, log) && seqno <= f.priorSent && f.priorSent - seqno < |f.data|
    ensures f.data[Slot(f.sentIndex, |f.data|, f.priorSent - seqno)] == RecordOf(log, seqno)
    ensures RecordOf(log, seqno).ReplyReceived() <==> Replied(log, seqno)
    ensures !Replied(log, seqno) ==> RecordOf(log, seqno) == RoundTrip(log.sends[seqno], NO_TIME, NO_STAMP, {}, false)
  {
    assert Holds(f.data, f.sentIndex, log, f.priorSent - seqno);
    RecordReceived(log, seqno);
  }

  lemma DuplicateRepresents(f: Fields, log: Log, f': Fields, log': Log)
    requires Represents(f, log) && f' == f.(duplicates := f.duplicates + 1) && log' == log.(dups := log.dups + 1)
    ensures Represents(f', log')
  {
    forall o | 0 <= o < |f.data|
      ensures Holds(f.data, f.sentIndex, log', o)
    {
      assert Holds(f.data, f.sentIndex, log, o);
    }
    assert WellFormed(log');
  }

  lemma SlotAfterFirst(data: seq<RoundTrip>, newest: nat, log: Log, p: Reply, at: nat, o: nat)
    requires newest < |data| <= |log.sends| && o < |data|
    requires p.seqno < |log.sends| && |log.sends| - 1 - p.seqno < |data|
    requires at == Slot(newest, |data|, |log.sends| - 1 - p.seqno)
    requires Holds(data, newest, log, o)
    ensures var log' := log.(firsts := log.firsts + [p]);
            Holds(data[at := Filled(log', p.seqno, |log.firsts|)], newest, log', o)
  {
    var log', slot := log.(firsts := log.firsts + [p]), Slot(newest, |data|, o);
    var s: nat := |log.sends| - 1 - o;
    RecordsAfterFirst(log, p, s);
    assert slot == at <==> s == p.seqno;
    var data' := data[at := Filled(log', p.seqno, |log.firsts|)];
    assert data'[slot] == if s == p.seqno then Filled(log', s, |log.firsts|) else data[slot];
  }

  /** Only the record of the seqno received is rewritten. */
  lemma RingAfterFirst(data: seq<RoundTrip>, newest: nat, capacity: nat, log: Log, p: Reply)
    requires IsRing(data, newest, capacity, log)
    requires p.seqno < |log.sends| && |log.sends| - 1 - p.seqno < |data|
    ensures var log' := log.(firsts := log.firsts + [p]);
            var at := Slot(newest, |data|, |log.sends| - 1 - p.seqno);
            IsRing(data[at := Filled(log', p.seqno, |log.firsts|)], newest, capacity, log')
  {
    var log', at := log.(firsts := log.firsts + [p]), Slot(newest, |data|, |log.sends| - 1 - p.seqno);
    var data' := data[at := Filled(log', p.seqno, |log.firsts|)];
    forall o | 0 <= o < |data'|
      ensures Holds(data', newest, log', o)
    {
      assert Holds(data, newest, log, o);
      SlotAfterFirst(data, newest, log, p, at, o);
    }
    assert |data'| == |data| && |log'.sends| == |log.sends|;
  }

  lemma TotalsAfterFirst(f: Fields, firsts: seq<Reply>, p: Reply, f': Fields)
    requires AreTotals(f, firsts)
    requires f'.priorReceived == p.seqno && f'.bytesReceived == f.bytesReceived + p.length
    requires f'.latePackets == f.latePackets + if p.seqno < f.priorReceived then 1 else 0
    requires f'.serverPackets == if p.count.Some? then p.count.value else f.serverPackets
    ensures AreTotals(f', firsts + [p])
  {
    assert (firsts + [p])[..|firsts|] == firsts;
  }

  lemma FilledNow(f: Fields, log: Log, p: Reply, rtd: RoundTrip)
    requires AreTotals(f, log.firsts) && p.seqno < |log.sends|
    requires rtd == RoundTrip(log.sends[p.seqno], p.trcvd, p.server, if p.window.Some? then p.window.value else {},
                              p.seqno < f.priorReceived)
    ensures rtd == Filled(log.(firsts := log.firsts + [p]), p.seqno, |log.firsts|)
  {
  }

  lemma WellFormedAfterFirst(log: Log, p: Reply)
    requires WellFormed(log) && !p.trcvd.IsZero() && p.seqno < |log.sends| && !Replied(log, p.seqno)
    ensures WellFormed(log.(firsts := log.firsts + [p]))
  {
  }

  lemma FirstRepresents(f: Fields, log: Log, p: Reply, i: nat, f': Fields, log': Log)
    requires Represents(f, log) && !p.trcvd.IsZero() && p.seqno < |log.sends| && !Replied(log, p.seqno)
    requires f.priorSent - p.seqno < |f.data| && i == Slot(f.sentIndex, |f.data|, f.priorSent - p.seqno)
    requires log' == log.(firsts := log.firsts + [p])
    requires f'.capacity == f.capacity && f'.sentIndex == f.sentIndex && f'.priorSent == f.priorSent
    requires f'.duplicates == f.duplicates
    requires f'.data == f.data[i := Filled(log', p.seqno, |log.firsts|)]
    requires f'.priorReceived == p.seqno && f'.bytesReceived == f.bytesReceived + p.length
    requires f'.latePackets == f.latePackets + if p.seqno < f.priorReceived then 1 else 0
    requires f'.serverPackets == if p.count.Some? then p.count.value else f.serverPackets
    ensures Represents(f', log')
  {
    assert IsRing(f'.data, f'.sentIndex, f'.capacity, log') by {
      RingAfterFirst(f.data, f.sentIndex, f.capacity, log, p);
    }
    assert WellFormed(log') by { WellFormedAfterFirst(log, p); }
    TotalsAfterFirst(f, log.firsts, p, f');
  }

  lemma RTTsAfterFirst(log: Log, p: Reply)
    requires p.seqno < |log.sends|
    ensures var log' := log.(firsts := log.firsts + [p]);
            RTTs(log') == RTTs(log) + [Filled(log', p.seqno, |log.firsts|).RTT()]
  {
    var log', k := log.(firsts := log.firsts + [p]), |log.firsts|;
    assert log'.firsts[..k] == log.firsts;
    assert log'.(firsts := log'.firsts[..k]) == log;
  }

  /** Each first reply adds its round-trip time to the statistics, and no other reply does. */
  lemma RTTsObserved(log: Log, capacity: nat, p: Reply)
    requires WellFormed(log)
    ensures var log' := Observe(log, capacity, p);
            var rtt := Owed(log, capacity, p);
            RTTs(log') == RTTs(log) + if rtt.Some? then [rtt.value] else []
  {
    match Fate(log, capacity, p.seqno) {
      case First => RTTsAfterFirst(log, p);
      case Duplicate => RTTsKept(log, log.(dups := log.dups + 1));
      case _ =>
    }
  }

  lemma SendRepresents(f: Fields, log: Log, t: Time, f': Fields, log': Log)
    requires Represents(f, log) && |log.sends| < TWO_TO_32 && f.capacity >= 1
    requires log' == log.(sends := log.sends + [t])
    requires f' == f.(data := f'.data, sentIndex := f'.sentIndex, priorSent := |log.sends|)
    requires var next := if |f.data| == 0 then 0 else f.sentIndex + 1;
             f'.sentIndex == if |f.data| == f.capacity && next == |f.data| then 0 else next
    requires var rtd := RoundTrip(t, NO_TIME, NO_STAMP, {}, false);
             f'.data == if |f.data| < f.capacity then f.data + [rtd] else f.data[f'.sentIndex := rtd]
    ensures Represents(f', log')
  {
    assert WellFormed(log') by { WellFormedAfterSend(log, t); }
    NewestIsNew(log);
    assert f'.sentIndex == NewestSlot(|log'.sends|, f.capacity);
    RingAfterSend(f.data, f.sentIndex, f.capacity, log, t);
  }

  /** After one more send every retained record is one send further back, in the slot it had. */
  lemma SlotShift(newest: nat, n: nat, capacity: nat, o: nat)
    requires capacity >= 1 && n >= 1 && newest == NewestSlot(n, capacity)
    requires 0 < o < Min(n + 1, capacity)
    ensures Slot(NewestSlot(n + 1, capacity), Min(n + 1, capacity), o) == Slot(newest, Min(n, capacity), o - 1)
    ensures Slot(newest, Min(n, capacity), o - 1) != NewestSlot(n + 1, capacity)
  {
  }

  lemma NewestIsNew(log: Log)
    requires WellFormed(log)
    ensures !Replied(log, |log.sends|)
  {
  }

  lemma WellFormedAfterSend(log: Log, t: Time)
    requires WellFormed(log)
    ensures WellFormed(log.(sends := log.sends + [t]))
  {
  }

  lemma RecordAfterSend(log: Log, t: Time, s: nat)
    requires s < |log.sends|
    ensures RecordOf(log.(sends := log.sends + [t]), s) == RecordOf(log, s)
  {
  }

  lemma SlotAfterSend(data: seq<RoundTrip>, newest: nat, capacity: nat, log: Log, t: Time, o: nat)
    requires capacity >= 1 && |log.sends| >= 1 && |data| == Min(|log.sends|, capacity)
    requires newest == NewestSlot(|log.sends|, capacity) && 0 < o < Min(|log.sends| + 1, capacity)
    requires Holds(data, newest, log, o - 1)
    ensures var newest' := NewestSlot(|log.sends| + 1, capacity);
            var rtd := RoundTrip(t, NO_TIME, NO_STAMP, {}, false);
            var data' := if |data| < capacity then data + [rtd] else data[newest' := rtd];
            Holds(data', newest', log.(sends := log.sends + [t]), o)
  {
    SlotShift(newest, |log.sends|, capacity, o);
    RecordAfterSend(log, t, |log.sends| - o);
  }

  /** Appending, or overwriting the oldest record. */
  lemma RingAfterSend(data: seq<RoundTrip>, newest: nat, capacity: nat, log: Log, t: Time)
    requires capacity >= 1 && !Replied(log, |log.sends|) && IsRing(data, newest, capacity, log)
    ensures var newest' := NewestSlot(|log.sends| + 1, capacity);
            var rtd := RoundTrip(t, NO_TIME, NO_STAMP, {}, false);
            IsRing(if |data| < capacity then data + [rtd] else data[newest' := rtd], newest', capacity,
                   log.(sends := log.sends + [t]))
  {
    var n, log' := |log.sends|, log.(sends := log.sends + [t]);
    var newest' := NewestSlot(n + 1, capacity);
    var rtd := RoundTrip(t, NO_TIME, NO_STAMP, {}, false);
    var data' := if |data| < capacity then data + [rtd] else data[newest' := rtd];
    forall o | 0 <= o < |data'|
      ensures Holds(data', newest', log', o)
    {
      if o > 0 {
        assert Holds(data, newest, log, o - 1);
        SlotAfterSend(data, newest, capacity, log, t, o);
      }
    }
  }

  lemma {:induction false} NewestSlotIsMod(n: nat, capacity: nat)
    requires n >= 1 && capacity >= 1
    ensures NewestSlot(n, capacity) == (n - 1) % capacity
  {
    if n == 1 {
      DivModUnique(0, 0, 0, capacity);
    } else {
      NewestSlotIsMod(n - 1, capacity);
      var q, r := (n - 2) / capacity, (n - 2) % capacity;
      if r + 1 == capacity {
        DivModUnique(n - 1, q + 1, 0, capacity);
      } else {
        DivModUnique(n - 1, q, r + 1, capacity);
      }
    }
  }

  // Whole runs: every interleaving of sends and receives.

  datatype Event = Send(at: Time) | Receive(reply: Reply)

  function Step(log: Log, capacity: nat, e: Event): Log
  {
    match e
    case Send(at) => log.(sends := log.sends + [at])
    case Receive(p) => Observe(log, capacity, p)
  }

  function Run(events: seq<Event>, capacity: nat): Log
  {
    if events == [] then EMPTY
    else Step(Run(events[..|events| - 1], capacity), capacity, events[|events| - 1])
  }

  /** The number of receives in a run that met the given fate. */
  function Tally(events: seq<Event>, capacity: nat, fate: Outcome): nat
  {
    if events == [] then 0
    else
      var front, e := events[..|events| - 1], events[|events| - 1];
      Tally(front, capacity, fate)
      + if e.Receive? && Fate(Run(front, capacity), capacity, e.reply.seqno) == fate then 1 else 0
  }

  function Receives(events: seq<Event>): nat
  {
    if events == [] then 0
    else Receives(events[..|events| - 1]) + if events[|events| - 1].Receive? then 1 else 0
  }

  /** Each receive meets exactly one fate, each seqno is counted at most once however long the run and
      however often its slot was reused, and the totals are those of the fates. */
  lemma {:induction false} Accounting(events: seq<Event>, capacity: nat)
    requires forall k :: 0 <= k < |events| && events[k].Receive? ==> !events[k].reply.trcvd.IsZero()
    ensures WellFormed(Run(events, capacity))
    ensures |Run(events, capacity).firsts| == Tally(events, capacity, First)
    ensures Run(events, capacity).dups == Tally(events, capacity, Duplicate)
    ensures Receives(events) == Tally(events, capacity, Unexpected) + Tally(events, capacity, AgedOut)
                                + Tally(events, capacity, Duplicate) + Tally(events, capacity, First)
  {
    if events != [] {
      var front, e := events[..|events| - 1], events[|events| - 1];
      Accounting(front, capacity);
      if e.Receive? {
        ObserveWellFormed(Run(front, capacity), capacity, e.reply);
      } else {
        WellFormedAfterSend(Run(front, capacity), e.at);
      }
    }
  }
}
