/** Without duplication every run is finite, whatever the timing; with it the waiting loop may
    time out any number of times. */
module Finiteness {
  import opened Protocol
  import opened Chunks
  import opened Receiver
  import opened ReceiverTrace
  import opened Sender
  import opened Network
  import opened Agreement
  import opened Termination

  /** The packets that end beyond byte `n` of the file. */
  function Beyond(t: Transfer, n: int): set<nat> {
    set k: nat | k in Below(PacketCount(t)) && Offset(t, k + 1) > n
  }

  /** What the acknowledgments still in flight could settle. */
  ghost function Unsettled(t: Transfer, st: SenderState, c: nat): nat {
    |Outstanding(t, st, c)| + |Beyond(t, st.lastConfirmed)|
  }

  /** A timeout offers packet `k`: it is in the window, and either unacknowledged or beyond
      what is confirmed. Its acknowledgment would settle something. */
  ghost predicate Live(t: Transfer, st: SenderState, c: nat, k: nat) {
    c <= k + SenderWindow(t) && k < c && (!Acked(t, st, c, k) || Offset(t, k + 1) > st.lastConfirmed)
  }

  ghost predicate LivePacket(t: Transfer, st: SenderState, c: nat, p: Packet) {
    exists k: nat :: IsChunk(t, p, k) && Live(t, st, c, k)
  }

  ghost predicate LiveAck(t: Transfer, st: SenderState, c: nat, a: AckPacket) {
    exists k: nat :: IsAckOf(t, a, k) && Live(t, st, c, k)
  }

  /** All datagrams in flight other than the old ones are live. */
  ghost predicate LiveButFor(t: Transfer, s: System, c: nat,
                             oldPackets: multiset<Packet>, oldAcks: multiset<AckPacket>)
  {
    && oldPackets <= s.packets && oldAcks <= s.acks
    && (forall p :: p in s.packets - oldPackets ==> LivePacket(t, s.sender, c, p))
    && (forall a :: a in s.acks - oldAcks ==> LiveAck(t, s.sender, c, a))
  }

  /** What every step uses up, compared from the first component on. */
  datatype Rank = Rank(work: nat, unsettled: nat, stale: nat, errors: nat, flight: nat) {
    predicate Under(r: Rank) {
      || work < r.work
      || (work == r.work && (
            || unsettled < r.unsettled
            || (unsettled == r.unsettled && (
                  || stale < r.stale
                  || (stale == r.stale && (
                        || errors < r.errors
                        || (errors == r.errors && flight < r.flight)))))))
    }
  }

  ghost function RankOf(t: Transfer, s: System, c: nat,
                        oldPackets: multiset<Packet>, oldAcks: multiset<AckPacket>): Rank
  {
    var flight := 2 * |s.packets| + |s.acks| + ClosingWork(s);
    if s.sender.phase.Waiting? then
      Rank(if s.receiver.phase.Receiving? || s.receiver.phase.Finished? then 2 else 1,
           Unsettled(t, s.sender, c), |oldPackets| + |oldAcks|,
           if s.sender.maxErrors <= t.maxErrors then t.maxErrors - s.sender.maxErrors else 0, flight)
    else
      Rank(0, 0, 0, 0, flight)
  }

  // ---------------------------------------------------------------------
  // Acknowledgments

  /** A data acknowledgment settles something, or it was an old one and changes nothing that
      matters. */
  lemma AckSettles(t: Transfer, st: SenderState, st': SenderState, c: nat, c': nat, a: AckPacket, k: nat, o: nat)
    requires Sliding(t, st, c) && k < c && IsAckOf(t, a, k) && 0 <= a.seqNum < |st.window|
    requires o == Occupant(SenderWindow(t), c - SenderWindow(t), a.seqNum)
    requires forall j: nat :: Acked(t, st', c', j) <==> Acked(t, st, c, j) || j == o
    requires st'.lastConfirmed == Max(a.size, st.lastConfirmed)
    ensures || Unsettled(t, st', c') < Unsettled(t, st, c)
            || (Acked(t, st, c, o) && st'.lastConfirmed == st.lastConfirmed && !LiveAck(t, st, c, a)
                && Unsettled(t, st', c') == Unsettled(t, st, c))
  {
    BeyondShrinks(t, st.lastConfirmed, st'.lastConfirmed, k);
    OutstandingShrinks(t, st, st', c, c', o);
    if Acked(t, st, c, o) && st'.lastConfirmed == st.lastConfirmed {
      forall j: nat | IsAckOf(t, a, j) && Live(t, st, c, j)
        ensures false
      {
        if j != o {
          SlotsDiffer(SenderWindow(t), Min(j, o), Max(j, o));
        }
      }
    }
  }

  lemma BeyondShrinks(t: Transfer, n: int, n': int, k: nat)
    requires k < PacketCount(t) && n <= n' && (n' == n || n' == Offset(t, k + 1))
    ensures |Beyond(t, n')| <= |Beyond(t, n)|
    ensures n < n' ==> |Beyond(t, n')| < |Beyond(t, n)|
  {
    hide Offset;
    var before, after := Beyond(t, n), Beyond(t, n');
    SubsetSmaller(after, before);
    if n < n' {
      assert k in before - after;
      SubsetSmaller(after, before - {k});
    }
  }

  lemma {:induction false} SubsetSmaller(x: set<nat>, y: set<nat>)
    requires x <= y
    ensures |x| <= |y|
  {
    assert x + (y - x) == y;
    assert |x + (y - x)| == |x| + |y - x|;
  }

  lemma OutstandingShrinks(t: Transfer, st: SenderState, st': SenderState, c: nat, c': nat, o: nat)
    requires o < PacketCount(t)
    requires forall j: nat :: Acked(t, st', c', j) <==> Acked(t, st, c, j) || j == o
    ensures |Outstanding(t, st', c')| == |Outstanding(t, st, c)| - (if Acked(t, st, c, o) then 0 else 1)
  {
    hide Acked;
    assert Outstanding(t, st', c') == Outstanding(t, st, c) - {o};
  }

  // ---------------------------------------------------------------------
  // Every step uses something up

  /** Datagrams that stay in flight stay live while the sender's verdicts stay. */
  lemma LiveStays(t: Transfer, st: SenderState, st': SenderState, c: nat)
    requires forall j: nat :: Acked(t, st', c, j) <==> Acked(t, st, c, j)
    requires st'.lastConfirmed == st.lastConfirmed
    ensures forall p :: LivePacket(t, st, c, p) ==> LivePacket(t, st', c, p)
    ensures forall a :: LiveAck(t, st, c, a) ==> LiveAck(t, st', c, a)
    ensures Unsettled(t, st', c) == Unsettled(t, st, c)
  {
    hide Acked, IsChunk, IsAckOf;
    assert Outstanding(t, st', c) == Outstanding(t, st, c);
    forall p | LivePacket(t, st, c, p)
      ensures LivePacket(t, st', c, p)
    {
      var k: nat :| IsChunk(t, p, k) && Live(t, st, c, k);
      assert Live(t, st', c, k);
    }
    forall a | LiveAck(t, st, c, a)
      ensures LiveAck(t, st', c, a)
    {
      var k: nat :| IsAckOf(t, a, k) && Live(t, st, c, k);
      assert Live(t, st', c, k);
    }
  }

  /** An arriving packet hands its liveness on to its acknowledgment. */
  lemma PacketDescends(t: Transfer, s: System, c: nat, ks: seq<nat>, oldPackets: multiset<Packet>,
                       oldAcks: multiset<AckPacket>, p: Packet, pass: bool)
      returns (ks': seq<nat>, oldPackets': multiset<Packet>, oldAcks': multiset<AckPacket>)
    requires Honest(t, s, c, ks) && LiveButFor(t, s, c, oldPackets, oldAcks)
    requires Enabled(t, s, DeliverPacket(p, pass)) && s.sender.phase.Waiting?
    ensures var s' := Apply(t, s, DeliverPacket(p, pass));
      && Honest(t, s', c, ks') && LiveButFor(t, s', c, oldPackets', oldAcks')
      && RankOf(t, s', c, oldPackets', oldAcks').Under(RankOf(t, s, c, oldPackets, oldAcks))
  {
    hide Honest, Apply, Receive, LivePacket, LiveAck, Unsettled, IsChunk, IsAckOf, LiveButFor;
    ks' := HonestAfterPacket(t, s, c, ks, p, pass);
    var k := AnsweredChunk(t, s, c, ks, p, pass);
    if LivePacket(t, s.sender, c, p) {
      AnswerIsLive(t, s.sender, c, p, k, Receive(s.receiver, p, pass).1);
    }
    PacketTurnsIntoAcks(t, s, p, pass);
    OneAckAtMost(s.receiver, p, pass);
    var s', out := Apply(t, s, DeliverPacket(p, pass)), Receive(s.receiver, p, pass).1;
    oldPackets', oldAcks' := OldAfterPacket(t, s, s', c, oldPackets, oldAcks, p, out);
    FlightAfterPacket(s, s', p, out);
  }

  lemma OldAfterPacket(t: Transfer, s: System, s': System, c: nat, oldPackets: multiset<Packet>,
                       oldAcks: multiset<AckPacket>, p: Packet, out: seq<AckPacket>)
      returns (oldPackets': multiset<Packet>, oldAcks': multiset<AckPacket>)
    requires LiveButFor(t, s, c, oldPackets, oldAcks) && p in s.packets && |out| <= 1 && s'.sender == s.sender
    requires s'.packets == s.packets - multiset{p} && s'.acks == s.acks + multiset(out)
    requires LivePacket(t, s.sender, c, p) ==> forall a :: a in out ==> LiveAck(t, s.sender, c, a)
    ensures LiveButFor(t, s', c, oldPackets', oldAcks')
    ensures |oldPackets'| + |oldAcks'| <= |oldPackets| + |oldAcks|
  {
    hide LivePacket, LiveAck;
    if p in s.packets - oldPackets {
      oldPackets', oldAcks' := oldPackets, oldAcks;
      assert forall a :: a in s'.acks - oldAcks ==> a in s.acks - oldAcks || a in out;
    } else {
      oldPackets', oldAcks' := oldPackets - multiset{p}, oldAcks + multiset(out);
      assert |oldPackets'| == |oldPackets| - 1 && |oldAcks'| == |oldAcks| + |out|;
      assert forall a :: a in s'.acks - oldAcks' ==> a in s.acks - oldAcks;
    }
    assert forall q :: q in s'.packets - oldPackets' ==> q in s.packets - oldPackets;
  }

  lemma FlightAfterPacket(s: System, s': System, p: Packet, out: seq<AckPacket>)
    requires p in s.packets && |out| <= 1 && s'.sender == s.sender
    requires s'.packets == s.packets - multiset{p} && s'.acks == s.acks + multiset(out)
    requires s.receiver.phase.Receiving?
    ensures 2 * |s'.packets| + |s'.acks| + ClosingWork(s') < 2 * |s.packets| + |s.acks| + ClosingWork(s)
  {
    assert |s'.packets| == |s.packets| - 1 && |s'.acks| == |s.acks| + |out|;
  }

  lemma AnsweredChunk(t: Transfer, s: System, c: nat, ks: seq<nat>, p: Packet, pass: bool) returns (k: nat)
    requires Honest(t, s, c, ks) && Enabled(t, s, DeliverPacket(p, pass)) && s.sender.phase.Waiting?
    ensures IsChunk(t, p, k)
    ensures forall a :: a in Receive(s.receiver, p, pass).1 ==> IsAckOf(t, a, k)
  {
    assert PacketGenuine(t, s, c, p);
    k :| k < c && IsChunk(t, p, k);
    CountArrives(t, s, c, ks, p, k);
    var ks' := ReceiveTracked(t, s.receiver, ks, p, k, pass);
    AckNamesChunk(t, p, k, Reached(t, ks'));
  }

  lemma AnswerIsLive(t: Transfer, st: SenderState, c: nat, p: Packet, k: nat, out: seq<AckPacket>)
    requires LivePacket(t, st, c, p) && IsChunk(t, p, k)
    requires forall a :: a in out ==> IsAckOf(t, a, k)
    ensures forall a :: a in out ==> LiveAck(t, st, c, a)
  {
    var j: nat :| IsChunk(t, p, j) && Live(t, st, c, j);
    OffsetNamesChunk(t, j, k);
  }

  /** Everything in flight may be counted as old. */
  lemma AllOld(t: Transfer, s: System, c: nat)
    ensures LiveButFor(t, s, c, s.packets, s.acks)
  {
  }

  /** An acknowledgment for a slot already acknowledged leaves everything but the error count
      and the confirmed offset as it was. */
  lemma RepeatedAck(t: Transfer, s: System, c: nat, ks: seq<nat>, c': nat, a: AckPacket, slots: set<nat>, o: nat)
    requires Honest(t, s, c, ks) && Enabled(t, s, DeliverAck(a, slots)) && s.sender.phase.Waiting?
    requires !EndsTransfer(t, a) && 0 <= a.seqNum < SenderWindow(t) <= c
    requires o == Occupant(SenderWindow(t), c - SenderWindow(t), a.seqNum) && Acked(t, s.sender, c, o)
    requires Honest(t, Apply(t, s, DeliverAck(a, slots)), c', ks)
    ensures c' == c && Apply(t, s, DeliverAck(a, slots)).packets == s.packets
  {
    assert s.sender.window[a.seqNum].ack;
    assert OnAck(t, s.sender, a, slots).1 == [];
    assert Apply(t, s, DeliverAck(a, slots)).sender.position == s.sender.position;
    OffsetGrows(t, Min(c, c'), Max(c, c'));
  }

  lemma DataAckDescends(t: Transfer, s: System, c: nat, ks: seq<nat>, oldPackets: multiset<Packet>,
                        oldAcks: multiset<AckPacket>, a: AckPacket, slots: set<nat>)
      returns (c': nat, oldPackets': multiset<Packet>, oldAcks': multiset<AckPacket>)
    requires Honest(t, s, c, ks) && LiveButFor(t, s, c, oldPackets, oldAcks)
    requires Enabled(t, s, DeliverAck(a, slots)) && s.sender.phase.Waiting? && !FinalGenuine(t, s, a)
    ensures var s' := Apply(t, s, DeliverAck(a, slots));
      && Honest(t, s', c', ks) && LiveButFor(t, s', c', oldPackets', oldAcks')
      && RankOf(t, s', c', oldPackets', oldAcks').Under(RankOf(t, s, c, oldPackets, oldAcks))
  {
    hide Honest, Apply, LiveButFor, Unsettled, LiveAck, LivePacket, Acked, IsAckOf, EndsTransfer, FinalGenuine,
      Occupant;
    c' := HonestAfterDataAck(t, s, c, ks, a, slots);
    var s' := Apply(t, s, DeliverAck(a, slots));
    var o := Occupant(SenderWindow(t), c - SenderWindow(t), a.seqNum);
    var k := AnsweredAck(t, s, c, ks, a);
    AckTurnsIntoPackets(t, s, a, slots);
    AckSettles(t, s.sender, s'.sender, c, c', a, k, o);
    if Unsettled(t, s'.sender, c') < Unsettled(t, s.sender, c) {
      oldPackets', oldAcks' := s'.packets, s'.acks;
      AllOld(t, s', c');
    } else {
      DataAckIsPlain(t, s, c, ks, a, slots);
      RepeatedAck(t, s, c, ks, c', a, slots, o);
      LiveStays(t, s.sender, s'.sender, c);
      oldPackets', oldAcks' := oldPackets, oldAcks - multiset{a};
      OldAckUsed(t, s, s', c, oldPackets, oldAcks, a);
    }
  }

  lemma AnsweredAck(t: Transfer, s: System, c: nat, ks: seq<nat>, a: AckPacket) returns (k: nat)
    requires Honest(t, s, c, ks) && a in s.acks && !FinalGenuine(t, s, a)
    ensures k < c && IsAckOf(t, a, k) && Sliding(t, s.sender, c) && |s.sender.window| == SenderWindow(t)
  {
    assert AckKnown(t, s, c, a);
    k :| k < c && IsAckOf(t, a, k);
  }

  lemma OldAckUsed(t: Transfer, s: System, s': System, c: nat, oldPackets: multiset<Packet>,
                   oldAcks: multiset<AckPacket>, a: AckPacket)
    requires LiveButFor(t, s, c, oldPackets, oldAcks) && a in s.acks && !LiveAck(t, s.sender, c, a)
    requires s'.packets == s.packets && s'.acks == s.acks - multiset{a}
    requires forall p :: LivePacket(t, s.sender, c, p) ==> LivePacket(t, s'.sender, c, p)
    requires forall b :: LiveAck(t, s.sender, c, b) ==> LiveAck(t, s'.sender, c, b)
    ensures LiveButFor(t, s', c, oldPackets, oldAcks - multiset{a})
    ensures |oldAcks - multiset{a}| < |oldAcks|
  {
    hide LivePacket, LiveAck;
    assert a in oldAcks;
    assert |oldAcks - multiset{a}| == |oldAcks| - 1;
    assert forall b :: b in s'.acks - (oldAcks - multiset{a}) ==> b in s.acks - oldAcks;
  }

  /** A timeout retransmits live packets only. */
  lemma TimeoutDescends(t: Transfer, s: System, c: nat, ks: seq<nat>, oldPackets: multiset<Packet>,
                        oldAcks: multiset<AckPacket>, slots: set<nat>)
    requires Honest(t, s, c, ks) && LiveButFor(t, s, c, oldPackets, oldAcks)
    requires s.sender.phase.Waiting? && s.sender.maxErrors + 1 < t.maxErrors
    ensures var s' := Apply(t, s, Timeout(slots));
      && Honest(t, s', c, ks) && LiveButFor(t, s', c, oldPackets, oldAcks)
      && RankOf(t, s', c, oldPackets, oldAcks).Under(RankOf(t, s, c, oldPackets, oldAcks))
  {
    hide Honest, Apply, LiveButFor, Unsettled, LiveAck, LivePacket, Acked, Offered, Transmission, MarkSent;
    HonestAfterTimeout(t, s, c, ks, slots);
    TimeoutResends(t, s, slots);
    TimeoutCounts(t, s, slots);
    var s' := Apply(t, s, Timeout(slots));
    TimeoutKeepsVerdicts(t, s, c, ks, slots);
    LiveStays(t, s.sender, s'.sender, c);
    OfferedAreLive(t, s, c, ks, slots);
    SentAreNotOld(t, s, s', c, oldPackets, oldAcks,
                  Transmission(s.sender.window, Offered(s.sender.window, s.sender.lastConfirmed) * slots,
                               |s.sender.window|));
  }

  lemma TimeoutCounts(t: Transfer, s: System, slots: set<nat>)
    requires s.sender.phase.Waiting? && s.sender.maxErrors + 1 < t.maxErrors
    ensures Apply(t, s, Timeout(slots)).sender.maxErrors == s.sender.maxErrors + 1
    ensures Apply(t, s, Timeout(slots)).sender.lastConfirmed == s.sender.lastConfirmed
  {
  }

  lemma TimeoutKeepsVerdicts(t: Transfer, s: System, c: nat, ks: seq<nat>, slots: set<nat>)
    requires Honest(t, s, c, ks) && s.sender.phase.Waiting? && s.sender.maxErrors + 1 < t.maxErrors
    ensures forall k: nat :: Acked(t, Apply(t, s, Timeout(slots)).sender, c, k) <==> Acked(t, s.sender, c, k)
  {
    TimeoutStaysGood(s.sender.timeout);
    SentFlagIsIdle(t, s.sender, Apply(t, s, Timeout(slots)).sender, c,
                   Offered(s.sender.window, s.sender.lastConfirmed) * slots);
  }

  lemma OfferedAreLive(t: Transfer, s: System, c: nat, ks: seq<nat>, slots: set<nat>)
    requires Honest(t, s, c, ks)
    ensures var window := s.sender.window;
            var chosen := Offered(window, s.sender.lastConfirmed) * slots;
      forall p :: p in Transmission(window, chosen, |window|) ==> LivePacket(t, s.sender, c, p)
  {
    var window := s.sender.window;
    var chosen := Offered(window, s.sender.lastConfirmed) * slots;
    TransmissionMembers(window, chosen, |window|);
    forall p | p in Transmission(window, chosen, |window|)
      ensures LivePacket(t, s.sender, c, p)
    {
      var j: nat :| 0 <= j < |window| && j in chosen && window[j] == p;
      WindowIsGenuine(t, s.sender, c, j);
      OfferedIsLive(t, s.sender, c, j);
    }
  }

  lemma OfferedIsLive(t: Transfer, st: SenderState, c: nat, j: nat)
    requires Sliding(t, st, c) && j in Offered(st.window, st.lastConfirmed)
    ensures Live(t, st, c, Occupant(SenderWindow(t), c - SenderWindow(t), j))
  {
    WindowIsGenuine(t, st, c, j);
  }

  lemma SentAreNotOld(t: Transfer, s: System, s': System, c: nat, oldPackets: multiset<Packet>,
                      oldAcks: multiset<AckPacket>, out: seq<Packet>)
    requires LiveButFor(t, s, c, oldPackets, oldAcks)
    requires s'.packets == s.packets + multiset(out) && s'.acks == s.acks
    requires forall p :: p in out ==> LivePacket(t, s.sender, c, p)
    requires forall p :: LivePacket(t, s.sender, c, p) ==> LivePacket(t, s'.sender, c, p)
    requires forall b :: LiveAck(t, s.sender, c, b) ==> LiveAck(t, s'.sender, c, b)
    ensures LiveButFor(t, s', c, oldPackets, oldAcks)
  {
    hide LivePacket, LiveAck;
    assert forall p :: p in s'.packets - oldPackets ==> p in s.packets - oldPackets || p in out;
  }

  lemma LossDescends(t: Transfer, s: System, c: nat, oldPackets: multiset<Packet>,
                     oldAcks: multiset<AckPacket>, step: Step)
      returns (oldPackets': multiset<Packet>, oldAcks': multiset<AckPacket>)
    requires LiveButFor(t, s, c, oldPackets, oldAcks) && Enabled(t, s, step) && s.sender.phase.Waiting?
    requires step.LosePacket? || step.LoseAck?
    ensures LiveButFor(t, Apply(t, s, step), c, oldPackets', oldAcks')
    ensures RankOf(t, Apply(t, s, step), c, oldPackets', oldAcks').Under(RankOf(t, s, c, oldPackets, oldAcks))
  {
    OtherShape(t, s, step);
    oldPackets', oldAcks' := oldPackets, oldAcks;
    match step {
      case LosePacket(p) =>
        var s' := s.(packets := s.packets - multiset{p});
        oldPackets', oldAcks' := OldAfterPacket(t, s, s', c, oldPackets, oldAcks, p, []);
      case LoseAck(a) =>
        oldAcks' := OldAfterLoss(t, s, c, oldPackets, oldAcks, a);
    }
    hide LiveButFor, Unsettled, ClosingWork;
  }

  lemma OldAfterLoss(t: Transfer, s: System, c: nat, oldPackets: multiset<Packet>,
                     oldAcks: multiset<AckPacket>, a: AckPacket)
      returns (oldAcks': multiset<AckPacket>)
    requires LiveButFor(t, s, c, oldPackets, oldAcks) && a in s.acks
    ensures LiveButFor(t, s.(acks := s.acks - multiset{a}), c, oldPackets, oldAcks')
    ensures |oldAcks'| <= |oldAcks|
  {
    hide LivePacket, LiveAck;
    oldAcks' := if a in s.acks - oldAcks then oldAcks else oldAcks - multiset{a};
    assert forall b :: b in s.acks - multiset{a} - oldAcks' ==> b in s.acks - oldAcks;
  }

  /** With the sender out of its waiting loop, every step uses up datagrams or closing work. */
  lemma ClosingDescends(t: Transfer, s: System, step: Step)
    requires Enabled(t, s, step) && !Duplicates(step) && !s.sender.phase.Waiting?
    ensures var s' := Apply(t, s, step);
      && !s'.sender.phase.Waiting?
      && 2 * |s'.packets| + |s'.acks| + ClosingWork(s') < 2 * |s.packets| + |s.acks| + ClosingWork(s)
  {
    if step.DeliverPacket? {
      OneAckAtMost(s.receiver, step.p, step.pass);
      PacketTurnsIntoAcks(t, s, step.p, step.pass);
      FlightAfterPacket(s, Apply(t, s, step), step.p, Receive(s.receiver, step.p, step.pass).1);
    } else {
      OtherShape(t, s, step);
    }
  }

  /** The steps that take the sender out of its waiting loop, or the receiver out of its own. */
  lemma LeavingDescends(t: Transfer, s: System, c: nat, c': nat, oldPackets: multiset<Packet>,
                        oldAcks: multiset<AckPacket>, step: Step)
    requires Enabled(t, s, step) && s.sender.phase.Waiting?
    requires || step.SendFinalAcks?
             || (step.DeliverAck? && EndsTransfer(t, step.a))
             || (step.Timeout? && s.sender.maxErrors + 1 >= t.maxErrors)
    ensures var s' := Apply(t, s, step);
      RankOf(t, s', c', s'.packets, s'.acks).Under(RankOf(t, s, c, oldPackets, oldAcks))
  {
    hide Unsettled;
  }

  /** Every step of a run without duplication uses something up, in the order of `Rank`. */
  lemma StepDescends(t: Transfer, s: System, c: nat, ks: seq<nat>, oldPackets: multiset<Packet>,
                     oldAcks: multiset<AckPacket>, step: Step)
      returns (c': nat, ks': seq<nat>, oldPackets': multiset<Packet>, oldAcks': multiset<AckPacket>)
    requires Honest(t, s, c, ks) && LiveButFor(t, s, c, oldPackets, oldAcks)
    requires Enabled(t, s, step) && !Duplicates(step)
    ensures var s' := Apply(t, s, step);
      && Honest(t, s', c', ks') && LiveButFor(t, s', c', oldPackets', oldAcks')
      && RankOf(t, s', c', oldPackets', oldAcks').Under(RankOf(t, s, c, oldPackets, oldAcks))
  {
    var s' := Apply(t, s, step);
    hide Honest, LiveButFor, Unsettled, Apply, EndsTransfer;
    c', ks' := StepStaysHonest(t, s, c, ks, step);
    oldPackets', oldAcks' := s'.packets, s'.acks;
    AllOld(t, s', c');
    if !s.sender.phase.Waiting? {
      ClosingDescends(t, s, step);
    } else {
      match step {
        case DeliverPacket(p, pass) =>
          c' := c;
          ks', oldPackets', oldAcks' := PacketDescends(t, s, c, ks, oldPackets, oldAcks, p, pass);
        case DeliverAck(a, slots) =>
          if FinalGenuine(t, s, a) {
            FinalEnds(t, s, a);
            LeavingDescends(t, s, c, c', oldPackets, oldAcks, step);
          } else {
            ks' := ks;
            c', oldPackets', oldAcks' := DataAckDescends(t, s, c, ks, oldPackets, oldAcks, a, slots);
          }
        case Timeout(slots) =>
          if s.sender.maxErrors + 1 >= t.maxErrors {
            LeavingDescends(t, s, c, c', oldPackets, oldAcks, step);
          } else {
            c', ks', oldPackets', oldAcks' := c, ks, oldPackets, oldAcks;
            TimeoutDescends(t, s, c, ks, oldPackets, oldAcks, slots);
          }
        case SendFinalAcks =>
          LeavingDescends(t, s, c, c', oldPackets, oldAcks, step);
        case _ =>
          c', ks' := c, ks;
          HonestAfterChannel(t, s, c, ks, step);
          oldPackets', oldAcks' := LossDescends(t, s, c, oldPackets, oldAcks, step);
      }
    }
  }

  lemma FinalEnds(t: Transfer, s: System, a: AckPacket)
    requires FinalGenuine(t, s, a)
    ensures EndsTransfer(t, a)
  {
  }

  // ---------------------------------------------------------------------
  // No run without duplication goes on for ever

  /** The `i`-th step of an endless schedule is one the discipline allows. */
  ghost predicate Follows(d: Discipline, t: Transfer, run: nat -> System, steps: nat -> Step, i: nat) {
    && Enabled(t, run(i), steps(i)) && Allowed(d, t, run(i), steps(i))
    && run(i + 1) == Apply(t, run(i), steps(i))
  }

  lemma {:induction false} NotForEver(t: Transfer, run: nat -> System, steps: nat -> Step, i: nat, c: nat, ks: seq<nat>,
                                      oldPackets: multiset<Packet>, oldAcks: multiset<AckPacket>, rank: Rank)
      returns (j: nat)
    requires Honest(t, run(i), c, ks) && LiveButFor(t, run(i), c, oldPackets, oldAcks)
    requires rank == RankOf(t, run(i), c, oldPackets, oldAcks)
    ensures !Follows(NoDuplication, t, run, steps, j)
    decreases rank.work, rank.unsettled, rank.stale, rank.errors, rank.flight
  {
    hide Honest, LiveButFor, RankOf, Apply, Enabled;
    j := i;
    if Follows(NoDuplication, t, run, steps, i) {
      var c', ks', oldPackets', oldAcks' := StepDescends(t, run(i), c, ks, oldPackets, oldAcks, steps(i));
      var rank' := RankOf(t, run(i + 1), c', oldPackets', oldAcks');
      j := NotForEver(t, run, steps, i + 1, c', ks', oldPackets', oldAcks', rank');
    }
  }

  /** Whatever the timing, on a network that does not duplicate no run goes on for ever: however
      the steps are chosen, one of them cannot be taken. */
  lemma NoEndlessRun(t: Transfer, slots: set<nat>, run: nat -> System, steps: nat -> Step)
    requires run(0) == InitialSystem(t, slots)
    ensures exists i: nat :: !Follows(NoDuplication, t, run, steps, i)
  {
    hide Honest, LiveButFor, RankOf, InitialSystem, Follows;
    InitiallyHonest(t, slots);
    AllOld(t, run(0), SenderWindow(t));
    var j := NotForEver(t, run, steps, 0, SenderWindow(t), [], run(0).packets, run(0).acks,
                        RankOf(t, run(0), SenderWindow(t), run(0).packets, run(0).acks));
  }

  // ---------------------------------------------------------------------
  // With duplication the sender may time out any number of times

  ghost predicate TimeoutsBounded(d: Discipline, t: Transfer) {
    exists bound: nat :: BoundedBy(d, t, bound)
  }

  ghost predicate BoundedBy(d: Discipline, t: Transfer, bound: nat) {
    forall slots, steps, s :: Path(d, t, InitialSystem(t, slots), steps, s) ==> Timeouts(steps) <= bound
  }

  /** A waiting sender with a data acknowledgment on its way. */
  ghost predicate KeptWaiting(t: Transfer, s: System, c: nat, ks: seq<nat>, a: AckPacket) {
    Honest(t, s, c, ks) && s.sender.phase.Waiting? && a in s.acks && 0 <= a.seqNum
  }

  /** Double the acknowledgment, consume one copy, and time out: the errors start from zero
      again every time. */
  lemma OneMoreTimeout(t: Transfer, s: System, c: nat, ks: seq<nat>, a: AckPacket) returns (s3: System, c': nat)
    requires 2 <= t.maxErrors && KeptWaiting(t, s, c, ks, a)
    ensures KeptWaiting(t, s3, c', ks, a)
    ensures Path(AnyNetwork, t, s, [DuplicateAck(a), DeliverAck(a, {}), Timeout({})], s3)
  {
    hide Honest;
    var s1 := Apply(t, s, DuplicateAck(a));
    HonestAfterChannel(t, s, c, ks, DuplicateAck(a));
    HonestIsHandled(t, s1, c, ks);
    var s2 := Apply(t, s1, DeliverAck(a, {}));
    c' := HonestAfterDataAck(t, s1, c, ks, a, {});
    assert s2.acks == s.acks;
    s3 := Apply(t, s2, Timeout({}));
    HonestAfterTimeout(t, s2, c', ks, {});
    TimeoutResends(t, s2, {});
    ThreeAnySteps(t, s, DuplicateAck(a), DeliverAck(a, {}), Timeout({}));
  }

  lemma ThreeAnySteps(t: Transfer, s: System, x: Step, y: Step, z: Step)
    requires Enabled(t, s, x) && Enabled(t, Apply(t, s, x), y)
    requires Enabled(t, Apply(t, Apply(t, s, x), y), z)
    ensures Path(AnyNetwork, t, s, [x, y, z], Apply(t, Apply(t, Apply(t, s, x), y), z))
  {
    hide Enabled, Apply;
    var s1 := Apply(t, s, x);
    var s2 := Apply(t, s1, y);
    var s3 := Apply(t, s2, z);
    assert Path(AnyNetwork, t, s3, [], s3);
    assert [z][1..] == [] && Path(AnyNetwork, t, s2, [z], s3);
    assert [y, z][1..] == [z] && Path(AnyNetwork, t, s1, [y, z], s3);
    assert [x, y, z][1..] == [y, z];
  }

  lemma {:induction false} ManyTimeouts(t: Transfer, s: System, c: nat, ks: seq<nat>, a: AckPacket, n: nat)
      returns (steps: seq<Step>, s': System)
    requires 2 <= t.maxErrors && KeptWaiting(t, s, c, ks, a)
    ensures Path(AnyNetwork, t, s, steps, s') && Timeouts(steps) == n && s'.sender.phase.Waiting?
    decreases n
  {
    hide Path, Timeouts, Apply, Honest;
    if n == 0 {
      steps, s' := [], s;
      StandStill(t, s);
    } else {
      var s3, c' := OneMoreTimeout(t, s, c, ks, a);
      var round := [DuplicateAck(a), DeliverAck(a, {}), Timeout({})];
      var rest;
      rest, s' := ManyTimeouts(t, s3, c', ks, a, n - 1);
      steps := round + rest;
      PathConcat(AnyNetwork, t, s, round, s3, rest, s');
      TimeoutsAdd(round, rest);
      OneTimeoutInRound(DuplicateAck(a), DeliverAck(a, {}), {});
    }
  }

  lemma StandStill(t: Transfer, s: System)
    ensures Path(AnyNetwork, t, s, [], s) && Timeouts([]) == 0
  {
  }

  lemma OneTimeoutInRound(x: Step, y: Step, slots: set<nat>)
    requires !x.Timeout? && !y.Timeout?
    ensures Timeouts([x, y, Timeout(slots)]) == 1
  {
    assert [x, y, Timeout(slots)][1..] == [y, Timeout(slots)] && [y, Timeout(slots)][1..] == [Timeout(slots)];
    assert Timeouts([Timeout(slots)]) == 1;
  }

  /** The first packet arrives and is acknowledged. */
  lemma FirstAnswered(t: Transfer) returns (x: Step, s: System, c: nat, ks: seq<nat>, a: AckPacket)
    requires 0 < |t.file|
    ensures !x.Timeout? && Path(AnyNetwork, t, InitialSystem(t, Below(t.windowSize)), [x], s)
    ensures KeptWaiting(t, s, c, ks, a)
  {
    var s0 := InitialSystem(t, Below(t.windowSize));
    var p := PacketOf(t, 0, false);
    x, c := DeliverPacket(p, true), SenderWindow(t);
    OffsetReachesSize(t, 0);
    InitiallyHonest(t, Below(t.windowSize));
    FirstPacketSent(t);
    hide InitialSystem, Honest;
    HonestIsHandled(t, s0, c, []);
    s := Apply(t, s0, x);
    ks := HonestAfterChunk(t, s0, c, [], p, 0, true);
    a := AnswerSent(t, s0, c, [], p);
    assert [x][1..] == [] && Path(AnyNetwork, t, s, [], s);
  }

  lemma AnswerSent(t: Transfer, s: System, c: nat, ks: seq<nat>, p: Packet) returns (a: AckPacket)
    requires Honest(t, s, c, ks) && Enabled(t, s, DeliverPacket(p, true)) && IsChunk(t, p, 0) && 0 < c
    ensures a in Apply(t, s, DeliverPacket(p, true)).acks && 0 <= a.seqNum
    ensures Apply(t, s, DeliverPacket(p, true)).sender == s.sender
  {
    CountArrives(t, s, c, ks, p, 0);
    var ks' := ReceiveTracked(t, s.receiver, ks, p, 0, true);
    PacketTurnsIntoAcks(t, s, p, true);
    a := Receive(s.receiver, p, true).1[0];
    assert a in Receive(s.receiver, p, true).1;
  }

  lemma FirstPacketSent(t: Transfer)
    requires 0 < PacketCount(t)
    ensures var s := InitialSystem(t, Below(t.windowSize));
      && PacketOf(t, 0, false) in s.packets && s.sender.phase.Waiting? && s.receiver.phase.Receiving?
  {
    var window := FilledSender(t).window;
    var chosen := Unacked(window) * Below(t.windowSize);
    TransmissionMembers(window, chosen, |window|);
    assert 0 in chosen && window[0] == PacketOf(t, 0, false);
    assert PacketOf(t, 0, false) in Transmission(window, chosen, |window|);
  }

  /** How many more timeouts a sender can see whose error count is not reset. */
  function ErrorsLeft(t: Transfer, st: SenderState): nat {
    if st.phase.Waiting? && st.maxErrors <= t.maxErrors then t.maxErrors - st.maxErrors else 0
  }

  /** With nothing to acknowledge, or no second timeout to wait for, errors are never regained. */
  lemma ErrorsAreSpent(t: Transfer, s: System, c: nat, ks: seq<nat>, step: Step) returns (c': nat, ks': seq<nat>)
    requires Honest(t, s, c, ks) && Enabled(t, s, step)
    requires t.maxErrors == 1 || (PacketCount(t) == 0 && s.receiver.first)
    ensures Honest(t, Apply(t, s, step), c', ks')
    ensures PacketCount(t) == 0 && s.receiver.first ==> Apply(t, s, step).receiver.first
    ensures ErrorsLeft(t, Apply(t, s, step).sender) + (if step.Timeout? then 1 else 0) <= ErrorsLeft(t, s.sender)
  {
    c', ks' := StepStaysHonest(t, s, c, ks, step);
    if PacketCount(t) == 0 && s.receiver.first {
      StillFirst(t, s, c, ks, step);
    }
    if step.DeliverAck? && s.sender.phase.Waiting? {
      ErrorsAfterAck(t, s, c, ks, step.a, step.slots);
    } else {
      ErrorsAfterOther(t, s, c, ks, step);
    }
  }

  lemma StillFirst(t: Transfer, s: System, c: nat, ks: seq<nat>, step: Step)
    requires Honest(t, s, c, ks) && Enabled(t, s, step) && PacketCount(t) == 0 && s.receiver.first
    ensures Apply(t, s, step).receiver.first
  {
    hide SenderLayout, Tracked, OnAck, OnTimeout;
    if step.DeliverPacket? {
      assert PacketGenuine(t, s, c, step.p);
    }
  }

  lemma ErrorsAfterAck(t: Transfer, s: System, c: nat, ks: seq<nat>, a: AckPacket, slots: set<nat>)
    requires Honest(t, s, c, ks) && Enabled(t, s, DeliverAck(a, slots)) && s.sender.phase.Waiting?
    requires t.maxErrors == 1 || s.receiver.first
    ensures ErrorsLeft(t, Apply(t, s, DeliverAck(a, slots)).sender) <= ErrorsLeft(t, s.sender)
  {
    hide SenderLayout, Tracked, Slide, PacketGenuine;
    AckTurnsIntoPackets(t, s, a, slots);
    if FinalGenuine(t, s, a) {
      FinalEnds(t, s, a);
    } else {
      var c' := HonestAfterDataAck(t, s, c, ks, a, slots);
    }
  }

  lemma ErrorsAfterOther(t: Transfer, s: System, c: nat, ks: seq<nat>, step: Step)
    requires Honest(t, s, c, ks) && Enabled(t, s, step) && !(step.DeliverAck? && s.sender.phase.Waiting?)
    ensures ErrorsLeft(t, Apply(t, s, step).sender) + (if step.Timeout? then 1 else 0) <= ErrorsLeft(t, s.sender)
  {
    hide SenderLayout, Tracked, Receive, Transmission, Offered, MarkSent, PacketGenuine, AckKnown, OnAck;
  }

  lemma {:induction false} TimeoutsSpend(t: Transfer, s: System, c: nat, ks: seq<nat>, steps: seq<Step>, s': System)
    requires Honest(t, s, c, ks) && Path(AnyNetwork, t, s, steps, s')
    requires t.maxErrors == 1 || (PacketCount(t) == 0 && s.receiver.first)
    ensures Timeouts(steps) <= ErrorsLeft(t, s.sender)
    decreases |steps|
  {
    hide Honest, Enabled, Apply, ErrorsLeft;
    if steps != [] {
      var c', ks' := ErrorsAreSpent(t, s, c, ks, steps[0]);
      TimeoutsSpend(t, Apply(t, s, steps[0]), c', ks', steps[1..], s');
    }
  }

  /** Exactly when the number of timeouts is bounded on a network that duplicates: when there
      is no packet to acknowledge, or the first timeout is the last. */
  lemma TimeoutsBoundedIff(t: Transfer)
    ensures TimeoutsBounded(AnyNetwork, t) <==> |t.file| == 0 || t.maxErrors == 1
  {
    OffsetReachesSize(t, 0);
    if |t.file| == 0 || t.maxErrors == 1 {
      forall slots, steps, s | Path(AnyNetwork, t, InitialSystem(t, slots), steps, s)
        ensures Timeouts(steps) <= t.maxErrors
      {
        InitiallyHonest(t, slots);
        TimeoutsSpend(t, InitialSystem(t, slots), SenderWindow(t), [], steps, s);
      }
      assert BoundedBy(AnyNetwork, t, t.maxErrors);
    } else if bound: nat :| BoundedBy(AnyNetwork, t, bound) {
      hide InitialSystem, KeptWaiting;
      var x, s1, c, ks, a := FirstAnswered(t);
      var rest, s := ManyTimeouts(t, s1, c, ks, a, bound + 1);
      PathConcat(AnyNetwork, t, InitialSystem(t, Below(t.windowSize)), [x], s1, rest, s);
      TimeoutsAdd([x], rest);
      assert false;
    }
  }
}
