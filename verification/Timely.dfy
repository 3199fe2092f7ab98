/** Runs in which timeouts come only when nothing is in flight and the network does not
    duplicate: at most one datagram per packet is ever in flight, and so every
    acknowledgment the sender consumes is fresh and accurate. */
module Timely {
  import opened Protocol
  import opened Chunks
  import opened Receiver
  import opened Sender
  import opened Network
  import opened Agreement
  import opened Safety

  /** Every packet of the file has at most one datagram in flight, be it the packet itself or
      its acknowledgment, and none once the sender regards it as delivered. */
  ghost predicate OneInFlight(t: Transfer, st: SenderState, c: nat,
                              packets: multiset<Packet>, acks: multiset<AckPacket>)
  {
    && (forall p: Packet, k: nat :: p in packets && IsChunk(t, p, k) ==> !Acked(t, st, c, k) && packets[p] == 1)
    && (forall a: AckPacket, k: nat :: a in acks && IsAckOf(t, a, k) ==> !Acked(t, st, c, k) && acks[a] == 1)
    && (forall p: Packet, q: Packet, k: nat ::
          p in packets && q in packets && IsChunk(t, p, k) && IsChunk(t, q, k) ==> p == q)
    && (forall a: AckPacket, b: AckPacket, k: nat ::
          a in acks && b in acks && IsAckOf(t, a, k) && IsAckOf(t, b, k) ==> a == b)
    && (forall p: Packet, a: AckPacket, k: nat :: p in packets && a in acks && IsChunk(t, p, k) ==> !IsAckOf(t, a, k))
  }

  /** Whatever is regarded as delivered lies below the highest confirmed offset. */
  ghost predicate Confirmed(t: Transfer, st: SenderState, c: nat) {
    forall k: nat :: k < c && Acked(t, st, c, k) ==> Offset(t, k + 1) <= st.lastConfirmed
  }

  ghost predicate Fresh(t: Transfer, s: System, c: nat, r: nat) {
    && Coherent(t, s, c, r, PacketCount(t))
    && OneInFlight(t, s.sender, c, s.packets, s.acks)
    && Confirmed(t, s.sender, c)
  }

  /** A datagram belongs to one packet only. */
  lemma OneOwner(t: Transfer, p: Packet, a: AckPacket, j: nat, k: nat)
    ensures IsChunk(t, p, j) && IsChunk(t, p, k) ==> j == k
    ensures IsAckOf(t, a, j) && IsAckOf(t, a, k) ==> j == k
  {
    if j < PacketCount(t) && k < PacketCount(t) {
      OffsetNamesChunk(t, j, k);
    }
  }

  /** Ack accuracy: each acknowledgment in flight names the offset of the packet that now
      occupies its slot, and that packet is still unacknowledged and in the receiver's hands,
      although the sender looks at the slot number only. */
  lemma AcksAreAccurate(t: Transfer, s: System, c: nat, r: nat, a: AckPacket) returns (k: nat)
    requires Fresh(t, s, c, r) && a in s.acks && !FinalGenuine(t, s, a)
    ensures AcksFor(t, s, c, r, a, k) && !Acked(t, s.sender, c, k)
    ensures 0 <= a.seqNum < |s.sender.window| && IsChunk(t, s.sender.window[a.seqNum], k)
    ensures !s.sender.window[a.seqNum].ack && a.size == s.sender.window[a.seqNum].noBytesToSend
    ensures k == Occupant(SenderWindow(t), c - SenderWindow(t), a.seqNum)
  {
    assert AckGenuine(t, s, c, r, a);
    k :| k < c && IsAckOf(t, a, k) && Has(t, s.receiver, r, k);
    UnackedInWindow(t, s.sender, c, k);
    var o := BelievedOccupant(t, s, c, r, PacketCount(t), a, k);
  }

  /** Selective retransmission: the two-part resend test offers exactly the slots whose
      packets are unacknowledged. */
  lemma OfferedIsUnacked(t: Transfer, s: System, c: nat, r: nat)
    requires Fresh(t, s, c, r)
    ensures Offered(s.sender.window, s.sender.lastConfirmed) == Unacked(s.sender.window)
  {
    var w := SenderWindow(t);
    forall j: nat | j < w && s.sender.window[j].ack
      ensures s.sender.window[j].noBytesToSend <= s.sender.lastConfirmed
    {
      var o := Occupant(w, c - w, j);
      assert SlotHolds(t, s.sender, o);
      assert Acked(t, s.sender, c, o);
    }
  }

  // ---------------------------------------------------------------------
  // Sent packets are pairwise different

  lemma {:induction false} TransmittedOnce(window: seq<Packet>, chosen: set<nat>, n: nat)
    requires n <= |window|
    requires forall j :: 0 <= j < |window| ==> window[j].seqNum == j
    ensures forall p :: p in Transmission(window, chosen, n) ==>
              p.seqNum < n && multiset(Transmission(window, chosen, n))[p] == 1
  {
    if n > 0 {
      TransmittedOnce(window, chosen, n - 1);
      var before := Transmission(window, chosen, n - 1);
      forall p | p in Transmission(window, chosen, n)
        ensures p.seqNum < n && multiset(Transmission(window, chosen, n))[p] == 1
      {
        if p in before {
          assert p.seqNum < n - 1;
        } else {
          assert multiset(before)[p] == 0;
        }
      }
    }
  }

  lemma {:induction false} NewPacketsOnce(t: Transfer, lo: nat, hi: nat, slots: set<nat>)
    requires lo <= hi <= PacketCount(t)
    ensures forall p :: p in NewPackets(t, lo, hi, slots) ==>
              p.noBytesToSend > Offset(t, lo) && multiset(NewPackets(t, lo, hi, slots))[p] == 1
    decreases hi - lo
  {
    if lo < hi {
      NewPacketsOnce(t, lo + 1, hi, slots);
      OffsetGrows(t, lo, lo + 1);
      var rest := NewPackets(t, lo + 1, hi, slots);
      var first := PacketOf(t, lo, false);
      assert first !in rest;
      assert multiset(rest)[first] == 0;
      forall p | p in NewPackets(t, lo, hi, slots)
        ensures p.noBytesToSend > Offset(t, lo) && multiset(NewPackets(t, lo, hi, slots))[p] == 1
      {
      }
    }
  }

  // ---------------------------------------------------------------------
  // Every timely step keeps freshness

  lemma InitiallyFresh(t: Transfer, slots: set<nat>)
    ensures Fresh(t, InitialSystem(t, slots), SenderWindow(t), 0)
  {
    var N := PacketCount(t);
    InitiallyCoherent(t, slots, N);
    var st := FilledSender(t);
    var s := InitialSystem(t, slots);
    var chosen := Unacked(st.window) * slots;
    SentAreFresh(t, st.window, chosen, s.sender, SenderWindow(t));
  }

  /** Slot numbers tell the packets of the window apart. */
  lemma SlotOwner(t: Transfer, st: SenderState, c: nat, p: Packet, j: nat, k: nat)
    requires SenderLayout(t, st, c) && j < |st.window| && p == st.window[j].(sent := p.sent) && IsChunk(t, p, k)
    ensures j == Slot(SenderWindow(t), k) && (!p.ack ==> !Acked(t, st, c, k))
  {
    WindowIsGenuine(t, st, c, j);
    OneOwner(t, p, AckPacket(0, 0, 0), k, Occupant(SenderWindow(t), c - SenderWindow(t), j));
  }

  lemma NumberedBySlot(t: Transfer, st: SenderState, c: nat)
    requires SenderLayout(t, st, c)
    ensures forall j: nat :: j < |st.window| ==> st.window[j].seqNum == j
  {
    forall j: nat | j < |st.window|
      ensures st.window[j].seqNum == j
    {
      WindowIsGenuine(t, st, c, j);
    }
  }

  /** A transmission of unacknowledged slots into empty channels leaves one datagram each. */
  lemma SentAreFresh(t: Transfer, window: seq<Packet>, chosen: set<nat>, st: SenderState, c: nat)
    requires SenderLayout(t, st, c) && |window| == |st.window|
    requires forall j :: 0 <= j < |window| ==>
               window[j] == st.window[j].(sent := window[j].sent) && (j in chosen ==> !window[j].ack)
    ensures OneInFlight(t, st, c, multiset(Transmission(window, chosen, |window|)), multiset{})
  {
    hide Acked, IsChunk, Transmission, SenderLayout, Slot;
    var out := Transmission(window, chosen, |window|);
    NumberedBySlot(t, st, c);
    TransmissionMembers(window, chosen, |window|);
    TransmittedOnce(window, chosen, |window|);
    forall p: Packet, k: nat | p in out && IsChunk(t, p, k)
      ensures !Acked(t, st, c, k)
      ensures Slot(SenderWindow(t), k) < |window| && p == window[Slot(SenderWindow(t), k)]
    {
      var j :| 0 <= j < |window| && j in chosen && window[j] == p;
      SlotOwner(t, st, c, p, j, k);
    }
    assert forall p :: p in multiset(out) <==> p in out;
  }

  lemma FreshAfterPacket(t: Transfer, s: System, c: nat, r: nat, p: Packet, pass: bool) returns (r': nat)
    requires Fresh(t, s, c, r) && Enabled(t, s, DeliverPacket(p, pass))
    ensures Fresh(t, Apply(t, s, DeliverPacket(p, pass)), c, r')
  {
    r' := AfterPacket(t, s, c, r, PacketCount(t), p, pass);
    var s' := Apply(t, s, DeliverPacket(p, pass));
    assert PacketGenuine(t, s, c, p);
    if k: nat :| k < c && IsChunk(t, p, k) {
      var r2 := AfterChunk(t, s, c, r, PacketCount(t), p, k, pass);
      TurnToAck(t, s.sender, c, s.packets, s.acks, p, k, Receive(s.receiver, p, pass).1);
    }
  }

  /** Replacing a packet in flight by its acknowledgment, or by nothing. */
  lemma TurnToAck(t: Transfer, st: SenderState, c: nat, packets: multiset<Packet>, acks: multiset<AckPacket>,
                  p: Packet, k: nat, out: seq<AckPacket>)
    requires OneInFlight(t, st, c, packets, acks) && p in packets && IsChunk(t, p, k)
    requires out == [] || (|out| == 1 && IsAckOf(t, out[0], k))
    ensures OneInFlight(t, st, c, packets - multiset{p}, acks + multiset(out))
  {
    hide Acked, IsChunk, IsAckOf;
    var packets', acks' := packets - multiset{p}, acks + multiset(out);
    assert out != [] ==> out == [out[0]] && out[0] !in acks;
    forall a: AckPacket, j: nat | a in acks' && IsAckOf(t, a, j)
      ensures !Acked(t, st, c, j) && acks'[a] == 1
      ensures forall b: AckPacket :: b in acks' && IsAckOf(t, b, j) ==> a == b
      ensures forall q: Packet :: q in packets' ==> !IsChunk(t, q, j)
    {
      if out != [] {
        OneOwner(t, p, out[0], j, k);
      }
    }
  }

  lemma FreshAfterAck(t: Transfer, s: System, c: nat, r: nat, a: AckPacket, slots: set<nat>) returns (c': nat)
    requires Fresh(t, s, c, r) && Enabled(t, s, DeliverAck(a, slots))
    ensures Fresh(t, Apply(t, s, DeliverAck(a, slots)), c', r)
  {
    if s.sender.phase.Waiting? && !FinalGenuine(t, s, a) {
      c' := FreshAfterDataAck(t, s, c, r, a, slots);
    } else {
      c' := c;
      FreshAfterIdleAck(t, s, c, r, a, slots);
    }
  }

  lemma FreshAfterIdleAck(t: Transfer, s: System, c: nat, r: nat, a: AckPacket, slots: set<nat>)
    requires Fresh(t, s, c, r) && Enabled(t, s, DeliverAck(a, slots))
    requires s.sender.phase.Waiting? ==> FinalGenuine(t, s, a)
    ensures Fresh(t, Apply(t, s, DeliverAck(a, slots)), c, r)
  {
    AfterIdleAck(t, s, c, r, PacketCount(t), a, slots);
    var s' := Apply(t, s, DeliverAck(a, slots));
    SenderKept(t, s.sender, s'.sender, c);
    assert s'.packets == s.packets && s'.acks == s.acks - multiset{a};
    assert s'.sender.lastConfirmed == s.sender.lastConfirmed;
    hide Coherent, OneInFlight, Apply;
    StillOneInFlight(t, s.sender, s'.sender, c, s.packets, s.acks, s'.packets, s'.acks);
  }

  lemma FreshAfterDataAck(t: Transfer, s: System, c: nat, r: nat, a: AckPacket, slots: set<nat>) returns (c': nat)
    requires Fresh(t, s, c, r) && Enabled(t, s, DeliverAck(a, slots))
    requires s.sender.phase.Waiting? && !FinalGenuine(t, s, a)
    ensures Fresh(t, Apply(t, s, DeliverAck(a, slots)), c', r)
    ensures 0 <= a.seqNum < SenderWindow(t) <= c && AckedAs(t, s, a, slots, c, c')
  {
    hide Apply, OnAck, OneInFlight, Confirmed, Acked, Slide;
    var k := AcksAreAccurate(t, s, c, r, a);
    assert AckGenuine(t, s, c, r, a);
    c' := AfterDataAck(t, s, c, r, PacketCount(t), a, k, slots);
    var s' := Apply(t, s, DeliverAck(a, slots));
    AckTurnsIntoPackets(t, s, a, slots);
    assert c' <= PacketCount(t);
    hide Coherent;
    TurnToPackets(t, s, s', c, c', r, a, k, slots);
    StillConfirmed(t, s.sender, s'.sender, c, c', k);
  }

  /** What a data acknowledgment makes of the whole system: packet `k` counts as delivered, and
      the packets of the slide take its place in flight. */
  lemma AckedShape(t: Transfer, s: System, a: AckPacket, slots: set<nat>, c: nat, c': nat, k: nat)
    requires Enabled(t, s, DeliverAck(a, slots)) && s.sender.phase.Waiting?
    requires 0 <= a.seqNum < SenderWindow(t) <= c && AckedAs(t, s, a, slots, c, c')
    requires k == Occupant(SenderWindow(t), c - SenderWindow(t), a.seqNum)
    ensures var s' := Apply(t, s, DeliverAck(a, slots));
      && c <= c' && s'.sender.phase.Waiting? && s'.sender.maxErrors == 0 && s'.receiver == s.receiver
      && (forall j: nat :: Acked(t, s'.sender, c', j) <==> Acked(t, s.sender, c, j) || j == k)
      && s'.packets == s.packets + multiset(NewPackets(t, c, c', slots)) && s'.acks == s.acks - multiset{a}
  {
    hide OnAck, Apply, Acked, Occupant;
    AckTurnsIntoPackets(t, s, a, slots);
  }

  lemma StillConfirmed(t: Transfer, st: SenderState, st': SenderState, c: nat, c': nat, k: nat)
    requires Confirmed(t, st, c) && st'.lastConfirmed == Max(Offset(t, k + 1), st.lastConfirmed)
    requires forall j: nat :: Acked(t, st', c', j) <==> Acked(t, st, c, j) || j == k
    ensures Confirmed(t, st', c')
  {
    assert forall j: nat :: Acked(t, st, c, j) ==> j < c;
  }

  /** Replacing an acknowledgment in flight by the packets of the slide it causes. */
  lemma TurnToPackets(t: Transfer, s: System, s': System, c: nat, c': nat, r: nat,
                      a: AckPacket, k: nat, slots: set<nat>)
    requires Fresh(t, s, c, r) && a in s.acks && IsAckOf(t, a, k) && c <= c' <= PacketCount(t)
    requires forall j: nat :: Acked(t, s'.sender, c', j) <==> Acked(t, s.sender, c, j) || j == k
    requires s'.packets == s.packets + multiset(NewPackets(t, c, c', slots)) && s'.acks == s.acks - multiset{a}
    ensures OneInFlight(t, s'.sender, c', s'.packets, s'.acks)
  {
    var news := NewPackets(t, c, c', slots);
    InFlightBelow(t, s, c, r);
    NewPacketsAbove(t, c, c', slots);
    NewPacketsOnce(t, c, c', slots);
    assert forall j: nat :: Acked(t, s.sender, c, j) ==> j < c;
    MergeFlights(t, s.sender, s'.sender, c, c', s.packets, s.acks, news, a, k);
  }

  /** Everything in flight belongs to packets already read. */
  lemma InFlightBelow(t: Transfer, s: System, c: nat, r: nat)
    requires Coherent(t, s, c, r, PacketCount(t))
    ensures forall p: Packet, j: nat :: p in s.packets && IsChunk(t, p, j) ==> j < c
    ensures forall b: AckPacket, j: nat :: b in s.acks && IsAckOf(t, b, j) ==> j < c
  {
    forall p: Packet, j: nat | p in s.packets && IsChunk(t, p, j)
      ensures j < c
    {
      assert PacketGenuine(t, s, c, p);
      var i: nat :| i < c && IsChunk(t, p, i);
      OneOwner(t, p, AckPacket(0, 0, 0), i, j);
    }
    forall b: AckPacket, j: nat | b in s.acks && IsAckOf(t, b, j)
      ensures j < c
    {
      assert AckGenuine(t, s, c, r, b);
      var i: nat :| i < c && IsAckOf(t, b, i);
      OneOwner(t, PacketOf(t, 0, false), b, i, j);
    }
  }

  /** The packets of a slide are new ones, in their first form. */
  lemma NewPacketsAbove(t: Transfer, c: nat, c': nat, slots: set<nat>)
    requires c <= c' <= PacketCount(t)
    ensures forall p: Packet, j: nat :: p in NewPackets(t, c, c', slots) && IsChunk(t, p, j) ==>
              c <= j && p == PacketOf(t, j, false)
  {
    NewPacketsMembers(t, c, c', slots);
    forall p: Packet, j: nat | p in NewPackets(t, c, c', slots) && IsChunk(t, p, j)
      ensures c <= j && p == PacketOf(t, j, false)
    {
      var i :| c <= i < c' && Slot(SenderWindow(t), i) in slots && PacketOf(t, i, false) == p;
      assert IsChunk(t, p, i);
      OneOwner(t, p, AckPacket(0, 0, 0), i, j);
    }
  }

  lemma MergeFlights(t: Transfer, st: SenderState, st': SenderState, c: nat, c': nat, packets: multiset<Packet>,
                     acks: multiset<AckPacket>, news: seq<Packet>, a: AckPacket, k: nat)
    requires OneInFlight(t, st, c, packets, acks) && a in acks && IsAckOf(t, a, k)
    requires forall j: nat :: Acked(t, st', c', j) <==> Acked(t, st, c, j) || j == k
    requires forall j: nat :: Acked(t, st, c, j) || j == k ==> j < c
    requires forall p: Packet, j: nat :: p in packets && IsChunk(t, p, j) ==> j < c
    requires forall b: AckPacket, j: nat :: b in acks && IsAckOf(t, b, j) ==> j < c
    requires forall p: Packet, j: nat :: p in news && IsChunk(t, p, j) ==> c <= j && p == PacketOf(t, j, false)
    requires forall p: Packet :: p in news ==> multiset(news)[p] == 1
    ensures OneInFlight(t, st', c', packets + multiset(news), acks - multiset{a})
  {
    hide Acked, IsChunk, IsAckOf, PacketOf;
    var packets', acks' := packets + multiset(news), acks - multiset{a};
    forall p: Packet, j: nat | p in packets' && IsChunk(t, p, j)
      ensures if j < c then p in packets && p !in news && j != k else p in news && p !in packets
    {
      assert p in packets || p in news;
    }
    assert forall b: AckPacket :: b in acks' ==> b in acks && b != a;
  }

  lemma FreshAfterTimeout(t: Transfer, s: System, c: nat, r: nat, slots: set<nat>)
    requires Fresh(t, s, c, r) && s.sender.phase.Waiting? && Network.Timely(t, s)
    ensures Fresh(t, Apply(t, s, Timeout(slots)), c, r)
  {
    AfterTimeout(t, s, c, r, PacketCount(t), slots);
    var s' := Apply(t, s, Timeout(slots));
    assert s'.acks == s.acks && s'.sender.lastConfirmed == s.sender.lastConfirmed;
    if s.sender.maxErrors + 1 >= t.maxErrors {
      assert s'.packets == s.packets;
      hide Coherent, OneInFlight, Apply;
      StillOneInFlight(t, s.sender, s'.sender, c, s.packets, s.acks, s'.packets, s'.acks);
    } else {
      OfferedIsUnacked(t, s, c, r);
      var chosen := Offered(s.sender.window, s.sender.lastConfirmed) * slots;
      SentAreFresh(t, s.sender.window, chosen, s'.sender, c);
      assert s'.packets == multiset(Transmission(s.sender.window, chosen, |s.sender.window|));
    }
  }

  /** Fewer datagrams, more datagrams of no packet, or a sender with the same verdicts. */
  lemma StillOneInFlight(t: Transfer, st: SenderState, st': SenderState, c: nat,
                         packets: multiset<Packet>, acks: multiset<AckPacket>,
                         packets': multiset<Packet>, acks': multiset<AckPacket>)
    requires OneInFlight(t, st, c, packets, acks)
    requires forall k :: Acked(t, st', c, k) <==> Acked(t, st, c, k)
    requires forall p :: p in packets' && p.seqNum >= 0 ==> p in packets && packets'[p] <= packets[p]
    requires forall a :: a in acks' && a.seqNum >= 0 ==> a in acks && acks'[a] <= acks[a]
    ensures OneInFlight(t, st', c, packets', acks')
  {
    hide Acked;
    assert forall p: Packet, k: nat :: p in packets' && IsChunk(t, p, k) ==> p in packets && packets'[p] <= packets[p];
    assert forall a: AckPacket, k: nat :: a in acks' && IsAckOf(t, a, k) ==> a in acks && acks'[a] <= acks[a];
  }

  lemma FreshAfterLoss(t: Transfer, s: System, c: nat, r: nat, step: Step)
    requires Fresh(t, s, c, r) && Enabled(t, s, step) && (step.LosePacket? || step.LoseAck?)
    ensures Fresh(t, Apply(t, s, step), c, r)
  {
    AfterChannel(t, s, c, r, PacketCount(t), step);
    var s' := Apply(t, s, step);
    match step {
      case LosePacket(p) =>
        assert s' == s.(packets := s.packets - multiset{p});
      case LoseAck(a) =>
        assert s' == s.(acks := s.acks - multiset{a});
    }
    hide Coherent, OneInFlight, Apply;
    StillOneInFlight(t, s.sender, s.sender, c, s.packets, s.acks, s'.packets, s'.acks);
  }

  lemma FreshAfterFinish(t: Transfer, s: System, c: nat, r: nat)
    requires Fresh(t, s, c, r) && Enabled(t, s, FinishSender)
    ensures Fresh(t, Apply(t, s, FinishSender), c, r)
  {
    AfterFinish(t, s, c, r, PacketCount(t));
    var s' := Apply(t, s, FinishSender);
    var out := Finish(t, s.sender).1;
    assert s'.packets == s.packets + multiset(out) && s'.acks == s.acks;
    assert forall p: Packet :: p in multiset(out) ==> p.seqNum < 0;
    assert s'.sender.lastConfirmed == s.sender.lastConfirmed;
    hide Coherent, OneInFlight, Apply, Finish;
    StillOneInFlight(t, s.sender, s'.sender, c, s.packets, s.acks, s'.packets, s'.acks);
  }

  lemma FinalsNameNoPacket(st: ReceiverState)
    ensures forall a: AckPacket :: a.seqNum >= 0 ==> multiset(FinalAcks(st))[a] == 0
  {
    forall a: AckPacket | a.seqNum >= 0
      ensures multiset(FinalAcks(st))[a] == 0
    {
      assert a !in FinalAcks(st);
    }
  }

  lemma FreshAfterFinalAcks(t: Transfer, s: System, c: nat, r: nat)
    requires Fresh(t, s, c, r) && Enabled(t, s, SendFinalAcks)
    ensures Fresh(t, Apply(t, s, SendFinalAcks), c, r)
  {
    AfterFinalAcks(t, s, c, r, PacketCount(t));
    FinalsNameNoPacket(s.receiver);
    var finals := multiset(FinalAcks(s.receiver));
    var s' := Apply(t, s, SendFinalAcks);
    assert s'.sender == s.sender && s'.packets == s.packets && s'.acks == s.acks + finals;
    hide Coherent, OneInFlight, Apply;

    FinalsAdded(t, s.sender, c, s.packets, s.acks, finals);
  }

  lemma FinalsAdded(t: Transfer, st: SenderState, c: nat, packets: multiset<Packet>,
                    acks: multiset<AckPacket>, finals: multiset<AckPacket>)
    requires OneInFlight(t, st, c, packets, acks)
    requires forall a: AckPacket :: a.seqNum >= 0 ==> finals[a] == 0
    ensures OneInFlight(t, st, c, packets, acks + finals)
  {
    StillOneInFlight(t, st, st, c, packets, acks, packets, acks + finals);
  }

  lemma FreshStep(t: Transfer, s: System, c: nat, r: nat, step: Step) returns (c': nat, r': nat)
    requires Fresh(t, s, c, r) && Enabled(t, s, step) && Allowed(TimelyTimeouts, t, s, step)
    ensures Fresh(t, Apply(t, s, step), c', r')
  {
    hide Fresh;
    c', r' := c, r;
    match step {
      case DeliverPacket(p, pass) =>
        r' := FreshAfterPacket(t, s, c, r, p, pass);
      case DeliverAck(a, slots) =>
        c' := FreshAfterAck(t, s, c, r, a, slots);
      case Timeout(slots) =>
        FreshAfterTimeout(t, s, c, r, slots);
      case SendFinalAcks =>
        FreshAfterFinalAcks(t, s, c, r);
      case FinishSender =>
        FreshAfterFinish(t, s, c, r);
      case _ =>
        FreshAfterLoss(t, s, c, r, step);
    }
  }

  lemma {:induction false} FreshPath(t: Transfer, s: System, c: nat, r: nat, steps: seq<Step>, s': System)
      returns (c': nat, r': nat)
    requires Fresh(t, s, c, r) && Path(TimelyTimeouts, t, s, steps, s')
    ensures Fresh(t, s', c', r')
    ensures Path(MatchingAcks, t, s, steps, s')
    decreases |steps|
  {
    c', r' := c, r;
    if steps != [] {
      TimelyAcksMatch(t, s, c, r, steps[0]);
      hide Fresh, Enabled, Apply, Allowed;
      c', r' := FreshStep(t, s, c, r, steps[0]);
      c', r' := FreshPath(t, Apply(t, s, steps[0]), c', r', steps[1..], s');
    }
  }

  lemma TimelyAcksMatch(t: Transfer, s: System, c: nat, r: nat, step: Step)
    requires Fresh(t, s, c, r) && Enabled(t, s, step)
    ensures Allowed(MatchingAcks, t, s, step)
  {
    if step.DeliverAck? && s.sender.phase.Waiting? && !FinalGenuine(t, s, step.a) {
      var k := AcksAreAccurate(t, s, c, r, step.a);
    }
  }

  // ---------------------------------------------------------------------
  // Every state of every timely run

  lemma TimelyRun(t: Transfer, slots: set<nat>, steps: seq<Step>, s: System) returns (c: nat, r: nat)
    requires Path(TimelyTimeouts, t, InitialSystem(t, slots), steps, s)
    ensures Fresh(t, s, c, r)
    ensures c <= PacketCount(t) && s.sender.counter == Offset(t, c)
    ensures r <= PacketCount(t) && s.receiver.sizeReceived == Offset(t, r)
  {
    InitiallyFresh(t, slots);
    c, r := FreshPath(t, InitialSystem(t, slots), SenderWindow(t), 0, steps, s);
    ProgressMarks(t, s, c, r, PacketCount(t));
  }

  /** Ack accuracy, at every moment of every timely run. */
  lemma AccurateOnTimelyRuns(t: Transfer, slots: set<nat>, steps: seq<Step>, s: System, a: AckPacket)
      returns (r: nat, k: nat)
    requires Path(TimelyTimeouts, t, InitialSystem(t, slots), steps, s)
    requires a in s.acks && !FinalGenuine(t, s, a)
    ensures 0 <= a.seqNum < |s.sender.window| && IsChunk(t, s.sender.window[a.seqNum], k)
    ensures !s.sender.window[a.seqNum].ack && a.size == s.sender.window[a.seqNum].noBytesToSend
    ensures Has(t, s.receiver, r, k) && r <= PacketCount(t) && s.receiver.sizeReceived == Offset(t, r)
  {
    hide Fresh, InitialSystem, Path;
    var c;
    c, r := TimelyRun(t, slots, steps, s);
    k := AcksAreAccurate(t, s, c, r, a);
  }

  /** Selective retransmission, at every moment of every timely run. */
  lemma SelectiveOnTimelyRuns(t: Transfer, slots: set<nat>, steps: seq<Step>, s: System)
    requires Path(TimelyTimeouts, t, InitialSystem(t, slots), steps, s)
    ensures Offered(s.sender.window, s.sender.lastConfirmed) == Unacked(s.sender.window)
  {
    hide Fresh, InitialSystem, Path;
    var c, r := TimelyRun(t, slots, steps, s);
    OfferedIsUnacked(t, s, c, r);
  }

  /** Every timely run writes a prefix of the file, and consumes only matching acknowledgments. */
  lemma PrefixIfTimely(t: Transfer, slots: set<nat>, steps: seq<Step>, s: System)
    requires Path(TimelyTimeouts, t, InitialSystem(t, slots), steps, s)
    ensures Path(MatchingAcks, t, InitialSystem(t, slots), steps, s)
    ensures WritesPrefix(t, s)
  {
    InitiallyFresh(t, slots);
    var c, r := FreshPath(t, InitialSystem(t, slots), SenderWindow(t), 0, steps, s);
    CoherentWritesPrefix(t, s, c, r, PacketCount(t));
  }
}
