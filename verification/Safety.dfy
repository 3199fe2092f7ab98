/** End-to-end safety: every step with a believable acknowledgment keeps the invariant, so
    every such run delivers a prefix of the file. */
module Safety {
  import opened Protocol
  import opened Chunks
  import opened Receiver
  import opened Sender
  import opened Network
  import opened Agreement

  /** The packet an acknowledgment in flight was sent for. */
  ghost predicate AcksFor(t: Transfer, s: System, c: nat, r: nat, a: AckPacket, k: nat) {
    k < c && IsAckOf(t, a, k) && Has(t, s.receiver, r, k)
  }

  /** When an acknowledgment can be believed: it matches its slot, or the slot's occupant
      belongs to the first window, or acknowledged slots of that age are not relied upon. */
  predicate Believable(t: Transfer, s: System, c: nat, h: nat, a: AckPacket)
    requires 0 <= a.seqNum < |s.sender.window|
  {
    Matches(s.sender, a) || h <= SenderWindow(t)
  }

  /** A believable acknowledgment only vouches for a packet the receiver has. */
  lemma BelievedOccupant(t: Transfer, s: System, c: nat, r: nat, h: nat, a: AckPacket, k: nat) returns (o: nat)
    requires Coherent(t, s, c, r, h) && AcksFor(t, s, c, r, a, k)
    ensures 0 <= a.seqNum < |s.sender.window|
    ensures o == Occupant(SenderWindow(t), c - SenderWindow(t), a.seqNum) < c
    ensures Believable(t, s, c, h, a) && o < h ==> Has(t, s.receiver, r, o)
    ensures !Acked(t, s.sender, c, k) ==> o == k && a.size == s.sender.window[a.seqNum].noBytesToSend
  {
    var w := SenderWindow(t);
    o := Occupant(w, c - w, a.seqNum);
    assert SlotHolds(t, s.sender, o);
    OffsetNamesChunk(t, o, k);
    if c - w <= k && o != k {
      SlotsDiffer(w, Min(o, k), Max(o, k));
    }
  }

  lemma AfterDataAck(t: Transfer, s: System, c: nat, r: nat, h: nat, a: AckPacket, k: nat, slots: set<nat>)
      returns (c': nat)
    requires Coherent(t, s, c, r, h) && Enabled(t, s, DeliverAck(a, slots)) && s.sender.phase.Waiting?
    requires AcksFor(t, s, c, r, a, k) && 0 <= a.writeByte <= |t.file|
    requires 0 <= a.seqNum < |s.sender.window| && Believable(t, s, c, h, a)
    ensures c' <= h + SenderWindow(t) ==> Coherent(t, Apply(t, s, DeliverAck(a, slots)), c', r, h)
    ensures AckedAs(t, s, a, slots, c, c') && SenderLayout(t, Apply(t, s, DeliverAck(a, slots)).sender, c')
  {
    var s' := Apply(t, s, DeliverAck(a, slots));
    var o := BelievedOccupant(t, s, c, r, h, a, k);
    c' := AckMarksOccupant(t, s.sender, c, a, slots);
    PacketsStayGenuine(t, s, s', c, c');
    AcksStayGenuine(t, s, s', c, c', r, r);
    NewPacketsMembers(t, c, c', slots);
    forall p | p in s'.packets
      ensures PacketGenuine(t, s', c', p)
    {
      if p !in s.packets {
        assert p in NewPackets(t, c, c', slots);
        var j :| c <= j < c' && Slot(SenderWindow(t), j) in slots && PacketOf(t, j, false) == p;
        assert IsChunk(t, p, j);
      }
    }
  }

  /** What an acknowledgment does to the sender's verdicts. */
  ghost predicate AckedAs(t: Transfer, s: System, a: AckPacket, slots: set<nat>, c: nat, c': nat)
    requires CanHandleAck(t, s.sender, a) && 0 <= a.seqNum < SenderWindow(t) <= c
  {
    var (sender, out) := OnAck(t, s.sender, a, slots);
    && c <= c' && !EndsTransfer(t, a)
    && (forall j: nat :: Acked(t, sender, c', j) <==>
          Acked(t, s.sender, c, j) || j == Occupant(SenderWindow(t), c - SenderWindow(t), a.seqNum))
    && out == NewPackets(t, c, c', slots)
    && sender.phase == Waiting && sender.maxErrors == 0
    && sender.lastConfirmed == Max(a.size, s.sender.lastConfirmed)
  }

  lemma AfterAck(t: Transfer, s: System, c: nat, r: nat, h: nat, a: AckPacket, slots: set<nat>) returns (c': nat)
    requires Coherent(t, s, c, r, h) && Enabled(t, s, DeliverAck(a, slots)) && PacketCount(t) <= h + SenderWindow(t)
    requires s.sender.phase.Waiting? && 0 <= a.seqNum < |s.sender.window| ==> Believable(t, s, c, h, a)
    ensures Coherent(t, Apply(t, s, DeliverAck(a, slots)), c', r, h)
  {
    assert AckGenuine(t, s, c, r, a);
    if s.sender.phase.Waiting? && !FinalGenuine(t, s, a) {
      var k: nat :| k < c && IsAckOf(t, a, k) && Has(t, s.receiver, r, k);
      c' := AfterDataAck(t, s, c, r, h, a, k, slots);
    } else {
      c' := c;
      AfterIdleAck(t, s, c, r, h, a, slots);
    }
  }

  /** The final acknowledgment, or any acknowledgment after the waiting loop. */
  lemma AfterIdleAck(t: Transfer, s: System, c: nat, r: nat, h: nat, a: AckPacket, slots: set<nat>)
    requires Coherent(t, s, c, r, h) && Enabled(t, s, DeliverAck(a, slots))
    requires s.sender.phase.Waiting? ==> FinalGenuine(t, s, a)
    ensures Coherent(t, Apply(t, s, DeliverAck(a, slots)), c, r, h)
  {
    assert AckGenuine(t, s, c, r, a);
    var s' := Apply(t, s, DeliverAck(a, slots));
    SenderKept(t, s.sender, s'.sender, c);
    PacketsStayGenuine(t, s, s', c, c);
    AcksStayGenuine(t, s, s', c, c, r, r);
  }

  lemma AfterTimeout(t: Transfer, s: System, c: nat, r: nat, h: nat, slots: set<nat>)
    requires Coherent(t, s, c, r, h) && s.sender.phase.Waiting?
    ensures Coherent(t, Apply(t, s, Timeout(slots)), c, r, h)
    ensures forall k :: Acked(t, Apply(t, s, Timeout(slots)).sender, c, k) <==> Acked(t, s.sender, c, k)
  {
    var s' := Apply(t, s, Timeout(slots));
    var window := s.sender.window;
    var chosen := Offered(window, s.sender.lastConfirmed) * slots;
    if s.sender.maxErrors + 1 >= t.maxErrors {
      SenderKept(t, s.sender, s'.sender, c);
    } else {
      TimeoutStaysGood(s.sender.timeout);
      SentFlagIsIdle(t, s.sender, s'.sender, c, chosen);
      TransmissionMembers(window, chosen, |window|);
    }
    PacketsStayGenuine(t, s, s', c, c);
    AcksStayGenuine(t, s, s', c, c, r, r);
    forall p | p in s'.packets
      ensures PacketGenuine(t, s', c, p)
    {
      if p !in s.packets {
        assert p in Transmission(window, chosen, |window|);
        var j :| 0 <= j < |window| && j in chosen && window[j] == p;
        WindowIsGenuine(t, s.sender, c, j);
      }
    }
  }

  /** The invariant does not depend on how many copies of a datagram are in flight. */
  lemma CopiesDoNotMatter(t: Transfer, s: System, c: nat, r: nat, h: nat,
                          packets: multiset<Packet>, acks: multiset<AckPacket>)
    requires Coherent(t, s, c, r, h)
    requires forall p :: p in packets ==> p in s.packets
    requires forall a :: a in acks ==> a in s.acks
    ensures Coherent(t, s.(packets := packets, acks := acks), c, r, h)
  {
    var s' := s.(packets := packets, acks := acks);
    PacketsStayGenuine(t, s, s', c, c);
    AcksStayGenuine(t, s, s', c, c, r, r);
  }

  /** Losses and duplications. */
  lemma AfterChannel(t: Transfer, s: System, c: nat, r: nat, h: nat, step: Step)
    requires Coherent(t, s, c, r, h) && Enabled(t, s, step)
    requires step.LosePacket? || step.LoseAck? || Duplicates(step)
    ensures Coherent(t, Apply(t, s, step), c, r, h)
  {
    hide Coherent;
    match step {
      case LosePacket(p) =>
        CopiesDoNotMatter(t, s, c, r, h, s.packets - multiset{p}, s.acks);
      case LoseAck(a) =>
        CopiesDoNotMatter(t, s, c, r, h, s.packets, s.acks - multiset{a});
      case DuplicatePacket(p) =>
        CopiesDoNotMatter(t, s, c, r, h, s.packets + multiset{p}, s.acks);
      case DuplicateAck(a) =>
        CopiesDoNotMatter(t, s, c, r, h, s.packets, s.acks + multiset{a});
    }
  }

  lemma AfterFinish(t: Transfer, s: System, c: nat, r: nat, h: nat)
    requires Coherent(t, s, c, r, h) && Enabled(t, s, FinishSender)
    ensures Coherent(t, Apply(t, s, FinishSender), c, r, h)
    ensures forall k :: Acked(t, Apply(t, s, FinishSender).sender, c, k) <==> Acked(t, s.sender, c, k)
  {
    var s' := Apply(t, s, FinishSender);
    SenderKept(t, s.sender, s'.sender, c);
    PacketsStayGenuine(t, s, s', c, c);
    AcksStayGenuine(t, s, s', c, c, r, r);
  }

  lemma AfterFinalAcks(t: Transfer, s: System, c: nat, r: nat, h: nat)
    requires Coherent(t, s, c, r, h) && Enabled(t, s, SendFinalAcks)
    ensures Coherent(t, Apply(t, s, SendFinalAcks), c, r, h)
  {
    var s' := Apply(t, s, SendFinalAcks);
    CompletionKeepsLayout(t, s.receiver, r);
    PacketsStayGenuine(t, s, s', c, c);
    AcksStayGenuine(t, s, s', c, c, r, r);
    OffsetReachesSize(t, r);
    forall a | a in s'.acks
      ensures AckGenuine(t, s', c, r, a)
    {
      if a !in s.acks {
        assert a in FinalAcks(s.receiver);
        assert FinalGenuine(t, s', a);
      }
    }
  }

  lemma CompletionKeepsLayout(t: Transfer, st: ReceiverState, r: nat)
    requires ReceiverLayout(t, st, r) && st.phase.Finished?
    ensures ReceiverLayout(t, st.(phase := Completed), r)
    ensures forall k :: Has(t, st.(phase := Completed), r, k) <==> Has(t, st, r, k)
  {
    forall k | r <= k < r + t.windowSize
      ensures SlotMeans(t, st.(phase := Completed), k)
    {
      assert SlotMeans(t, st, k);
    }
  }

  /** Every step keeps the invariant, provided the acknowledgment it may consume is believable. */
  lemma StepKeeps(t: Transfer, s: System, c: nat, r: nat, h: nat, step: Step) returns (c': nat, r': nat)
    requires Coherent(t, s, c, r, h) && Enabled(t, s, step) && PacketCount(t) <= h + SenderWindow(t)
    requires step.DeliverAck? && s.sender.phase.Waiting? && 0 <= step.a.seqNum < |s.sender.window| ==>
               Believable(t, s, c, h, step.a)
    ensures Coherent(t, Apply(t, s, step), c', r', h)
  {
    c', r' := c, r;
    hide Coherent;
    match step {
      case DeliverPacket(p, pass) =>
        r' := AfterPacket(t, s, c, r, h, p, pass);
      case DeliverAck(a, slots) =>
        c' := AfterAck(t, s, c, r, h, a, slots);
      case Timeout(slots) =>
        AfterTimeout(t, s, c, r, h, slots);
      case SendFinalAcks =>
        AfterFinalAcks(t, s, c, r, h);
      case FinishSender =>
        AfterFinish(t, s, c, r, h);
      case _ =>
        AfterChannel(t, s, c, r, h, step);
    }
  }

  /** Along a whole run. */
  lemma {:induction false} PathKeeps(d: Discipline, t: Transfer, s: System, c: nat, r: nat, h: nat,
                                     steps: seq<Step>, s': System)
      returns (c': nat, r': nat)
    requires Coherent(t, s, c, r, h) && Path(d, t, s, steps, s') && PacketCount(t) <= h + SenderWindow(t)
    requires d == MatchingAcks || h <= SenderWindow(t)
    ensures Coherent(t, s', c', r', h)
    decreases |steps|
  {
    hide Coherent, Apply, Enabled;
    if steps == [] {
      c', r' := c, r;
    } else {
      c', r' := StepKeeps(t, s, c, r, h, steps[0]);
      c', r' := PathKeeps(d, t, Apply(t, s, steps[0]), c', r', h, steps[1..], s');
    }
  }

  // ---------------------------------------------------------------------
  // What the invariant means for the receiver

  lemma CoherentWritesPrefix(t: Transfer, s: System, c: nat, r: nat, h: nat)
    requires Coherent(t, s, c, r, h)
    ensures WritesPrefix(t, s)
  {
  }

  /** End-to-end safety with no assumption on timing, loss, order or duplication, as long as
      every acknowledgment the sender consumes names the offset of the slot's occupant (or
      finds the slot acknowledged already). */
  lemma PrefixIfAcksMatch(t: Transfer, slots: set<nat>, steps: seq<Step>, s: System)
    requires Path(MatchingAcks, t, InitialSystem(t, slots), steps, s)
    ensures WritesPrefix(t, s)
  {
    InitiallyCoherent(t, slots, PacketCount(t));
    var c, r := PathKeeps(MatchingAcks, t, InitialSystem(t, slots), SenderWindow(t), 0, PacketCount(t), steps, s);
    CoherentWritesPrefix(t, s, c, r, PacketCount(t));
  }

  /** A file of at most two windows is written in order on any network whatsoever. */
  lemma PrefixIfTwoWindows(d: Discipline, t: Transfer, slots: set<nat>, steps: seq<Step>, s: System)
    requires PacketCount(t) <= 2 * t.windowSize
    requires Path(d, t, InitialSystem(t, slots), steps, s)
    ensures WritesPrefix(t, s)
  {
    var h := SenderWindow(t);
    InitiallyCoherent(t, slots, h);
    var c, r := PathKeeps(d, t, InitialSystem(t, slots), SenderWindow(t), 0, h, steps, s);
    CoherentWritesPrefix(t, s, c, r, h);
  }

  /** Window synchronisation, at every moment of every such run: the receiver's base lies in
      the sender's window, and what the sender has read ends within the receiver's. */
  lemma WindowsOverlapOnRuns(d: Discipline, t: Transfer, slots: set<nat>, steps: seq<Step>, s: System)
      returns (c: nat, r: nat)
    requires d == MatchingAcks || PacketCount(t) <= 2 * t.windowSize
    requires Path(d, t, InitialSystem(t, slots), steps, s)
    ensures c - SenderWindow(t) <= r <= c <= r + t.windowSize
    ensures c <= PacketCount(t) && s.sender.counter == Offset(t, c)
    ensures r <= PacketCount(t) && s.receiver.sizeReceived == Offset(t, r)
  {
    hide InitialSystem, Path, Coherent;
    var h := if d == MatchingAcks then PacketCount(t) else SenderWindow(t);
    InitiallyCoherent(t, slots, h);
    c, r := PathKeeps(d, t, InitialSystem(t, slots), SenderWindow(t), 0, h, steps, s);
    WindowsOverlap(t, s, c, r, h);
    ProgressMarks(t, s, c, r, h);
  }
}
