/** What holds of every run on any network: with loss, reordering and duplication, timeouts at
    any moment, and acknowledgments that the sender takes for later packets. */
module Agreement {
  import opened Protocol
  import opened Chunks
  import opened Receiver
  import opened ReceiverTrace
  import opened Sender
  import opened Network

  /** The final acknowledgment, or one for a packet already read. */
  ghost predicate AckKnown(t: Transfer, s: System, c: nat, a: AckPacket) {
    && 0 <= a.writeByte <= |t.file|
    && (FinalGenuine(t, s, a) || exists k: nat :: k < c && IsAckOf(t, a, k))
  }

  /** The invariant of all runs, when the sender has read `c` packets and the receiver has
      written the packets `ks`. It says nothing about which packets the sender believes
      delivered. */
  ghost predicate Honest(t: Transfer, s: System, c: nat, ks: seq<nat>) {
    && SenderLayout(t, s.sender, c)
    && Tracked(t, s.receiver, ks)
    && (s.receiver.first ==> c == SenderWindow(t) && s.acks == multiset{})
    && 0 <= s.sender.lastConfirmed <= |t.file|
    && (forall p :: p in s.packets ==> PacketGenuine(t, s, c, p))
    && (forall a :: a in s.acks ==> AckKnown(t, s, c, a))
    && PhasesAgree(t, s)
  }

  // ---------------------------------------------------------------------
  // Every step keeps it

  lemma InitiallyHonest(t: Transfer, slots: set<nat>)
    ensures Honest(t, InitialSystem(t, slots), SenderWindow(t), [])
  {
    InitiallyCoherent(t, slots, 0);
    TraceStarts(t);
    hide SenderLayout, ReceiverLayout, Tracked;
  }

  lemma AcksStayKnown(t: Transfer, s: System, s': System, c: nat, c': nat)
    requires c <= c' && (s.receiver.phase.Completed? ==> s'.receiver.phase.Completed?)
    requires forall a :: a in s.acks ==> AckKnown(t, s, c, a)
    ensures forall a :: a in s.acks ==> AckKnown(t, s', c', a)
  {
    forall a | a in s.acks
      ensures AckKnown(t, s', c', a)
    {
      assert AckKnown(t, s, c, a);
    }
  }

  /** Countdown agreement: as long as nothing has arrived, nothing beyond the initial fill has
      been sent, so whichever packet comes first carries the undecremented count. */
  lemma CountArrives(t: Transfer, s: System, c: nat, ks: seq<nat>, p: Packet, k: nat)
    requires Honest(t, s, c, ks) && k < c && IsChunk(t, p, k)
    ensures s.receiver.first ==> p.noPacketsToSend == PacketCount(t)
  {
  }

  lemma AckNamesChunk(t: Transfer, p: Packet, k: nat, written: int)
    requires IsChunk(t, p, k)
    ensures IsAckOf(t, AckPacket(p.seqNum, p.noBytesToSend, written), k)
  {
  }

  lemma HonestAfterChunk(t: Transfer, s: System, c: nat, ks: seq<nat>, p: Packet, k: nat, pass: bool)
      returns (ks': seq<nat>)
    requires Honest(t, s, c, ks) && Enabled(t, s, DeliverPacket(p, pass)) && k < c && IsChunk(t, p, k)
    ensures ks <= ks' && Honest(t, Apply(t, s, DeliverPacket(p, pass)), c, ks')
  {
    hide Receive, Apply, SenderLayout, Tracked, IsChunk;
    CountArrives(t, s, c, ks, p, k);
    ks' := ReceiveTracked(t, s.receiver, ks, p, k, pass);
    var s' := Apply(t, s, DeliverPacket(p, pass));
    var out := Receive(s.receiver, p, pass).1;
    PacketTurnsIntoAcks(t, s, p, pass);
    PacketsStayGenuine(t, s, s', c, c);
    AcksStayKnown(t, s, s', c, c);
    forall a | a in s'.acks
      ensures AckKnown(t, s', c, a)
    {
      if a !in s.acks {
        assert a in out;
        AckNamesChunk(t, p, k, a.writeByte);
      }
    }
  }

  lemma HonestAfterAbort(t: Transfer, s: System, c: nat, ks: seq<nat>, p: Packet, pass: bool)
    requires Honest(t, s, c, ks) && Enabled(t, s, DeliverPacket(p, pass)) && p == AbortPacket(t.packetSize)
    requires s.sender.phase == Closed(TRANSFER_ERROR)
    ensures Honest(t, Apply(t, s, DeliverPacket(p, pass)), c, ks)
  {
    var s' := Apply(t, s, DeliverPacket(p, pass));
    assert s' == s.(receiver := s.receiver.(phase := Aborted, output := []), packets := s.packets - multiset{p});
    StillTracked(t, s.receiver, s'.receiver, ks);
    PacketsStayGenuine(t, s, s', c, c);
    AcksStayKnown(t, s, s', c, c);
  }

  lemma HonestAfterPacket(t: Transfer, s: System, c: nat, ks: seq<nat>, p: Packet, pass: bool) returns (ks': seq<nat>)
    requires Honest(t, s, c, ks) && Enabled(t, s, DeliverPacket(p, pass))
    ensures ks <= ks' && Honest(t, Apply(t, s, DeliverPacket(p, pass)), c, ks')
  {
    assert PacketGenuine(t, s, c, p);
    hide Honest;
    if k: nat :| k < c && IsChunk(t, p, k) {
      ks' := HonestAfterChunk(t, s, c, ks, p, k, pass);
    } else {
      ks' := ks;
      HonestAfterAbort(t, s, c, ks, p, pass);
    }
  }

  /** A data acknowledgment, whichever packet it was meant for. */
  lemma HonestAfterDataAck(t: Transfer, s: System, c: nat, ks: seq<nat>, a: AckPacket, slots: set<nat>)
      returns (c': nat)
    requires Honest(t, s, c, ks) && Enabled(t, s, DeliverAck(a, slots))
    requires s.sender.phase.Waiting? && !FinalGenuine(t, s, a)
    ensures c <= c' && Honest(t, Apply(t, s, DeliverAck(a, slots)), c', ks)
    ensures var s' := Apply(t, s, DeliverAck(a, slots));
      && s'.sender.phase.Waiting? && s'.sender.maxErrors == 0 && s'.acks == s.acks - multiset{a}
      && s'.sender.lastConfirmed == Max(a.size, s.sender.lastConfirmed)
    ensures 0 <= a.seqNum < SenderWindow(t) <= c
    ensures forall j: nat :: Acked(t, Apply(t, s, DeliverAck(a, slots)).sender, c', j) <==>
              Acked(t, s.sender, c, j) || j == Occupant(SenderWindow(t), c - SenderWindow(t), a.seqNum)
  {
    hide OnAck, Apply, SenderLayout, Tracked, PacketGenuine, AckKnown, FinalGenuine, Enabled, EndsTransfer, Acked,
      Occupant;
    DataAckIsPlain(t, s, c, ks, a, slots);
    c' := AckMarksOccupant(t, s.sender, c, a, slots);
    AckTurnsIntoPackets(t, s, a, slots);
    var s' := Apply(t, s, DeliverAck(a, slots));
    ReadAtMostAll(t, s.sender, c);
    ReadAtMostAll(t, s'.sender, c');
    PacketsStayGenuine(t, s, s', c, c');
    AcksStayKnown(t, s, s', c, c');
    NewPacketsAreGenuine(t, s', c, c', slots);
    assert forall p :: p in s'.packets ==> p in s.packets || p in NewPackets(t, c, c', slots);
  }

  lemma DataAckIsPlain(t: Transfer, s: System, c: nat, ks: seq<nat>, a: AckPacket, slots: set<nat>)
    requires Honest(t, s, c, ks) && Enabled(t, s, DeliverAck(a, slots))
    requires s.sender.phase.Waiting? && !FinalGenuine(t, s, a)
    ensures CanHandleAck(t, s.sender, a) && !EndsTransfer(t, a) && 0 <= a.size <= |t.file|
    ensures !s.receiver.first && s.sender.maxErrors < t.maxErrors
  {
    assert AckKnown(t, s, c, a);
  }

  lemma ReadAtMostAll(t: Transfer, st: SenderState, c: nat)
    requires SenderLayout(t, st, c)
    ensures |st.window| == SenderWindow(t) <= c <= PacketCount(t)
  {
  }

  lemma NewPacketsAreGenuine(t: Transfer, s: System, c: nat, c': nat, slots: set<nat>)
    requires c <= c' <= PacketCount(t)
    ensures forall p :: p in NewPackets(t, c, c', slots) ==> PacketGenuine(t, s, c', p)
  {
    NewPacketsMembers(t, c, c', slots);
    forall p | p in NewPackets(t, c, c', slots)
      ensures PacketGenuine(t, s, c', p)
    {
      var j :| c <= j < c' && Slot(SenderWindow(t), j) in slots && PacketOf(t, j, false) == p;
      assert IsChunk(t, p, j);
    }
  }

  /** The final acknowledgment, or any acknowledgment after the waiting loop. */
  lemma HonestAfterIdleAck(t: Transfer, s: System, c: nat, ks: seq<nat>, a: AckPacket, slots: set<nat>)
    requires Honest(t, s, c, ks) && Enabled(t, s, DeliverAck(a, slots))
    requires s.sender.phase.Waiting? ==> FinalGenuine(t, s, a)
    ensures Honest(t, Apply(t, s, DeliverAck(a, slots)), c, ks)
  {
    assert AckKnown(t, s, c, a);
    var s' := Apply(t, s, DeliverAck(a, slots));
    SenderKept(t, s.sender, s'.sender, c);
    PacketsStayGenuine(t, s, s', c, c);
    AcksStayKnown(t, s, s', c, c);
  }

  lemma HonestAfterTimeout(t: Transfer, s: System, c: nat, ks: seq<nat>, slots: set<nat>)
    requires Honest(t, s, c, ks) && s.sender.phase.Waiting?
    ensures Honest(t, Apply(t, s, Timeout(slots)), c, ks)
  {
    var s' := Apply(t, s, Timeout(slots));
    var window := s.sender.window;
    var chosen := Offered(window, s.sender.lastConfirmed) * slots;
    if s.sender.maxErrors + 1 >= t.maxErrors {
      SenderKept(t, s.sender, s'.sender, c);
    } else {
      TimeoutStaysGood(s.sender.timeout);
      SentFlagIsIdle(t, s.sender, s'.sender, c, chosen);
      TransmissionMembers(window, chosen, |window|);
    }
    PacketsStayGenuine(t, s, s', c, c);
    AcksStayKnown(t, s, s', c, c);
    hide Tracked;
    forall p | p in s'.packets
      ensures PacketGenuine(t, s', c, p)
    {
      if p !in s.packets {
        assert p in Transmission(window, chosen, |window|);
        var j :| 0 <= j < |window| && j in chosen && window[j] == p;
        WindowIsGenuine(t, s.sender, c, j);
      }
    }
  }

  lemma HonestAfterChannel(t: Transfer, s: System, c: nat, ks: seq<nat>, step: Step)
    requires Honest(t, s, c, ks) && Enabled(t, s, step)
    requires step.LosePacket? || step.LoseAck? || Duplicates(step)
    ensures Honest(t, Apply(t, s, step), c, ks)
  {
    hide Apply, Enabled, SenderLayout, Tracked, PacketGenuine, AckKnown;
    var s' := Apply(t, s, step);
    ChannelOnlyCopies(t, s, step);
    PacketsStayGenuine(t, s, s', c, c);
    AcksStayKnown(t, s, s', c, c);
  }

  lemma HonestAfterFinish(t: Transfer, s: System, c: nat, ks: seq<nat>)
    requires Honest(t, s, c, ks) && Enabled(t, s, FinishSender)
    ensures Honest(t, Apply(t, s, FinishSender), c, ks)
  {
    var s' := Apply(t, s, FinishSender);
    SenderKept(t, s.sender, s'.sender, c);
    PacketsStayGenuine(t, s, s', c, c);
    AcksStayKnown(t, s, s', c, c);
  }

  lemma HonestAfterFinalAcks(t: Transfer, s: System, c: nat, ks: seq<nat>)
    requires Honest(t, s, c, ks) && Enabled(t, s, SendFinalAcks)
    ensures Honest(t, Apply(t, s, SendFinalAcks), c, ks)
  {
    var s' := Apply(t, s, SendFinalAcks);
    StillTracked(t, s.receiver, s'.receiver, ks);
    FullTraceIsFile(t, ks);
    hide SenderLayout, Tracks;
    PacketsStayGenuine(t, s, s', c, c);
    AcksStayKnown(t, s, s', c, c);
    forall a | a in s'.acks
      ensures AckKnown(t, s', c, a)
    {
      if a !in s.acks {
        assert a in FinalAcks(s.receiver);
        assert FinalGenuine(t, s', a);
      }
    }
  }

  /** Every step of either end or of the network keeps the invariant, and only extends the
      trace of what has been written. */
  lemma StepStaysHonest(t: Transfer, s: System, c: nat, ks: seq<nat>, step: Step) returns (c': nat, ks': seq<nat>)
    requires Honest(t, s, c, ks) && Enabled(t, s, step)
    ensures c <= c' && ks <= ks' && Honest(t, Apply(t, s, step), c', ks')
  {
    hide Honest;
    c', ks' := c, ks;
    match step {
      case DeliverPacket(p, pass) =>
        ks' := HonestAfterPacket(t, s, c, ks, p, pass);
      case DeliverAck(a, slots) =>
        if s.sender.phase.Waiting? && !FinalGenuine(t, s, a) {
          c' := HonestAfterDataAck(t, s, c, ks, a, slots);
        } else {
          HonestAfterIdleAck(t, s, c, ks, a, slots);
        }
      case Timeout(slots) =>
        HonestAfterTimeout(t, s, c, ks, slots);
      case SendFinalAcks =>
        HonestAfterFinalAcks(t, s, c, ks);
      case FinishSender =>
        HonestAfterFinish(t, s, c, ks);
      case _ =>
        HonestAfterChannel(t, s, c, ks, step);
    }
  }

  lemma {:induction false} PathStaysHonest(d: Discipline, t: Transfer, s: System, c: nat, ks: seq<nat>,
                                           steps: seq<Step>, s': System)
      returns (c': nat, ks': seq<nat>)
    requires Honest(t, s, c, ks) && Path(d, t, s, steps, s')
    ensures c <= c' && ks <= ks' && Honest(t, s', c', ks')
    decreases |steps|
  {
    hide Honest, Apply, Enabled;
    c', ks' := c, ks;
    if steps != [] {
      c', ks' := StepStaysHonest(t, s, c, ks, steps[0]);
      c', ks' := PathStaysHonest(d, t, Apply(t, s, steps[0]), c', ks', steps[1..], s');
    }
  }

  // ---------------------------------------------------------------------
  // What it means

  /** The two ends agree on the outcome: the receiver stops normally only with the whole file,
      the sender reports success only then, and a file is removed only after the sender has
      reported failure. */
  predicate Agreed(t: Transfer, s: System) {
    && (s.receiver.phase.Finished? || s.receiver.phase.Completed? ==>
          s.receiver.output == t.file && s.receiver.sizeReceived == |t.file|)
    && (s.sender.phase == Closed(EXIT_SUCCESS) ==> s.receiver.phase.Completed? && s.receiver.output == t.file)
    && (s.sender.phase.Closed? ==> s.sender.phase.result == EXIT_SUCCESS || s.sender.phase.result == TRANSFER_ERROR)
    && (s.receiver.phase.Aborted? ==> s.sender.phase == Closed(TRANSFER_ERROR))
  }

  /** The bytes written are exactly the first `sizeReceived` of the file. */
  predicate WritesPrefix(t: Transfer, s: System) {
    && 0 <= s.receiver.sizeReceived <= |t.file|
    && (!s.receiver.phase.Aborted? ==> s.receiver.output == t.file[..s.receiver.sizeReceived])
  }

  lemma HonestAgrees(t: Transfer, s: System, c: nat, ks: seq<nat>)
    requires Honest(t, s, c, ks)
    ensures Agreed(t, s)
  {
    if s.receiver.phase.Finished? || s.receiver.phase.Completed? {
      FullTraceIsFile(t, ks);
    }
  }

  /** Agreement on the outcome, for every file and every run on any network. */
  lemma AgreedOnEveryRun(d: Discipline, t: Transfer, slots: set<nat>, steps: seq<Step>, s: System)
    requires Path(d, t, InitialSystem(t, slots), steps, s)
    ensures Agreed(t, s)
  {
    InitiallyHonest(t, slots);
    var c, ks := PathStaysHonest(d, t, InitialSystem(t, slots), SenderWindow(t), [], steps, s);
    HonestAgrees(t, s, c, ks);
  }

  /** No datagram in flight meets either end unprepared, and of the acknowledgments only the
      receiver's final one ends the waiting loop. Whichever packet arrives first carries the
      undecremented packet count. */
  lemma InFlightIsKnown(d: Discipline, t: Transfer, slots: set<nat>, steps: seq<Step>, s: System)
    requires Path(d, t, InitialSystem(t, slots), steps, s)
    ensures forall p :: p in s.packets && s.receiver.phase.Receiving? ==> CanReceive(s.receiver, p)
    ensures forall a :: a in s.acks && s.sender.phase.Waiting? ==> CanHandleAck(t, s.sender, a)
    ensures forall a :: a in s.acks && s.sender.phase.Waiting? ==> (EndsTransfer(t, a) <==> FinalGenuine(t, s, a))
    ensures forall p :: p in s.packets && s.receiver.first && p != AbortPacket(t.packetSize) ==>
              p.noPacketsToSend == PacketCount(t)
  {
    InitiallyHonest(t, slots);
    var c, ks := PathStaysHonest(d, t, InitialSystem(t, slots), SenderWindow(t), [], steps, s);
    HonestIsHandled(t, s, c, ks);
  }

  lemma HonestIsHandled(t: Transfer, s: System, c: nat, ks: seq<nat>)
    requires Honest(t, s, c, ks)
    ensures forall p :: p in s.packets && s.receiver.phase.Receiving? ==> CanReceive(s.receiver, p)
    ensures forall a :: a in s.acks && s.sender.phase.Waiting? ==> CanHandleAck(t, s.sender, a)
    ensures forall a :: a in s.acks && s.sender.phase.Waiting? ==> (EndsTransfer(t, a) <==> FinalGenuine(t, s, a))
    ensures forall p :: p in s.packets && s.receiver.first && p != AbortPacket(t.packetSize) ==>
              p.noPacketsToSend == PacketCount(t)
  {
    forall p | p in s.packets
      ensures s.receiver.phase.Receiving? ==> CanReceive(s.receiver, p)
      ensures s.receiver.first && p != AbortPacket(t.packetSize) ==> p.noPacketsToSend == PacketCount(t)
    {
      assert PacketGenuine(t, s, c, p);
    }
    forall a | a in s.acks && s.sender.phase.Waiting?
      ensures CanHandleAck(t, s.sender, a)
      ensures EndsTransfer(t, a) <==> FinalGenuine(t, s, a)
    {
      assert AckKnown(t, s, c, a);
    }
  }

  /** No number kept by either end or carried by a datagram leaves the range of the packet
      count, the file size, the packet size or the error limit. */
  lemma NumbersInRange(d: Discipline, t: Transfer, slots: set<nat>, steps: seq<Step>, s: System)
    requires Path(d, t, InitialSystem(t, slots), steps, s)
    ensures 0 <= s.sender.noPackets <= PacketCount(t) && 0 <= s.receiver.remaining <= PacketCount(t)
    ensures 0 <= s.sender.counter <= |t.file| && 0 <= s.sender.lastConfirmed <= |t.file|
    ensures 0 <= s.receiver.sizeReceived <= |t.file|
    ensures s.sender.phase.Waiting? ==> s.sender.maxErrors < t.maxErrors
    ensures forall p :: p in s.packets && p != AbortPacket(t.packetSize) ==> PacketInRange(t, p)
    ensures forall a :: a in s.acks ==> 0 <= a.size <= |t.file| && 0 <= a.writeByte <= |t.file|
  {
    InitiallyHonest(t, slots);
    var c, ks := PathStaysHonest(d, t, InitialSystem(t, slots), SenderWindow(t), [], steps, s);
    TraceIsShort(t, ks);
    forall p | p in s.packets && p != AbortPacket(t.packetSize)
      ensures PacketInRange(t, p)
    {
      assert PacketGenuine(t, s, c, p);
    }
    forall a | a in s.acks
      ensures 0 <= a.size <= |t.file|
    {
      assert AckKnown(t, s, c, a);
    }
  }

  predicate PacketInRange(t: Transfer, p: Packet) {
    && 0 <= p.seqNum < t.windowSize
    && 0 <= p.noPacketsToSend <= PacketCount(t)
    && 0 <= p.noBytesToSend <= |t.file|
    && 0 <= p.size <= t.packetSize == |p.payload|
  }

  /** A receiver that has once written a wrong packet never finishes, on any network, and the
      sender never reports success: a wrong file stays partial, and is known to have failed. */
  lemma WrongIsNeverFinished(d: Discipline, t: Transfer, slots: set<nat>, before: seq<Step>, s: System,
                             after: seq<Step>, s': System)
    requires Path(d, t, InitialSystem(t, slots), before, s) && Path(d, t, s, after, s')
    requires !WritesPrefix(t, s)
    ensures !s'.receiver.phase.Finished? && !s'.receiver.phase.Completed?
    ensures s'.sender.phase != Closed(EXIT_SUCCESS)
  {
    hide Path, InitialSystem;
    InitiallyHonest(t, slots);
    var c, ks := PathStaysHonest(d, t, InitialSystem(t, slots), SenderWindow(t), [], before, s);
    var c', ks' := PathStaysHonest(d, t, s, c, ks, after, s');
    HonestAgrees(t, s', c', ks');
    if s'.receiver.phase.Finished? || s'.receiver.phase.Completed? {
      FullTraceIsFile(t, ks');
      PrefixOfOrdered(t, s, c, ks, ks');
    }
  }

  lemma PrefixOfOrdered(t: Transfer, s: System, c: nat, ks: seq<nat>, ks': seq<nat>)
    requires Honest(t, s, c, ks) && ks <= ks' && forall i: nat :: i < |ks'| ==> ks'[i] == i
    ensures WritesPrefix(t, s)
  {
    assert forall i: nat :: i < |ks| ==> ks[i] == ks'[i];
    OrderedTraceIsPrefix(t, ks);
  }
}
