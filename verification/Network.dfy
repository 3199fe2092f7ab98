/** The whole transfer: both ends and the two lossy, reordering channels between them. */
module Network {
  import opened Protocol
  import opened Chunks
  import opened Receiver
  import opened Sender

  /** Datagrams in flight are kept in multisets: any of them may arrive next. */
  datatype System = System(
    sender: SenderState,
    receiver: ReceiverState,
    packets: multiset<Packet>,
    acks: multiset<AckPacket>)

  datatype Step =
    | DeliverPacket(p: Packet, pass: bool)
    | DeliverAck(a: AckPacket, slots: set<nat>)
    | Timeout(slots: set<nat>)
    | LosePacket(p: Packet)
    | LoseAck(a: AckPacket)
    | DuplicatePacket(p: Packet)
    | DuplicateAck(a: AckPacket)
    | SendFinalAcks
    | FinishSender

  /** Right after `send_data_to_receiver`, of which `slots` got past the loss simulator. */
  function InitialSystem(t: Transfer, slots: set<nat>): System {
    var (sender, out) := SendWindow(FilledSender(t), slots);
    System(sender, InitialReceiver(t), multiset(out), multiset{})
  }

  predicate Enabled(t: Transfer, s: System, step: Step) {
    match step
    case DeliverPacket(p, _) => p in s.packets && CanReceive(s.receiver, p)
    case DeliverAck(a, _) => a in s.acks && (CanHandleAck(t, s.sender, a) || s.sender.phase.Draining?)
    case Timeout(_) => s.sender.phase.Waiting?
    case LosePacket(p) => p in s.packets
    case LoseAck(a) => a in s.acks
    case DuplicatePacket(p) => p in s.packets
    case DuplicateAck(a) => a in s.acks
    case SendFinalAcks => s.receiver.phase.Finished?
    case FinishSender => s.sender.phase.Draining?
  }

  function Apply(t: Transfer, s: System, step: Step): System
    requires Enabled(t, s, step)
  {
    match step
    case DeliverPacket(p, pass) =>
      var (receiver, out) := Receive(s.receiver, p, pass);
      s.(receiver := receiver, packets := s.packets - multiset{p}, acks := s.acks + multiset(out))
    case DeliverAck(a, slots) =>
      if s.sender.phase.Draining? then
        s.(sender := s.sender.(phase := Draining(a.writeByte)), acks := s.acks - multiset{a})
      else
        var (sender, out) := OnAck(t, s.sender, a, slots);
        s.(sender := sender, packets := s.packets + multiset(out), acks := s.acks - multiset{a})
    case Timeout(slots) =>
      var (sender, out) := OnTimeout(t, s.sender, slots);
      s.(sender := sender, packets := s.packets + multiset(out))
    case LosePacket(p) => s.(packets := s.packets - multiset{p})
    case LoseAck(a) => s.(acks := s.acks - multiset{a})
    case DuplicatePacket(p) => s.(packets := s.packets + multiset{p})
    case DuplicateAck(a) => s.(acks := s.acks + multiset{a})
    case SendFinalAcks =>
      s.(receiver := s.receiver.(phase := Completed),
         acks := s.acks + multiset(FinalAcks(s.receiver)))
    case FinishSender =>
      var (sender, out) := Finish(t, s.sender);
      s.(sender := sender, packets := s.packets + multiset(out))
  }

  // ---------------------------------------------------------------------
  // Runs, under more or less demanding assumptions on the network

  datatype Discipline = AnyNetwork | NoDuplication | MatchingAcks | TimelyTimeouts

  predicate Duplicates(step: Step) {
    step.DuplicatePacket? || step.DuplicateAck?
  }

  /** An acknowledgment matches if it names the offset of the slot's present occupant, or
      if that slot is acknowledged already. The program does not make this check. */
  predicate Matches(st: SenderState, a: AckPacket)
    requires 0 <= a.seqNum < |st.window|
  {
    a.size == st.window[a.seqNum].noBytesToSend || st.window[a.seqNum].ack
  }

  /** A timeout is timely if nothing is in flight any more, or if it only makes the sender give up. */
  predicate Timely(t: Transfer, s: System) {
    (s.packets == multiset{} && s.acks == multiset{}) || s.sender.maxErrors + 1 >= t.maxErrors
  }

  predicate Allowed(d: Discipline, t: Transfer, s: System, step: Step) {
    match d
    case AnyNetwork => true
    case NoDuplication => !Duplicates(step)
    case MatchingAcks =>
      step.DeliverAck? && s.sender.phase.Waiting? && 0 <= step.a.seqNum < |s.sender.window| ==>
        Matches(s.sender, step.a)
    case TimelyTimeouts => !Duplicates(step) && (step.Timeout? ==> Timely(t, s))
  }

  /** `steps` leads from `s` to `s'`, each step enabled and within the discipline. */
  predicate Path(d: Discipline, t: Transfer, s: System, steps: seq<Step>, s': System)
    decreases |steps|
  {
    if steps == [] then s == s'
    else Enabled(t, s, steps[0]) && Allowed(d, t, s, steps[0]) && Path(d, t, Apply(t, s, steps[0]), steps[1..], s')
  }

  lemma {:induction false} PathConcat(d: Discipline, t: Transfer, s: System, p: seq<Step>, m: System,
                                      q: seq<Step>, s': System)
    requires Path(d, t, s, p, m) && Path(d, t, m, q, s')
    ensures Path(d, t, s, p + q, s')
    decreases |p|
  {
    hide Apply, Enabled, Allowed;
    if p == [] {
      assert p + q == q;
    } else {
      PathConcat(d, t, Apply(t, s, p[0]), p[1..], m, q, s');
      assert (p + q)[0] == p[0] && (p + q)[1..] == p[1..] + q;
    }
  }

  lemma PathCons(d: Discipline, t: Transfer, s: System, step: Step, steps: seq<Step>, s': System)
    requires Enabled(t, s, step) && Allowed(d, t, s, step) && Path(d, t, Apply(t, s, step), steps, s')
    ensures Path(d, t, s, [step] + steps, s')
  {
    hide Apply, Enabled, Allowed;
    assert ([step] + steps)[0] == step && ([step] + steps)[1..] == steps;
  }

  lemma PathSnoc(d: Discipline, t: Transfer, s: System, p: seq<Step>, m: System, step: Step)
    requires Path(d, t, s, p, m) && Enabled(t, m, step) && Allowed(d, t, m, step)
    ensures Path(d, t, s, p + [step], Apply(t, m, step))
  {
    hide Apply, Enabled, Allowed;
    assert [step][1..] == [] && Path(d, t, Apply(t, m, step), [], Apply(t, m, step));
    assert Path(d, t, m, [step], Apply(t, m, step));
    PathConcat(d, t, s, p, m, [step], Apply(t, m, step));
  }

  // ---------------------------------------------------------------------
  // Datagrams of this transfer

  /** An acknowledgment for packet `k`. */
  predicate IsAckOf(t: Transfer, a: AckPacket, k: nat) {
    k < PacketCount(t) && a.seqNum == Slot(SenderWindow(t), k) && a.size == Offset(t, k + 1)
  }

  ghost predicate PacketGenuine(t: Transfer, s: System, c: nat, p: Packet) {
    || (p == AbortPacket(t.packetSize) && s.sender.phase == Closed(TRANSFER_ERROR))
    || exists k: nat :: k < c && IsChunk(t, p, k)
  }

  predicate FinalGenuine(t: Transfer, s: System, a: AckPacket) {
    a == AckPacket(SEQ_NUM_ERROR, 0, |t.file|) && s.receiver.phase.Completed?
  }

  ghost predicate AckGenuine(t: Transfer, s: System, c: nat, r: nat, a: AckPacket) {
    && 0 <= a.writeByte <= |t.file|
    && (FinalGenuine(t, s, a) || exists k: nat :: k < c && IsAckOf(t, a, k) && Has(t, s.receiver, r, k))
  }

  /** What each end's progress says about the other. */
  predicate PhasesAgree(t: Transfer, s: System) {
    && (s.sender.phase.Waiting? ==> s.sender.maxErrors < t.maxErrors)
    && (s.sender.phase.Draining? ==> s.sender.phase.ret >= 0)
    && (s.sender.phase.Draining? && s.sender.maxErrors < t.maxErrors ==> s.receiver.phase.Completed?)
    && (s.sender.phase.Closed? ==>
          || s.sender.phase.result == TRANSFER_ERROR
          || (s.sender.phase.result == EXIT_SUCCESS && s.receiver.phase.Completed?))
    && (s.receiver.phase.Aborted? ==> s.sender.phase == Closed(TRANSFER_ERROR))
  }

  /** The invariant over both windows, both channels and the file, when the sender has read
      `c` packets and the receiver has written `r`. `h` bounds the packets for which an
      acknowledged slot can be believed: all of them when every acknowledgment matches,
      the first window when nothing is known about timing. */
  ghost predicate Coherent(t: Transfer, s: System, c: nat, r: nat, h: nat) {
    && c <= h + SenderWindow(t)
    && SenderLayout(t, s.sender, c)
    && ReceiverLayout(t, s.receiver, r)
    && (forall k: nat :: Has(t, s.receiver, r, k) ==> k < c)
    && (forall k: nat :: k < h && Acked(t, s.sender, c, k) ==> Has(t, s.receiver, r, k))
    && (forall p :: p in s.packets ==> PacketGenuine(t, s, c, p))
    && (forall a :: a in s.acks ==> AckGenuine(t, s, c, r, a))
    && PhasesAgree(t, s)
  }

  // ---------------------------------------------------------------------
  // Consequences of the invariant

  /** Between arrivals the packet after the last one written is missing. */
  lemma NextIsMissing(t: Transfer, st: ReceiverState, r: nat)
    requires ReceiverLayout(t, st, r)
    ensures !Has(t, st, r, r)
  {
  }

  /** The byte counts of both ends say how many packets were read and written. */
  lemma ProgressMarks(t: Transfer, s: System, c: nat, r: nat, h: nat)
    requires Coherent(t, s, c, r, h)
    ensures c <= PacketCount(t) && s.sender.counter == Offset(t, c)
    ensures r <= PacketCount(t) && s.receiver.sizeReceived == Offset(t, r)
  {
  }

  /** Window synchronisation: the receiver's base lies inside the sender's window, so
      every packet ever sent is below the end of the receiver's window. */
  lemma WindowsOverlap(t: Transfer, s: System, c: nat, r: nat, h: nat)
    requires Coherent(t, s, c, r, h)
    ensures c - SenderWindow(t) <= r <= c <= r + t.windowSize
  {
    NextIsMissing(t, s.receiver, r);
    if r < c - SenderWindow(t) {
      assert Acked(t, s.sender, c, r);
      assert false;
    }
    if r > 0 {
      assert Has(t, s.receiver, r, r - 1);
    }
  }

  /** Countdown agreement: as long as nothing has arrived, nothing beyond the initial fill
      has been sent, so whichever packet comes first carries the undecremented count. */
  lemma FirstArrivalCarriesCount(t: Transfer, s: System, c: nat, r: nat, h: nat, p: Packet, k: nat)
    requires Coherent(t, s, c, r, h) && s.receiver.first && k < c && IsChunk(t, p, k)
    ensures c == SenderWindow(t) && p.noPacketsToSend == PacketCount(t)
  {
    WindowsOverlap(t, s, c, r, h);
  }

  /** No datagram in flight can meet either end unprepared. */
  lemma InFlightIsHandled(t: Transfer, s: System, c: nat, r: nat, h: nat)
    requires Coherent(t, s, c, r, h)
    ensures forall p :: p in s.packets && s.receiver.phase.Receiving? ==> CanReceive(s.receiver, p)
    ensures forall a :: a in s.acks && s.sender.phase.Waiting? ==> CanHandleAck(t, s.sender, a)
    ensures forall a :: a in s.acks && s.sender.phase.Waiting? ==> (EndsTransfer(t, a) <==> FinalGenuine(t, s, a))
  {
    forall p | p in s.packets && s.receiver.phase.Receiving?
      ensures CanReceive(s.receiver, p)
    {
      assert PacketGenuine(t, s, c, p);
    }
    forall a | a in s.acks && s.sender.phase.Waiting?
      ensures CanHandleAck(t, s.sender, a)
      ensures EndsTransfer(t, a) <==> FinalGenuine(t, s, a)
    {
      assert AckGenuine(t, s, c, r, a);
    }
  }

  // ---------------------------------------------------------------------
  // What is sent

  lemma {:induction false} TransmissionMembers(window: seq<Packet>, chosen: set<nat>, n: nat)
    requires n <= |window|
    ensures forall p :: p in Transmission(window, chosen, n) <==>
              exists j :: 0 <= j < n && j in chosen && window[j] == p
  {
    if n > 0 {
      TransmissionMembers(window, chosen, n - 1);
      forall p
        ensures p in Transmission(window, chosen, n) <==> exists j :: 0 <= j < n && j in chosen && window[j] == p
      {
        if p in Transmission(window, chosen, n - 1) {
          var j :| 0 <= j < n - 1 && j in chosen && window[j] == p;
        }
      }
    }
  }

  lemma {:induction false} NewPacketsMembers(t: Transfer, lo: nat, hi: nat, pass: set<nat>)
    requires lo <= hi
    ensures forall p :: p in NewPackets(t, lo, hi, pass) <==>
              exists j :: lo <= j < hi && Slot(SenderWindow(t), j) in pass && PacketOf(t, j, false) == p
    decreases hi - lo
  {
    if lo < hi {
      NewPacketsMembers(t, lo + 1, hi, pass);
      forall p
        ensures p in NewPackets(t, lo, hi, pass) <==>
                  exists j :: lo <= j < hi && Slot(SenderWindow(t), j) in pass && PacketOf(t, j, false) == p
      {
        if p in NewPackets(t, lo + 1, hi, pass) {
          var j :| lo + 1 <= j < hi && Slot(SenderWindow(t), j) in pass && PacketOf(t, j, false) == p;
        }
      }
    }
  }

  /** Whatever the window transmits is a packet of the file below `c`. */
  lemma WindowIsGenuine(t: Transfer, st: SenderState, c: nat, j: nat)
    requires Sliding(t, st, c) && j < |st.window|
    ensures IsChunk(t, st.window[j], Occupant(SenderWindow(t), c - SenderWindow(t), j))
  {
    assert SlotHolds(t, st, Occupant(SenderWindow(t), c - SenderWindow(t), j));
  }

  /** A timeout with errors left resends what is offered and passes the loss simulator. */
  lemma TimeoutResends(t: Transfer, s: System, slots: set<nat>)
    requires s.sender.phase.Waiting? && s.sender.maxErrors + 1 < t.maxErrors
    ensures var s1 := Apply(t, s, Timeout(slots));
            var window := s.sender.window;
            var chosen := Offered(window, s.sender.lastConfirmed) * slots;
      && s1.sender.phase.Waiting? && s1.receiver == s.receiver && s1.acks == s.acks
      && s1.sender.window == MarkSent(window, chosen)
      && s1.packets == s.packets + multiset(Transmission(window, chosen, |window|))
  {
  }

  lemma AckTurnsIntoPackets(t: Transfer, s: System, a: AckPacket, slots: set<nat>)
    requires Enabled(t, s, DeliverAck(a, slots)) && s.sender.phase.Waiting?
    ensures var s' := Apply(t, s, DeliverAck(a, slots));
            var (sender, out) := OnAck(t, s.sender, a, slots);
      && s'.sender == sender && s'.receiver == s.receiver
      && s'.packets == s.packets + multiset(out) && s'.acks == s.acks - multiset{a}
  {
  }

  lemma PacketTurnsIntoAcks(t: Transfer, s: System, p: Packet, pass: bool)
    requires Enabled(t, s, DeliverPacket(p, pass))
    ensures var s' := Apply(t, s, DeliverPacket(p, pass));
            var (receiver, out) := Receive(s.receiver, p, pass);
      && s'.receiver == receiver && s'.sender == s.sender
      && s'.packets == s.packets - multiset{p} && s'.acks == s.acks + multiset(out)
  {
  }

  /** Losses and duplications change neither end and put nothing new in flight. */
  lemma ChannelOnlyCopies(t: Transfer, s: System, step: Step)
    requires Enabled(t, s, step) && (step.LosePacket? || step.LoseAck? || Duplicates(step))
    ensures var s' := Apply(t, s, step);
      && s'.sender == s.sender && s'.receiver == s.receiver
      && (forall p :: p in s'.packets ==> p in s.packets)
      && (forall a :: a in s'.acks ==> a in s.acks)
  {
  }

  // ---------------------------------------------------------------------
  // Every step keeps the invariant

  lemma InitiallyCoherent(t: Transfer, slots: set<nat>, h: nat)
    ensures Coherent(t, InitialSystem(t, slots), SenderWindow(t), 0, h)
    ensures forall k :: !Acked(t, InitialSystem(t, slots).sender, SenderWindow(t), k)
  {
    FilledLayout(t);
    InitialLayout(t);
    var st := FilledSender(t);
    var s := InitialSystem(t, slots);
    var chosen := Unacked(st.window) * slots;
    SentFlagIsIdle(t, st, s.sender, SenderWindow(t), chosen);
    forall p | p in s.packets
      ensures PacketGenuine(t, s, SenderWindow(t), p)
    {
      TransmissionMembers(st.window, chosen, |st.window|);
      assert p in Transmission(st.window, chosen, |st.window|);
      var j :| 0 <= j < |st.window| && j in chosen && st.window[j] == p;
      assert IsChunk(t, p, j);
    }
  }

  /** Datagrams stay genuine while the ends move on. */
  lemma PacketsStayGenuine(t: Transfer, s: System, s': System, c: nat, c': nat)
    requires c <= c' && (s.sender.phase == Closed(TRANSFER_ERROR) ==> s'.sender.phase == Closed(TRANSFER_ERROR))
    requires forall p :: p in s.packets ==> PacketGenuine(t, s, c, p)
    ensures forall p :: p in s.packets ==> PacketGenuine(t, s', c', p)
  {
    forall p | p in s.packets
      ensures PacketGenuine(t, s', c', p)
    {
      assert PacketGenuine(t, s, c, p);
    }
  }

  lemma AcksStayGenuine(t: Transfer, s: System, s': System, c: nat, c': nat, r: nat, r': nat)
    requires c <= c' && (s.receiver.phase.Completed? ==> s'.receiver.phase.Completed?)
    requires forall k :: Has(t, s.receiver, r, k) ==> Has(t, s'.receiver, r', k)
    requires forall a :: a in s.acks ==> AckGenuine(t, s, c, r, a)
    ensures forall a :: a in s.acks ==> AckGenuine(t, s', c', r', a)
  {
    forall a | a in s.acks
      ensures AckGenuine(t, s', c', r', a)
    {
      assert AckGenuine(t, s, c, r, a);
    }
  }

  lemma AfterChunk(t: Transfer, s: System, c: nat, r: nat, h: nat, p: Packet, k: nat, pass: bool) returns (r': nat)
    requires Coherent(t, s, c, r, h) && Enabled(t, s, DeliverPacket(p, pass)) && k < c && IsChunk(t, p, k)
    ensures Coherent(t, Apply(t, s, DeliverPacket(p, pass)), c, r', h)
    ensures ReceivedAs(t, s, p, pass, r')
    ensures forall j :: Has(t, Apply(t, s, DeliverPacket(p, pass)).receiver, r', j) <==>
              Has(t, s.receiver, r, j) || j == k
  {
    WindowsOverlap(t, s, c, r, h);
    if s.receiver.first {
      FirstArrivalCarriesCount(t, s, c, r, h, p, k);
    }
    r' := ReceiveChunk(t, s.receiver, r, p, k, pass);
    var s' := Apply(t, s, DeliverPacket(p, pass));
    PacketsStayGenuine(t, s, s', c, c);
    AcksStayGenuine(t, s, s', c, c, r, r');
    forall a | a in s'.acks
      ensures AckGenuine(t, s', c, r', a)
    {
      if a !in s.acks {
        assert a in Receive(s.receiver, p, pass).1;
        assert IsAckOf(t, a, k);
      }
    }
  }

  /** What the arrival of a data packet does outside the window. */
  predicate ReceivedAs(t: Transfer, s: System, p: Packet, pass: bool, r': nat)
    requires CanReceive(s.receiver, p)
  {
    var (receiver, out) := Receive(s.receiver, p, pass);
    && !receiver.first
    && receiver.phase == (if r' == PacketCount(t) then Finished else Receiving)
    && out == (if pass then [AckPacket(p.seqNum, p.noBytesToSend, Offset(t, r'))] else [])
  }

  lemma AfterAbort(t: Transfer, s: System, c: nat, r: nat, h: nat, p: Packet, pass: bool)
    requires Coherent(t, s, c, r, h) && Enabled(t, s, DeliverPacket(p, pass)) && p == AbortPacket(t.packetSize)
    requires s.sender.phase == Closed(TRANSFER_ERROR)
    ensures Coherent(t, Apply(t, s, DeliverPacket(p, pass)), c, r, h)
  {
    var s' := Apply(t, s, DeliverPacket(p, pass));
    AbortKeepsLayout(t, s.receiver, r);
    PacketsStayGenuine(t, s, s', c, c);
    AcksStayGenuine(t, s, s', c, c, r, r);
  }

  lemma AfterPacket(t: Transfer, s: System, c: nat, r: nat, h: nat, p: Packet, pass: bool) returns (r': nat)
    requires Coherent(t, s, c, r, h) && Enabled(t, s, DeliverPacket(p, pass))
    ensures Coherent(t, Apply(t, s, DeliverPacket(p, pass)), c, r', h)
  {
    assert PacketGenuine(t, s, c, p);
    if k: nat :| k < c && IsChunk(t, p, k) {
      r' := AfterChunk(t, s, c, r, h, p, k, pass);
    } else {
      r' := r;
      AfterAbort(t, s, c, r, h, p, pass);
    }
  }

  lemma AbortKeepsLayout(t: Transfer, st: ReceiverState, r: nat)
    requires ReceiverLayout(t, st, r) && st.phase.Receiving?
    ensures ReceiverLayout(t, st.(phase := Aborted, output := []), r)
    ensures forall k :: Has(t, st.(phase := Aborted, output := []), r, k) <==> Has(t, st, r, k)
  {
    var st' := st.(phase := Aborted, output := []);
    forall k | r <= k < r + t.windowSize
      ensures SlotMeans(t, st', k)
    {
      assert SlotMeans(t, st, k);
    }
    assert forall k: nat :: Has(t, st', r, k) <==> Has(t, st, r, k);
  }
}
