/** Exactly which transfers are written in order whatever the timing. A premature timeout can leave two
    acknowledgments for one packet in flight; the second may arrive when its slot holds a
    later packet, which the sender then believes delivered. */
module Staleness {
  import opened Protocol
  import opened Chunks
  import opened Receiver
  import opened Sender
  import opened Network
  import opened Agreement
  import opened Safety
  import opened Timely
  import opened Termination

  ghost predicate PrefixOnEveryRun(d: Discipline, t: Transfer) {
    forall slots, steps, s :: Path(d, t, InitialSystem(t, slots), steps, s) ==> WritesPrefix(t, s)
  }

  /** The receiver has written something else than the bytes it counts as written. */
  predicate WritesWrong(t: Transfer, s: System) {
    && !s.receiver.phase.Aborted?
    && 0 <= s.receiver.sizeReceived <= |t.file|
    && s.receiver.output != t.file[..s.receiver.sizeReceived]
  }

  // ---------------------------------------------------------------------
  // The run that goes wrong when there are more than two windows of packets

  /** An acknowledgment for packet `k` sent when `k + 1` packets were written. */
  function AckAt(t: Transfer, k: nat): AckPacket {
    AckPacket(Slot(SenderWindow(t), k), Offset(t, k + 1), Offset(t, k + 1))
  }

  /** The first `k` packets are through, the rest of the first window is in flight, and so
      is a leftover acknowledgment for packet 0. */
  ghost predicate Leftover(t: Transfer, s: System, k: nat) {
    var c := t.windowSize + k;
    && 1 <= k <= t.windowSize
    && Coherent(t, s, c, k, t.windowSize)
    && (forall j: nat :: Acked(t, s.sender, c, j) <==> j < k)
    && (forall j: nat :: Has(t, s.receiver, k, j) <==> j < k)
    && (forall j: nat :: k <= j < t.windowSize ==> PacketOf(t, j, false) in s.packets)
    && AckAt(t, 0) in s.acks
    && s.sender.phase.Waiting? && s.receiver.phase.Receiving?
  }

  /** The window stands exactly at the first unacknowledged packet. */
  lemma WindowAtFirstUnacked(t: Transfer, st: SenderState, c: nat, m: nat)
    requires SenderLayout(t, st, c) && 0 < SenderWindow(t) && m + SenderWindow(t) <= PacketCount(t)
    requires !Acked(t, st, c, m) && forall j: nat :: j < m ==> Acked(t, st, c, j)
    ensures c == m + SenderWindow(t)
  {
    var w := SenderWindow(t);
    assert Slot(w, c) == Slot(w, c - w);
    if c < PacketCount(t) {
      assert !Acked(t, st, c, c - w);
    }
  }

  /** What the receiver has fixes how far it has written. */
  lemma WrittenByContents(t: Transfer, st: ReceiverState, r: nat, m: nat)
    requires ReceiverLayout(t, st, r) && forall j: nat :: Has(t, st, r, j) <==> j < m
    ensures r == m
  {
    NextIsMissing(t, st, r);
    assert m < r ==> Has(t, st, r, m);
  }

  /** Delivering packet `k` when exactly the packets below `m` are in hand. */
  lemma DeliverOne(t: Transfer, s: System, c: nat, k: nat, sent: bool, m: nat) returns (s': System, m': nat)
    requires Coherent(t, s, c, m, t.windowSize) && s.receiver.phase.Receiving? && k <= m < PacketCount(t) && k < c
    requires forall j: nat :: Has(t, s.receiver, m, j) <==> j < m
    requires PacketOf(t, k, sent) in s.packets
    ensures Enabled(t, s, DeliverPacket(PacketOf(t, k, sent), true))
    ensures s' == Apply(t, s, DeliverPacket(PacketOf(t, k, sent), true))
    ensures m' == (if k == m then m + 1 else m)
    ensures Coherent(t, s', c, m', t.windowSize)
    ensures forall j: nat :: Has(t, s'.receiver, m', j) <==> j < m'
    ensures m' < PacketCount(t) ==> s'.receiver.phase.Receiving?
    ensures s'.sender == s.sender && s'.packets == s.packets - multiset{PacketOf(t, k, sent)}
    ensures s'.acks == s.acks + multiset{AckPacket(Slot(SenderWindow(t), k), Offset(t, k + 1), Offset(t, m'))}
  {
    var p := PacketOf(t, k, sent);
    InFlightIsHandled(t, s, c, m, t.windowSize);
    var r2 := AfterChunk(t, s, c, m, t.windowSize, p, k, true);
    m' := if k == m then m + 1 else m;
    s' := Apply(t, s, DeliverPacket(p, true));
    ReceivedShape(t, s, p, r2);
    WrittenByContents(t, s'.receiver, r2, m');
  }

  lemma ReceivedShape(t: Transfer, s: System, p: Packet, r2: nat)
    requires Enabled(t, s, DeliverPacket(p, true)) && ReceivedAs(t, s, p, true, r2)
    ensures var s' := Apply(t, s, DeliverPacket(p, true));
      && s'.sender == s.sender && s'.packets == s.packets - multiset{p}
      && s'.acks == s.acks + multiset{AckPacket(p.seqNum, p.noBytesToSend, Offset(t, r2))}
      && s'.receiver.phase == if r2 == PacketCount(t) then Finished else Receiving
  {
  }

  /** Consuming the acknowledgment for packet `k` when packet `o` is in its slot. */
  lemma ConsumeOne(t: Transfer, s: System, c: nat, r: nat, k: nat, o: nat, slots: set<nat>)
      returns (s': System, c': nat)
    requires Coherent(t, s, c, r, t.windowSize) && s.sender.phase.Waiting? && t.windowSize == SenderWindow(t)
    requires AckAt(t, k) in s.acks && k < c && Has(t, s.receiver, r, k)
    requires c - t.windowSize <= o < c && Slot(t.windowSize, o) == Slot(t.windowSize, k)
    ensures Enabled(t, s, DeliverAck(AckAt(t, k), slots))
    ensures s' == Apply(t, s, DeliverAck(AckAt(t, k), slots))
    ensures c <= c' && SenderLayout(t, s'.sender, c') && s'.sender.phase.Waiting?
    ensures c' <= 2 * t.windowSize ==> Coherent(t, s', c', r, t.windowSize)
    ensures forall j: nat :: Acked(t, s'.sender, c', j) <==> Acked(t, s.sender, c, j) || j == o
    ensures s'.receiver == s.receiver && s'.acks == s.acks - multiset{AckAt(t, k)}
    ensures s'.packets == s.packets + multiset(NewPackets(t, c, c', slots))
  {
    var a := AckAt(t, k);
    InFlightIsHandled(t, s, c, r, t.windowSize);
    assert AckGenuine(t, s, c, r, a) && IsAckOf(t, a, k);
    hide Apply, OnAck, Acked, AckedAs, Coherent, SenderLayout;
    c' := AfterDataAck(t, s, c, r, t.windowSize, a, k, slots);
    s' := Apply(t, s, DeliverAck(a, slots));
    var occupant := Occupant(t.windowSize, c - t.windowSize, a.seqNum);
    if occupant != o {
      SlotsDiffer(t.windowSize, Min(occupant, o), Max(occupant, o));
    }
    AckedShape(t, s, a, slots, c, c', o);
  }

  /** One more packet of the first window gets through, unlike the packets sent in return. */
  lemma Advance(t: Transfer, s: System, k: nat) returns (x: Step, y: Step, s1: System, s2: System)
    requires Leftover(t, s, k) && k < t.windowSize && 2 * t.windowSize < PacketCount(t)
    ensures Enabled(t, s, x) && !Duplicates(x) && s1 == Apply(t, s, x)
    ensures Enabled(t, s1, y) && !Duplicates(y) && s2 == Apply(t, s1, y)
    ensures Leftover(t, s2, k + 1)
  {
    hide Coherent, Apply, Enabled, Acked, Has, SenderLayout, ReceiverLayout, PacketOf, Offset, Slot, NewPackets;
    var w := t.windowSize;
    var m': nat, c': nat;
    x := DeliverPacket(PacketOf(t, k, false), true);
    s1, m' := DeliverOne(t, s, w + k, k, false, k);
    y := DeliverAck(AckAt(t, k), {});
    s2, c' := ConsumeOne(t, s1, w + k, k + 1, k, k, {});
    WindowAtFirstUnacked(t, s2.sender, c', k + 1);
    SlotsDiffer(w, 0, k);
    StillInFlight(t, s.packets, k, false, k + 1);
  }

  /** Taking one packet out leaves the later ones in flight. */
  lemma StillInFlight(t: Transfer, packets: multiset<Packet>, k: nat, sent: bool, m: nat)
    requires t.windowSize <= PacketCount(t) && k < PacketCount(t) && k < m
    requires forall j: nat :: m <= j < t.windowSize ==> PacketOf(t, j, false) in packets
    ensures forall j: nat :: m <= j < t.windowSize ==> PacketOf(t, j, false) in packets - multiset{PacketOf(t, k, sent)}
  {
    forall j: nat | m <= j < t.windowSize
      ensures PacketOf(t, j, false) in packets - multiset{PacketOf(t, k, sent)}
    {
      OffsetNamesChunk(t, j, k);
      assert PacketOf(t, j, false) != PacketOf(t, k, sent);
    }
  }

  /** The first copy of packet 0 has arrived, the acknowledgments in `acks` are in flight, and
      so is the rest of the first window. */
  ghost predicate FirstIn(t: Transfer, s: System, acks: multiset<AckPacket>) {
    var c := t.windowSize;
    && Coherent(t, s, c, 1, t.windowSize)
    && (forall j: nat :: Has(t, s.receiver, 1, j) <==> j < 1)
    && (forall j: nat :: !Acked(t, s.sender, c, j))
    && (forall j: nat :: 1 <= j < t.windowSize ==> PacketOf(t, j, false) in s.packets)
    && s.acks == acks && s.sender.phase.Waiting? && s.receiver.phase.Receiving?
  }

  lemma FirstCopyArrives(t: Transfer, s1: System, sent: bool) returns (s2: System)
    requires 2 * t.windowSize < PacketCount(t) && TwoCopies(t, s1, sent)
    ensures Enabled(t, s1, DeliverPacket(PacketOf(t, 0, false), true))
    ensures s2 == Apply(t, s1, DeliverPacket(PacketOf(t, 0, false), true))
    ensures FirstIn(t, s2, multiset{AckAt(t, 0)}) && PacketOf(t, 0, sent) in s2.packets
  {
    hide Coherent, Apply, Enabled, Acked, Has, SenderLayout, ReceiverLayout, PacketOf, Offset, Slot;
    var m2: nat;
    s2, m2 := DeliverOne(t, s1, t.windowSize, 0, false, 0);
    StillInFlight(t, s1.packets, 0, false, 1);
  }

  lemma SecondCopyArrives(t: Transfer, s2: System, sent: bool) returns (s3: System)
    requires 2 * t.windowSize < PacketCount(t)
    requires FirstIn(t, s2, multiset{AckAt(t, 0)}) && PacketOf(t, 0, sent) in s2.packets
    ensures Enabled(t, s2, DeliverPacket(PacketOf(t, 0, sent), true))
    ensures s3 == Apply(t, s2, DeliverPacket(PacketOf(t, 0, sent), true))
    ensures FirstIn(t, s3, multiset{AckAt(t, 0), AckAt(t, 0)})
  {
    hide Coherent, Apply, Enabled, Acked, Has, SenderLayout, ReceiverLayout, PacketOf, Offset, Slot;
    var m3: nat;
    s3, m3 := DeliverOne(t, s2, t.windowSize, 0, sent, 1);
    StillInFlight(t, s2.packets, 0, sent, 1);
  }

  /** Of the two acknowledgments for packet 0 the first is consumed and the second left over. */
  lemma FirstAckConsumed(t: Transfer, s3: System) returns (s4: System)
    requires 2 * t.windowSize < PacketCount(t) && FirstIn(t, s3, multiset{AckAt(t, 0), AckAt(t, 0)})
    ensures Enabled(t, s3, DeliverAck(AckAt(t, 0), {})) && s4 == Apply(t, s3, DeliverAck(AckAt(t, 0), {}))
    ensures Leftover(t, s4, 1)
  {
    hide Coherent, Apply, Enabled, Acked, Has, SenderLayout, ReceiverLayout, PacketOf;
    var c4: nat;
    s4, c4 := ConsumeOne(t, s3, t.windowSize, 1, 0, 0, {});
    WindowAtFirstUnacked(t, s4.sender, c4, 1);
  }

  lemma Beginning(d: Discipline, t: Transfer) returns (steps: seq<Step>, s: System)
    requires 2 * t.windowSize < PacketCount(t) && AllowsStaleAcks(d, t)
    ensures Path(d, t, InitialSystem(t, Below(t.windowSize)), steps, s) && Leftover(t, s, 1)
  {
    hide Apply, Enabled, Leftover, PacketOf, InitialSystem, TwoCopies, FirstIn, AckAt;
    var s0 := InitialSystem(t, Below(t.windowSize));
    var x1, s1, sent := SecondCopy(d, t);
    var s2 := FirstCopyArrives(t, s1, sent);
    var s3 := SecondCopyArrives(t, s2, sent);
    s := FirstAckConsumed(t, s3);
    var x2, x3 := DeliverPacket(PacketOf(t, 0, false), true), DeliverPacket(PacketOf(t, 0, sent), true);
    var x4 := DeliverAck(AckAt(t, 0), {});
    assert Path(d, t, s0, [], s0);
    hide Path;
    PathSnoc(d, t, s0, [], s0, x1);
    PathSnoc(d, t, s0, [] + [x1], s1, x2);
    PathSnoc(d, t, s0, [] + [x1] + [x2], s2, x3);
    PathSnoc(d, t, s0, [] + [x1] + [x2] + [x3], s3, x4);
    steps := [] + [x1] + [x2] + [x3] + [x4];
  }

  /** Nothing has arrived, the whole first window is in flight, and packet 0 twice. */
  ghost predicate TwoCopies(t: Transfer, s: System, sent: bool) {
    && Coherent(t, s, t.windowSize, 0, t.windowSize)
    && (forall j: nat :: !Has(t, s.receiver, 0, j))
    && (var c := t.windowSize; forall j: nat :: !Acked(t, s.sender, c, j))
    && (forall j: nat :: j < t.windowSize ==> PacketOf(t, j, false) in s.packets)
    && PacketOf(t, 0, sent) in s.packets - multiset{PacketOf(t, 0, false)} && s.acks == multiset{}
    && s.sender.phase.Waiting? && s.receiver.phase.Receiving?
  }

  /** The network can double a datagram, or the sender can time out early and still resend. */
  predicate AllowsStaleAcks(d: Discipline, t: Transfer) {
    d == AnyNetwork || (d == NoDuplication && 2 <= t.maxErrors)
  }

  lemma SecondCopy(d: Discipline, t: Transfer) returns (x: Step, s1: System, sent: bool)
    requires 2 * t.windowSize < PacketCount(t) && AllowsStaleAcks(d, t)
    ensures Enabled(t, InitialSystem(t, Below(t.windowSize)), x)
    ensures Allowed(d, t, InitialSystem(t, Below(t.windowSize)), x)
    ensures s1 == Apply(t, InitialSystem(t, Below(t.windowSize)), x)
    ensures TwoCopies(t, s1, sent)
  {
    hide InitialSystem, PacketOf, Apply, TwoCopies;
    if d == AnyNetwork {
      x, sent := DuplicatePacket(PacketOf(t, 0, false)), false;
      s1 := DoubledByNetwork(t);
    } else {
      x, sent := Timeout({0}), true;
      s1 := DoubledByTimeout(t);
    }
  }

  lemma StartOfRun(t: Transfer)
    requires t.windowSize <= PacketCount(t)
    ensures var s0 := InitialSystem(t, Below(t.windowSize));
            var c := t.windowSize;
      && Coherent(t, s0, t.windowSize, 0, t.windowSize)
      && (forall j: nat :: !Has(t, s0.receiver, 0, j)) && (forall j: nat :: !Acked(t, s0.sender, c, j))
      && s0.acks == multiset{} && s0.sender.phase.Waiting? && s0.receiver.phase.Receiving?
  {
    InitiallyCoherent(t, Below(t.windowSize), t.windowSize);
    InitialLayout(t);
    hide Coherent, Acked;
  }

  lemma DoubledByNetwork(t: Transfer) returns (s1: System)
    requires 2 * t.windowSize < PacketCount(t)
    ensures Enabled(t, InitialSystem(t, Below(t.windowSize)), DuplicatePacket(PacketOf(t, 0, false)))
    ensures s1 == Apply(t, InitialSystem(t, Below(t.windowSize)), DuplicatePacket(PacketOf(t, 0, false)))
    ensures TwoCopies(t, s1, false)
  {
    hide Coherent, Acked, Has, PacketOf, InitialSystem;
    var s0 := InitialSystem(t, Below(t.windowSize));
    var x := DuplicatePacket(PacketOf(t, 0, false));
    StartOfRun(t);
    FirstWindowSent(t);
    s1 := Apply(t, s0, x);
    AfterChannel(t, s0, t.windowSize, 0, t.windowSize, x);
  }

  lemma DoubledByTimeout(t: Transfer) returns (s1: System)
    requires 2 * t.windowSize < PacketCount(t) && 2 <= t.maxErrors
    ensures Enabled(t, InitialSystem(t, Below(t.windowSize)), Timeout({0}))
    ensures s1 == Apply(t, InitialSystem(t, Below(t.windowSize)), Timeout({0}))
    ensures TwoCopies(t, s1, true)
  {
    hide Coherent, Acked, Has, InitialSystem, Apply;
    var s0 := InitialSystem(t, Below(t.windowSize));
    StartOfRun(t);
    FirstWindowSent(t);
    s1 := Apply(t, s0, Timeout({0}));
    AfterTimeout(t, s0, t.windowSize, 0, t.windowSize, {0});
    PacketZeroResent(t);
    assert PacketOf(t, 0, true) != PacketOf(t, 0, false);
    hide PacketOf;
  }

  lemma FirstWindowSent(t: Transfer)
    requires t.windowSize <= PacketCount(t)
    ensures forall j: nat :: j < t.windowSize ==> PacketOf(t, j, false) in InitialSystem(t, Below(t.windowSize)).packets
  {
    var w := t.windowSize;
    var window := FilledSender(t).window;
    TransmissionMembers(window, Unacked(window) * Below(w), w);
    forall j: nat | j < w
      ensures PacketOf(t, j, false) in InitialSystem(t, Below(w)).packets
    {
      assert j in Unacked(window) * Below(w) && window[j] == PacketOf(t, j, false);
      assert PacketOf(t, j, false) in Transmission(window, Unacked(window) * Below(w), w);
    }
  }

  lemma PacketZeroResent(t: Transfer)
    requires t.windowSize <= PacketCount(t) && 2 <= t.maxErrors
    ensures var s0 := InitialSystem(t, Below(t.windowSize));
            var s1 := Apply(t, s0, Timeout({0}));
      && PacketOf(t, 0, true) in s1.packets && s0.packets <= s1.packets
      && s1.acks == multiset{} && s1.sender.phase.Waiting? && s1.receiver == s0.receiver
  {
    var s0 := InitialSystem(t, Below(t.windowSize));
    var window := s0.sender.window;
    var chosen := Offered(window, s0.sender.lastConfirmed) * {0};
    PacketZeroWaits(t);
    hide InitialSystem, PacketOf, Apply;
    TimeoutResends(t, s0, {0});
    TransmissionMembers(window, chosen, |window|);
    assert window[0] in Transmission(window, chosen, |window|);
  }

  lemma PacketZeroWaits(t: Transfer)
    requires t.windowSize <= PacketCount(t)
    ensures var s0 := InitialSystem(t, Below(t.windowSize));
      && 0 < |s0.sender.window| && s0.sender.window[0] == PacketOf(t, 0, true)
      && 0 in Offered(s0.sender.window, s0.sender.lastConfirmed)
      && s0.acks == multiset{} && s0.sender.phase.Waiting? && s0.sender.maxErrors == 0
  {
    assert 0 in Below(t.windowSize);
  }

  /** The first window gets through, with the leftover acknowledgment still in flight. */
  lemma {:induction false} FirstWindowThrough(d: Discipline, t: Transfer, k: nat) returns (steps: seq<Step>, s: System)
    requires 2 * t.windowSize < PacketCount(t) && AllowsStaleAcks(d, t) && 1 <= k <= t.windowSize
    ensures Path(d, t, InitialSystem(t, Below(t.windowSize)), steps, s) && Leftover(t, s, k)
  {
    hide Path, Leftover, Enabled, Apply, InitialSystem;
    if k == 1 {
      steps, s := Beginning(d, t);
    } else {
      var steps0, s0 := FirstWindowThrough(d, t, k - 1);
      var x, y, s1, s2 := Advance(t, s0, k - 1);
      PathSnoc(d, t, InitialSystem(t, Below(t.windowSize)), steps0, s0, x);
      PathSnoc(d, t, InitialSystem(t, Below(t.windowSize)), steps0 + [x], s1, y);
      steps, s := steps0 + [x] + [y], s2;
    }
  }

  /** A packet two windows ahead of what the receiver has is taken for the one it waits for. */
  lemma WrongPacketWritten(t: Transfer, st: ReceiverState)
    requires ReceiverLayout(t, st, t.windowSize) && st.phase.Receiving? && 2 * t.windowSize < PacketCount(t)
    requires forall j: nat :: Has(t, st, t.windowSize, j) <==> j < t.windowSize
    ensures CanReceive(st, PacketOf(t, 2 * t.windowSize, false))
    ensures var st' := Receive(st, PacketOf(t, 2 * t.windowSize, false), true).0;
      && !st'.phase.Aborted? && st'.sizeReceived == Offset(t, 2 * t.windowSize + 1)
      && st'.output == t.file[..Offset(t, t.windowSize)] + Chunk(t, 2 * t.windowSize)
  {
    var w := t.windowSize;
    var p := PacketOf(t, 2 * w, false);
    assert Slot(w, w) == 0 && Slot(w, 2 * w) == Slot(w, w);
    assert SlotMeans(t, st, w) && !Has(t, st, w, w) && Has(t, st, w, 0);
    OffsetGrows(t, w, 2 * w + 1);
    assert !AlreadyKnown(st, p);
    var st1 := st.(window := st.window[0 := p.(received := true)]);
    var st2 := WriteBase(st1);
    ChunkShape(t, 2 * w);
    if w > 1 {
      SlotNext(w, w);
      assert !Has(t, st, w, w + 1);
    }
    assert !st2.window[st2.base].received;
    assert Drain(st1, w) == Drain(st2, w - 1) == st2;
  }

  /** The leftover acknowledgment makes the sender skip a packet the receiver never got, and
      the receiver then writes a later packet in its place. */
  lemma WrongRun(d: Discipline, t: Transfer) returns (steps: seq<Step>, s: System)
    requires 2 * t.windowSize < PacketCount(t) && AllowsStaleAcks(d, t)
    ensures Path(d, t, InitialSystem(t, Below(t.windowSize)), steps, s) && WritesWrong(t, s)
  {
    hide Apply, Enabled, SenderLayout;
    var w := t.windowSize;
    var steps0, s0 := FirstWindowThrough(d, t, w);
    var s1 := StaleAckSlides(t, s0);
    var x, y := DeliverAck(AckAt(t, 0), {0}), DeliverPacket(PacketOf(t, 2 * w, false), true);
    hide InitialSystem, PacketOf;
    s := SkippedPacketIsOverwritten(t, s1);
    PathSnoc(d, t, InitialSystem(t, Below(w)), steps0, s0, x);
    PathSnoc(d, t, InitialSystem(t, Below(w)), steps0 + [x], s1, y);
    steps := steps0 + [x] + [y];
  }

  /** And that transfer is lost for good: from there no continuation finishes the file or
      reports success, though the network may behave from then on. */
  lemma WrongRunIsLost(d: Discipline, t: Transfer) returns (steps: seq<Step>, s: System)
    requires 2 * t.windowSize < PacketCount(t) && AllowsStaleAcks(d, t)
    ensures Path(d, t, InitialSystem(t, Below(t.windowSize)), steps, s) && WritesWrong(t, s)
    ensures forall after, s' :: Path(d, t, s, after, s') ==>
              && !s'.receiver.phase.Finished? && !s'.receiver.phase.Completed?
              && s'.sender.phase != Closed(EXIT_SUCCESS)
  {
    hide Path, InitialSystem;
    steps, s := WrongRun(d, t);
    forall after, s' | Path(d, t, s, after, s')
      ensures !s'.receiver.phase.Finished? && !s'.receiver.phase.Completed?
      ensures s'.sender.phase != Closed(EXIT_SUCCESS)
    {
      WrongIsNeverFinished(d, t, Below(t.windowSize), steps, s, after, s');
    }
  }

  /** The leftover acknowledgment marks packet `windowSize`, and packet `2 * windowSize` takes its slot. */
  lemma StaleAckSlides(t: Transfer, s: System) returns (s1: System)
    requires 2 * t.windowSize < PacketCount(t) && Leftover(t, s, t.windowSize)
    ensures Enabled(t, s, DeliverAck(AckAt(t, 0), {0})) && s1 == Apply(t, s, DeliverAck(AckAt(t, 0), {0}))
    ensures s1.receiver == s.receiver && PacketOf(t, 2 * t.windowSize, false) in s1.packets
  {
    hide Coherent, Apply, Enabled, Acked, Has, SenderLayout, ReceiverLayout, PacketOf;
    var w := t.windowSize;
    assert Slot(w, w) == 0 && Slot(w, 2 * w) == Slot(w, w);
    var c1;
    s1, c1 := ConsumeOne(t, s, 2 * w, w, 0, w, {0});
    WindowAtFirstUnacked(t, s1.sender, c1, w + 1);
    NewPacketsMembers(t, 2 * w, c1, {0});
    assert PacketOf(t, 2 * w, false) in NewPackets(t, 2 * w, c1, {0});
  }

  lemma SkippedPacketIsOverwritten(t: Transfer, s: System) returns (s1: System)
    requires 2 * t.windowSize < PacketCount(t) && PacketOf(t, 2 * t.windowSize, false) in s.packets
    requires ReceiverLayout(t, s.receiver, t.windowSize) && s.receiver.phase.Receiving?
    requires forall j: nat :: Has(t, s.receiver, t.windowSize, j) <==> j < t.windowSize
    ensures Enabled(t, s, DeliverPacket(PacketOf(t, 2 * t.windowSize, false), true))
    ensures s1 == Apply(t, s, DeliverPacket(PacketOf(t, 2 * t.windowSize, false), true))
    ensures WritesWrong(t, s1)
  {
    var w := t.windowSize;
    WrongPacketWritten(t, s.receiver);
    s1 := Apply(t, s, DeliverPacket(PacketOf(t, 2 * w, false), true));
    assert s1.receiver == Receive(s.receiver, PacketOf(t, 2 * w, false), true).0;
    hide Apply, Receive, PacketOf, ReceiverLayout;
    ChunkShape(t, 2 * w);
    OffsetGrows(t, w, 2 * w);
  }

  // ---------------------------------------------------------------------
  // The exact condition

  /** A sender that gives up at its first timeout never retransmits. */
  lemma {:induction false} OneErrorIsTimely(t: Transfer, s: System, steps: seq<Step>, s': System)
    requires t.maxErrors == 1 && Path(NoDuplication, t, s, steps, s')
    ensures Path(TimelyTimeouts, t, s, steps, s')
    decreases |steps|
  {
    if steps != [] {
      hide Enabled, Apply;
      OneErrorIsTimely(t, Apply(t, s, steps[0]), steps[1..], s');
    }
  }

  /** On a network that may lose and reorder but not duplicate, and with timeouts at any
      time, only prefixes are written exactly if the file fits into two windows of packets or the
      sender never retransmits at all. */
  lemma PrefixWhateverTheTiming(t: Transfer)
    ensures PrefixOnEveryRun(NoDuplication, t) <==>
            |t.file| <= 2 * t.windowSize * t.packetSize || t.maxErrors == 1
  {
    CountBySize(t, 2 * t.windowSize);
    if PacketCount(t) <= 2 * t.windowSize || t.maxErrors == 1 {
      forall slots, steps, s | Path(NoDuplication, t, InitialSystem(t, slots), steps, s)
        ensures WritesPrefix(t, s)
      {
        if t.maxErrors == 1 {
          OneErrorIsTimely(t, InitialSystem(t, slots), steps, s);
          PrefixIfTimely(t, slots, steps, s);
        } else {
          PrefixIfTwoWindows(NoDuplication, t, slots, steps, s);
        }
      }
    } else {
      var steps, s := WrongRun(NoDuplication, t);
    }
  }

  /** On a network that may also duplicate, exactly if the file fits into two windows. */
  lemma PrefixOnAnyNetwork(t: Transfer)
    ensures PrefixOnEveryRun(AnyNetwork, t) <==> |t.file| <= 2 * t.windowSize * t.packetSize
  {
    CountBySize(t, 2 * t.windowSize);
    if PacketCount(t) <= 2 * t.windowSize {
      forall slots, steps, s | Path(AnyNetwork, t, InitialSystem(t, slots), steps, s)
        ensures WritesPrefix(t, s)
      {
        PrefixIfTwoWindows(AnyNetwork, t, slots, steps, s);
      }
    } else {
      var steps, s := WrongRun(AnyNetwork, t);
    }
  }
}
