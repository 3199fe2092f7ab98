/** No stuck state: loss-free runs to the end, and recovery from a quiet point. */
module Completion {
  import opened Protocol
  import opened Chunks
  import opened Receiver
  import opened Sender
  import opened Network
  import opened Agreement
  import opened Safety
  import opened Timely
  import opened Termination

  /** Something is in flight for packet `k`. */
  ghost predicate InFlight(t: Transfer, s: System, k: nat) {
    || (exists p :: p in s.packets && IsChunk(t, p, k))
    || (exists a :: a in s.acks && IsAckOf(t, a, k))
  }

  /** Nothing the sender still waits for has been lost, unless it is only an acknowledgment
      that no later packet has to wait for. */
  ghost predicate Covered(t: Transfer, s: System, c: nat, r: nat) {
    forall k: nat :: k < c && !Acked(t, s.sender, c, k) ==> InFlight(t, s, k) || Dispensable(t, s, r, k)
  }

  /** The receiver has packet `k`, and the file ends inside the window that starts with it. */
  predicate Dispensable(t: Transfer, s: System, r: nat, k: nat) {
    Has(t, s.receiver, r, k) && PacketCount(t) <= k + SenderWindow(t)
  }

  /** The loss simulator lets every slot through, and nothing in flight is lost. */
  predicate LossFree(t: Transfer, step: Step) {
    match step
    case DeliverPacket(_, pass) => pass
    case DeliverAck(_, slots) => Below(t.windowSize) <= slots
    case Timeout(slots) => Below(t.windowSize) <= slots
    case SendFinalAcks => true
    case FinishSender => true
    case _ => false
  }

  /** Both ends are done, and the receiver holds the file. */
  predicate Succeeded(t: Transfer, s: System) {
    s.sender.phase == Closed(EXIT_SUCCESS) && s.receiver.phase.Completed? && s.receiver.output == t.file
  }

  // ---------------------------------------------------------------------
  // Nothing gets lost on a loss-free step

  lemma CoveredAfterPacket(t: Transfer, s: System, s': System, c: nat, r: nat, r': nat, p: Packet, k: nat,
                           out: seq<AckPacket>)
    requires Covered(t, s, c, r) && IsChunk(t, p, k) && s'.sender == s.sender
    requires s'.packets == s.packets - multiset{p} && s'.acks == s.acks + multiset(out)
    requires |out| == 1 && IsAckOf(t, out[0], k)
    requires forall j: nat :: Has(t, s.receiver, r, j) ==> Has(t, s'.receiver, r', j)
    ensures Covered(t, s', c, r')
  {
    hide Acked, Has;
    assert out[0] in s'.acks;
    forall j: nat | j < c && !Acked(t, s'.sender, c, j)
      ensures InFlight(t, s', j) || Dispensable(t, s', r', j)
    {
      if j != k && InFlight(t, s, j) {
        if q :| q in s.packets && IsChunk(t, q, j) {
          OneOwner(t, q, out[0], j, k);
          assert q in s'.packets;
        } else {
          var a :| a in s.acks && IsAckOf(t, a, j);
          assert a in s'.acks;
        }
      }
    }
  }

  lemma CoveredAfterAck(t: Transfer, s: System, s': System, c: nat, c': nat, r: nat,
                        a: AckPacket, k: nat, slots: set<nat>)
    requires Covered(t, s, c, r) && IsAckOf(t, a, k) && a in s.acks && c <= c' <= PacketCount(t)
    requires s'.receiver == s.receiver
    requires Below(t.windowSize) <= slots
    requires forall j: nat :: Acked(t, s'.sender, c', j) <==> Acked(t, s.sender, c, j) || j == k
    requires s'.packets == s.packets + multiset(NewPackets(t, c, c', slots)) && s'.acks == s.acks - multiset{a}
    ensures Covered(t, s', c', r)
  {
    hide Acked, Has;
    NewPacketsMembers(t, c, c', slots);
    forall j: nat | j < c' && !Acked(t, s'.sender, c', j)
      ensures InFlight(t, s', j) || Dispensable(t, s', r, j)
    {
      if j < c && Dispensable(t, s, r, j) {
      } else if j < c {
        assert InFlight(t, s, j);
        if b :| b in s.acks && IsAckOf(t, b, j) {
          OneOwner(t, PacketOf(t, 0, false), b, j, k);
          assert b in s'.acks;
        } else {
          var q :| q in s.packets && IsChunk(t, q, j);
          assert q in s'.packets;
        }
      } else {
        SameSlots(t, j);
        assert PacketOf(t, j, false) in NewPackets(t, c, c', slots);
        assert IsChunk(t, PacketOf(t, j, false), j) && PacketOf(t, j, false) in s'.packets;
      }
    }
  }

  /** A transmission of all unacknowledged slots covers everything. */
  lemma CoveredWhenSent(t: Transfer, window: seq<Packet>, slots: set<nat>, s: System, c: nat, r: nat)
    requires SenderLayout(t, s.sender, c) && |window| == |s.sender.window| && Below(t.windowSize) <= slots
    requires forall j :: 0 <= j < |window| ==> window[j] == s.sender.window[j].(sent := window[j].sent)
    requires forall p :: p in Transmission(window, Unacked(window) * slots, |window|) ==> p in s.packets
    ensures Covered(t, s, c, r)
  {
    TransmissionMembers(window, Unacked(window) * slots, |window|);
    forall k: nat | k < c && !Acked(t, s.sender, c, k)
      ensures InFlight(t, s, k)
    {
      UnackedInWindow(t, s.sender, c, k);
      var j := Slot(SenderWindow(t), k);
      assert j in Below(t.windowSize) && j in Unacked(window) * slots;
      assert window[j] in s.packets && IsChunk(t, window[j], k);
    }
  }

  // ---------------------------------------------------------------------
  // Running to the end

  /** With nothing lost and nothing in flight, the receiver is done. */
  lemma QuietMeansDone(t: Transfer, s: System, c: nat, r: nat)
    requires Fresh(t, s, c, r) && Covered(t, s, c, r) && 0 < PacketCount(t)
    requires forall k: nat :: !InFlight(t, s, k)
    ensures r == PacketCount(t)
  {
    assert forall k: nat :: k < c ==> Acked(t, s.sender, c, k) || Dispensable(t, s, r, k);
    var w := SenderWindow(t);
    assert Slot(w, c) == Slot(w, c - w);
    assert c < PacketCount(t) ==> !Acked(t, s.sender, c, c - w);
    assert c == PacketCount(t);
    NextIsMissing(t, s.receiver, r);
    assert r < c ==> Has(t, s.receiver, r, r);
  }

  /** The receiver's final acknowledgments reach a sender still waiting. */
  lemma FinalAckArrives(t: Transfer, s: System, c: nat, r: nat) returns (a: AckPacket)
    requires Fresh(t, s, c, r) && s.sender.phase.Waiting? && s.receiver.phase.Finished?
    ensures Enabled(t, s, SendFinalAcks)
    ensures var s1 := Apply(t, s, SendFinalAcks);
      && s1.receiver == s.receiver.(phase := Completed) && s1.sender == s.sender
      && s.receiver.output == t.file && s.sender.maxErrors < t.maxErrors
      && a in s1.acks && EndsTransfer(t, a) && a.seqNum == SEQ_NUM_ERROR && CanHandleAck(t, s1.sender, a)
  {
    a := FinalAck(s.receiver);
    var finals := FinalAcks(s.receiver);
    assert a in finals && a in multiset(finals);
    hide FinalAcks;
    OffsetReachesSize(t, r);
  }

  /** Once the receiver has finished, three more steps close the transfer. */
  lemma CloseTransfer(t: Transfer, s: System, c: nat, r: nat) returns (steps: seq<Step>, s': System)
    requires Fresh(t, s, c, r) && s.sender.phase.Waiting? && s.receiver.phase.Finished?
    ensures Path(TimelyTimeouts, t, s, steps, s') && Succeeded(t, s')
    ensures (forall x :: x in steps ==> LossFree(t, x)) && Timeouts(steps) == 0
  {
    hide Fresh, FinalAcks, Path;
    var a := FinalAckArrives(t, s, c, r);
    var s1 := Apply(t, s, SendFinalAcks);
    var second := DeliverAck(a, Below(t.windowSize));
    var s2 := Apply(t, s1, second);
    assert s2.sender.phase == Draining(0) && s2.sender.maxErrors == 0 && s2.receiver == s1.receiver;
    s' := Apply(t, s2, FinishSender);
    steps := [SendFinalAcks, second, FinishSender];
    NoTimeoutsInThree(SendFinalAcks, second, FinishSender);
    ThreeSteps(t, s, SendFinalAcks, second, FinishSender);
  }

  lemma NoTimeoutsInThree(x: Step, y: Step, z: Step)
    requires !x.Timeout? && !y.Timeout? && !z.Timeout?
    ensures Timeouts([x, y, z]) == 0
  {
    assert Timeouts([z]) == 0 && [y, z][1..] == [z] && [x, y, z][1..] == [y, z];
  }

  lemma ThreeSteps(t: Transfer, s: System, x: Step, y: Step, z: Step)
    requires Enabled(t, s, x) && Allowed(TimelyTimeouts, t, s, x)
    requires var s1 := Apply(t, s, x); Enabled(t, s1, y) && Allowed(TimelyTimeouts, t, s1, y)
    requires var s2 := Apply(t, Apply(t, s, x), y); Enabled(t, s2, z) && Allowed(TimelyTimeouts, t, s2, z)
    ensures Path(TimelyTimeouts, t, s, [x, y, z], Apply(t, Apply(t, Apply(t, s, x), y), z))
  {
    hide Enabled, Allowed, Apply;
    var s1 := Apply(t, s, x);
    var s2 := Apply(t, s1, y);
    var s3 := Apply(t, s2, z);
    assert Path(TimelyTimeouts, t, s3, [], s3);
    assert [z][1..] == [] && Path(TimelyTimeouts, t, s2, [z], s3);
    assert [y, z][1..] == [z] && Path(TimelyTimeouts, t, s1, [y, z], s3);
    assert [x, y, z][1..] == [y, z];
  }

  /** The state of the receiver says how far it has written. */
  lemma WrittenIsUnique(t: Transfer, s: System, c: nat, r: nat, r2: nat)
    requires Fresh(t, s, c, r) && ReceiverLayout(t, s.receiver, r2)
    ensures r == r2
  {
    OffsetGrows(t, Min(r, r2), Max(r, r2));
  }

  /** What the arrival of a packet makes of the whole system, while the sender waits. */
  lemma PacketShape(t: Transfer, s: System, c: nat, r: nat, p: Packet, pass: bool)
      returns (r': nat, j: nat, out: seq<AckPacket>)
    requires Fresh(t, s, c, r) && Enabled(t, s, DeliverPacket(p, pass)) && s.sender.phase.Waiting?
    ensures j < c && IsChunk(t, p, j) && p in s.packets
    ensures var s' := Apply(t, s, DeliverPacket(p, pass));
      && Fresh(t, s', c, r') && s'.sender == s.sender
      && s'.packets == s.packets - multiset{p} && s'.acks == s.acks + multiset(out)
      && (forall i: nat :: Has(t, s'.receiver, r', i) <==> Has(t, s.receiver, r, i) || i == j)
      && s'.receiver.phase == (if r' == PacketCount(t) then Finished else Receiving)
    ensures out == [] || (|out| == 1 && IsAckOf(t, out[0], j))
    ensures pass ==> out != []
  {
    j := ChunkInFlight(t, s, c, r, p);
    hide Apply, Receive, Has, Fresh, Enabled, IsChunk;
    r' := FreshAfterPacket(t, s, c, r, p, pass);
    PacketTurnsIntoAcks(t, s, p, pass);
    out := Receive(s.receiver, p, pass).1;
    var r2 := ReceivedForward(t, s, c, r, p, j, pass);
    WrittenIsUnique(t, Apply(t, s, DeliverPacket(p, pass)), c, r', r2);
  }

  lemma ChunkInFlight(t: Transfer, s: System, c: nat, r: nat, p: Packet) returns (j: nat)
    requires Fresh(t, s, c, r) && p in s.packets && s.sender.phase.Waiting?
    ensures j < c && IsChunk(t, p, j)
  {
    assert PacketGenuine(t, s, c, p);
    j :| j < c && IsChunk(t, p, j);
  }

  lemma ReceivedForward(t: Transfer, s: System, c: nat, r: nat, p: Packet, j: nat, pass: bool) returns (r2: nat)
    requires Fresh(t, s, c, r) && Enabled(t, s, DeliverPacket(p, pass)) && j < c && IsChunk(t, p, j)
    ensures var s' := Apply(t, s, DeliverPacket(p, pass));
      && ReceiverLayout(t, s'.receiver, r2)
      && (forall i: nat :: Has(t, s'.receiver, r2, i) <==> Has(t, s.receiver, r, i) || i == j)
      && s'.receiver.phase == (if r2 == PacketCount(t) then Finished else Receiving)
    ensures var out := Receive(s.receiver, p, pass).1;
      && (out == [] || (|out| == 1 && IsAckOf(t, out[0], j))) && (pass ==> out != [])
  {
    r2 := AfterChunk(t, s, c, r, PacketCount(t), p, j, pass);
    PacketTurnsIntoAcks(t, s, p, pass);
    AckNamesChunk(t, p, j, Offset(t, r2));
    hide Receive, Apply, Has, Enabled, IsChunk, IsAckOf;
  }

  lemma PacketIsEnabled(t: Transfer, s: System, c: nat, r: nat, p: Packet)
    requires Fresh(t, s, c, r) && s.receiver.phase.Receiving? && p in s.packets
    ensures Enabled(t, s, DeliverPacket(p, true))
  {
    InFlightIsHandled(t, s, c, r, PacketCount(t));
  }

  lemma PacketStepCloser(t: Transfer, s: System, c: nat, r: nat, p: Packet) returns (r': nat)
    requires Fresh(t, s, c, r) && Covered(t, s, c, r) && s.sender.phase.Waiting? && s.receiver.phase.Receiving?
    requires p in s.packets
    ensures Enabled(t, s, DeliverPacket(p, true))
    ensures Closer(t, s, c, r, DeliverPacket(p, true), c, r')
  {
    hide Fresh, Covered, Potential, Apply, Has;
    PacketIsEnabled(t, s, c, r, p);
    PacketPays(t, s, c, r, p, true);
    var j, out;
    r', j, out := PacketShape(t, s, c, r, p, true);
    CoveredAfterPacket(t, s, Apply(t, s, DeliverPacket(p, true)), c, r, r', p, j, out);
  }

  /** The shape of the state after an acknowledgment for packet `k`. */
  lemma AckArrives(t: Transfer, s: System, c: nat, r: nat, c': nat, a: AckPacket, k: nat, slots: set<nat>)
    requires Fresh(t, s, c, r) && a in s.acks && IsAckOf(t, a, k)
    requires s.sender.phase.Waiting? && Enabled(t, s, DeliverAck(a, slots))
    requires 0 <= a.seqNum < SenderWindow(t) <= c && AckedAs(t, s, a, slots, c, c')
    requires Fresh(t, Apply(t, s, DeliverAck(a, slots)), c', r)
    ensures var s' := Apply(t, s, DeliverAck(a, slots));
      && c <= c' <= PacketCount(t)
      && (forall j: nat :: Acked(t, s'.sender, c', j) <==> Acked(t, s.sender, c, j) || j == k)
      && s'.packets == s.packets + multiset(NewPackets(t, c, c', slots)) && s'.acks == s.acks - multiset{a}
      && s'.receiver == s.receiver && s'.sender.phase.Waiting?
  {
    hide Fresh, Apply, Acked, AckedAs, IsAckOf;
    AckIsEnabled(t, s, c, r, a, k, slots);
    var o := AcksAreAccurate(t, s, c, r, a);
    OneOwner(t, PacketOf(t, 0, false), a, o, k);
    AckedShape(t, s, a, slots, c, c', k);
    ReadSoFar(t, Apply(t, s, DeliverAck(a, slots)), c', r);
  }

  lemma ReadSoFar(t: Transfer, s: System, c: nat, r: nat)
    requires Fresh(t, s, c, r)
    ensures c <= PacketCount(t)
  {
  }

  lemma AckIsEnabled(t: Transfer, s: System, c: nat, r: nat, a: AckPacket, k: nat, slots: set<nat>)
    requires Fresh(t, s, c, r) && a in s.acks && IsAckOf(t, a, k) && s.sender.phase.Waiting?
    ensures Enabled(t, s, DeliverAck(a, slots)) && !FinalGenuine(t, s, a)
  {
    InFlightIsHandled(t, s, c, r, PacketCount(t));
  }

  lemma AckStepCloser(t: Transfer, s: System, c: nat, r: nat, a: AckPacket, k: nat) returns (c': nat)
    requires Fresh(t, s, c, r) && Covered(t, s, c, r) && s.sender.phase.Waiting? && s.receiver.phase.Receiving?
    requires a in s.acks && IsAckOf(t, a, k)
    ensures Enabled(t, s, DeliverAck(a, Below(t.windowSize)))
    ensures Closer(t, s, c, r, DeliverAck(a, Below(t.windowSize)), c', r)
  {
    hide Fresh, Covered, Potential, Apply, AckedAs, OnAck, Acked;
    var slots := Below(t.windowSize);
    AckIsEnabled(t, s, c, r, a, k, slots);
    c' := DataAckPays(t, s, c, r, a, slots);
    AckArrives(t, s, c, r, c', a, k, slots);
    CoveredAfterAck(t, s, Apply(t, s, DeliverAck(a, slots)), c, c', r, a, k, slots);
  }

  /** The step is open to the transfer, loses nothing, and brings the end nearer. */
  ghost predicate Closer(t: Transfer, s: System, c: nat, r: nat, step: Step, c': nat, r': nat)
    requires Enabled(t, s, step)
  {
    var s' := Apply(t, s, step);
    && Allowed(TimelyTimeouts, t, s, step) && LossFree(t, step) && !step.Timeout?
    && Fresh(t, s', c', r') && Covered(t, s', c', r')
    && s'.sender.phase.Waiting?
    && (s'.receiver.phase.Receiving? || s'.receiver.phase.Finished?)
    && Potential(t, s', c') < Potential(t, s, c)
  }

  /** One loss-free step towards the end, while the receiver still waits for packets. */
  lemma OneStepCloser(t: Transfer, s: System, c: nat, r: nat) returns (step: Step, c': nat, r': nat)
    requires Fresh(t, s, c, r) && Covered(t, s, c, r) && 0 < PacketCount(t)
    requires s.sender.phase.Waiting? && s.receiver.phase.Receiving?
    ensures Enabled(t, s, step) && Closer(t, s, c, r, step, c', r')
  {
    c', r' := c, r;
    if p, k: nat :| p in s.packets && IsChunk(t, p, k) {
      step := DeliverPacket(p, true);
      r' := PacketStepCloser(t, s, c, r, p);
    } else if a, k: nat :| a in s.acks && IsAckOf(t, a, k) {
      step := DeliverAck(a, Below(t.windowSize));
      c' := AckStepCloser(t, s, c, r, a, k);
    } else {
      step := FinishSender;
      QuietMeansDone(t, s, c, r);
      assert false;
    }
  }

  /** From a state in which nothing outstanding is lost, a loss-free run takes the receiver to
      the end of the file, with the sender still waiting. */
  lemma {:induction false} RunToFinished(t: Transfer, s: System, c: nat, r: nat)
      returns (steps: seq<Step>, s': System, c': nat, r': nat)
    requires Fresh(t, s, c, r) && Covered(t, s, c, r) && 0 < PacketCount(t)
    requires s.sender.phase.Waiting? && (s.receiver.phase.Receiving? || s.receiver.phase.Finished?)
    ensures Path(TimelyTimeouts, t, s, steps, s') && Fresh(t, s', c', r')
    ensures s'.sender.phase.Waiting? && s'.receiver.phase.Finished?
    ensures (forall x :: x in steps ==> LossFree(t, x)) && Timeouts(steps) == 0
    decreases Potential(t, s, c)
  {
    hide Fresh, Covered, Enabled, Apply, Allowed, Potential, LossFree;
    steps, s', c', r' := [], s, c, r;
    if s.receiver.phase.Receiving? {
      var step;
      step, c', r' := OneStepCloser(t, s, c, r);
      var rest;
      rest, s', c', r' := RunToFinished(t, Apply(t, s, step), c', r');
      steps := [step] + rest;
      assert steps[0] == step && steps[1..] == rest;
    }
  }

  /** And three more steps close it with success. */
  lemma RunToEnd(t: Transfer, s: System, c: nat, r: nat) returns (steps: seq<Step>, s': System)
    requires Fresh(t, s, c, r) && Covered(t, s, c, r) && 0 < PacketCount(t)
    requires s.sender.phase.Waiting? && (s.receiver.phase.Receiving? || s.receiver.phase.Finished?)
    ensures Path(TimelyTimeouts, t, s, steps, s') && Succeeded(t, s')
    ensures (forall x :: x in steps ==> LossFree(t, x)) && Timeouts(steps) == 0
  {
    hide Fresh, Covered, Succeeded, LossFree, Path, Timeouts;
    var first, m, c1, r1 := RunToFinished(t, s, c, r);
    var second;
    second, s' := CloseTransfer(t, m, c1, r1);
    steps := first + second;
    PathConcat(TimelyTimeouts, t, s, first, m, second, s');
    TimeoutsAdd(first, second);
  }

  // ---------------------------------------------------------------------
  // The theorems

  /** No stuck state: with both channels empty and the receiver unfinished, a timeout offers
      something, namely the packet the receiver waits for, or, when that one is still to be
      read, the unacknowledged base of the sender's window. */
  lemma TimeoutOffersProgress(t: Transfer, s: System, c: nat, r: nat)
    requires Fresh(t, s, c, r) && s.packets == multiset{} && s.acks == multiset{} && 0 < PacketCount(t)
    requires s.sender.phase.Waiting? && s.receiver.phase.Receiving?
    ensures var offered := Offered(s.sender.window, s.sender.lastConfirmed);
      if r < c
      then Slot(SenderWindow(t), r) in offered && IsChunk(t, s.sender.window[Slot(SenderWindow(t), r)], r)
      else r == c < PacketCount(t) && s.sender.base in offered
  {
    OfferedIsUnacked(t, s, c, r);
    NextIsMissing(t, s.receiver, r);
    WindowsOverlap(t, s, c, r, PacketCount(t));
    if r < c {
      assert !Acked(t, s.sender, c, r);
      UnackedInWindow(t, s.sender, c, r);
    }
  }

  /** The same at every such moment of every timely run. */
  lemma ProgressOnTimelyRuns(t: Transfer, slots: set<nat>, steps: seq<Step>, s: System) returns (c: nat, r: nat)
    requires Path(TimelyTimeouts, t, InitialSystem(t, slots), steps, s) && 0 < |t.file|
    requires s.packets == multiset{} && s.acks == multiset{}
    requires s.sender.phase.Waiting? && s.receiver.phase.Receiving?
    ensures s.sender.counter == Offset(t, c) && s.receiver.sizeReceived == Offset(t, r)
    ensures var offered := Offered(s.sender.window, s.sender.lastConfirmed);
      if r < c
      then Slot(SenderWindow(t), r) in offered && IsChunk(t, s.sender.window[Slot(SenderWindow(t), r)], r)
      else r == c < PacketCount(t) && s.sender.base in offered
  {
    hide InitialSystem, Path, Fresh;
    OffsetReachesSize(t, 0);
    c, r := TimelyRun(t, slots, steps, s);
    TimeoutOffersProgress(t, s, c, r);
  }

  /** From every quiet point of a timely run, as long as one more timeout does not exhaust
      the errors, one resend round without losses completes the transfer. */
  lemma QuietPointRecovers(t: Transfer, s: System, c: nat, r: nat) returns (steps: seq<Step>, s': System)
    requires Fresh(t, s, c, r) && s.packets == multiset{} && s.acks == multiset{} && 0 < PacketCount(t)
    requires s.sender.phase.Waiting? && (s.receiver.phase.Receiving? || s.receiver.phase.Finished?)
    requires s.sender.maxErrors + 1 < t.maxErrors
    ensures Path(TimelyTimeouts, t, s, steps, s') && Succeeded(t, s')
    ensures (forall x :: x in steps ==> LossFree(t, x)) && Timeouts(steps) == 1
  {
    hide Fresh, Covered, Apply, Potential, Succeeded;
    var slots := Below(t.windowSize);
    ResendCovers(t, s, c, r, slots);
    var rest;
    rest, s' := RunToEnd(t, Apply(t, s, Timeout(slots)), c, r);
    steps := [Timeout(slots)] + rest;
    assert steps[0] == Timeout(slots) && steps[1..] == rest;
  }

  lemma ResendCovers(t: Transfer, s: System, c: nat, r: nat, slots: set<nat>)
    requires Fresh(t, s, c, r) && s.packets == multiset{} && s.acks == multiset{} && Below(t.windowSize) <= slots
    requires s.sender.phase.Waiting? && s.sender.maxErrors + 1 < t.maxErrors
    ensures Fresh(t, Apply(t, s, Timeout(slots)), c, r) && Covered(t, Apply(t, s, Timeout(slots)), c, r)
    ensures Apply(t, s, Timeout(slots)).sender.phase.Waiting?
    ensures Apply(t, s, Timeout(slots)).receiver == s.receiver
  {
    hide Fresh, Apply, SenderLayout;
    var s1 := Apply(t, s, Timeout(slots));
    FreshAfterTimeout(t, s, c, r, slots);
    OfferedIsUnacked(t, s, c, r);
    TimeoutResends(t, s, slots);
    FreshWindow(t, s1, c, r);
    CoveredWhenSent(t, s.sender.window, slots, s1, c, r);
  }

  lemma FreshWindow(t: Transfer, s: System, c: nat, r: nat)
    requires Fresh(t, s, c, r)
    ensures SenderLayout(t, s.sender, c)
  {
  }
}
