/** How a transfer is brought to an end: who tells whom, and what each end is left with. */
module Closing {
  import opened Protocol
  import opened Chunks
  import opened Receiver
  import opened ReceiverTrace
  import opened Sender
  import opened Network
  import opened Agreement

  // ---------------------------------------------------------------------
  // The receiver's abort

  /** An abort packet is among the packets delivered. */
  predicate AbortDelivered(steps: seq<Step>) {
    exists i :: 0 <= i < |steps| && steps[i].DeliverPacket? && steps[i].p.seqNum == SEQ_NUM_ERROR
  }

  /** One step: the receiver has given up afterwards exactly if it had before, or an abort
      packet has just reached it; and then it keeps nothing. */
  lemma StepAborts(t: Transfer, s: System, step: Step)
    requires Enabled(t, s, step)
    ensures Apply(t, s, step).receiver.phase.Aborted? <==>
              s.receiver.phase.Aborted? || (step.DeliverPacket? && step.p.seqNum == SEQ_NUM_ERROR)
    ensures step.DeliverPacket? && step.p.seqNum == SEQ_NUM_ERROR ==>
              Apply(t, s, step).receiver.output == [] && Apply(t, s, step).acks == s.acks
    ensures s.receiver.phase.Aborted? ==>
              Apply(t, s, step).receiver == s.receiver && forall a :: a in Apply(t, s, step).acks ==> a in s.acks
  {
    hide OnAck, OnTimeout, Finish, StoreAndDrain, AlreadyKnown;
    if step.DeliverPacket? {
      ArrivalAborts(s.receiver, step.p, step.pass);
      PacketTurnsIntoAcks(t, s, step.p, step.pass);
    }
  }

  lemma ArrivalAborts(st: ReceiverState, p: Packet, pass: bool)
    requires CanReceive(st, p)
    ensures Receive(st, p, pass).0.phase.Aborted? <==> p.seqNum == SEQ_NUM_ERROR
    ensures p.seqNum == SEQ_NUM_ERROR ==> Receive(st, p, pass).0.output == [] && Receive(st, p, pass).1 == []
  {
    if p.seqNum != SEQ_NUM_ERROR && p.seqNum < |st.window| {
      var st1 := Announce(st, p);
      DrainKeepsPhase(st1.(window := st1.window[p.seqNum := p.(received := true)]), |st1.window|);
    }
  }

  lemma {:induction false} DrainKeepsPhase(st: ReceiverState, n: nat)
    requires st.base < |st.window|
    ensures Drain(st, n).phase == st.phase
    decreases n
  {
    if n > 0 && st.window[st.base].received {
      DrainKeepsPhase(WriteBase(st), n - 1);
    }
  }

  lemma {:induction false} PathAborts(d: Discipline, t: Transfer, s: System, steps: seq<Step>, s': System)
    requires Path(d, t, s, steps, s')
    requires s.receiver.phase.Aborted? ==> s.receiver.output == []
    ensures s'.receiver.phase.Aborted? <==> s.receiver.phase.Aborted? || AbortDelivered(steps)
    ensures s'.receiver.phase.Aborted? ==> s'.receiver.output == []
    decreases |steps|
  {
    if steps != [] {
      StepAborts(t, s, steps[0]);
      FirstOrLater(steps);
      hide Enabled, Apply, AbortDelivered;
      PathAborts(d, t, Apply(t, s, steps[0]), steps[1..], s');
    }
  }

  lemma FirstOrLater(steps: seq<Step>)
    requires steps != []
    ensures AbortDelivered(steps) <==>
              (steps[0].DeliverPacket? && steps[0].p.seqNum == SEQ_NUM_ERROR) || AbortDelivered(steps[1..])
  {
    assert forall i :: 0 < i < |steps| ==> steps[i] == steps[1..][i - 1];
    assert forall i :: 0 <= i < |steps| - 1 ==> steps[1..][i] == steps[i + 1];
  }

  /** On every run over any network: the receiver gives up exactly if an abort packet was
      delivered to it, and then the file is removed. */
  lemma AbortedIffTold(d: Discipline, t: Transfer, slots: set<nat>, steps: seq<Step>, s: System)
    requires Path(d, t, InitialSystem(t, slots), steps, s)
    ensures s.receiver.phase.Aborted? <==> AbortDelivered(steps)
    ensures s.receiver.phase.Aborted? ==> s.receiver.output == []
  {
    PathAborts(d, t, InitialSystem(t, slots), steps, s);
  }

  /** A receiver that gave up stays as it is and acknowledges nothing, in every continuation. */
  lemma {:induction false} AbortedForGood(d: Discipline, t: Transfer, s: System, steps: seq<Step>, s': System)
    requires s.receiver.phase.Aborted? && Path(d, t, s, steps, s')
    ensures s'.receiver == s.receiver
    ensures forall a :: a in s'.acks ==> a in s.acks
    decreases |steps|
  {
    if steps != [] {
      StepAborts(t, s, steps[0]);
      hide Enabled, Apply;
      AbortedForGood(d, t, Apply(t, s, steps[0]), steps[1..], s');
    }
  }

  // ---------------------------------------------------------------------
  // The sender's end

  /** The sender has given up waiting. */
  predicate OutOfErrors(t: Transfer, s: System) {
    s.sender.phase.Draining? && s.sender.maxErrors >= t.maxErrors
  }

  /** A single step that leads from `s` to `s'`. */
  predicate OneStep(d: Discipline, t: Transfer, s: System, step: Step, s': System) {
    Path(d, t, s, [step], s')
  }

  lemma OneStepApplies(d: Discipline, t: Transfer, s: System, step: Step, s': System)
    requires OneStep(d, t, s, step, s')
    ensures Enabled(t, s, step) && Allowed(d, t, s, step) && s' == Apply(t, s, step)
  {
    hide Apply, Allowed;
    assert [step][0] == step && [step][1..] == [];
    assert Path(d, t, Apply(t, s, step), [], s');
  }

  /** On every run over any network, a sender that gave up tells the receiver: once it has
      returned, a packet is in flight that, if it arrives, makes a receiver still in its loop
      give up and remove the file. */
  lemma GivingUpIsTold(d: Discipline, t: Transfer, slots: set<nat>, steps: seq<Step>, s: System)
      returns (p: Packet, s1: System, s2: System)
    requires Path(d, t, InitialSystem(t, slots), steps, s)
    requires OutOfErrors(t, s) && s.receiver.phase.Receiving?
    ensures Path(d, t, s, [FinishSender, DeliverPacket(p, true)], s2)
    ensures s2.sender.phase == Closed(TRANSFER_ERROR) && s2.receiver.phase.Aborted? && s2.receiver.output == []
    ensures p in s1.packets && OneStep(d, t, s, FinishSender, s1)
  {
    hide Honest, Apply, InitialSystem, Path, CanReceive;
    InitiallyHonest(t, slots);
    var c, ks := PathStaysHonest(d, t, InitialSystem(t, slots), SenderWindow(t), [], steps, s);
    s1, p := AbortIsSent(t, s, c, ks);
    HonestAfterFinish(t, s, c, ks);
    HonestIsHandled(t, s1, c, ks);
    s2 := Apply(t, s1, DeliverPacket(p, true));
    StepAborts(t, s1, DeliverPacket(p, true));
    PacketTurnsIntoAcks(t, s1, p, true);
    TwoSteps(d, t, s, FinishSender, DeliverPacket(p, true));
  }

  lemma AbortIsSent(t: Transfer, s: System, c: nat, ks: seq<nat>) returns (s1: System, p: Packet)
    requires Honest(t, s, c, ks) && OutOfErrors(t, s)
    ensures s1 == Apply(t, s, FinishSender) && s1.receiver == s.receiver
    ensures s1.sender.phase == Closed(TRANSFER_ERROR) && p in s1.packets && p.seqNum == SEQ_NUM_ERROR
  {
    p := AbortPacket(t.packetSize);
    s1 := Apply(t, s, FinishSender);
    assert p in Finish(t, s.sender).1;
  }

  lemma TwoSteps(d: Discipline, t: Transfer, s: System, x: Step, y: Step)
    requires Enabled(t, s, x) && Allowed(d, t, s, x)
    requires Enabled(t, Apply(t, s, x), y) && Allowed(d, t, Apply(t, s, x), y)
    ensures OneStep(d, t, s, x, Apply(t, s, x))
    ensures Path(d, t, s, [x, y], Apply(t, Apply(t, s, x), y))
  {
    hide Enabled, Allowed, Apply;
    var s1 := Apply(t, s, x);
    var s2 := Apply(t, s1, y);
    assert Path(d, t, s1, [], s1) && Path(d, t, s2, [], s2);
    assert [x][0] == x && [x][1..] == [];
    assert [y][1..] == [] && Path(d, t, s1, [y], s2);
    assert [x, y][1..] == [y];
  }

  /** A sender that returns with success puts nothing in flight; on every run over any network it
      sends something on returning exactly if it reports failure. */
  lemma SuccessSendsNothing(d: Discipline, t: Transfer, slots: set<nat>, steps: seq<Step>, s: System, s': System)
    requires Path(d, t, InitialSystem(t, slots), steps, s) && OneStep(d, t, s, FinishSender, s')
    ensures s'.receiver == s.receiver && s'.acks == s.acks
    ensures s'.sender.phase == Closed(EXIT_SUCCESS) <==> s'.packets == s.packets
    ensures s'.sender.phase == Closed(TRANSFER_ERROR) <==> OutOfErrors(t, s)
  {
    InitiallyHonest(t, slots);
    var c, ks := PathStaysHonest(d, t, InitialSystem(t, slots), SenderWindow(t), [], steps, s);
    hide InitialSystem, Path;
    OneStepApplies(d, t, s, FinishSender, s');
    assert |multiset([AbortPacket(t.packetSize)])| == 1;
  }

  /** Swallowing late acknowledgments, one by one. */
  function Swallow(acks: seq<AckPacket>): seq<Step> {
    if acks == [] then [] else [DeliverAck(acks[0], {})] + Swallow(acks[1..])
  }

  /** The byte count of the last one, or what the sender had before. */
  function LastCount(acks: seq<AckPacket>, before: int): int {
    if acks == [] then before else acks[|acks| - 1].writeByte
  }

  lemma {:induction false} SwallowAll(d: Discipline, t: Transfer, s: System, acks: seq<AckPacket>) returns (s': System)
    requires s.sender.phase.Draining? && multiset(acks) <= s.acks
    ensures Path(d, t, s, Swallow(acks), s')
    ensures s'.sender == s.sender.(phase := Draining(LastCount(acks, s.sender.phase.ret)))
    ensures s'.receiver == s.receiver && s'.packets == s.packets && s'.acks == s.acks - multiset(acks)
    decreases |acks|
  {
    if acks == [] {
      s' := s;
    } else {
      hide Apply, Path, Enabled, Allowed;
      FirstOfMany(acks, s.acks);
      SwallowOne(d, t, s, acks[0]);
      s' := SwallowAll(d, t, Apply(t, s, DeliverAck(acks[0], {})), acks[1..]);
      PathCons(d, t, s, DeliverAck(acks[0], {}), Swallow(acks[1..]), s');
    }
  }

  lemma FirstOfMany(acks: seq<AckPacket>, all: multiset<AckPacket>)
    requires acks != [] && multiset(acks) <= all
    ensures acks[0] in all && multiset(acks[1..]) <= all - multiset{acks[0]}
    ensures all - multiset{acks[0]} - multiset(acks[1..]) == all - multiset(acks)
  {
    assert acks == [acks[0]] + acks[1..];
    assert multiset(acks) == multiset{acks[0]} + multiset(acks[1..]);
  }

  lemma SwallowOne(d: Discipline, t: Transfer, s: System, a: AckPacket)
    requires s.sender.phase.Draining? && a in s.acks
    ensures Enabled(t, s, DeliverAck(a, {})) && Allowed(d, t, s, DeliverAck(a, {}))
    ensures Apply(t, s, DeliverAck(a, {})) ==
              s.(sender := s.sender.(phase := Draining(a.writeByte)), acks := s.acks - multiset{a})
  {
  }

  /** What decides the outcome, whatever acknowledgments come late, genuine or not: the sender
      reports success exactly if the last byte count it heard is no write error and its errors
      are not used up; and it tells the receiver to abort exactly if they are, and the last byte
      count is no write error. The timeout of the socket is cleared in any case. */
  lemma LastCountDecides(d: Discipline, t: Transfer, s: System, acks: seq<AckPacket>) returns (s': System)
    requires s.sender.phase.Draining? && multiset(acks) <= s.acks
    ensures Path(d, t, s, Swallow(acks) + [FinishSender], s')
    ensures var heardError := LastCount(acks, s.sender.phase.ret) == WRITE_BYTE_ERROR;
            var usedUp := s.sender.maxErrors >= t.maxErrors;
      && s'.sender.phase == Closed(if !heardError && !usedUp then EXIT_SUCCESS else TRANSFER_ERROR)
      && s'.packets == s.packets + (if !heardError && usedUp then multiset{AbortPacket(t.packetSize)} else multiset{})
      && s'.sender.timeout == 0 && s'.receiver == s.receiver
  {
    var m := SwallowAll(d, t, s, acks);
    s' := Apply(t, m, FinishSender);
    assert Path(d, t, s', [], s') && [FinishSender][1..] == [];
    assert Path(d, t, m, [FinishSender], s');
    PathConcat(d, t, s, Swallow(acks), m, [FinishSender], s');
  }

  /** Any byte count beyond the file, a reported write error, and any end-of-transfer number end
      the waiting loop, whichever slot the acknowledgment names; and with nothing heard after
      that the sender reports success. */
  lemma EndingCounts(t: Transfer, s: System, a: AckPacket) returns (s': System)
    requires s.sender.phase.Waiting? && a in s.acks
    requires a.seqNum == SEQ_NUM_ERROR || a.writeByte > |t.file| || a.writeByte == WRITE_BYTE_ERROR
    ensures Path(AnyNetwork, t, s, [DeliverAck(a, {}), FinishSender], s')
    ensures s'.sender.phase == Closed(EXIT_SUCCESS)
    ensures s'.receiver == s.receiver && s'.packets == s.packets && s'.acks == s.acks - multiset{a}
  {
    assert CanHandleAck(t, s.sender, a);
    var s1 := Apply(t, s, DeliverAck(a, {}));
    assert s1.sender.phase == Draining(0) && s1.sender.maxErrors == 0;
    assert s1.packets == s.packets && s1.acks == s.acks - multiset{a};
    s' := Apply(t, s1, FinishSender);
    TwoSteps(AnyNetwork, t, s, DeliverAck(a, {}), FinishSender);
  }

  // ---------------------------------------------------------------------
  // Success, read off the run

  /** Somewhere in the run the waiting sender took the final acknowledgment. */
  predicate TookFinal(d: Discipline, t: Transfer, s: System, steps: seq<Step>, s': System)
    requires Path(d, t, s, steps, s')
    decreases |steps|
  {
    steps != [] &&
    ((s.sender.phase.Waiting? && steps[0].DeliverAck? && FinalGenuine(t, s, steps[0].a))
     || TookFinal(d, t, Apply(t, s, steps[0]), steps[1..], s'))
  }

  /** How the phase of the sender tells whether it took the final acknowledgment. */
  predicate PhaseTells(t: Transfer, st: SenderState, took: bool) {
    match st.phase
    case Waiting => !took
    case Draining(_) => took <==> st.maxErrors < t.maxErrors
    case Closed(result) => took <==> result == EXIT_SUCCESS
  }

  lemma StepTells(t: Transfer, s: System, c: nat, ks: seq<nat>, step: Step, took: bool)
    requires Honest(t, s, c, ks) && Enabled(t, s, step) && PhaseTells(t, s.sender, took)
    ensures PhaseTells(t, Apply(t, s, step).sender,
                       took || (s.sender.phase.Waiting? && step.DeliverAck? && FinalGenuine(t, s, step.a)))
  {
    if step.DeliverAck? && s.sender.phase.Waiting? && !FinalGenuine(t, s, step.a) {
      hide Apply, Tracked, SenderLayout;
      var c' := HonestAfterDataAck(t, s, c, ks, step.a, step.slots);
    } else {
      hide Tracked, SenderLayout, Slide, Receive, Transmission, Offered, MarkSent;
    }
  }

  lemma {:induction false} PathTells(d: Discipline, t: Transfer, s: System, c: nat, ks: seq<nat>, took: bool,
                                     steps: seq<Step>, s': System)
    requires Honest(t, s, c, ks) && Path(d, t, s, steps, s') && PhaseTells(t, s.sender, took)
    ensures PhaseTells(t, s'.sender, took || TookFinal(d, t, s, steps, s'))
    decreases |steps|
  {
    if steps != [] {
      StepTells(t, s, c, ks, steps[0], took);
      hide Honest, Apply, Enabled, PhaseTells, FinalGenuine;
      var c', ks' := StepStaysHonest(t, s, c, ks, steps[0]);
      var took' := took || (s.sender.phase.Waiting? && steps[0].DeliverAck? && FinalGenuine(t, s, steps[0].a));
      PathTells(d, t, Apply(t, s, steps[0]), c', ks', took', steps[1..], s');
    }
  }

  /** On every run over any network, a sender that has returned reports success exactly if it
      took the receiver's final acknowledgment while it was still waiting. */
  lemma SuccessIffFinalTaken(d: Discipline, t: Transfer, slots: set<nat>, steps: seq<Step>, s: System)
    requires Path(d, t, InitialSystem(t, slots), steps, s) && s.sender.phase.Closed?
    ensures s.sender.phase == Closed(EXIT_SUCCESS) <==> TookFinal(d, t, InitialSystem(t, slots), steps, s)
  {
    InitiallyHonest(t, slots);
    StartsWaiting(t, slots);
    hide InitialSystem, TookFinal;
    PathTells(d, t, InitialSystem(t, slots), SenderWindow(t), [], false, steps, s);
  }

  lemma StartsWaiting(t: Transfer, slots: set<nat>)
    ensures InitialSystem(t, slots).sender.phase.Waiting?
  {
  }

  lemma {:induction false} TimeoutCleared(d: Discipline, t: Transfer, s: System, steps: seq<Step>, s': System)
    requires Path(d, t, s, steps, s') && (s.sender.phase.Closed? ==> s.sender.timeout == 0)
    ensures s'.sender.phase.Closed? ==> s'.sender.timeout == 0
    decreases |steps|
  {
    if steps != [] {
      StepClears(t, s, steps[0]);
      hide Apply, Enabled;
      TimeoutCleared(d, t, Apply(t, s, steps[0]), steps[1..], s');
    }
  }

  /** On every run over any network the timeout of the sender's socket is in range, a whole
      number of units above the minimum, until the sender returns; then it is cleared. */
  lemma TimeoutOnRuns(d: Discipline, t: Transfer, slots: set<nat>, steps: seq<Step>, s: System)
    requires Path(d, t, InitialSystem(t, slots), steps, s)
    ensures if s.sender.phase.Closed? then s.sender.timeout == 0 else GoodTimeout(s.sender.timeout)
  {
    InitiallyHonest(t, slots);
    StartsWaiting(t, slots);
    hide InitialSystem, Path;
    var c, ks := PathStaysHonest(d, t, InitialSystem(t, slots), SenderWindow(t), [], steps, s);
    TimeoutCleared(d, t, InitialSystem(t, slots), steps, s);
  }

  lemma StepClears(t: Transfer, s: System, step: Step)
    requires Enabled(t, s, step) && (s.sender.phase.Closed? ==> s.sender.timeout == 0)
    ensures Apply(t, s, step).sender.phase.Closed? ==> Apply(t, s, step).sender.timeout == 0
  {
    hide Slide, Receive, Transmission, Offered, MarkSent;
    if step.DeliverAck? && s.sender.phase.Waiting? && !EndsTransfer(t, step.a) {
      var st := s.sender;
      if !st.window[step.a.seqNum].ack {
        SlideKeepsPhase(t, st.(maxErrors := 0, timeout := DecreasedTimeout(st.timeout),
                               lastConfirmed := Max(step.a.size, st.lastConfirmed),
                               window := st.window[step.a.seqNum := st.window[step.a.seqNum].(ack := true)]),
                        step.slots);
      }
    }
  }
}
