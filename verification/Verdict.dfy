/** Which transfers can still succeed, and which outcomes the two ends can be left with. */
module Verdict {
  import opened Protocol
  import opened Chunks
  import opened Receiver
  import opened Sender
  import opened Network
  import opened Agreement
  import opened Safety
  import opened Timely
  import opened Termination
  import opened Completion

  // ---------------------------------------------------------------------
  // Losing everything, and giving up

  /** Whatever is in flight may be lost. */
  lemma {:induction false} LoseEverything(t: Transfer, s: System) returns (steps: seq<Step>)
    ensures Path(TimelyTimeouts, t, s, steps, s.(packets := multiset{}, acks := multiset{}))
    decreases |s.packets| + |s.acks|
  {
    if p :| p in s.packets {
      var rest := LoseEverything(t, s.(packets := s.packets - multiset{p}));
      steps := [LosePacket(p)] + rest;
      assert steps[0] == LosePacket(p) && steps[1..] == rest;
    } else if a :| a in s.acks {
      var rest := LoseEverything(t, s.(acks := s.acks - multiset{a}));
      steps := [LoseAck(a)] + rest;
      assert steps[0] == LoseAck(a) && steps[1..] == rest;
    } else {
      steps := [];
      assert s.packets == multiset{} && s.acks == multiset{};
    }
  }

  /** A timeout whose retransmissions are all lost. */
  lemma LostTimeout(t: Transfer, s: System)
    requires s.sender.phase.Waiting? && s.packets == multiset{} && s.acks == multiset{}
    ensures var s' := Apply(t, s, Timeout({}));
      && s'.packets == multiset{} && s'.acks == multiset{} && s'.receiver == s.receiver
      && s'.sender.maxErrors == s.sender.maxErrors + 1
      && s'.sender.phase == (if s.sender.maxErrors + 1 >= t.maxErrors then Draining(0) else Waiting)
  {
    var window := s.sender.window;
    assert Offered(window, s.sender.lastConfirmed) * {} == {};
    NothingSent(window, |window|);
  }

  lemma {:induction false} NothingSent(window: seq<Packet>, n: nat)
    requires n <= |window|
    ensures Transmission(window, {}, n) == []
  {
    if n > 0 {
      NothingSent(window, n - 1);
    }
  }

  /** If nothing arrives any more, the sender gives up. */
  lemma {:induction false} GivesUp(t: Transfer, s: System) returns (steps: seq<Step>, s': System)
    requires s.sender.phase.Waiting? && s.packets == multiset{} && s.acks == multiset{}
    ensures Path(TimelyTimeouts, t, s, steps, s')
    ensures s'.sender.phase == Closed(TRANSFER_ERROR) && s'.receiver == s.receiver
    decreases t.maxErrors - s.sender.maxErrors
  {
    LostTimeout(t, s);
    var s1 := Apply(t, s, Timeout({}));
    var rest;
    if s1.sender.phase.Waiting? {
      hide Apply;
      rest, s' := GivesUp(t, s1);
    } else {
      rest, s' := [FinishSender], Apply(t, s1, FinishSender);
      assert rest[1..] == [];
      hide Apply;
    }
    steps := [Timeout({})] + rest;
    assert steps[0] == Timeout({}) && steps[1..] == rest;
  }

  /** Some timely continuation from here ends in success. */
  ghost predicate CanFinish(t: Transfer, s: System) {
    exists steps, s' :: Path(TimelyTimeouts, t, s, steps, s') && Succeeded(t, s')
  }

  /** So does one that loses nothing and times out at most `timeouts` times. */
  ghost predicate CanFinishWithoutLoss(t: Transfer, s: System, timeouts: nat) {
    exists steps, s' :: Path(TimelyTimeouts, t, s, steps, s') && Succeeded(t, s')
      && Timeouts(steps) <= timeouts && forall x :: x in steps ==> LossFree(t, x)
  }

  lemma InitiallyCovered(t: Transfer)
    ensures var s := InitialSystem(t, Below(t.windowSize));
      Covered(t, s, SenderWindow(t), 0) && s.sender.phase.Waiting? && s.receiver.phase.Receiving?
  {
    hide Covered;
    var s := InitialSystem(t, Below(t.windowSize));
    FilledLayout(t);
    InitiallyFresh(t, Below(t.windowSize));
    FreshWindow(t, s, SenderWindow(t), 0);
    CoveredWhenSent(t, FilledSender(t).window, Below(t.windowSize), s, SenderWindow(t), 0);
  }

  /** A loss-free transfer of a non-empty file succeeds without a single timeout. */
  lemma LosslessTransferSucceeds(t: Transfer)
    requires 0 < |t.file|
    ensures CanFinishWithoutLoss(t, InitialSystem(t, Below(t.windowSize)), 0)
  {
    hide Path, Succeeded, LossFree, Timeouts, Fresh, Covered, InitialSystem;
    var s := InitialSystem(t, Below(t.windowSize));
    OffsetReachesSize(t, 0);
    InitiallyFresh(t, Below(t.windowSize));
    InitiallyCovered(t);
    var steps, s' := RunToEnd(t, s, SenderWindow(t), 0);
  }

  /** An empty file can never be transferred: there is no packet to send, so no
      acknowledgment ever comes and the sender can only give up. */
  lemma EmptyFileNeverSucceeds(d: Discipline, t: Transfer, slots: set<nat>, steps: seq<Step>, s: System)
    requires |t.file| == 0 && Path(d, t, InitialSystem(t, slots), steps, s)
    ensures s.sender.phase != Closed(EXIT_SUCCESS) && !s.receiver.phase.Finished? && !s.receiver.phase.Completed?
  {
    InitiallyCoherent(t, slots, SenderWindow(t));
    var c, r := PathKeeps(d, t, InitialSystem(t, slots), SenderWindow(t), 0, SenderWindow(t), steps, s);
  }

  /** Exactly the non-empty files can be transferred. */
  lemma SucceedsIffNonEmpty(t: Transfer)
    ensures (exists slots :: CanFinish(t, InitialSystem(t, slots))) <==> 0 < |t.file|
  {
    if 0 < |t.file| {
      LosslessTransferSucceeds(t);
      assert CanFinish(t, InitialSystem(t, Below(t.windowSize)));
    } else if slots :| CanFinish(t, InitialSystem(t, slots)) {
      var steps, s :| Path(TimelyTimeouts, t, InitialSystem(t, slots), steps, s) && Succeeded(t, s);
      EmptyFileNeverSucceeds(TimelyTimeouts, t, slots, steps, s);
    }
  }

  // ---------------------------------------------------------------------
  // Transfers that are lost

  /** The sender will report failure: it has given up; or it waits for an acknowledgment that
      will not come, since the receiver has left or the next timeout is the last. */
  ghost predicate Doomed(t: Transfer, s: System) {
    || s.sender.phase == Closed(TRANSFER_ERROR)
    || (s.sender.phase.Draining? && s.sender.maxErrors >= t.maxErrors)
    || (s.sender.phase.Waiting? && s.receiver.phase.Completed? && forall a :: a in s.acks ==> !EndsTransfer(t, a))
    || (s.sender.phase.Waiting? && s.acks == multiset{} && s.packets == multiset{}
        && s.receiver.phase.Receiving? && s.sender.maxErrors + 1 >= t.maxErrors)
  }

  lemma DoomedStays(t: Transfer, s: System, step: Step)
    requires Doomed(t, s) && Enabled(t, s, step)
    ensures Doomed(t, Apply(t, s, step))
  {
    hide Receive, OnAck, Slide;
    if step.DeliverAck? && s.sender.phase.Waiting? {
      PlainAckKeepsWaiting(t, s.sender, step.a, step.slots);
      AckTurnsIntoPackets(t, s, step.a, step.slots);
    }
  }

  lemma PlainAckKeepsWaiting(t: Transfer, st: SenderState, a: AckPacket, slots: set<nat>)
    requires CanHandleAck(t, st, a) && !EndsTransfer(t, a)
    ensures OnAck(t, st, a, slots).0.phase.Waiting?
  {
    if !st.window[a.seqNum].ack {
      SlideKeepsPhase(t, st.(maxErrors := 0, timeout := DecreasedTimeout(st.timeout),
                             lastConfirmed := Max(a.size, st.lastConfirmed),
                             window := st.window[a.seqNum := st.window[a.seqNum].(ack := true)]), slots);
    }
  }

  lemma {:induction false} DoomedNeverSucceeds(d: Discipline, t: Transfer, s: System, steps: seq<Step>, s': System)
    requires Doomed(t, s) && Path(d, t, s, steps, s')
    ensures Doomed(t, s') && !Succeeded(t, s')
    decreases |steps|
  {
    if steps != [] {
      DoomedStays(t, s, steps[0]);
      hide Doomed, Apply, Enabled;
      DoomedNeverSucceeds(d, t, Apply(t, s, steps[0]), steps[1..], s');
    }
  }

  /** With an error limit of one nothing is ever sent twice, so a packet is stranded once
      neither it nor its acknowledgment is in flight, if anything has to wait for it. */
  ghost predicate Stranded(t: Transfer, s: System, c: nat, r: nat, k: nat) {
    && t.maxErrors == 1 && s.sender.phase.Waiting? && s.receiver.phase.Receiving?
    && k < c && !Acked(t, s.sender, c, k) && !InFlight(t, s, k) && !Dispensable(t, s, r, k)
  }

  lemma StrandedAfterPacket(t: Transfer, s: System, c: nat, r: nat, k: nat, p: Packet, pass: bool) returns (r': nat)
    requires Fresh(t, s, c, r) && Stranded(t, s, c, r, k) && Enabled(t, s, DeliverPacket(p, pass))
    ensures Fresh(t, Apply(t, s, DeliverPacket(p, pass)), c, r')
    ensures Stranded(t, Apply(t, s, DeliverPacket(p, pass)), c, r', k)
  {
    hide Fresh, Apply, Has, Acked, IsChunk, IsAckOf, InFlight, Enabled;
    var j, out;
    r', j, out := PacketShape(t, s, c, r, p, pass);
    var s' := Apply(t, s, DeliverPacket(p, pass));
    InFlightItself(t, s, p, j);
    StillNotInFlight(t, s, s', p, j, k, out);
    NotYetFinished(t, s', c, r', k);
  }

  /** A packet that the file still has to wait for keeps the receiver from finishing. */
  lemma NotYetFinished(t: Transfer, s: System, c: nat, r: nat, k: nat)
    requires Fresh(t, s, c, r) && k < c && !Acked(t, s.sender, c, k) && !Dispensable(t, s, r, k)
    ensures r < PacketCount(t)
  {
    UnackedInWindow(t, s.sender, c, k);
    if Has(t, s.receiver, r, k) {
      assert !Has(t, s.receiver, r, k + SenderWindow(t));
    }
  }

  lemma InFlightItself(t: Transfer, s: System, p: Packet, j: nat)
    requires p in s.packets && IsChunk(t, p, j)
    ensures InFlight(t, s, j)
  {
  }

  lemma StillNotInFlight(t: Transfer, s: System, s': System, p: Packet, j: nat, k: nat, out: seq<AckPacket>)
    requires !InFlight(t, s, k) && p in s.packets && IsChunk(t, p, j)
    requires out == [] || (|out| == 1 && IsAckOf(t, out[0], j))
    requires s'.packets == s.packets - multiset{p} && s'.acks == s.acks + multiset(out)
    ensures !InFlight(t, s', k)
  {
    forall a | a in s'.acks
      ensures !IsAckOf(t, a, k)
    {
      if a !in s.acks {
        assert a in out;
        OneOwner(t, p, a, j, k);
      }
    }
  }

  lemma StrandedAfterAck(t: Transfer, s: System, c: nat, r: nat, k: nat, a: AckPacket, slots: set<nat>)
      returns (c': nat)
    requires Fresh(t, s, c, r) && Stranded(t, s, c, r, k) && Enabled(t, s, DeliverAck(a, slots))
    ensures Fresh(t, Apply(t, s, DeliverAck(a, slots)), c', r)
    ensures Stranded(t, Apply(t, s, DeliverAck(a, slots)), c', r, k)
  {
    hide Fresh, Apply, Has, Acked, IsChunk, IsAckOf, InFlight, AckedAs;
    var j := AcksAreAccurate(t, s, c, r, a);
    c' := FreshAfterDataAck(t, s, c, r, a, slots);
    AckArrives(t, s, c, r, c', a, j, slots);
    AckInFlightItself(t, s, a, j);
    NoNewFlight(t, s, Apply(t, s, DeliverAck(a, slots)), c, c', a, k, slots);
  }

  lemma AckInFlightItself(t: Transfer, s: System, a: AckPacket, j: nat)
    requires a in s.acks && IsAckOf(t, a, j)
    ensures InFlight(t, s, j)
  {
  }

  lemma NoNewFlight(t: Transfer, s: System, s': System, c: nat, c': nat, a: AckPacket, k: nat, slots: set<nat>)
    requires !InFlight(t, s, k) && k < c <= c' <= PacketCount(t)
    requires s'.packets == s.packets + multiset(NewPackets(t, c, c', slots)) && s'.acks == s.acks - multiset{a}
    ensures !InFlight(t, s', k)
  {
    NewPacketsAbove(t, c, c', slots);
    forall p | p in s'.packets
      ensures !IsChunk(t, p, k)
    {
      assert p in s.packets || p in NewPackets(t, c, c', slots);
    }
  }

  lemma StrandedAfterLoss(t: Transfer, s: System, c: nat, r: nat, k: nat, step: Step)
    requires Fresh(t, s, c, r) && Stranded(t, s, c, r, k) && Enabled(t, s, step)
    requires step.LosePacket? || step.LoseAck?
    ensures Fresh(t, Apply(t, s, step), c, r) && Stranded(t, Apply(t, s, step), c, r, k)
  {
    hide Fresh, Apply, Enabled, Acked, Has, IsChunk, IsAckOf;
    FreshAfterLoss(t, s, c, r, step);
    ChannelOnlyCopies(t, s, step);
  }

  /** Every timely run from a stranded packet leaves it stranded, or the sender gives up. */
  lemma {:induction false} StrandedNeverSucceeds(t: Transfer, s: System, c: nat, r: nat, k: nat,
                                                 steps: seq<Step>, s': System)
    requires Fresh(t, s, c, r) && Stranded(t, s, c, r, k) && Path(TimelyTimeouts, t, s, steps, s')
    ensures !Succeeded(t, s')
    decreases |steps|
  {
    if steps != [] {
      var rest := Apply(t, s, steps[0]);
      match steps[0] {
        case DeliverPacket(p, pass) =>
          var r' := StrandedAfterPacket(t, s, c, r, k, p, pass);
          StrandedNeverSucceeds(t, rest, c, r', k, steps[1..], s');
        case DeliverAck(a, slots) =>
          var c' := StrandedAfterAck(t, s, c, r, k, a, slots);
          StrandedNeverSucceeds(t, rest, c', r, k, steps[1..], s');
        case Timeout(slots) =>
          LastTimeout(t, s, slots);
          DoomedNeverSucceeds(TimelyTimeouts, t, rest, steps[1..], s');
        case LosePacket(_) =>
          StrandedAfterLoss(t, s, c, r, k, steps[0]);
          StrandedNeverSucceeds(t, rest, c, r, k, steps[1..], s');
        case LoseAck(_) =>
          StrandedAfterLoss(t, s, c, r, k, steps[0]);
          StrandedNeverSucceeds(t, rest, c, r, k, steps[1..], s');
        case _ =>
          assert false;
      }
    }
  }

  lemma LastTimeout(t: Transfer, s: System, slots: set<nat>)
    requires s.sender.phase.Waiting? && s.sender.maxErrors + 1 >= t.maxErrors
    ensures Doomed(t, Apply(t, s, Timeout(slots)))
  {
  }

  // ---------------------------------------------------------------------
  // Agreement is one-way

  /** The receiver finishes with the whole file, all its final acknowledgments are lost, and
      the sender reports failure. */
  lemma SenderFailsAlone(t: Transfer) returns (steps: seq<Step>, s: System)
    requires 0 < |t.file|
    ensures Path(TimelyTimeouts, t, InitialSystem(t, Below(t.windowSize)), steps, s)
    ensures s.receiver.phase.Completed? && s.receiver.output == t.file && s.sender.phase == Closed(TRANSFER_ERROR)
  {
    hide Path, Fresh, Covered, InitialSystem, Apply;
    var s0 := InitialSystem(t, Below(t.windowSize));
    OffsetReachesSize(t, 0);
    InitiallyFresh(t, Below(t.windowSize));
    InitiallyCovered(t);
    var first, m, c, r := RunToFinished(t, s0, SenderWindow(t), 0);
    var a := FinalAckArrives(t, m, c, r);
    var m1 := Apply(t, m, SendFinalAcks);
    PathSnoc(TimelyTimeouts, t, s0, first, m, SendFinalAcks);
    var lost := LoseEverything(t, m1);
    var m2 := m1.(packets := multiset{}, acks := multiset{});
    var last;
    last, s := GivesUp(t, m2);
    PathConcat(TimelyTimeouts, t, s0, first + [SendFinalAcks], m1, lost, m2);
    steps := first + [SendFinalAcks] + lost + last;
    PathConcat(TimelyTimeouts, t, s0, first + [SendFinalAcks] + lost, m2, last, s);
  }

  /** Whenever the receiver has completed and the sender has closed, the sender reports success. */
  ghost predicate CompletionIsReported(t: Transfer) {
    forall slots, steps, s :: Path(TimelyTimeouts, t, InitialSystem(t, slots), steps, s) ==>
      s.receiver.phase.Completed? && s.sender.phase.Closed? ==> s.sender.phase == Closed(EXIT_SUCCESS)
  }

  /** That holds of no file but the empty one, which is never completed. */
  lemma CompletionIsReportedIffEmpty(t: Transfer)
    ensures CompletionIsReported(t) <==> |t.file| == 0
  {
    hide InitialSystem;
    if 0 < |t.file| {
      var steps, s := SenderFailsAlone(t);
    } else {
      forall slots, steps, s | Path(TimelyTimeouts, t, InitialSystem(t, slots), steps, s)
        ensures !s.receiver.phase.Completed?
      {
        EmptyFileNeverSucceeds(TimelyTimeouts, t, slots, steps, s);
      }
    }
  }

  // ---------------------------------------------------------------------
  // The verdict

  /** Whether the transfer can still succeed, read off a state in which the sender has read
      `c` packets and the receiver has written `r`. */
  ghost predicate Salvageable(t: Transfer, s: System, c: nat, r: nat) {
    0 < |t.file| &&
    match s.sender.phase
    case Closed(result) => result == EXIT_SUCCESS
    case Draining(_) => s.sender.maxErrors < t.maxErrors
    case Waiting =>
      match s.receiver.phase
      case Aborted => false
      case Completed => exists a :: a in s.acks && EndsTransfer(t, a)
      case Finished => true
      case Receiving =>
        || s.sender.maxErrors + 1 < t.maxErrors
        || (if t.maxErrors == 1 then Covered(t, s, c, r) else s.packets != multiset{} || s.acks != multiset{})
  }

  lemma FinishNow(t: Transfer, s: System, c: nat, r: nat)
    requires Fresh(t, s, c, r) && s.sender.phase.Draining? && s.sender.maxErrors < t.maxErrors
    ensures CanFinish(t, s)
  {
    OffsetReachesSize(t, r);
    var s' := Apply(t, s, FinishSender);
    assert Succeeded(t, s');
    assert [FinishSender][1..] == [] && Path(TimelyTimeouts, t, s', [], s');
    assert Path(TimelyTimeouts, t, s, [FinishSender], s');
  }

  /** One step ahead of a state that can finish. */
  lemma CanFinishBefore(t: Transfer, s: System, step: Step)
    requires Enabled(t, s, step) && Allowed(TimelyTimeouts, t, s, step) && CanFinish(t, Apply(t, s, step))
    ensures CanFinish(t, s)
  {
    hide Apply, Enabled, Allowed, Succeeded;
    var steps, s' :| Path(TimelyTimeouts, t, Apply(t, s, step), steps, s') && Succeeded(t, s');
    assert ([step] + steps)[0] == step && ([step] + steps)[1..] == steps;
    assert Path(TimelyTimeouts, t, s, [step] + steps, s');
  }

  lemma FinalAckInFlight(t: Transfer, s: System, c: nat, r: nat, a: AckPacket)
    requires Fresh(t, s, c, r) && s.sender.phase.Waiting? && a in s.acks && EndsTransfer(t, a)
    ensures CanFinish(t, s)
  {
    hide Fresh, Apply, CanFinish, FinalGenuine;
    FinalAckEnds(t, s, c, r, a);
    FreshAfterIdleAck(t, s, c, r, a, {});
    FinishNow(t, Apply(t, s, DeliverAck(a, {})), c, r);
    CanFinishBefore(t, s, DeliverAck(a, {}));
  }

  lemma FinalAckEnds(t: Transfer, s: System, c: nat, r: nat, a: AckPacket)
    requires Fresh(t, s, c, r) && s.sender.phase.Waiting? && a in s.acks && EndsTransfer(t, a)
    ensures Enabled(t, s, DeliverAck(a, {})) && FinalGenuine(t, s, a)
    ensures var s' := Apply(t, s, DeliverAck(a, {}));
      s'.sender.phase.Draining? && s'.sender.maxErrors == 0
  {
    InFlightIsHandled(t, s, c, r, PacketCount(t));
  }

  /** With another timeout to spare, everything in flight may as well be lost. */
  lemma TimeoutToSpare(t: Transfer, s: System, c: nat, r: nat)
    requires Fresh(t, s, c, r) && s.sender.phase.Waiting? && s.receiver.phase.Receiving? && 0 < PacketCount(t)
    requires s.sender.maxErrors + 1 < t.maxErrors
    ensures CanFinish(t, s)
  {
    hide Fresh, Path, Succeeded, LossFree;
    var lost := LoseEverything(t, s);
    var s1 := s.(packets := multiset{}, acks := multiset{});
    var c1, r1 := FreshPath(t, s, c, r, lost, s1);
    var rest, s' := QuietPointRecovers(t, s1, c1, r1);
    PathConcat(TimelyTimeouts, t, s, lost, s1, rest, s');
  }

  /** An acknowledgment that arrives resets the errors. */
  lemma AckResets(t: Transfer, s: System, c: nat, r: nat, a: AckPacket)
    requires Fresh(t, s, c, r) && s.sender.phase.Waiting? && s.receiver.phase.Receiving? && 0 < PacketCount(t)
    requires a in s.acks && 2 <= t.maxErrors
    ensures CanFinish(t, s)
  {
    hide Fresh, Apply, CanFinish, AckedAs;
    var step := DeliverAck(a, {});
    AckIsPlain(t, s, c, r, a);
    var c' := FreshAfterDataAck(t, s, c, r, a, {});
    var k := AcksAreAccurate(t, s, c, r, a);
    AckedShape(t, s, a, {}, c, c', k);
    TimeoutToSpare(t, Apply(t, s, step), c', r);
    CanFinishBefore(t, s, step);
  }

  lemma AckIsPlain(t: Transfer, s: System, c: nat, r: nat, a: AckPacket)
    requires Fresh(t, s, c, r) && s.sender.phase.Waiting? && s.receiver.phase.Receiving? && a in s.acks
    ensures Enabled(t, s, DeliverAck(a, {})) && !FinalGenuine(t, s, a)
  {
    InFlightIsHandled(t, s, c, r, PacketCount(t));
  }

  /** A packet that arrives finishes the file, or is acknowledged. */
  lemma PacketResets(t: Transfer, s: System, c: nat, r: nat, p: Packet)
    requires Fresh(t, s, c, r) && s.sender.phase.Waiting? && s.receiver.phase.Receiving? && 0 < PacketCount(t)
    requires p in s.packets && 2 <= t.maxErrors
    ensures CanFinish(t, s)
  {
    hide Fresh, Apply, CanFinish, Has, Path, Succeeded;
    var step := DeliverPacket(p, true);
    PacketIsEnabled(t, s, c, r, p);
    var r', j, out := PacketShape(t, s, c, r, p, true);
    var s1 := Apply(t, s, step);
    assert out[0] in s1.acks;
    if s1.receiver.phase.Finished? {
      ClosesNow(t, s1, c, r');
    } else {
      AckResets(t, s1, c, r', out[0]);
    }
    CanFinishBefore(t, s, step);
  }

  lemma ClosesNow(t: Transfer, s: System, c: nat, r: nat)
    requires Fresh(t, s, c, r) && s.sender.phase.Waiting? && s.receiver.phase.Finished?
    ensures CanFinish(t, s)
  {
    hide Fresh, Path, Succeeded, LossFree;
    var steps, s' := CloseTransfer(t, s, c, r);
  }

  /** A transfer that has not lost anything it needs can run to its end. */
  lemma CoveredCanFinish(t: Transfer, s: System, c: nat, r: nat)
    requires Fresh(t, s, c, r) && Covered(t, s, c, r) && 0 < PacketCount(t)
    requires s.sender.phase.Waiting? && s.receiver.phase.Receiving?
    ensures CanFinish(t, s)
  {
    hide Fresh, Path, Succeeded, LossFree, Covered;
    var steps, s' := RunToEnd(t, s, c, r);
  }

  lemma ReceivingVerdict(t: Transfer, s: System, c: nat, r: nat)
    requires Fresh(t, s, c, r) && 0 < |t.file| && s.sender.phase.Waiting? && s.receiver.phase.Receiving?
    ensures CanFinish(t, s) <==> Salvageable(t, s, c, r)
  {
    hide Fresh, Path, Succeeded, Acked, InFlight, Dispensable;
    OffsetReachesSize(t, 0);
    if s.sender.maxErrors + 1 < t.maxErrors {
      TimeoutToSpare(t, s, c, r);
    } else if t.maxErrors == 1 {
      if Covered(t, s, c, r) {
        CoveredCanFinish(t, s, c, r);
      } else {
        var k: nat :| k < c && !Acked(t, s.sender, c, k) && !InFlight(t, s, k) && !Dispensable(t, s, r, k);
        if steps, s' :| Path(TimelyTimeouts, t, s, steps, s') && Succeeded(t, s') {
          StrandedNeverSucceeds(t, s, c, r, k, steps, s');
        }
      }
    } else if a :| a in s.acks {
      AckResets(t, s, c, r, a);
    } else if p :| p in s.packets {
      PacketResets(t, s, c, r, p);
    } else if steps, s' :| Path(TimelyTimeouts, t, s, steps, s') && Succeeded(t, s') {
      assert s.packets == multiset{} && s.acks == multiset{};
      DoomedNeverSucceeds(TimelyTimeouts, t, s, steps, s');
    }
  }

  /** A state from which every continuation is doomed, or success is immediate. */
  lemma OtherVerdict(t: Transfer, s: System, c: nat, r: nat)
    requires Fresh(t, s, c, r) && 0 < |t.file| && !(s.sender.phase.Waiting? && s.receiver.phase.Receiving?)
    ensures CanFinish(t, s) <==> Salvageable(t, s, c, r)
  {
    NotAborted(t, s, c, r);
    ClosedMeans(t, s, c, r);
    hide Fresh, Path;
    if Salvageable(t, s, c, r) {
      match s.sender.phase {
        case Closed(_) => AlreadyFinished(t, s);
        case Draining(_) => FinishNow(t, s, c, r);
        case Waiting =>
          if s.receiver.phase.Finished? {
            ClosesNow(t, s, c, r);
          } else {
            var a :| a in s.acks && EndsTransfer(t, a);
            FinalAckInFlight(t, s, c, r, a);
          }
      }
    } else if steps, s' :| Path(TimelyTimeouts, t, s, steps, s') && Succeeded(t, s') {
      DoomedNeverSucceeds(TimelyTimeouts, t, s, steps, s');
    }
  }

  lemma AlreadyFinished(t: Transfer, s: System)
    requires Succeeded(t, s)
    ensures CanFinish(t, s)
  {
    assert Path(TimelyTimeouts, t, s, [], s);
  }

  lemma ClosedMeans(t: Transfer, s: System, c: nat, r: nat)
    requires Fresh(t, s, c, r)
    ensures s.sender.phase.Closed? ==> s.sender.phase == Closed(TRANSFER_ERROR) || Succeeded(t, s)
  {
    OffsetReachesSize(t, r);
  }

  /** The verdict on every state a timely run can reach: whether some continuation still
      succeeds is decided by the phases, the errors, and what is in flight. */
  lemma EveryStateVerdict(t: Transfer, slots: set<nat>, before: seq<Step>, s: System) returns (c: nat, r: nat)
    requires Path(TimelyTimeouts, t, InitialSystem(t, slots), before, s)
    ensures c <= PacketCount(t) && s.sender.counter == Offset(t, c)
    ensures r <= PacketCount(t) && s.receiver.sizeReceived == Offset(t, r)
    ensures CanFinish(t, s) <==> Salvageable(t, s, c, r)
  {
    c, r := TimelyRun(t, slots, before, s);
    hide Fresh, InitialSystem, Path;
    if 0 == |t.file| {
      if steps, s' :| Path(TimelyTimeouts, t, s, steps, s') && Succeeded(t, s') {
        PathConcat(TimelyTimeouts, t, InitialSystem(t, slots), before, s, steps, s');
        EmptyFileNeverSucceeds(TimelyTimeouts, t, slots, before + steps, s');
      }
    } else if s.sender.phase.Waiting? && s.receiver.phase.Receiving? {
      ReceivingVerdict(t, s, c, r);
    } else {
      OtherVerdict(t, s, c, r);
    }
  }

  lemma NotAborted(t: Transfer, s: System, c: nat, r: nat)
    requires Fresh(t, s, c, r)
    ensures s.sender.phase.Waiting? ==> !s.receiver.phase.Aborted?
  {
  }

  /** At a point where nothing is in flight, one round of retransmission without losses is
      enough whenever success is possible at all. */
  lemma QuietPointVerdict(t: Transfer, slots: set<nat>, before: seq<Step>, s: System)
    requires Path(TimelyTimeouts, t, InitialSystem(t, slots), before, s) && 0 < |t.file|
    requires s.sender.phase.Waiting? && s.packets == multiset{} && s.acks == multiset{}
    ensures CanFinish(t, s) <==>
              s.receiver.phase.Finished? || (s.receiver.phase.Receiving? && s.sender.maxErrors + 1 < t.maxErrors)
    ensures CanFinishWithoutLoss(t, s, 1) <==> CanFinish(t, s)
  {
    hide Path, Succeeded, LossFree;
    OffsetReachesSize(t, 0);
    var c, r := TimelyRun(t, slots, before, s);
    NotAborted(t, s, c, r);
    if s.receiver.phase.Finished? {
      var steps, s' := CloseTransfer(t, s, c, r);
    } else if s.receiver.phase.Receiving? && s.sender.maxErrors + 1 < t.maxErrors {
      var steps, s' := QuietPointRecovers(t, s, c, r);
    } else if steps, s' :| Path(TimelyTimeouts, t, s, steps, s') && Succeeded(t, s') {
      DoomedNeverSucceeds(TimelyTimeouts, t, s, steps, s');
      assert false;
    }
  }
}
