/** Timely runs end: a bound on timeouts and on steps. */
module Termination {
  import opened Protocol
  import opened Chunks
  import opened Receiver
  import opened Sender
  import opened Network
  import opened Agreement
  import opened Safety
  import opened Timely

  /** The numbers below `n`. */
  function Below(n: nat): (s: set<nat>)
    ensures |s| == n && forall k: nat :: k in s <==> k < n
  {
    if n == 0 then {} else Below(n - 1) + {n - 1}
  }

  /** The packets the sender does not yet regard as delivered. */
  ghost function Outstanding(t: Transfer, st: SenderState, c: nat): set<nat> {
    set k: nat | k in Below(PacketCount(t)) && !Acked(t, st, c, k)
  }

  /** Multiplication as repeated addition, which keeps the proofs below linear. */
  function Times(n: nat, m: nat): nat {
    if n == 0 then 0 else m + Times(n - 1, m)
  }

  lemma {:induction false} TimesIsProduct(n: nat, m: nat)
    ensures Times(n, m) == n * m
  {
    if n > 0 {
      TimesIsProduct(n - 1, m);
      assert n * m == (n - 1) * m + m;
    }
  }

  /** How many more timeouts the waiting loop can possibly see. */
  ghost function TimeoutBudget(t: Transfer, st: SenderState, c: nat): nat {
    if st.phase.Waiting? && st.maxErrors <= t.maxErrors
    then Times(|Outstanding(t, st, c)|, t.maxErrors) + (t.maxErrors - st.maxErrors)
    else 0
  }

  /** What is left to do besides acknowledging packets: closing either end. */
  function ClosingWork(s: System): nat {
    (match s.sender.phase
     case Waiting => 4
     case Draining(_) => 3
     case Closed(_) => 0)
    + if s.receiver.phase.Receiving? || s.receiver.phase.Finished? then MAX_RETRIES + 1 else 0
  }

  /** The bill of one timeout or acknowledgment: a window of packets, and their acknowledgments. */
  function Burst(t: Transfer): nat {
    2 * SenderWindow(t) + 1
  }

  /** A bound on the number of steps still possible. */
  ghost function Potential(t: Transfer, s: System, c: nat): nat {
    Times(TimeoutBudget(t, s.sender, c), Burst(t)) + 2 * |s.packets| + |s.acks| + ClosingWork(s)
  }

  function Timeouts(steps: seq<Step>): nat {
    if steps == [] then 0 else (if steps[0].Timeout? then 1 else 0) + Timeouts(steps[1..])
  }

  lemma {:induction false} TimeoutsAdd(p: seq<Step>, q: seq<Step>)
    ensures Timeouts(p + q) == Timeouts(p) + Timeouts(q)
  {
    if p == [] {
      assert p + q == q;
    } else {
      TimeoutsAdd(p[1..], q);
      assert (p + q)[0] == p[0] && (p + q)[1..] == p[1..] + q;
    }
  }

  lemma {:induction false} TransmissionLength(window: seq<Packet>, chosen: set<nat>, n: nat)
    requires n <= |window|
    ensures |Transmission(window, chosen, n)| <= n
  {
    if n > 0 {
      TransmissionLength(window, chosen, n - 1);
    }
  }

  lemma {:induction false} NewPacketsLength(t: Transfer, lo: nat, hi: nat, slots: set<nat>)
    requires lo <= hi
    ensures |NewPackets(t, lo, hi, slots)| <= hi - lo
    decreases hi - lo
  {
    if lo < hi {
      NewPacketsLength(t, lo + 1, hi, slots);
    }
  }

  /** Spending part of the budget pays for one burst. */
  lemma {:induction false} BudgetPays(b: nat, b': nat, burst: nat)
    requires b' < b
    ensures Times(b', burst) + burst <= Times(b, burst)
  {
    if b' + 1 < b {
      BudgetPays(b - 1, b', burst);
    }
  }

  /** A step that spends budget may put up to a window of packets in flight. */
  lemma SpendingPays(t: Transfer, s: System, s': System, c: nat, c': nat)
    requires TimeoutBudget(t, s'.sender, c') < TimeoutBudget(t, s.sender, c)
    requires |s'.packets| <= |s.packets| + SenderWindow(t) && |s'.acks| <= |s.acks|
    requires ClosingWork(s') <= ClosingWork(s)
    ensures Potential(t, s', c') < Potential(t, s, c)
  {
    hide TimeoutBudget, ClosingWork;
    BudgetPays(TimeoutBudget(t, s.sender, c), TimeoutBudget(t, s'.sender, c'), Burst(t));
  }

  /** The list depends on the sender's verdicts only. */
  lemma SameOutstanding(t: Transfer, st: SenderState, st': SenderState, c: nat)
    requires forall k :: Acked(t, st', c, k) <==> Acked(t, st, c, k)
    ensures Outstanding(t, st', c) == Outstanding(t, st, c)
  {
    hide Acked;
  }

  /** A timeout either gives up or uses one of the errors left. */
  lemma TimeoutSpends(t: Transfer, st: SenderState, st': SenderState, c: nat)
    requires st.phase.Waiting? && st.maxErrors < t.maxErrors && st'.maxErrors == st.maxErrors + 1
    requires st'.phase.Waiting? || st'.phase.Draining?
    requires Outstanding(t, st', c) == Outstanding(t, st, c)
    ensures TimeoutBudget(t, st', c) + 1 <= TimeoutBudget(t, st, c)
  {
  }

  lemma TimeoutPays(t: Transfer, s: System, c: nat, r: nat, slots: set<nat>)
    requires Fresh(t, s, c, r) && s.sender.phase.Waiting? && Network.Timely(t, s)
    ensures var s' := Apply(t, s, Timeout(slots));
      && TimeoutBudget(t, s'.sender, c) + 1 <= TimeoutBudget(t, s.sender, c)
      && Potential(t, s', c) < Potential(t, s, c)
  {
    var s' := Apply(t, s, Timeout(slots));
    AfterTimeout(t, s, c, r, PacketCount(t), slots);
    TimeoutShape(t, s, slots);
    hide Fresh, Apply, OnTimeout, Acked, TimeoutBudget, Outstanding, ClosingWork, Potential, Coherent;
    SameOutstanding(t, s.sender, s'.sender, c);
    TimeoutSpends(t, s.sender, s'.sender, c);
    SpendingPays(t, s, s', c, c);
  }

  lemma TimeoutShape(t: Transfer, s: System, slots: set<nat>)
    requires s.sender.phase.Waiting? && s.sender.maxErrors < t.maxErrors && |s.sender.window| == SenderWindow(t)
    ensures var s' := Apply(t, s, Timeout(slots));
      && s'.sender.maxErrors == s.sender.maxErrors + 1 && (s'.sender.phase.Waiting? || s'.sender.phase.Draining?)
      && |s'.packets| <= |s.packets| + SenderWindow(t) && |s'.acks| <= |s.acks| && ClosingWork(s') <= ClosingWork(s)
  {
    hide Transmission, Offered, MarkSent;
    var out := OnTimeout(t, s.sender, slots).1;
    TransmissionLength(s.sender.window, Offered(s.sender.window, s.sender.lastConfirmed) * slots, |s.sender.window|);
    assert |multiset(out)| == |out| <= SenderWindow(t);
  }

  /** Acknowledging packet `k` takes exactly that packet off the list. */
  lemma OneLessOutstanding(t: Transfer, st: SenderState, st': SenderState, c: nat, c': nat, k: nat)
    requires k < PacketCount(t) && !Acked(t, st, c, k)
    requires forall j: nat :: Acked(t, st', c', j) <==> Acked(t, st, c, j) || j == k
    ensures |Outstanding(t, st, c)| == |Outstanding(t, st', c')| + 1
    ensures st.phase.Waiting? && st'.phase.Waiting? && st.maxErrors < t.maxErrors && st'.maxErrors == 0 ==>
              TimeoutBudget(t, st', c') + 1 <= TimeoutBudget(t, st, c)
  {
    var before, after := Outstanding(t, st, c), Outstanding(t, st', c');
    hide Acked;
    assert after == before - {k};
    assert |before| == |after| + 1;
  }

  /** One acknowledgment never slides the window by more than its own width. */
  lemma SlideIsShort(t: Transfer, st: SenderState, st': SenderState, c: nat, c': nat, k: nat)
    requires Acked(t, st', c', c) ==> Acked(t, st, c, c) || c == k
    requires k < c
    ensures c' - c <= SenderWindow(t)
  {
  }

  lemma DataAckPays(t: Transfer, s: System, c: nat, r: nat, a: AckPacket, slots: set<nat>) returns (c': nat)
    requires Fresh(t, s, c, r) && Enabled(t, s, DeliverAck(a, slots))
    requires s.sender.phase.Waiting? && !FinalGenuine(t, s, a)
    ensures var s' := Apply(t, s, DeliverAck(a, slots));
      && Fresh(t, s', c', r)
      && TimeoutBudget(t, s'.sender, c') + 1 <= TimeoutBudget(t, s.sender, c)
      && Potential(t, s', c') < Potential(t, s, c)
    ensures 0 <= a.seqNum < SenderWindow(t) <= c && AckedAs(t, s, a, slots, c, c')
  {
    var k := AcksAreAccurate(t, s, c, r, a);
    c' := FreshAfterDataAck(t, s, c, r, a, slots);
    DataAckShape(t, s, c, c', a, k, slots);
    hide Fresh, Apply, OnAck, Acked, AckedAs, TimeoutBudget, Outstanding, ClosingWork, Potential;
    var s' := Apply(t, s, DeliverAck(a, slots));
    OneLessOutstanding(t, s.sender, s'.sender, c, c', k);
    SlideIsShort(t, s.sender, s'.sender, c, c', k);
    NewPacketsLength(t, c, c', slots);
    SpendingPays(t, s, s', c, c');
  }

  lemma DataAckShape(t: Transfer, s: System, c: nat, c': nat, a: AckPacket, k: nat, slots: set<nat>)
    requires Enabled(t, s, DeliverAck(a, slots)) && s.sender.phase.Waiting? && PhasesAgree(t, s)
    requires 0 <= a.seqNum < SenderWindow(t) <= c && AckedAs(t, s, a, slots, c, c')
    requires k == Occupant(SenderWindow(t), c - SenderWindow(t), a.seqNum)
    ensures var s' := Apply(t, s, DeliverAck(a, slots));
      && c <= c' && s'.sender.phase.Waiting? && s'.sender.maxErrors == 0 && s.sender.maxErrors < t.maxErrors
      && (forall j: nat :: Acked(t, s'.sender, c', j) <==> Acked(t, s.sender, c, j) || j == k)
      && |s'.packets| == |s.packets| + |NewPackets(t, c, c', slots)|
      && |s'.acks| <= |s.acks| && ClosingWork(s') <= ClosingWork(s)
  {
    hide Apply, Acked, AckedAs;
    AckedShape(t, s, a, slots, c, c', k);
    assert |multiset(NewPackets(t, c, c', slots))| == |NewPackets(t, c, c', slots)|;
  }

  lemma OneAckAtMost(st: ReceiverState, p: Packet, pass: bool)
    requires CanReceive(st, p)
    ensures |Receive(st, p, pass).1| <= 1
    ensures Receive(st, p, pass).0.phase.Receiving? ==> st.phase.Receiving?
  {
  }

  /** Everything else leaves the budget alone and costs at least one unit. */
  lemma PacketPays(t: Transfer, s: System, c: nat, r: nat, p: Packet, pass: bool)
    requires Fresh(t, s, c, r) && Enabled(t, s, DeliverPacket(p, pass))
    ensures var s' := Apply(t, s, DeliverPacket(p, pass));
      && TimeoutBudget(t, s'.sender, c) == TimeoutBudget(t, s.sender, c)
      && Potential(t, s', c) < Potential(t, s, c)
  {
    var s' := Apply(t, s, DeliverPacket(p, pass));
    var out := Receive(s.receiver, p, pass).1;
    OneAckAtMost(s.receiver, p, pass);
    hide Fresh, Receive, TimeoutBudget;
    assert s'.packets == s.packets - multiset{p} && s'.acks == s.acks + multiset(out) && s'.sender == s.sender;
    assert |s'.packets| == |s.packets| - 1 && |s'.acks| == |s.acks| + |out|;
  }

  /** What arrives for nothing, is lost, or closes an end uses up work that is not repeated. */
  lemma OtherShape(t: Transfer, s: System, step: Step)
    requires Enabled(t, s, step) && !step.DeliverPacket? && !step.Timeout? && !Duplicates(step)
    requires step.DeliverAck? && s.sender.phase.Waiting? ==> EndsTransfer(t, step.a)
    ensures var s' := Apply(t, s, step);
      && 2 * |s'.packets| + |s'.acks| + ClosingWork(s') < 2 * |s.packets| + |s.acks| + ClosingWork(s)
      && (s'.sender == s.sender || !s'.sender.phase.Waiting?)
  {
    hide Receive, OnTimeout;
    var s' := Apply(t, s, step);
    match step {
      case DeliverAck(a, slots) =>
        assert s'.packets == s.packets && |s'.acks| == |s.acks| - 1;
      case LosePacket(p) =>
        assert |s'.packets| == |s.packets| - 1;
      case LoseAck(a) =>
        assert |s'.acks| == |s.acks| - 1;
      case SendFinalAcks =>
        assert |s'.acks| == |s.acks| + MAX_RETRIES;
      case FinishSender =>
        var out := Finish(t, s.sender).1;
        assert |s'.packets| == |s.packets| + |out|;
    }
  }

  lemma OtherPays(t: Transfer, s: System, c: nat, step: Step)
    requires Enabled(t, s, step) && !step.DeliverPacket? && !step.Timeout? && !Duplicates(step)
    requires step.DeliverAck? && s.sender.phase.Waiting? ==> EndsTransfer(t, step.a)
    ensures TimeoutBudget(t, Apply(t, s, step).sender, c) <= TimeoutBudget(t, s.sender, c)
    ensures Potential(t, Apply(t, s, step), c) < Potential(t, s, c)
  {
    hide Apply, Enabled, Outstanding, ClosingWork;
    OtherShape(t, s, step);
    var s' := Apply(t, s, step);
    assert Times(TimeoutBudget(t, s'.sender, c), Burst(t)) <= Times(TimeoutBudget(t, s.sender, c), Burst(t));
  }

  lemma StepPays(t: Transfer, s: System, c: nat, r: nat, step: Step) returns (c': nat, r': nat)
    requires Fresh(t, s, c, r) && Enabled(t, s, step) && Allowed(TimelyTimeouts, t, s, step)
    ensures Fresh(t, Apply(t, s, step), c', r')
    ensures TimeoutBudget(t, Apply(t, s, step).sender, c') + (if step.Timeout? then 1 else 0)
            <= TimeoutBudget(t, s.sender, c)
    ensures Potential(t, Apply(t, s, step), c') < Potential(t, s, c)
  {
    hide Fresh, TimeoutBudget, Potential, Apply;
    c', r' := c, r;
    match step {
      case DeliverPacket(p, pass) =>
        r' := FreshAfterPacket(t, s, c, r, p, pass);
        PacketPays(t, s, c, r, p, pass);
      case DeliverAck(a, slots) =>
        if s.sender.phase.Waiting? && !FinalGenuine(t, s, a) {
          c' := DataAckPays(t, s, c, r, a, slots);
        } else {
          FreshAfterIdleAck(t, s, c, r, a, slots);
          OtherPays(t, s, c, step);
        }
      case Timeout(slots) =>
        FreshAfterTimeout(t, s, c, r, slots);
        TimeoutPays(t, s, c, r, slots);
      case SendFinalAcks =>
        FreshAfterFinalAcks(t, s, c, r);
        OtherPays(t, s, c, step);
      case FinishSender =>
        FreshAfterFinish(t, s, c, r);
        OtherPays(t, s, c, step);
      case _ =>
        FreshAfterLoss(t, s, c, r, step);
        OtherPays(t, s, c, step);
    }
  }

  lemma {:induction false} PathPays(t: Transfer, s: System, c: nat, r: nat, steps: seq<Step>, s': System)
      returns (c': nat, r': nat)
    requires Fresh(t, s, c, r) && Path(TimelyTimeouts, t, s, steps, s')
    ensures Fresh(t, s', c', r')
    ensures Timeouts(steps) + TimeoutBudget(t, s'.sender, c') <= TimeoutBudget(t, s.sender, c)
    ensures |steps| + Potential(t, s', c') <= Potential(t, s, c)
    decreases |steps|
  {
    hide Fresh, TimeoutBudget, Potential, Apply, Enabled, Allowed;
    c', r' := c, r;
    if steps != [] {
      c', r' := StepPays(t, s, c, r, steps[0]);
      c', r' := PathPays(t, Apply(t, s, steps[0]), c', r', steps[1..], s');
    }
  }

  lemma BoundedRun(t: Transfer, slots: set<nat>, steps: seq<Step>, s: System)
    requires Path(TimelyTimeouts, t, InitialSystem(t, slots), steps, s)
    ensures Timeouts(steps) <= Times(PacketCount(t) + 1, t.maxErrors)
    ensures |steps| <= Times(Times(PacketCount(t) + 1, t.maxErrors), Burst(t)) + Burst(t) + MAX_RETRIES + 4
  {
    InitiallyFresh(t, slots);
    var c, r := PathPays(t, InitialSystem(t, slots), SenderWindow(t), 0, steps, s);
    InitialBudget(t, slots);
  }

  /** A timely run can go on from here. */
  ghost predicate CanGoOn(t: Transfer, s: System) {
    exists step :: Enabled(t, s, step) && Allowed(TimelyTimeouts, t, s, step)
  }

  /** The sender has returned and nothing is in flight. The receiver has returned as well, or
      waits for packets that will not come. */
  predicate AtEnd(s: System) {
    && s.sender.phase.Closed? && s.packets == multiset{} && s.acks == multiset{}
    && !s.receiver.phase.Finished?
  }

  /** A timely run can go on exactly until it is at its end; in particular a sender that waits
      for acknowledgments always has a next step. */
  lemma GoesOnUntilEnd(t: Transfer, s: System)
    ensures CanGoOn(t, s) <==> !AtEnd(s)
  {
    if s.packets != multiset{} {
      var p :| p in s.packets;
      assert Enabled(t, s, LosePacket(p));
    } else if s.acks != multiset{} {
      var a :| a in s.acks;
      assert Enabled(t, s, LoseAck(a));
    } else if s.sender.phase.Waiting? {
      assert Enabled(t, s, Timeout({}));
    } else if s.sender.phase.Draining? {
      assert Enabled(t, s, FinishSender);
    } else if s.receiver.phase.Finished? {
      assert Enabled(t, s, SendFinalAcks);
    } else {
      assert AtEnd(s);
    }
  }

  /** Termination with a bound: a timely run of a file of N packets sees at most
      (N + 1) * maxErrors timeouts and a number of steps known beforehand, and when it can go
      on no longer the sender has returned. */
  lemma TimelyRunsEnd(t: Transfer, slots: set<nat>, steps: seq<Step>, s: System)
    requires Path(TimelyTimeouts, t, InitialSystem(t, slots), steps, s)
    ensures Timeouts(steps) <= (PacketCount(t) + 1) * t.maxErrors
    ensures |steps| <= (PacketCount(t) + 1) * t.maxErrors * Burst(t) + Burst(t) + MAX_RETRIES + 4
    ensures CanGoOn(t, s) <==> !AtEnd(s)
  {
    hide Path, InitialSystem, Timeouts, Times, Burst, CanGoOn, AtEnd;
    BoundedRun(t, slots, steps, s);
    GoesOnUntilEnd(t, s);
    TimesIsProduct(PacketCount(t) + 1, t.maxErrors);
    TimesIsProduct(Times(PacketCount(t) + 1, t.maxErrors), Burst(t));
  }

  lemma {:induction false} ReachesEnd(t: Transfer, s: System, c: nat, r: nat) returns (steps: seq<Step>, s': System)
    requires Fresh(t, s, c, r)
    ensures Path(TimelyTimeouts, t, s, steps, s') && AtEnd(s')
    decreases Potential(t, s, c)
  {
    hide Fresh, Potential, Apply, Enabled, Allowed, AtEnd;
    GoesOnUntilEnd(t, s);
    if AtEnd(s) {
      steps, s' := [], s;
    } else {
      var step :| Enabled(t, s, step) && Allowed(TimelyTimeouts, t, s, step);
      var c', r' := StepPays(t, s, c, r, step);
      var rest;
      rest, s' := ReachesEnd(t, Apply(t, s, step), c', r');
      steps := [step] + rest;
      assert steps[0] == step && steps[1..] == rest;
    }
  }

  /** Every timely run can be continued to its end. */
  lemma TimelyRunsReachEnd(t: Transfer, slots: set<nat>, steps: seq<Step>, s: System)
      returns (rest: seq<Step>, s': System)
    requires Path(TimelyTimeouts, t, InitialSystem(t, slots), steps, s)
    ensures Path(TimelyTimeouts, t, s, rest, s') && AtEnd(s')
    ensures Path(TimelyTimeouts, t, InitialSystem(t, slots), steps + rest, s')
  {
    hide Fresh, InitialSystem, Path, AtEnd;
    var c, r := TimelyRun(t, slots, steps, s);
    rest, s' := ReachesEnd(t, s, c, r);
    PathConcat(TimelyTimeouts, t, InitialSystem(t, slots), steps, s, rest, s');
  }

  lemma InitialPackets(t: Transfer, slots: set<nat>)
    ensures |InitialSystem(t, slots).packets| <= SenderWindow(t)
  {
    var st := FilledSender(t);
    TransmissionLength(st.window, Unacked(st.window) * slots, |st.window|);
  }

  lemma AllOutstanding(t: Transfer, st: SenderState, c: nat)
    requires forall k :: !Acked(t, st, c, k)
    ensures Outstanding(t, st, c) == Below(PacketCount(t))
  {
    hide Acked;
  }

  lemma InitialBudget(t: Transfer, slots: set<nat>)
    ensures TimeoutBudget(t, InitialSystem(t, slots).sender, SenderWindow(t)) == Times(PacketCount(t) + 1, t.maxErrors)
    ensures Potential(t, InitialSystem(t, slots), SenderWindow(t))
              <= Times(Times(PacketCount(t) + 1, t.maxErrors), Burst(t)) + Burst(t) + MAX_RETRIES + 4
  {
    var s0 := InitialSystem(t, slots);
    InitiallyCoherent(t, slots, PacketCount(t));
    InitialPackets(t, slots);
    AllOutstanding(t, s0.sender, SenderWindow(t));
    assert s0.sender.phase.Waiting? && s0.sender.maxErrors == 0 && s0.acks == multiset{};
    assert ClosingWork(s0) == MAX_RETRIES + 5;
    hide Coherent, InitialSystem, Outstanding, ClosingWork;
  }
}
