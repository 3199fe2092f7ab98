/** Whole runs of the sender alone, whatever acknowledgments reach it and in any order. */
module SenderRuns {
  import opened Protocol
  import opened Chunks
  import opened Sender

  datatype Event = Ack(a: AckPacket, slots: set<nat>) | Expiry(slots: set<nat>)

  /** Each event finds the sender in its waiting loop, and acknowledgments name a slot. */
  predicate Plausible(t: Transfer, st: SenderState, events: seq<Event>)
    decreases |events|
  {
    events == [] ||
    (st.phase.Waiting?
     && (events[0].Ack? ==> CanHandleAck(t, st, events[0].a))
     && Plausible(t, Handle(t, st, events[0]), events[1..]))
  }

  function Handle(t: Transfer, st: SenderState, e: Event): SenderState
    requires st.phase.Waiting? && (e.Ack? ==> CanHandleAck(t, st, e.a))
  {
    match e
    case Ack(a, slots) => OnAck(t, st, a, slots).0
    case Expiry(slots) => OnTimeout(t, st, slots).0
  }

  function After(t: Transfer, st: SenderState, events: seq<Event>): SenderState
    requires Plausible(t, st, events)
    decreases |events|
  {
    if events == [] then st else After(t, Handle(t, st, events[0]), events[1..])
  }

  lemma HandleKeeps(t: Transfer, st: SenderState, c: nat, e: Event) returns (c': nat)
    requires SenderLayout(t, st, c) && st.phase.Waiting? && (e.Ack? ==> CanHandleAck(t, st, e.a))
    ensures c <= c' && SenderLayout(t, Handle(t, st, e), c') && !Handle(t, st, e).phase.Closed?
    ensures forall k :: Acked(t, st, c, k) ==> Acked(t, Handle(t, st, e), c', k)
  {
    c' := c;
    var st' := Handle(t, st, e);
    match e {
      case Ack(a, slots) =>
        if EndsTransfer(t, a) {
          SenderKept(t, st, st', c);
        } else {
          c' := AckMarksOccupant(t, st, c, a, slots);
        }
      case Expiry(slots) =>
        if st'.phase.Waiting? {
          TimeoutStaysGood(st.timeout);
          SentFlagIsIdle(t, st, st', c, Offered(st.window, st.lastConfirmed) * slots);
        } else {
          SenderKept(t, st, st', c);
        }
    }
  }

  lemma {:induction false} RunKeeps(t: Transfer, st: SenderState, c: nat, events: seq<Event>) returns (c': nat)
    requires SenderLayout(t, st, c) && !st.phase.Closed? && Plausible(t, st, events)
    ensures c <= c' && SenderLayout(t, After(t, st, events), c') && !After(t, st, events).phase.Closed?
    ensures forall k :: Acked(t, st, c, k) ==> Acked(t, After(t, st, events), c', k)
    decreases |events|
  {
    c' := c;
    if events != [] {
      c' := HandleKeeps(t, st, c, events[0]);
      hide Handle, SenderLayout, Acked;
      c' := RunKeeps(t, Handle(t, st, events[0]), c', events[1..]);
    }
  }

  /** Slot `k % w` holds packet `k`, for each of the last `w` packets read. */
  predicate SlotsExact(t: Transfer, window: seq<Packet>, c: nat) {
    var w := SenderWindow(t);
    && |window| == w
    && forall k: nat :: c - w <= k < c ==>
         && 0 <= Remainder(k, w) < w
         && IsChunk(t, window[Remainder(k, w)], k)
         && window[Remainder(k, w)].noBytesToSend == Min((k + 1) * t.packetSize, |t.file|)
  }

  function Remainder(k: nat, w: nat): nat {
    if w == 0 then 0 else k % w
  }

  /** The counters agree with `c` packets read: the bytes read are those packets joined, the
      base is slot `c % w`, and while bytes remain the base is unacknowledged and the
      packet count has not run out. */
  predicate CountersExact(t: Transfer, st: SenderState, c: nat) {
    var w := SenderWindow(t);
    && w <= c <= PacketCount(t) && |st.window| == w
    && st.counter == st.position == Min(c * t.packetSize, |t.file|)
    && Joined(t, c) == t.file[..Min(c * t.packetSize, |t.file|)]
    && (c == PacketCount(t) <==> st.counter == |t.file|)
    && (0 < w ==> st.base == Remainder(c, w) < w)
    && (st.counter < |t.file| ==> 0 < w && !st.window[st.base].ack && 0 < st.noPackets)
    && 0 <= st.noPackets <= PacketCount(t)
  }

  lemma LayoutSlots(t: Transfer, st: SenderState, c: nat)
    requires SenderLayout(t, st, c)
    ensures SlotsExact(t, st.window, c)
  {
    var w := SenderWindow(t);
    forall k: nat | c - w <= k < c
      ensures 0 <= Remainder(k, w) < w && IsChunk(t, st.window[Remainder(k, w)], k)
      ensures st.window[Remainder(k, w)].noBytesToSend == Min((k + 1) * t.packetSize, |t.file|)
    {
      assert SlotHolds(t, st, k);
      RemainderIsSlot(k, w);
      OffsetIsMultiple(t, k + 1);
    }
  }

  lemma RemainderIsSlot(k: nat, w: nat)
    ensures Remainder(k, w) == Slot(w, k)
  {
    if 0 < w {
      SlotIsRemainder(w, k);
    }
  }

  lemma LayoutCounters(t: Transfer, st: SenderState, c: nat)
    requires SenderLayout(t, st, c)
    ensures CountersExact(t, st, c)
  {
    OffsetIsMultiple(t, c);
    OffsetReachesSize(t, c);
    ChunksJoinToFile(t, c);
    RemainderIsSlot(c, SenderWindow(t));
    hide SlotHolds, Joined, Offset, Slot, Remainder;
  }

  /** Sender window layout, for every run and in any order of acknowledgments: the slots, the
      base and the counters are determined by the number of packets read, and the timeout is
      in range, a whole number of units above the minimum. */
  lemma WindowIsExact(t: Transfer, slots: set<nat>, events: seq<Event>) returns (c: nat)
    requires Plausible(t, SendWindow(FilledSender(t), slots).0, events)
    ensures var st := After(t, SendWindow(FilledSender(t), slots).0, events);
      SlotsExact(t, st.window, c) && CountersExact(t, st, c) && GoodTimeout(st.timeout)
  {
    var st0 := SendWindow(FilledSender(t), slots).0;
    FilledLayout(t);
    SentFlagIsIdle(t, FilledSender(t), st0, SenderWindow(t), Unacked(FilledSender(t).window) * slots);
    hide SendWindow, FilledSender, SlotsExact, CountersExact, GoodTimeout, SlotHolds;
    c := RunKeeps(t, st0, SenderWindow(t), events);
    var st := After(t, st0, events);
    LayoutSlots(t, st, c);
    LayoutCounters(t, st, c);
  }
}
