/** The receiving end (`receive_data_from_sender` and `main_receiver`). */
module Receiver {
  import opened Protocol
  import opened Chunks

  /** `Receiving` is the packet loop, `Finished` its normal exit, `Completed` the state after
      the final acknowledgments went out, `Aborted` the exit that removes the file. */
  datatype ReceiverPhase = Receiving | Finished | Completed | Aborted

  datatype ReceiverState = ReceiverState(
    window: seq<Packet>,
    base: nat,
    sizeReceived: int,
    remaining: int,
    first: bool,
    output: seq<Int8>,
    phase: ReceiverPhase)

  function InitialReceiver(t: Transfer): ReceiverState {
    ReceiverState(seq(t.windowSize, (i: nat) => BlankPacket(t.packetSize).(seqNum := i)),
                  0, 0, 0, true, [], Receiving)
  }

  /** The states and packets on which the loop body is defined: inside the loop, with a
      base slot, and a packet that is the abort marker or names a slot number. */
  predicate CanReceive(st: ReceiverState, p: Packet) {
    st.phase.Receiving? && st.base < |st.window| && (p.seqNum == SEQ_NUM_ERROR || 0 <= p.seqNum)
  }

  /** The three-way test that a packet needs no storing. */
  predicate AlreadyKnown(st: ReceiverState, p: Packet)
    requires 0 <= p.seqNum < |st.window|
  {
    || st.window[p.seqNum].received
    || st.sizeReceived < st.window[p.seqNum].noBytesToSend
    || p.noBytesToSend <= st.sizeReceived
  }

  /** Write the base packet to the file, release its slot and move on. */
  function WriteBase(st: ReceiverState): (st': ReceiverState)
    requires st.base < |st.window|
    ensures st'.base < |st'.window| == |st.window|
  {
    var p := st.window[st.base];
    st.(window := st.window[st.base := p.(received := false, ack := false)],
        base := (st.base + 1) % |st.window|,
        sizeReceived := p.noBytesToSend,
        remaining := st.remaining - 1,
        output := st.output + Written(p))
  }

  /** Write out the contiguous packets from the base on, at most `n` of them. */
  function Drain(st: ReceiverState, n: nat): (st': ReceiverState)
    requires st.base < |st.window|
    ensures st'.base < |st'.window| == |st.window|
    decreases n
  {
    if n == 0 || !st.window[st.base].received then st else Drain(WriteBase(st), n - 1)
  }

  /** Put a new packet in its slot and write out whatever has become contiguous. */
  function StoreAndDrain(st: ReceiverState, p: Packet): (st': ReceiverState)
    requires st.base < |st.window| && 0 <= p.seqNum < |st.window|
    ensures |st'.window| == |st.window|
  {
    Drain(st.(window := st.window[p.seqNum := p.(received := true)]), |st.window|)
  }

  /** The test at the foot of the loop. */
  function LoopTest(st: ReceiverState): ReceiverState {
    if st.remaining > 0 then st else st.(phase := Finished)
  }

  /** The very first packet sets the number of packets to expect. */
  function Announce(st: ReceiverState, p: Packet): ReceiverState {
    if st.first then st.(first := false, remaining := p.noPacketsToSend) else st
  }

  /** What one arriving packet does: the new state and the acknowledgments sent.
      `pass` says whether the loss simulator lets the acknowledgment through. */
  function Receive(st: ReceiverState, p: Packet, pass: bool): (ReceiverState, seq<AckPacket>)
    requires CanReceive(st, p)
  {
    if p.seqNum == SEQ_NUM_ERROR then
      (st.(phase := Aborted, output := []), [])
    else if p.seqNum >= |st.window| then
      (LoopTest(st), [AckPacket(SEQ_NUM_ERROR, 0, 0)])
    else
      var st1 := Announce(st, p);
      if AlreadyKnown(st1, p) then
        (st1, AckIf(pass, p, st1.sizeReceived))
      else
        var st2 := StoreAndDrain(st1, p);
        (LoopTest(MarkAcked(st2, p.seqNum, pass)), AckIf(pass, p, st2.sizeReceived))
  }

  function AckIf(pass: bool, p: Packet, written: int): seq<AckPacket> {
    if pass then [AckPacket(p.seqNum, p.noBytesToSend, written)] else []
  }

  function MarkAcked(st: ReceiverState, s: nat, pass: bool): ReceiverState
    requires s < |st.window|
  {
    if pass then st.(window := st.window[s := st.window[s].(ack := true)]) else st
  }

  /** The end-of-transfer acknowledgment, and the copies of it that are sent. */
  function FinalAck(st: ReceiverState): AckPacket {
    AckPacket(SEQ_NUM_ERROR, 0, st.sizeReceived)
  }

  function FinalAcks(st: ReceiverState): (acks: seq<AckPacket>)
    ensures |acks| == MAX_RETRIES
    ensures forall a :: a in acks <==> a == FinalAck(st)
  {
    var acks := seq(MAX_RETRIES, _ => FinalAck(st));
    assert acks[0] == FinalAck(st);
    acks
  }

  // ---------------------------------------------------------------------
  // What the window means

  /** Packet `k` is in hand: written out, or buffered in its slot. */
  predicate Has(t: Transfer, st: ReceiverState, r: nat, k: nat) {
    || k < r
    || (k < r + t.windowSize && |st.window| == t.windowSize && st.window[Slot(t.windowSize, k)].received)
  }

  /** The slot that packet `k` maps to, seen from base `r`: filled with exactly packet `k`,
      or empty with a stale offset the receiver is already past. */
  predicate SlotMeans(t: Transfer, st: ReceiverState, k: nat)
    requires |st.window| == t.windowSize
  {
    var q := st.window[Slot(t.windowSize, k)];
    if q.received
    then k < PacketCount(t) && q.(received := false, ack := false) == PacketOf(t, k, q.sent)
    else q.noBytesToSend <= st.sizeReceived
  }

  /** The state after `r` packets have been written, while a drain may be under way. */
  predicate Buffering(t: Transfer, st: ReceiverState, r: nat) {
    && |st.window| == t.windowSize
    && r <= PacketCount(t)
    && (st.first || 0 < PacketCount(t))
    && st.base == Slot(t.windowSize, r)
    && st.sizeReceived == Offset(t, r)
    && (st.phase != Aborted ==> st.output == t.file[..Offset(t, r)])
    && (if st.first then r == 0 && st.remaining == 0 else st.remaining == PacketCount(t) - r)
    && (forall k :: r <= k < r + t.windowSize ==> SlotMeans(t, st, k))
  }

  /** The state between two arrivals. */
  predicate ReceiverLayout(t: Transfer, st: ReceiverState, r: nat) {
    && Buffering(t, st, r)
    && !st.window[st.base].received
    && (st.first ==> forall k :: 0 <= k < t.windowSize ==> !Has(t, st, r, k))
    && (st.phase.Receiving? ==> st.first || r < PacketCount(t))
    && (st.phase.Finished? || st.phase.Completed? ==> !st.first && r == PacketCount(t))
  }

  lemma InitialLayout(t: Transfer)
    ensures ReceiverLayout(t, InitialReceiver(t), 0)
    ensures forall k :: !Has(t, InitialReceiver(t), 0, k)
  {
  }

  /** Flag and offset agreement: between arrivals a slot of the window is filled exactly when
      its stored offset lies beyond what has been written. */
  lemma FlagMeansBeyond(t: Transfer, st: ReceiverState, r: nat, s: nat)
    requires ReceiverLayout(t, st, r) && s < |st.window|
    ensures st.window[s].received <==> st.sizeReceived < st.window[s].noBytesToSend
  {
    var j := Occupant(t.windowSize, r, s);
    assert SlotMeans(t, st, j);
    if st.window[s].received {
      OffsetGrows(t, r, j + 1);
    }
  }

  /** So the first two parts of the duplicate test coincide, and for a packet of the file the
      whole test means "already in hand". */
  lemma DuplicateTestMeaning(t: Transfer, st: ReceiverState, r: nat, p: Packet, k: nat)
    requires ReceiverLayout(t, st, r) && IsChunk(t, p, k) && k < r + t.windowSize
    ensures 0 <= p.seqNum < |st.window|
    ensures AlreadyKnown(st, p) <==> Has(t, st, r, k)
  {
    SameSlots(t, k);
    var s := Slot(t.windowSize, k);
    FlagMeansBeyond(t, st, r, s);
    if k < r {
      OffsetGrows(t, k + 1, r);
    } else {
      OffsetGrows(t, r, k + 1);
    }
  }

  /** One drain step writes packet `r` and turns its slot over to packet `r + windowSize`. */
  lemma WriteBaseStep(t: Transfer, st: ReceiverState, r: nat) returns (r1: nat)
    requires Buffering(t, st, r) && st.window[st.base].received && !st.first
    ensures r1 == r + 1 && Buffering(t, WriteBase(st), r1)
    ensures r < PacketCount(t)
    ensures forall k :: Has(t, WriteBase(st), r1, k) <==> Has(t, st, r, k)
  {
    r1 := r + 1;
    var w := t.windowSize;
    var st' := WriteBase(st);
    assert SlotMeans(t, st, r);
    ChunkShape(t, r);
    OffsetGrows(t, r, r + 1);
    SlotNext(w, r);
    forall k | r + 1 <= k < r + 1 + w
      ensures SlotMeans(t, st', k)
      ensures k < r + w ==> st'.window[Slot(w, k)] == st.window[Slot(w, k)]
      ensures k == r + w ==> !st'.window[Slot(w, k)].received
    {
      if k < r + w {
        SlotsDiffer(w, r, k);
        assert SlotMeans(t, st, k);
      }
    }
  }

  /** The iteration cap never cuts the drain short: if no packet from `limit` on is buffered
      and the cap allows for all slots before it, the drain stops at an empty base slot. */
  lemma {:induction false} DrainRun(t: Transfer, st: ReceiverState, r: nat, n: nat, limit: nat) returns (r': nat)
    requires Buffering(t, st, r) && !st.first && limit <= r + n
    requires forall k :: limit <= k < r + t.windowSize ==> !Has(t, st, r, k)
    ensures r <= r' && Buffering(t, Drain(st, n), r')
    ensures !Drain(st, n).window[Drain(st, n).base].received
    ensures forall k :: Has(t, Drain(st, n), r', k) <==> Has(t, st, r, k)
    ensures Drain(st, n).first == st.first && Drain(st, n).phase == st.phase
    decreases n
  {
    if n == 0 {
      r' := r;
      assert st.window[st.base].received ==> Has(t, st, r, r);
    } else if !st.window[st.base].received {
      r' := r;
    } else {
      assert Has(t, st, r, r);
      var r1 := WriteBaseStep(t, st, r);
      r' := DrainRun(t, WriteBase(st), r1, n - 1, limit);
    }
  }

  /** What the drain leaves of the slot of packet `k`: released, with both flags cleared, if the
      packet was written, and untouched otherwise. */
  function Released(q: Packet, written: bool): Packet {
    if written then q.(received := false, ack := false) else q
  }

  lemma WriteBaseReleases(t: Transfer, st: ReceiverState, r: nat)
    requires Buffering(t, st, r) && st.window[st.base].received
    ensures forall k: nat :: r <= k < r + t.windowSize ==>
              WriteBase(st).window[Slot(t.windowSize, k)] == Released(st.window[Slot(t.windowSize, k)], k == r)
    ensures Slot(t.windowSize, r + t.windowSize) == Slot(t.windowSize, r)
    ensures !WriteBase(st).window[Slot(t.windowSize, r)].received
  {
    forall k: nat | r < k < r + t.windowSize
      ensures Slot(t.windowSize, k) != Slot(t.windowSize, r)
    {
      SlotsDiffer(t.windowSize, r, k);
    }
  }

  /** The slots the drain goes through hold the packets it writes, and are released. */
  lemma {:induction false} DrainReleases(t: Transfer, st: ReceiverState, r: nat, n: nat) returns (r': nat)
    requires Buffering(t, st, r) && !st.first
    ensures r <= r' <= r + t.windowSize && Buffering(t, Drain(st, n), r')
    ensures forall k: nat :: r <= k < r' ==> st.window[Slot(t.windowSize, k)].received
    ensures forall k: nat :: r <= k < r + t.windowSize ==>
              Drain(st, n).window[Slot(t.windowSize, k)] == Released(st.window[Slot(t.windowSize, k)], k < r')
    decreases n
  {
    r' := r;
    if n > 0 && st.window[st.base].received {
      var r1 := WriteBaseStep(t, st, r);
      WriteBaseReleases(t, st, r);
      BaseSlot(t, st, r);
      hide Buffering, WriteBase, Slot;
      r' := DrainReleases(t, WriteBase(st), r1, n - 1);
      DrainedSlots(t, st, WriteBase(st), Drain(st, n), r, r');
    }
  }

  lemma BaseSlot(t: Transfer, st: ReceiverState, r: nat)
    requires Buffering(t, st, r)
    ensures st.base == Slot(t.windowSize, r) < |st.window| == t.windowSize
  {
  }

  lemma DrainedSlots(t: Transfer, st: ReceiverState, st1: ReceiverState, st2: ReceiverState, r: nat, r': nat)
    requires |st.window| == |st1.window| == |st2.window| == t.windowSize && r < r' <= r + 1 + t.windowSize
    requires Slot(t.windowSize, r + t.windowSize) == Slot(t.windowSize, r)
    requires st.window[Slot(t.windowSize, r)].received && !st1.window[Slot(t.windowSize, r)].received
    requires forall k: nat :: r <= k < r + t.windowSize ==>
               st1.window[Slot(t.windowSize, k)] == Released(st.window[Slot(t.windowSize, k)], k == r)
    requires forall k: nat :: r + 1 <= k < r' ==> st1.window[Slot(t.windowSize, k)].received
    requires forall k: nat :: r + 1 <= k < r + 1 + t.windowSize ==>
               st2.window[Slot(t.windowSize, k)] == Released(st1.window[Slot(t.windowSize, k)], k < r')
    ensures r' <= r + t.windowSize
    ensures forall k: nat :: r <= k < r' ==> st.window[Slot(t.windowSize, k)].received
    ensures forall k: nat :: r <= k < r + t.windowSize ==>
              st2.window[Slot(t.windowSize, k)] == Released(st.window[Slot(t.windowSize, k)], k < r')
  {
    hide Slot;
    var last := Slot(t.windowSize, r + t.windowSize);
    assert st2.window[last] == Released(st1.window[last], r + t.windowSize < r');
  }

  /** Storing a packet not yet in hand fills its slot and disturbs no other packet. */
  lemma StoreChunk(t: Transfer, st: ReceiverState, r: nat, p: Packet, k: nat)
    requires Buffering(t, st, r) && IsChunk(t, p, k) && r <= k < r + t.windowSize
    requires 0 <= p.seqNum < |st.window|
    ensures var st' := st.(window := st.window[p.seqNum := p.(received := true)]);
      && Buffering(t, st', r)
      && forall j :: Has(t, st', r, j) <==> Has(t, st, r, j) || j == k
  {
    var w := t.windowSize;
    var st' := st.(window := st.window[p.seqNum := p.(received := true)]);
    SameSlots(t, k);
    forall j | r <= j < r + w
      ensures SlotMeans(t, st', j)
      ensures j != k ==> st'.window[Slot(w, j)] == st.window[Slot(w, j)]
    {
      assert SlotMeans(t, st, j);
      if j != k {
        SlotsDiffer(w, Min(j, k), Max(j, k));
      }
    }
  }

  /** The `ack` flag the receiver keeps in a slot influences nothing. */
  lemma AckFlagIsIdle(t: Transfer, st: ReceiverState, r: nat, s: nat, pass: bool)
    requires Buffering(t, st, r) && s < |st.window|
    ensures Buffering(t, MarkAcked(st, s, pass), r)
    ensures forall j :: 0 <= j < |st.window| ==> MarkAcked(st, s, pass).window[j].received == st.window[j].received
    ensures forall j :: Has(t, MarkAcked(st, s, pass), r, j) <==> Has(t, st, r, j)
  {
    var st' := MarkAcked(st, s, pass);
    forall j | r <= j < r + t.windowSize
      ensures SlotMeans(t, st', j)
    {
      assert SlotMeans(t, st, j);
    }
  }

  /** A packet not yet in hand, once stored and drained, is added to what the receiver has. */
  lemma StoreAndDrainChunk(t: Transfer, st: ReceiverState, r: nat, p: Packet, k: nat) returns (r': nat)
    requires Buffering(t, st, r) && !st.first && IsChunk(t, p, k) && r <= k < r + t.windowSize
    requires 0 <= p.seqNum < |st.window|
    ensures r <= r' && Buffering(t, StoreAndDrain(st, p), r')
    ensures !StoreAndDrain(st, p).window[StoreAndDrain(st, p).base].received
    ensures StoreAndDrain(st, p).first == st.first && StoreAndDrain(st, p).phase == st.phase
    ensures forall j :: Has(t, StoreAndDrain(st, p), r', j) <==> Has(t, st, r, j) || j == k
  {
    StoreChunk(t, st, r, p, k);
    r' := DrainRun(t, st.(window := st.window[p.seqNum := p.(received := true)]), r, t.windowSize, r + t.windowSize);
  }

  /** Receiver correctness for one arrival, with no assumption on timing, order or
      duplication: any packet of the file below `r + windowSize` (and, if it is the very
      first, one that carries the full count) leaves the receiver with exactly that packet
      added to what it has, the longest contiguous run written, and the loop left exactly
      when the whole file is written. */
  lemma ReceiveChunk(t: Transfer, st: ReceiverState, r: nat, p: Packet, k: nat, pass: bool) returns (r': nat)
    requires ReceiverLayout(t, st, r) && st.phase.Receiving?
    requires IsChunk(t, p, k) && k < r + t.windowSize
    requires st.first ==> p.noPacketsToSend == PacketCount(t)
    ensures CanReceive(st, p)
    ensures r <= r' && ReceiverLayout(t, Receive(st, p, pass).0, r')
    ensures forall j :: Has(t, Receive(st, p, pass).0, r', j) <==> Has(t, st, r, j) || j == k
    ensures !Receive(st, p, pass).0.first
    ensures Receive(st, p, pass).0.phase == if r' == PacketCount(t) then Finished else Receiving
    ensures Receive(st, p, pass).1 == if pass then [AckPacket(p.seqNum, p.noBytesToSend, Offset(t, r'))] else []
  {
    DuplicateTestMeaning(t, st, r, p, k);
    var st1 := Announce(st, p);
    AnnounceChunk(t, st, r, p, k);
    if AlreadyKnown(st1, p) {
      r' := r;
    } else {
      r' := StoreAndDrainChunk(t, st1, r, p, k);
      AckFlagIsIdle(t, StoreAndDrain(st1, p), r', p.seqNum, pass);
      LoopTestMeaning(t, MarkAcked(StoreAndDrain(st1, p), p.seqNum, pass), r');
    }
  }

  /** The announcement sets the countdown; from then on it counts the unwritten packets. */
  lemma AnnounceChunk(t: Transfer, st: ReceiverState, r: nat, p: Packet, k: nat)
    requires ReceiverLayout(t, st, r) && st.phase.Receiving? && IsChunk(t, p, k)
    requires st.first ==> p.noPacketsToSend == PacketCount(t)
    ensures Buffering(t, Announce(st, p), r) && ReceiverLayout(t, Announce(st, p), r)
    ensures Announce(st, p).remaining == PacketCount(t) - r > 0
    ensures forall j :: Has(t, Announce(st, p), r, j) <==> Has(t, st, r, j)
  {
    var st1 := Announce(st, p);
    forall j | r <= j < r + t.windowSize
      ensures SlotMeans(t, st1, j)
    {
      assert SlotMeans(t, st, j);
    }
  }

  /** The countdown reaches zero exactly when every packet has been written. */
  lemma LoopTestMeaning(t: Transfer, st: ReceiverState, r: nat)
    requires Buffering(t, st, r) && !st.first && !st.window[st.base].received && st.phase.Receiving?
    ensures ReceiverLayout(t, LoopTest(st), r)
    ensures LoopTest(st).phase == if r == PacketCount(t) then Finished else Receiving
    ensures forall j :: Has(t, LoopTest(st), r, j) <==> Has(t, st, r, j)
  {
    forall j | r <= j < r + t.windowSize
      ensures SlotMeans(t, LoopTest(st), j)
    {
      assert SlotMeans(t, st, j);
    }
  }

  /** The window after the arrival of a packet not yet in hand, slot by slot: the packets written
      are released, the others keep what they hold; and the `ack` flag of the slot that was
      named says whether the acknowledgment got through. */
  lemma ArrivalSlots(t: Transfer, st: ReceiverState, r: nat, p: Packet, k: nat, pass: bool) returns (r': nat)
    requires ReceiverLayout(t, st, r) && st.phase.Receiving? && IsChunk(t, p, k) && k < r + t.windowSize
    requires (st.first ==> p.noPacketsToSend == PacketCount(t)) && !Has(t, st, r, k)
    ensures CanReceive(st, p) && p.seqNum == Slot(t.windowSize, k)
    ensures var st' := Receive(st, p, pass).0;
      && r <= r' <= r + t.windowSize && r' <= PacketCount(t) && st'.sizeReceived == Offset(t, r')
      && forall j: nat :: r <= j < r + t.windowSize ==>
           var held := if j == k then p.(received := true) else st.window[Slot(t.windowSize, j)];
           var left := Released(held, j < r');
           && (j < r' ==> held.received)
           && st'.window[Slot(t.windowSize, j)] == if j == k && pass then left.(ack := true) else left
  {
    hide SlotMeans;
    DuplicateTestMeaning(t, st, r, p, k);
    SameSlots(t, k);
    var st1 := Announce(st, p);
    AnnounceChunk(t, st, r, p, k);
    StoreChunk(t, st1, r, p, k);
    var stored := st1.(window := st1.window[p.seqNum := p.(received := true)]);
    r' := DrainReleases(t, stored, r, t.windowSize);
    forall j: nat | r <= j < r + t.windowSize && j != k
      ensures Slot(t.windowSize, j) != p.seqNum
    {
      SlotsDiffer(t.windowSize, Min(j, k), Max(j, k));
    }
    hide Slot, Drain, PacketOf;
  }
}
