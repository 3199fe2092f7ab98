/** Which packets the receiver writes, whatever packets of the file reach it and in whatever
    order, even far ahead of its window: the trace of packet numbers it has written. */
module ReceiverTrace {
  import opened Protocol
  import opened Chunks
  import opened Receiver

  /** The contents of the packets `ks`, joined. */
  function Along(t: Transfer, ks: seq<nat>): seq<Int8> {
    if ks == [] then [] else Along(t, ks[..|ks| - 1]) + Chunk(t, ks[|ks| - 1])
  }

  /** Where the file stands after the last packet of `ks`. */
  function Reached(t: Transfer, ks: seq<nat>): nat {
    if ks == [] then 0 else Offset(t, ks[|ks| - 1] + 1)
  }

  /** Packet `k` may be the `i`-th one written: it uses the same slot as packet `i`, is not
      older, and comes at least a window after the packet last written from that slot. */
  predicate Fits(t: Transfer, ks: seq<nat>, i: nat, k: nat)
    requires i < |ks| + t.windowSize
  {
    && i <= k < PacketCount(t)
    && Slot(t.windowSize, k) == Slot(t.windowSize, i)
    && (t.windowSize <= i ==> ks[i - t.windowSize] + t.windowSize <= k)
  }

  predicate Successive(t: Transfer, ks: seq<nat>) {
    forall i: nat :: i < |ks| ==> Fits(t, ks, i, ks[i])
  }

  /** The slot of the `i`-th write to come: it holds a packet that fits there, or still the
      offset of the packet last written from it. */
  ghost predicate SlotFollows(t: Transfer, st: ReceiverState, ks: seq<nat>, i: nat)
    requires |st.window| == t.windowSize && i < |ks| + t.windowSize
  {
    var q := st.window[Slot(t.windowSize, i)];
    if q.received
    then exists k: nat :: Fits(t, ks, i, k) && q.(received := false, ack := false) == PacketOf(t, k, q.sent)
    else q.noBytesToSend == if i < t.windowSize then 0 else Offset(t, ks[i - t.windowSize] + 1)
  }

  /** The packets `ks` have been written, while a drain may be under way. */
  ghost predicate Tracks(t: Transfer, st: ReceiverState, ks: seq<nat>) {
    && |st.window| == t.windowSize
    && Successive(t, ks)
    && st.base == Slot(t.windowSize, |ks|)
    && st.sizeReceived == Reached(t, ks)
    && (!st.phase.Aborted? ==> st.output == Along(t, ks))
    && (if st.first then ks == [] && st.remaining == 0 else st.remaining == PacketCount(t) - |ks|)
    && (forall i: nat :: |ks| <= i < |ks| + t.windowSize ==> SlotFollows(t, st, ks, i))
  }

  /** The same between two arrivals. */
  ghost predicate Tracked(t: Transfer, st: ReceiverState, ks: seq<nat>) {
    && Tracks(t, st, ks)
    && (st.phase.Receiving? ==> st.first || |ks| < PacketCount(t))
    && (st.phase.Finished? || st.phase.Completed? ==> !st.first && |ks| == PacketCount(t))
  }

  // ---------------------------------------------------------------------
  // What a trace says

  /** A trace of as many packets as the file has is the file in order. */
  lemma {:induction false} FullTraceIsInOrder(t: Transfer, ks: seq<nat>, i: nat)
    requires Successive(t, ks) && |ks| == PacketCount(t) && i < |ks|
    ensures ks[i] == i
    decreases |ks| - i
  {
    var w := t.windowSize;
    assert Fits(t, ks, i, ks[i]);
    if i + w < |ks| {
      FullTraceIsInOrder(t, ks, i + w);
      assert Fits(t, ks, i + w, ks[i + w]);
    } else if i < ks[i] {
      SlotsDiffer(w, i, ks[i]);
    }
  }

  lemma OrderedTraceIsPrefix(t: Transfer, ks: seq<nat>)
    requires forall i: nat :: i < |ks| ==> ks[i] == i
    ensures Reached(t, ks) == Offset(t, |ks|) && Along(t, ks) == t.file[..Reached(t, ks)]
  {
    ChunksJoinToFile(t, |ks|);
    OrderedTraceJoins(t, ks);
  }

  lemma {:induction false} OrderedTraceJoins(t: Transfer, ks: seq<nat>)
    requires forall i: nat :: i < |ks| ==> ks[i] == i
    ensures Along(t, ks) == Joined(t, |ks|)
  {
    hide Chunk;
    if ks != [] {
      OrderedTraceJoins(t, ks[..|ks| - 1]);
    }
  }

  lemma FullTraceIsFile(t: Transfer, ks: seq<nat>)
    requires Successive(t, ks) && |ks| == PacketCount(t)
    ensures forall i: nat :: i < |ks| ==> ks[i] == i
    ensures Along(t, ks) == t.file && Reached(t, ks) == |t.file|
  {
    forall i: nat | i < |ks|
      ensures ks[i] == i
    {
      FullTraceIsInOrder(t, ks, i);
    }
    OrderedTraceIsPrefix(t, ks);
    ChunksJoinToFile(t, |ks|);
    OffsetGrows(t, 0, PacketCount(t));
  }

  /** No more packets are written than the file has. */
  lemma TraceIsShort(t: Transfer, ks: seq<nat>)
    requires Successive(t, ks)
    ensures |ks| <= PacketCount(t)
  {
    if ks != [] {
      assert Fits(t, ks, |ks| - 1, ks[|ks| - 1]);
    }
  }

  // ---------------------------------------------------------------------
  // One arrival

  lemma TraceStarts(t: Transfer)
    ensures Tracked(t, InitialReceiver(t), [])
  {
    assert forall i: nat :: i < t.windowSize ==> Slot(t.windowSize, i) == i;
  }

  /** A later packet in the same slot is at least a window further on. */
  lemma SameSlotLater(w: nat, j: nat, k: nat)
    requires 0 < w && Slot(w, j) == Slot(w, k) && j < k
    ensures j + w <= k
  {
    if k < j + w {
      SlotsDiffer(w, j, k);
    }
  }

  /** Extending the trace does not touch what fitted before. */
  lemma TraceExtends(t: Transfer, ks: seq<nat>, k: nat)
    requires Successive(t, ks) && Fits(t, ks, |ks|, k)
    ensures Successive(t, ks + [k])
  {
    forall i: nat | i < |ks + [k]|
      ensures Fits(t, ks + [k], i, (ks + [k])[i])
    {
      if i < |ks| {
        assert Fits(t, ks, i, ks[i]);
      }
    }
  }

  lemma WriteTracked(t: Transfer, st: ReceiverState, ks: seq<nat>) returns (k: nat)
    requires Tracks(t, st, ks) && st.window[st.base].received && !st.first
    ensures Fits(t, ks, |ks|, k) && Tracks(t, WriteBase(st), ks + [k])
  {
    var w := t.windowSize;
    assert SlotFollows(t, st, ks, |ks|);
    var q := st.window[st.base];
    k :| Fits(t, ks, |ks|, k) && q.(received := false, ack := false) == PacketOf(t, k, q.sent);
    var ks1, st1 := ks + [k], WriteBase(st);
    TraceExtends(t, ks, k);
    SlotNext(w, |ks|);
    ChunkShape(t, k);
    assert ks1[..|ks1| - 1] == ks;
    forall i: nat | |ks1| <= i < |ks1| + w
      ensures SlotFollows(t, st1, ks1, i)
    {
      NextSlotFollows(t, st, ks, k, i);
    }
  }

  lemma NextSlotFollows(t: Transfer, st: ReceiverState, ks: seq<nat>, k: nat, i: nat)
    requires Tracks(t, st, ks) && st.window[st.base].received
    requires st.window[st.base].noBytesToSend == Offset(t, k + 1)
    requires |ks| < i <= |ks| + t.windowSize
    ensures SlotFollows(t, WriteBase(st), ks + [k], i)
  {
    var w := t.windowSize;
    if i < |ks| + w {
      SlotsDiffer(w, |ks|, i);
      assert SlotFollows(t, st, ks, i);
      var q := st.window[Slot(w, i)];
      if q.received {
        var j: nat :| Fits(t, ks, i, j) && q.(received := false, ack := false) == PacketOf(t, j, q.sent);
        assert Fits(t, ks + [k], i, j);
      }
    } else {
      assert Slot(w, i) == Slot(w, |ks|);
    }
  }

  lemma {:induction false} DrainTracked(t: Transfer, st: ReceiverState, ks: seq<nat>, n: nat) returns (ks': seq<nat>)
    requires Tracks(t, st, ks) && !st.first
    ensures ks <= ks' && Tracks(t, Drain(st, n), ks')
    ensures Drain(st, n).first == st.first && Drain(st, n).phase == st.phase
    decreases n
  {
    hide Tracks;
    TrackedWindow(t, st, ks);
    ks' := ks;
    if n > 0 && st.window[st.base].received {
      var k := WriteTracked(t, st, ks);
      ks' := DrainTracked(t, WriteBase(st), ks + [k], n - 1);
    }
  }

  /** A packet that ends beyond the last one written from its slot is a window further on. */
  lemma BeyondIsLater(t: Transfer, j: nat, k: nat)
    requires Slot(t.windowSize, j) == Slot(t.windowSize, k) && Offset(t, j + 1) < Offset(t, k + 1)
    ensures j + t.windowSize <= k
  {
    hide Slot, Offset;
    if k <= j {
      OffsetGrows(t, k + 1, j + 1);
    } else {
      SameSlotLater(t.windowSize, j, k);
    }
  }

  lemma SlotIsSmall(w: nat, k: nat)
    ensures Slot(w, k) <= k && (k < w ==> Slot(w, k) == k)
  {
  }

  /** What an empty slot still says about the packet last written from it. */
  lemma EmptySlot(t: Transfer, st: ReceiverState, ks: seq<nat>, s: nat)
    requires Tracks(t, st, ks) && s < |st.window| && !st.window[s].received
    ensures var i := Occupant(t.windowSize, |ks|, s);
      if i < t.windowSize then st.window[s].noBytesToSend == 0
      else Fits(t, ks, i - t.windowSize, ks[i - t.windowSize])
           && st.window[s].noBytesToSend == Offset(t, ks[i - t.windowSize] + 1)
  {
    assert SlotFollows(t, st, ks, Occupant(t.windowSize, |ks|, s));
  }

  lemma LaterFits(t: Transfer, ks: seq<nat>, i: nat, k: nat)
    requires i < |ks| + t.windowSize && k < PacketCount(t) && Slot(t.windowSize, k) == Slot(t.windowSize, i)
    requires t.windowSize <= i ==>
               && Fits(t, ks, i - t.windowSize, ks[i - t.windowSize])
               && Offset(t, ks[i - t.windowSize] + 1) < Offset(t, k + 1)
    ensures Fits(t, ks, i, k)
  {
    SlotIsSmall(t.windowSize, i);
    SlotIsSmall(t.windowSize, k);
    if t.windowSize <= i {
      assert Slot(t.windowSize, i) == Slot(t.windowSize, i - t.windowSize);
      BeyondIsLater(t, ks[i - t.windowSize], k);
    }
  }

  /** The duplicate test lets a packet through only if it fits its slot. */
  lemma StoredFits(t: Transfer, st: ReceiverState, ks: seq<nat>, p: Packet, k: nat)
    requires Tracks(t, st, ks) && IsChunk(t, p, k) && 0 <= p.seqNum < |st.window| && !AlreadyKnown(st, p)
    ensures p.seqNum == Slot(t.windowSize, k)
    ensures Fits(t, ks, Occupant(t.windowSize, |ks|, p.seqNum), k)
  {
    hide Tracks, Fits, Slot, Offset, Occupant;
    SameSlots(t, k);
    EmptySlot(t, st, ks, p.seqNum);
    TrackedWindow(t, st, ks);
    LaterFits(t, ks, Occupant(t.windowSize, |ks|, p.seqNum), k);
  }

  lemma TrackedWindow(t: Transfer, st: ReceiverState, ks: seq<nat>)
    requires Tracks(t, st, ks)
    ensures st.base < |st.window| == t.windowSize && st.sizeReceived == Reached(t, ks)
  {
  }

  lemma StoreTracked(t: Transfer, st: ReceiverState, ks: seq<nat>, p: Packet, k: nat)
    requires Tracks(t, st, ks) && IsChunk(t, p, k) && 0 <= p.seqNum < |st.window| && !AlreadyKnown(st, p)
    ensures Tracks(t, st.(window := st.window[p.seqNum := p.(received := true)]), ks)
  {
    var w := t.windowSize;
    var st1 := st.(window := st.window[p.seqNum := p.(received := true)]);
    var o := Occupant(w, |ks|, p.seqNum);
    StoredFits(t, st, ks, p, k);
    forall i: nat | |ks| <= i < |ks| + w
      ensures SlotFollows(t, st1, ks, i)
    {
      assert SlotFollows(t, st, ks, i);
      if i != o {
        SlotsDiffer(w, Min(i, o), Max(i, o));
      }
    }
  }

  /** The phase, and the flags the receiver keeps for itself, are no part of the trace. */
  lemma StillTracked(t: Transfer, st: ReceiverState, st': ReceiverState, ks: seq<nat>)
    requires Tracks(t, st, ks) && |st'.window| == |st.window|
    requires st' == st.(window := st'.window, phase := st'.phase, first := st'.first, remaining := st'.remaining,
                        output := st'.output)
    requires st'.phase.Aborted? || (st'.output == st.output && !st.phase.Aborted?)
    requires if st'.first then ks == [] && st'.remaining == 0 else st'.remaining == PacketCount(t) - |ks|
    requires forall j: nat :: j < |st.window| ==> st'.window[j] == st.window[j].(ack := st'.window[j].ack)
    ensures Tracks(t, st', ks)
  {
    forall i: nat | |ks| <= i < |ks| + t.windowSize
      ensures SlotFollows(t, st', ks, i)
    {
      assert SlotFollows(t, st, ks, i);
    }
  }

  lemma StoreAndDrainTracked(t: Transfer, st: ReceiverState, ks: seq<nat>, p: Packet, k: nat) returns (ks': seq<nat>)
    requires Tracks(t, st, ks) && !st.first && IsChunk(t, p, k)
    requires 0 <= p.seqNum < |st.window| && !AlreadyKnown(st, p)
    ensures ks <= ks' && Tracks(t, StoreAndDrain(st, p), ks')
    ensures StoreAndDrain(st, p).first == st.first && StoreAndDrain(st, p).phase == st.phase
  {
    StoreTracked(t, st, ks, p, k);
    ks' := DrainTracked(t, st.(window := st.window[p.seqNum := p.(received := true)]), ks, |st.window|);
  }

  /** One arrival of any packet of the file, however far ahead: the trace only grows, and the
      loop is left exactly when the trace is as long as the file. */
  lemma ReceiveTracked(t: Transfer, st: ReceiverState, ks: seq<nat>, p: Packet, k: nat, pass: bool)
      returns (ks': seq<nat>)
    requires Tracked(t, st, ks) && st.phase.Receiving? && IsChunk(t, p, k)
    requires st.first ==> p.noPacketsToSend == PacketCount(t)
    ensures CanReceive(st, p)
    ensures var (st', out) := Receive(st, p, pass);
      && ks <= ks' && Tracked(t, st', ks') && !st'.first
      && (st'.phase.Receiving? || st'.phase.Finished?)
      && out == if pass then [AckPacket(p.seqNum, p.noBytesToSend, Reached(t, ks'))] else []
  {
    SameSlots(t, k);
    var st1 := Announce(st, p);
    StillTracked(t, st, st1, ks);
    if AlreadyKnown(st1, p) {
      ks' := ks;
    } else {
      ks' := StoreAndDrainTracked(t, st1, ks, p, k);
      AfterDrain(t, StoreAndDrain(st1, p), ks', p.seqNum, pass);
    }
  }

  lemma AfterDrain(t: Transfer, st: ReceiverState, ks: seq<nat>, s: nat, pass: bool)
    requires Tracks(t, st, ks) && !st.first && st.phase.Receiving? && s < |st.window|
    ensures var st' := LoopTest(MarkAcked(st, s, pass));
      && Tracked(t, st', ks) && !st'.first && st'.sizeReceived == st.sizeReceived
      && (st'.phase.Receiving? || st'.phase.Finished?)
  {
    var st' := LoopTest(MarkAcked(st, s, pass));
    StillTracked(t, st, st', ks);
    TraceIsShort(t, ks);
  }

  // ---------------------------------------------------------------------
  // What a slot holds

  /** The same packet, whatever the receiver's own flags say. */
  predicate SamePacket(p: Packet, q: Packet) {
    p.(received := false, ack := false) == q.(received := false, ack := false)
  }

  lemma {:induction false} DrainKeepsPackets(st: ReceiverState, n: nat, s: nat)
    requires st.base < |st.window| && s < |st.window|
    ensures SamePacket(Drain(st, n).window[s], st.window[s])
    decreases n
  {
    if n > 0 && st.window[st.base].received {
      DrainKeepsPackets(WriteBase(st), n - 1, s);
    }
  }

  /** Whatever arrives, a slot that buffers a packet keeps that packet; and an arrival changes no
      slot but the one it names. */
  lemma BufferedStays(st: ReceiverState, p: Packet, pass: bool, s: nat)
    requires CanReceive(st, p) && s < |st.window|
    requires st.window[s].received || s != p.seqNum
    ensures |Receive(st, p, pass).0.window| == |st.window|
    ensures SamePacket(Receive(st, p, pass).0.window[s], st.window[s])
  {
    if 0 <= p.seqNum < |st.window| && !AlreadyKnown(Announce(st, p), p) {
      var st1 := Announce(st, p);
      DrainKeepsPackets(st1.(window := st1.window[p.seqNum := p.(received := true)]), |st1.window|, s);
    }
  }
}
