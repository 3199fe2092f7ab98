/** The sending end (`main_sender`, `send_data_to_receiver` and `wait_ack`), with the
    adaptive timeout of src/common.c as one of its fields. */
module Sender {
  import opened Protocol
  import opened Chunks

  /** `Waiting` is the acknowledgment loop, `Draining` the loop after it that swallows late
      acknowledgments and remembers the last byte count, `Closed` the value returned. */
  datatype SenderPhase = Waiting | Draining(ret: int) | Closed(result: int)

  datatype SenderState = SenderState(
    window: seq<Packet>,
    base: nat,
    position: nat,
    counter: nat,
    noPackets: int,
    lastConfirmed: int,
    maxErrors: nat,
    timeout: int,
    phase: SenderPhase)

  // ---------------------------------------------------------------------
  // Adaptive timeout

  function IncreasedTimeout(timeout: int): int {
    if timeout <= MAX_TIMEOUT - TIME_UNIT then timeout + TIME_UNIT else timeout
  }

  function DecreasedTimeout(timeout: int): int {
    if timeout >= MIN_TIMEOUT + TIME_UNIT then timeout - TIME_UNIT else timeout
  }

  /** The timeout is in range and a whole number of units above the minimum. */
  predicate GoodTimeout(timeout: int) {
    MIN_TIMEOUT <= timeout <= MAX_TIMEOUT && (timeout - MIN_TIMEOUT) % TIME_UNIT == 0
  }

  // ---------------------------------------------------------------------
  // Sending

  /** The window with the slots of `chosen` flagged as sent. */
  function MarkSent(window: seq<Packet>, chosen: set<nat>): (window': seq<Packet>)
    ensures |window'| == |window|
    ensures forall j :: 0 <= j < |window| ==> window'[j] == if j in chosen then window[j].(sent := true) else window[j]
  {
    if window == [] then []
    else
      var last := |window| - 1;
      MarkSent(window[..last], chosen) + [if last in chosen then window[last].(sent := true) else window[last]]
  }

  /** The packets of the slots of `chosen` below `n`, in slot order. */
  function Transmission(window: seq<Packet>, chosen: set<nat>, n: nat): seq<Packet>
    requires n <= |window|
  {
    if n == 0 then []
    else Transmission(window, chosen, n - 1) + if n - 1 in chosen then [window[n - 1]] else []
  }

  /** The slots never acknowledged so far. */
  function Unacked(window: seq<Packet>): set<nat> {
    set j: nat | j < |window| && !window[j].ack
  }

  /** The slots a timeout offers for retransmission. */
  function Offered(window: seq<Packet>, lastConfirmed: int): set<nat> {
    set j: nat | j < |window| && (!window[j].ack || window[j].noBytesToSend > lastConfirmed)
  }

  /** The state after the initial fill, before anything is sent. */
  function FilledSender(t: Transfer): SenderState {
    var w := SenderWindow(t);
    SenderState(seq(w, (i: nat) => PacketOf(t, i, false)),
                0, Offset(t, w), Offset(t, w), PacketCount(t), 0, 0, TIMEOUT, Waiting)
  }

  /** `send_data_to_receiver`: one pass over the window. `pass` holds the slots the loss
      simulator lets through; every slot is tried at most once in one call. */
  function SendWindow(st: SenderState, pass: set<nat>): (SenderState, seq<Packet>) {
    var chosen := Unacked(st.window) * pass;
    (st.(window := MarkSent(st.window, chosen)), Transmission(st.window, chosen, |st.window|))
  }

  /** How many slots a pass from slot `j` on tries: a transmitted empty packet ends it. */
  function Tried(window: seq<Packet>, pass: set<nat>, j: nat): (n: nat)
    requires j <= |window|
    ensures j <= n <= |window|
    decreases |window| - j
  {
    if j == |window| then j
    else if !window[j].ack && j in pass && window[j].size == 0 then j + 1
    else Tried(window, pass, j + 1)
  }

  /** `send_data_to_receiver` on any window, with empty packets or without. */
  function SendPass(st: SenderState, pass: set<nat>): (SenderState, seq<Packet>) {
    var chosen, n := Unacked(st.window) * pass, Tried(st.window, pass, 0);
    (st.(window := MarkSent(st.window[..n], chosen) + st.window[n..]), Transmission(st.window, chosen, n))
  }

  /** Without empty packets the pass is the whole window. */
  lemma PassIsWhole(st: SenderState, pass: set<nat>)
    requires forall j :: 0 <= j < |st.window| ==> st.window[j].size != 0
    ensures SendPass(st, pass) == SendWindow(st, pass)
  {
    TriesAll(st.window, pass, 0);
    var marked := MarkSent(st.window, Unacked(st.window) * pass);
    assert st.window[..|st.window|] == st.window && st.window[|st.window|..] == [] && marked + [] == marked;
  }

  lemma {:induction false} TriesAll(window: seq<Packet>, pass: set<nat>, j: nat)
    requires forall i :: 0 <= i < |window| ==> window[i].size != 0
    requires j <= |window|
    ensures Tried(window, pass, j) == |window|
    decreases |window| - j
  {
    if j < |window| {
      TriesAll(window, pass, j + 1);
    }
  }

  // ---------------------------------------------------------------------
  // Acknowledgments

  /** The test with which `wait_ack` leaves its loop on an acknowledgment. */
  predicate EndsTransfer(t: Transfer, a: AckPacket) {
    a.seqNum == SEQ_NUM_ERROR || a.writeByte > |t.file| || a.writeByte == WRITE_BYTE_ERROR
  }

  /** The acknowledgments on which the loop body is defined. */
  predicate CanHandleAck(t: Transfer, st: SenderState, a: AckPacket) {
    st.phase.Waiting? && (EndsTransfer(t, a) || (st.base < |st.window| && 0 <= a.seqNum < |st.window|))
  }

  /** The slide: while the base slot is acknowledged and the count allows it, read the next
      packet of the file into that slot and send it. */
  function Slide(t: Transfer, st: SenderState, pass: set<nat>): (SenderState, seq<Packet>)
    requires st.base < |st.window|
    decreases st.noPackets
  {
    if !st.window[st.base].ack || st.noPackets <= 0 then (st, [])
    else
      var data := FRead(t, st.position);
      var st1 := st.(noPackets := st.noPackets - 1);
      if data == [] then (st1, [])
      else
        var (st2, out) := Slide(t, Refill(t, st1, data, pass), pass);
        (st2, (if st.base in pass then [NextPacket(t, st1, data)] else []) + out)
  }

  /** The slide leaves the phase, the errors, the confirmed offset and the timeout alone. */
  lemma {:induction false} SlideKeepsPhase(t: Transfer, st: SenderState, pass: set<nat>)
    requires st.base < |st.window|
    ensures var st' := Slide(t, st, pass).0;
      && st'.phase == st.phase && st'.maxErrors == st.maxErrors
      && st'.lastConfirmed == st.lastConfirmed && st'.timeout == st.timeout
    decreases st.noPackets
  {
    if st.window[st.base].ack && st.noPackets > 0 && FRead(t, st.position) != [] {
      SlideKeepsPhase(t, Refill(t, st.(noPackets := st.noPackets - 1), FRead(t, st.position), pass), pass);
    }
  }

  /** The packet the slide builds from `data` for the base slot. */
  function NextPacket(t: Transfer, st: SenderState, data: seq<Int8>): Packet
    requires |data| <= t.packetSize
  {
    Packet(Padded(t, data), st.base, st.noPackets, st.counter + |data|, |data|, false, false, false)
  }

  function Refill(t: Transfer, st: SenderState, data: seq<Int8>, pass: set<nat>): (st': SenderState)
    requires st.base < |st.window| && |data| <= t.packetSize
    ensures st'.base < |st'.window| && st'.noPackets == st.noPackets
  {
    st.(window := st.window[st.base := NextPacket(t, st, data).(sent := st.base in pass)],
        position := st.position + |data|,
        counter := st.counter + |data|,
        base := (st.base + 1) % |st.window|)
  }

  /** What `wait_ack` does with one acknowledgment: the new state and the packets sent. */
  function OnAck(t: Transfer, st: SenderState, a: AckPacket, pass: set<nat>): (SenderState, seq<Packet>)
    requires CanHandleAck(t, st, a)
  {
    var st0 := st.(maxErrors := 0);
    if EndsTransfer(t, a) then (st0.(phase := Draining(0)), [])
    else
      var st1 := st0.(timeout := DecreasedTimeout(st.timeout), lastConfirmed := Max(a.size, st.lastConfirmed));
      if st.window[a.seqNum].ack then (st1, [])
      else Slide(t, st1.(window := st.window[a.seqNum := st.window[a.seqNum].(ack := true)]), pass)
  }

  /** What `wait_ack` does when `recvfrom` times out. */
  function OnTimeout(t: Transfer, st: SenderState, pass: set<nat>): (SenderState, seq<Packet>) {
    if st.maxErrors + 1 >= t.maxErrors then
      (st.(maxErrors := st.maxErrors + 1, phase := Draining(0)), [])
    else
      var chosen := Offered(st.window, st.lastConfirmed) * pass;
      (st.(maxErrors := st.maxErrors + 1,
           timeout := IncreasedTimeout(st.timeout),
           window := MarkSent(st.window, chosen)),
       Transmission(st.window, chosen, |st.window|))
  }

  /** The end of `main_sender`: the value returned, and the abort packet if it gave up. */
  function Finish(t: Transfer, st: SenderState): (SenderState, seq<Packet>)
    requires st.phase.Draining?
  {
    var st1 := st.(timeout := 0);
    if st.phase.ret == WRITE_BYTE_ERROR then (st1.(phase := Closed(TRANSFER_ERROR)), [])
    else if st.maxErrors >= t.maxErrors then (st1.(phase := Closed(TRANSFER_ERROR)), [AbortPacket(t.packetSize)])
    else (st1.(phase := Closed(EXIT_SUCCESS)), [])
  }

  // ---------------------------------------------------------------------
  // What the window means

  /** The sender regards packet `k` as delivered: its slot is flagged, or was reused since. */
  predicate Acked(t: Transfer, st: SenderState, c: nat, k: nat) {
    var w := SenderWindow(t);
    k + w < c || (k < c && |st.window| == w && 0 < w && st.window[Slot(w, k)].ack)
  }

  /** The slot of packet `k` holds exactly packet `k`. */
  predicate SlotHolds(t: Transfer, st: SenderState, k: nat)
    requires |st.window| == SenderWindow(t) > 0
  {
    IsChunk(t, st.window[Slot(SenderWindow(t), k)], k)
  }

  /** The window after `c` packets have been read, while a slide may be under way. */
  predicate Sliding(t: Transfer, st: SenderState, c: nat) {
    var w := SenderWindow(t);
    && |st.window| == w <= c <= PacketCount(t)
    && st.base == Slot(w, c)
    && st.position == st.counter == Offset(t, c)
    && (c < PacketCount(t) ==> st.noPackets == PacketCount(t) - (c - w))
    && (c == PacketCount(t) ==> 0 <= st.noPackets <= w)
    && (forall k :: c - w <= k < c ==> SlotHolds(t, st, k))
    && (!st.phase.Closed? ==> GoodTimeout(st.timeout))
  }

  /** The window between two events: while file bytes remain, the base is unacknowledged. */
  predicate SenderLayout(t: Transfer, st: SenderState, c: nat) {
    && Sliding(t, st, c)
    && (c < PacketCount(t) ==> 0 < SenderWindow(t) && !st.window[st.base].ack)
  }

  /** The packets `j` in `lo..hi` that the loss simulator lets through, as first sent. */
  function NewPackets(t: Transfer, lo: nat, hi: nat, pass: set<nat>): seq<Packet>
    requires lo <= hi
    decreases hi - lo
  {
    if lo == hi then []
    else (if Slot(SenderWindow(t), lo) in pass then [PacketOf(t, lo, false)] else []) + NewPackets(t, lo + 1, hi, pass)
  }

  /** The initial fill is a proper window, with nothing acknowledged. */
  lemma FilledLayout(t: Transfer)
    ensures SenderLayout(t, FilledSender(t), SenderWindow(t))
    ensures forall k :: !Acked(t, FilledSender(t), SenderWindow(t), k)
  {
    var w := SenderWindow(t);
    assert Slot(w, w) == 0;
    assert forall k :: 0 <= k < w ==> Slot(w, k) == k;
  }

  /** Every packet still in the window, and only those, can be unacknowledged. */
  lemma UnackedInWindow(t: Transfer, st: SenderState, c: nat, k: nat)
    requires Sliding(t, st, c) && k < c && !Acked(t, st, c, k)
    ensures c - SenderWindow(t) <= k && 0 < SenderWindow(t)
    ensures SlotHolds(t, st, k) && !st.window[Slot(SenderWindow(t), k)].ack
  {
  }

  /** Refilling an acknowledged base slot reads packet `c`, and leaves every verdict alone. */
  lemma RefillStep(t: Transfer, st: SenderState, c: nat, pass: set<nat>)
      returns (c1: nat)
    requires Sliding(t, st, c) && c < PacketCount(t) && 0 < |st.window|
    requires st.window[st.base].ack
    ensures FRead(t, st.position) != []
    ensures c1 == c + 1
    ensures var st1 := st.(noPackets := st.noPackets - 1);
      && Sliding(t, Refill(t, st1, Chunk(t, c), pass), c1)
      && NextPacket(t, st1, Chunk(t, c)) == PacketOf(t, c, false)
      && forall k :: Acked(t, Refill(t, st1, Chunk(t, c), pass), c1, k) <==> Acked(t, st, c, k)
  {
    c1 := c + 1;
    var w := SenderWindow(t);
    var st1 := st.(noPackets := st.noPackets - 1);
    var st2 := Refill(t, st1, Chunk(t, c), pass);
    ChunkShape(t, c);
    SlotNext(w, c);
    assert Slot(w, c) == Slot(w, c - w);
    forall k | c1 - w <= k < c1
      ensures SlotHolds(t, st2, k)
    {
      if k < c {
        SlotsDiffer(w, c - w, k);
        assert SlotHolds(t, st, k);
      }
    }
    forall k: nat
      ensures Acked(t, st2, c1, k) <==> Acked(t, st, c, k)
    {
      if c - w < k < c {
        SlotsDiffer(w, c - w, k);
      }
    }
  }

  /** While bytes remain the count never stops the slide, so an acknowledged base is refilled. */
  lemma SlideContinues(t: Transfer, st: SenderState, c: nat, pass: set<nat>) returns (st2: SenderState, c1: nat)
    requires Sliding(t, st, c) && c < PacketCount(t) && 0 < |st.window|
    requires st.window[st.base].ack
    ensures c1 == c + 1 && Sliding(t, st2, c1) && |st2.window| == |st.window|
    ensures Slide(t, st, pass).0 == Slide(t, st2, pass).0
    ensures Slide(t, st, pass).1 ==
              (if Slot(SenderWindow(t), c) in pass then [PacketOf(t, c, false)] else []) + Slide(t, st2, pass).1
    ensures forall k :: Acked(t, st2, c1, k) <==> Acked(t, st, c, k)
    ensures st2.phase == st.phase && st2.maxErrors == st.maxErrors
    ensures st2.lastConfirmed == st.lastConfirmed && st2.timeout == st.timeout
  {
    c1 := RefillStep(t, st, c, pass);
    st2 := Refill(t, st.(noPackets := st.noPackets - 1), Chunk(t, c), pass);
  }

  /** At the end of the file an acknowledged base only costs one count. */
  lemma SlideEnds(t: Transfer, st: SenderState, c: nat, pass: set<nat>)
    requires Sliding(t, st, c) && c == PacketCount(t) && 0 < |st.window|
    requires st.window[st.base].ack && st.noPackets > 0
    ensures Slide(t, st, pass) == (st.(noPackets := st.noPackets - 1), [])
    ensures SenderLayout(t, st.(noPackets := st.noPackets - 1), c)
    ensures forall k :: Acked(t, st.(noPackets := st.noPackets - 1), c, k) <==> Acked(t, st, c, k)
  {
    ChunkShape(t, c);
    var st1 := st.(noPackets := st.noPackets - 1);
    forall k | c - |st.window| <= k < c
      ensures SlotHolds(t, st1, k)
    {
      assert SlotHolds(t, st, k);
    }
  }

  /** The count is not used up while file bytes remain. */
  lemma CountOutlastsFile(t: Transfer, st: SenderState, c: nat)
    requires Sliding(t, st, c) && 0 < |st.window| && (!st.window[st.base].ack || st.noPackets <= 0)
    ensures SenderLayout(t, st, c)
  {
  }

  /** The slide, run to its end: it stops only at an unacknowledged base or at the end of
      the file, never because of its count; it moves no packet's verdict; and it sends
      exactly the packets it reads that the loss simulator lets through. */
  lemma {:induction false} SlideRun(t: Transfer, st: SenderState, c: nat, pass: set<nat>) returns (c': nat)
    requires Sliding(t, st, c) && 0 < |st.window|
    ensures c <= c' && SenderLayout(t, Slide(t, st, pass).0, c')
    ensures forall k :: Acked(t, Slide(t, st, pass).0, c', k) <==> Acked(t, st, c, k)
    ensures Slide(t, st, pass).1 == NewPackets(t, c, c', pass)
    ensures Slide(t, st, pass).0.phase == st.phase && Slide(t, st, pass).0.maxErrors == st.maxErrors
    ensures Slide(t, st, pass).0.lastConfirmed == st.lastConfirmed && Slide(t, st, pass).0.timeout == st.timeout
    decreases PacketCount(t) - c
  {
    hide Acked, Refill, SenderLayout, FRead, PacketOf, NextPacket;
    if !st.window[st.base].ack || st.noPackets <= 0 {
      CountOutlastsFile(t, st, c);
      c' := c;
    } else if c == PacketCount(t) {
      SlideEnds(t, st, c, pass);
      c' := c;
    } else {
      var st2, c1 := SlideContinues(t, st, c, pass);
      c' := SlideRun(t, st2, c1, pass);
    }
  }

  /** One data acknowledgment: exactly the present occupant of the named slot becomes
      acknowledged, whichever packet the acknowledgment was meant for. */
  lemma AckMarksOccupant(t: Transfer, st: SenderState, c: nat, a: AckPacket, pass: set<nat>) returns (c': nat)
    requires SenderLayout(t, st, c) && CanHandleAck(t, st, a) && !EndsTransfer(t, a)
    ensures c <= c' && SenderLayout(t, OnAck(t, st, a, pass).0, c')
    ensures forall k :: Acked(t, OnAck(t, st, a, pass).0, c', k) <==>
              Acked(t, st, c, k) || k == Occupant(SenderWindow(t), c - SenderWindow(t), a.seqNum)
    ensures OnAck(t, st, a, pass).1 == NewPackets(t, c, c', pass)
    ensures OnAck(t, st, a, pass).0.phase == Waiting && OnAck(t, st, a, pass).0.maxErrors == 0
    ensures OnAck(t, st, a, pass).0.lastConfirmed == Max(a.size, st.lastConfirmed)
  {
    var w := SenderWindow(t);
    var o := Occupant(w, c - w, a.seqNum);
    TimeoutStaysGood(st.timeout);
    var st1 := st.(maxErrors := 0, timeout := DecreasedTimeout(st.timeout),
                   lastConfirmed := Max(a.size, st.lastConfirmed));
    if st.window[a.seqNum].ack {
      c' := c;
      forall k | c - w <= k < c
        ensures SlotHolds(t, st1, k)
      {
        assert SlotHolds(t, st, k);
      }
    } else {
      var st2 := st1.(window := st.window[a.seqNum := st.window[a.seqNum].(ack := true)]);
      MarkOne(t, st, st2, c, a.seqNum);
      c' := SlideRun(t, st2, c, pass);
    }
  }

  /** Flagging one slot acknowledges its occupant and nobody else. */
  lemma MarkOne(t: Transfer, st: SenderState, st2: SenderState, c: nat, s: nat)
    requires Sliding(t, st, c) && s < |st.window| && GoodTimeout(st2.timeout)
    requires st2 == st.(maxErrors := st2.maxErrors, timeout := st2.timeout, lastConfirmed := st2.lastConfirmed,
                        window := st.window[s := st.window[s].(ack := true)])
    ensures Sliding(t, st2, c)
    ensures forall k :: Acked(t, st2, c, k) <==>
              Acked(t, st, c, k) || k == Occupant(SenderWindow(t), c - SenderWindow(t), s)
  {
    var w := SenderWindow(t);
    var o := Occupant(w, c - w, s);
    forall k | c - w <= k < c
      ensures SlotHolds(t, st2, k)
      ensures k != o ==> Slot(w, k) != s
    {
      assert SlotHolds(t, st, k);
      if k != o {
        SlotsDiffer(w, Min(k, o), Max(k, o));
      }
    }
  }

  /** Both timeout updates keep the timeout in range and on the grid of time units. */
  lemma TimeoutStaysGood(timeout: int)
    requires GoodTimeout(timeout)
    ensures GoodTimeout(IncreasedTimeout(timeout)) && GoodTimeout(DecreasedTimeout(timeout))
    ensures timeout < MAX_TIMEOUT <==> IncreasedTimeout(timeout) == timeout + TIME_UNIT
    ensures timeout > MIN_TIMEOUT <==> DecreasedTimeout(timeout) == timeout - TIME_UNIT
  {
  }

  /** Flagging slots as sent, with a new error count and timeout, disturbs nothing else. */
  lemma SentFlagIsIdle(t: Transfer, st: SenderState, st': SenderState, c: nat, chosen: set<nat>)
    requires SenderLayout(t, st, c) && (st'.phase.Closed? || GoodTimeout(st'.timeout))
    requires st' == st.(window := MarkSent(st.window, chosen), maxErrors := st'.maxErrors,
                        timeout := st'.timeout, phase := st'.phase)
    ensures SenderLayout(t, st', c)
    ensures forall k :: Acked(t, st', c, k) <==> Acked(t, st, c, k)
  {
    forall k | c - SenderWindow(t) <= k < c
      ensures SlotHolds(t, st', k)
    {
      assert SlotHolds(t, st, k);
    }
  }

  /** Counters and phase are no part of what the window means. */
  lemma SenderKept(t: Transfer, st: SenderState, st': SenderState, c: nat)
    requires SenderLayout(t, st, c) && (st'.phase.Closed? || (!st.phase.Closed? && st'.timeout == st.timeout))
    requires st' == st.(maxErrors := st'.maxErrors, timeout := st'.timeout, phase := st'.phase)
    ensures SenderLayout(t, st', c)
    ensures forall k :: Acked(t, st', c, k) <==> Acked(t, st, c, k)
  {
    forall k | c - SenderWindow(t) <= k < c
      ensures SlotHolds(t, st', k)
    {
      assert SlotHolds(t, st, k);
    }
  }
}
