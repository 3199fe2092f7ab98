/** What the events a sender has seen say about its counters, its timeout, its window flags,
    and the packets it sends. */
module SenderHistory {
  import opened Protocol
  import opened Chunks
  import opened Sender
  import opened SenderRuns
  import opened Network

  /** The sender as it enters its waiting loop. */
  function Start(t: Transfer, slots: set<nat>): SenderState {
    SendWindow(FilledSender(t), slots).0
  }

  /** The packets sent on one event. */
  function Output(t: Transfer, st: SenderState, e: Event): seq<Packet>
    requires st.phase.Waiting? && (e.Ack? ==> CanHandleAck(t, st, e.a))
  {
    match e
    case Ack(a, slots) => OnAck(t, st, a, slots).1
    case Expiry(slots) => OnTimeout(t, st, slots).1
  }

  /** The events before the last one, and the last one. */
  lemma {:induction false} LastEvent(t: Transfer, st: SenderState, events: seq<Event>)
    requires events != [] && Plausible(t, st, events)
    ensures var before, e := events[..|events| - 1], events[|events| - 1];
      && Plausible(t, st, before)
      && var m := After(t, st, before);
         && m.phase.Waiting? && (e.Ack? ==> CanHandleAck(t, m, e.a)) && After(t, st, events) == Handle(t, m, e)
    decreases |events|
  {
    if |events| > 1 {
      var st1 := Handle(t, st, events[0]);
      hide Handle, CanHandleAck;
      LastEvent(t, st1, events[1..]);
      var before := events[..|events| - 1];
      assert before[0] == events[0] && before[1..] == events[1..][..|events| - 2];
      assert events[1..][|events| - 2] == events[|events| - 1];
    }
  }

  // ---------------------------------------------------------------------
  // Errors, confirmed offset, timeout and phase, counted from the events alone

  /** The timeouts since the last acknowledgment. */
  function Errors(events: seq<Event>): nat {
    if events == [] || events[|events| - 1].Ack? then 0 else 1 + Errors(events[..|events| - 1])
  }

  /** An acknowledgment that does not end the waiting. */
  predicate IsData(t: Transfer, e: Event) {
    e.Ack? && !EndsTransfer(t, e.a)
  }

  /** The highest offset acknowledged. */
  function Confirmed(t: Transfer, events: seq<Event>): int {
    if events == [] then 0
    else
      var e, before := events[|events| - 1], Confirmed(t, events[..|events| - 1]);
      if IsData(t, e) then Max(e.a.size, before) else before
  }

  const LEVELS := (MAX_TIMEOUT - MIN_TIMEOUT) / TIME_UNIT

  /** The timeout, in units above the minimum: one down for every data acknowledgment, one up
      for every timeout that retransmits, and never beyond either bound. */
  function Level(t: Transfer, events: seq<Event>): int {
    if events == [] then (TIMEOUT - MIN_TIMEOUT) / TIME_UNIT
    else
      var e, before := events[|events| - 1], Level(t, events[..|events| - 1]);
      if IsData(t, e) then Max(before - 1, 0)
      else if e.Expiry? && Errors(events) < t.maxErrors then Min(before + 1, LEVELS)
      else before
  }

  /** The last event ended the waiting: an ending acknowledgment, or one timeout too many. */
  predicate Ended(t: Transfer, events: seq<Event>) {
    events != [] &&
    var e := events[|events| - 1];
    if e.Ack? then EndsTransfer(t, e.a) else Errors(events) >= t.maxErrors
  }

  lemma AckCounts(t: Transfer, st: SenderState, a: AckPacket, slots: set<nat>)
    requires CanHandleAck(t, st, a)
    ensures var st' := OnAck(t, st, a, slots).0;
      && st'.maxErrors == 0
      && (EndsTransfer(t, a) ==>
            st'.phase == Draining(0) && st'.lastConfirmed == st.lastConfirmed && st'.timeout == st.timeout)
      && (!EndsTransfer(t, a) ==>
            && st'.phase == Waiting && st'.lastConfirmed == Max(a.size, st.lastConfirmed)
            && st'.timeout == DecreasedTimeout(st.timeout))
  {
    if !EndsTransfer(t, a) && !st.window[a.seqNum].ack {
      SlideKeepsPhase(t, st.(maxErrors := 0, timeout := DecreasedTimeout(st.timeout),
                             lastConfirmed := Max(a.size, st.lastConfirmed),
                             window := st.window[a.seqNum := st.window[a.seqNum].(ack := true)]), slots);
    }
  }

  lemma ExpiryCounts(t: Transfer, st: SenderState, slots: set<nat>)
    requires st.phase.Waiting?
    ensures var st' := OnTimeout(t, st, slots).0;
      && st'.maxErrors == st.maxErrors + 1 && st'.lastConfirmed == st.lastConfirmed
      && (st'.maxErrors >= t.maxErrors ==> st'.phase == Draining(0) && st'.timeout == st.timeout)
      && (st'.maxErrors < t.maxErrors ==> st'.phase == Waiting && st'.timeout == IncreasedTimeout(st.timeout))
  {
  }

  /** For every run of the sender, with any acknowledgments: the errors, the confirmed offset,
      the timeout and the phase are what the list of events says. */
  lemma {:induction false} EventsDecide(t: Transfer, slots: set<nat>, events: seq<Event>)
    requires Plausible(t, Start(t, slots), events)
    ensures var st := After(t, Start(t, slots), events);
      && st.maxErrors == Errors(events)
      && st.lastConfirmed == Confirmed(t, events)
      && st.timeout == MIN_TIMEOUT + TIME_UNIT * Level(t, events)
      && 0 <= Level(t, events) <= LEVELS
      && st.phase == if Ended(t, events) then Draining(0) else Waiting
    decreases |events|
  {
    if events != [] {
      hide OnAck, OnTimeout, EndsTransfer;
      LastEvent(t, Start(t, slots), events);
      var before, e := events[..|events| - 1], events[|events| - 1];
      EventsDecide(t, slots, before);
      var m := After(t, Start(t, slots), before);
      match e {
        case Ack(a, pass) => AckCounts(t, m, a, pass);
        case Expiry(pass) => ExpiryCounts(t, m, pass);
      }
    }
  }

  // ---------------------------------------------------------------------
  // What a timeout sends

  /** Some acknowledgment of the run reached offset `n`. */
  predicate ConfirmedBy(events: seq<Event>, n: int) {
    exists i :: 0 <= i < |events| && events[i].Ack? && events[i].a.size >= n
  }

  lemma {:induction false} ConfirmedMeans(t: Transfer, slots: set<nat>, events: seq<Event>, n: int)
    requires Plausible(t, Start(t, slots), events) && After(t, Start(t, slots), events).phase.Waiting? && 0 < n
    ensures ConfirmedBy(events, n) <==> Confirmed(t, events) >= n
    decreases |events|
  {
    if events != [] {
      LastEvent(t, Start(t, slots), events);
      EventsDecide(t, slots, events);
      hide After, Plausible, Handle, Start, ConfirmedBy, EndsTransfer;
      ConfirmedMeans(t, slots, events[..|events| - 1], n);
      ConfirmedLast(events, n);
    }
  }

  lemma ConfirmedLast(events: seq<Event>, n: int)
    requires events != []
    ensures var before, e := events[..|events| - 1], events[|events| - 1];
      ConfirmedBy(events, n) <==> ConfirmedBy(before, n) || (e.Ack? && e.a.size >= n)
  {
    var before, e := events[..|events| - 1], events[|events| - 1];
    if ConfirmedBy(before, n) {
      var i :| 0 <= i < |before| && before[i].Ack? && before[i].a.size >= n;
      assert events[i] == before[i];
    }
    if ConfirmedBy(events, n) {
      var i :| 0 <= i < |events| && events[i].Ack? && events[i].a.size >= n;
      assert i < |before| ==> before[i] == events[i];
    }
  }

  /** Each packet names a higher slot than the one before it. */
  predicate InSlotOrder(out: seq<Packet>) {
    forall i, j :: 0 <= i < j < |out| ==> out[i].seqNum < out[j].seqNum
  }

  predicate SlotsBelow(out: seq<Packet>, n: nat) {
    forall i :: 0 <= i < |out| ==> out[i].seqNum < n
  }

  lemma {:induction false} TransmissionInOrder(window: seq<Packet>, chosen: set<nat>, n: nat)
    requires n <= |window| && forall j :: 0 <= j < |window| ==> window[j].seqNum == j
    ensures SlotsBelow(Transmission(window, chosen, n), n) && InSlotOrder(Transmission(window, chosen, n))
  {
    if n > 0 {
      TransmissionInOrder(window, chosen, n - 1);
    }
  }

  lemma SlotIsSent(window: seq<Packet>, chosen: set<nat>, j: nat)
    requires j < |window| && forall i :: 0 <= i < |window| ==> window[i].seqNum == i
    ensures window[j] in Transmission(window, chosen, |window|) <==> j in chosen
  {
    TransmissionMembers(window, chosen, |window|);
  }

  /** The window of a sender on any run: numbered slots, each with a packet of the file. */
  lemma WindowOnRuns(t: Transfer, slots: set<nat>, events: seq<Event>) returns (c: nat)
    requires Plausible(t, Start(t, slots), events)
    ensures SenderLayout(t, After(t, Start(t, slots), events), c)
    ensures var window := After(t, Start(t, slots), events).window;
      && |window| == SenderWindow(t)
      && forall j :: 0 <= j < |window| ==> window[j].seqNum == j && 0 < window[j].noBytesToSend
  {
    FilledLayout(t);
    SentFlagIsIdle(t, FilledSender(t), Start(t, slots), SenderWindow(t), Unacked(FilledSender(t).window) * slots);
    hide Start;
    c := RunKeeps(t, Start(t, slots), SenderWindow(t), events);
    var st := After(t, Start(t, slots), events);
    forall j: nat | j < |st.window|
      ensures st.window[j].seqNum == j && 0 < st.window[j].noBytesToSend
    {
      WindowIsGenuine(t, st, c, j);
      var k := Occupant(SenderWindow(t), c - SenderWindow(t), j);
      OffsetGrows(t, 0, k);
      OffsetGrows(t, k, k + 1);
    }
  }

  /** For every run of the sender, with any acknowledgments, and any loss: a timeout with errors
      left sends a slot of the window that passes the loss simulator, unless the slot is
      acknowledged and some acknowledgment of the run reached its offset. It sends nothing else,
      and it sends in the order of the slots. */
  lemma ResendIsExact(t: Transfer, slots: set<nat>, events: seq<Event>, pass: set<nat>)
    requires Plausible(t, Start(t, slots), events) && !Ended(t, events) && Errors(events) + 1 < t.maxErrors
    ensures var st := After(t, Start(t, slots), events);
      && st.phase.Waiting?
      && var out := Output(t, st, Expiry(pass));
         && (forall j: nat :: j < |st.window| ==>
               (st.window[j] in out <==>
                  j in pass && !(st.window[j].ack && ConfirmedBy(events, st.window[j].noBytesToSend))))
         && (forall p :: p in out ==> exists j :: 0 <= j < |st.window| && st.window[j] == p)
         && InSlotOrder(out)
  {
    hide Start, After, Plausible;
    var st := After(t, Start(t, slots), events);
    EventsDecide(t, slots, events);
    var c := WindowOnRuns(t, slots, events);
    hide SenderLayout, Ended, Errors;
    var chosen := Offered(st.window, st.lastConfirmed) * pass;
    TransmissionMembers(st.window, chosen, |st.window|);
    TransmissionInOrder(st.window, chosen, |st.window|);
    var out := Output(t, st, Expiry(pass));
    assert out == Transmission(st.window, chosen, |st.window|);
    hide Output, Transmission, ConfirmedBy, Confirmed;
    forall j: nat | j < |st.window|
      ensures st.window[j] in out <==>
                j in pass && !(st.window[j].ack && ConfirmedBy(events, st.window[j].noBytesToSend))
    {
      SlotIsSent(st.window, chosen, j);
      ConfirmedMeans(t, slots, events, st.window[j].noBytesToSend);
    }
  }

  /** The first pass sends exactly the slots that pass the loss simulator, in their order. */
  lemma FirstPassIsExact(t: Transfer, slots: set<nat>)
    ensures var window, out := FilledSender(t).window, SendWindow(FilledSender(t), slots).1;
      && (forall j: nat :: j < |window| ==> (window[j] in out <==> j in slots))
      && (forall p :: p in out ==> p in window) && InSlotOrder(out)
  {
    var window := FilledSender(t).window;
    var chosen := Unacked(window) * slots;
    FilledLayout(t);
    forall j: nat | j < |window|
      ensures window[j].seqNum == j
    {
      WindowIsGenuine(t, FilledSender(t), SenderWindow(t), j);
    }
    TransmissionMembers(window, chosen, |window|);
    TransmissionInOrder(window, chosen, |window|);
    hide FilledSender, Transmission;
    forall j: nat | j < |window|
      ensures window[j] in Transmission(window, chosen, |window|) <==> j in slots
    {
      SlotIsSent(window, chosen, j);
    }
  }

  /** Where a pass stops: nothing before the last slot tried is a transmitted empty packet, and
      if slots are left over the last slot tried is one. */
  lemma {:induction false} TriedMeans(window: seq<Packet>, pass: set<nat>, j: nat)
    requires j <= |window|
    ensures var n, chosen := Tried(window, pass, j), Unacked(window) * pass;
      && (forall i: nat :: j <= i < n - 1 && i in chosen ==> window[i].size != 0)
      && (n < |window| ==> j < n && n - 1 in chosen && window[n - 1].size == 0)
    decreases |window| - j
  {
    if j < |window| {
      TriedMeans(window, pass, j + 1);
    }
  }

  /** No packet but the last is empty. */
  predicate EmptyLast(out: seq<Packet>) {
    forall i :: 0 <= i < |out| - 1 ==> out[i].size != 0
  }

  lemma {:induction false} NoneEmpty(window: seq<Packet>, chosen: set<nat>, n: nat)
    requires n <= |window| && forall i: nat :: i < n && i in chosen ==> window[i].size != 0
    ensures forall p :: p in Transmission(window, chosen, n) ==> p.size != 0
  {
    TransmissionMembers(window, chosen, n);
  }

  lemma EmptyComesLast(window: seq<Packet>, chosen: set<nat>, n: nat)
    requires n <= |window| && forall i: nat :: i < n - 1 && i in chosen ==> window[i].size != 0
    ensures EmptyLast(Transmission(window, chosen, n))
    ensures var out := Transmission(window, chosen, n);
      0 < n && n - 1 in chosen ==> out != [] && out[|out| - 1] == window[n - 1]
  {
    if n > 0 {
      NoneEmpty(window, chosen, n - 1);
      var before, out := Transmission(window, chosen, n - 1), Transmission(window, chosen, n);
      forall i | 0 <= i < |out| - 1
        ensures out[i].size != 0
      {
        assert out[i] == before[i] && before[i] in before;
      }
    }
  }

  /** On any window, a pass sends unacknowledged slots that pass the loss simulator, in their
      order; only the last packet it sends can be empty, and it leaves such a slot out only
      after sending an empty packet. The slots sent are flagged, and nothing else changes. */
  lemma PassStopsAtEmpty(st: SenderState, pass: set<nat>)
    requires forall j :: 0 <= j < |st.window| ==> st.window[j].seqNum == j
    ensures var window, (st', out) := st.window, SendPass(st, pass);
      && InSlotOrder(out) && EmptyLast(out) && (forall p :: p in out ==> p in window)
      && (forall j: nat :: j < |window| && window[j] in out ==> !window[j].ack && j in pass)
      && (forall j: nat :: j < |window| && !window[j].ack && j in pass && window[j] !in out ==>
            out != [] && out[|out| - 1].size == 0)
      && st' == st.(window := st'.window) && |st'.window| == |window|
      && (forall j: nat :: j < |window| ==>
            st'.window[j] == if window[j] in out then window[j].(sent := true) else window[j])
  {
    var window, chosen, n := st.window, Unacked(st.window) * pass, Tried(st.window, pass, 0);
    hide Tried, Transmission, MarkSent, SendPass, InSlotOrder, EmptyLast;
    TriedMeans(window, pass, 0);
    TransmissionInOrder(window, chosen, n);
    EmptyComesLast(window, chosen, n);
    PassParts(st, pass);
    PassMembers(window, chosen, n);
  }

  lemma PassMembers(window: seq<Packet>, chosen: set<nat>, n: nat)
    requires n <= |window| && forall j :: 0 <= j < |window| ==> window[j].seqNum == j
    ensures forall j: nat :: j < |window| ==> (window[j] in Transmission(window, chosen, n) <==> j < n && j in chosen)
    ensures forall p :: p in Transmission(window, chosen, n) ==> p in window
  {
    TransmissionMembers(window, chosen, n);
    hide Transmission;
  }

  lemma PassParts(st: SenderState, pass: set<nat>)
    ensures var window, chosen, n := st.window, Unacked(st.window) * pass, Tried(st.window, pass, 0);
            var (st', out) := SendPass(st, pass);
      && out == Transmission(window, chosen, n)
      && st' == st.(window := st'.window) && |st'.window| == |window|
      && (forall j: nat :: j < |window| ==>
            st'.window[j] == if j < n && j in chosen then window[j].(sent := true) else window[j])
  {
    hide Transmission, Tried;
  }

  // ---------------------------------------------------------------------
  // What an acknowledgment sends

  /** Each packet ends further on in the file than the one before it. */
  predicate InFileOrder(out: seq<Packet>) {
    forall i, j :: 0 <= i < j < |out| ==> out[i].noBytesToSend < out[j].noBytesToSend
  }

  predicate EndsBeyond(out: seq<Packet>, n: int) {
    forall i :: 0 <= i < |out| ==> out[i].noBytesToSend > n
  }

  lemma {:induction false} NewPacketsInOrder(t: Transfer, lo: nat, hi: nat, pass: set<nat>)
    requires lo <= hi <= PacketCount(t)
    ensures EndsBeyond(NewPackets(t, lo, hi, pass), Offset(t, lo)) && InFileOrder(NewPackets(t, lo, hi, pass))
    decreases hi - lo
  {
    if lo < hi {
      NewPacketsInOrder(t, lo + 1, hi, pass);
      OffsetGrows(t, lo, lo + 1);
    }
  }

  /** For every run of the sender: one more data acknowledgment sends exactly the packets it
      makes the sender read that pass the loss simulator, in the order of the file. */
  lemma AckSendsWhatItReads(t: Transfer, slots: set<nat>, events: seq<Event>, a: AckPacket, pass: set<nat>)
      returns (c: nat, c': nat)
    requires Plausible(t, Start(t, slots), events) && !EndsTransfer(t, a)
    requires CanHandleAck(t, After(t, Start(t, slots), events), a)
    ensures var st := After(t, Start(t, slots), events);
            var st', out := Handle(t, st, Ack(a, pass)), Output(t, st, Ack(a, pass));
      && c <= c' <= PacketCount(t) && st.counter == Offset(t, c) && st'.counter == Offset(t, c')
      && (forall p :: p in out <==>
            exists k :: c <= k < c' && Slot(SenderWindow(t), k) in pass && PacketOf(t, k, false) == p)
      && InFileOrder(out)
  {
    hide Start, After, Plausible, OnAck;
    var st := After(t, Start(t, slots), events);
    c := WindowOnRuns(t, slots, events);
    c' := AckMarksOccupant(t, st, c, a, pass);
    NewPacketsMembers(t, c, c', pass);
    NewPacketsInOrder(t, c, c', pass);
    hide NewPackets, PacketOf, SlotHolds, Slot;
  }

  /** For every run of the sender: an acknowledgment for a slot already acknowledged changes the
      errors, the confirmed offset and the timeout only, and sends nothing. */
  lemma RepeatedAckIsIdle(t: Transfer, slots: set<nat>, events: seq<Event>, a: AckPacket, pass: set<nat>)
    requires Plausible(t, Start(t, slots), events) && !EndsTransfer(t, a)
    requires CanHandleAck(t, After(t, Start(t, slots), events), a)
    requires After(t, Start(t, slots), events).window[a.seqNum].ack
    ensures var st := After(t, Start(t, slots), events);
            var st' := Handle(t, st, Ack(a, pass));
      && st' == st.(maxErrors := 0, lastConfirmed := st'.lastConfirmed, timeout := st'.timeout)
      && Output(t, st, Ack(a, pass)) == []
  {
  }

  // ---------------------------------------------------------------------
  // The sent flags

  /** Everything sent so far. */
  function Sent(t: Transfer, slots: set<nat>, events: seq<Event>): seq<Packet>
    requires Plausible(t, Start(t, slots), events)
    decreases |events|
  {
    if events == [] then SendWindow(FilledSender(t), slots).1
    else
      LastEvent(t, Start(t, slots), events);
      var before, e := events[..|events| - 1], events[|events| - 1];
      Sent(t, slots, before) + Output(t, After(t, Start(t, slots), before), e)
  }

  /** Packet `k` is among those sent. */
  ghost predicate WasSent(t: Transfer, sent: seq<Packet>, k: nat) {
    exists p :: p in sent && IsChunk(t, p, k)
  }

  /** The flags of the window after `c` packets were read: a slot is flagged sent exactly if its
      packet has been sent; and nothing else has been sent than packets read. */
  ghost predicate FlagsTell(t: Transfer, st: SenderState, c: nat, sent: seq<Packet>) {
    && |st.window| == SenderWindow(t) <= c
    && (forall k: nat :: c - SenderWindow(t) <= k < c ==>
          (st.window[Slot(SenderWindow(t), k)].sent <==> WasSent(t, sent, k)))
    && (forall p :: p in sent ==> exists k: nat :: k < c && IsChunk(t, p, k))
  }

  lemma OneChunk(t: Transfer, p: Packet, j: nat, k: nat)
    ensures IsChunk(t, p, j) && IsChunk(t, p, k) ==> j == k
  {
    if j < PacketCount(t) && k < PacketCount(t) {
      OffsetNamesChunk(t, j, k);
    }
  }

  /** What joins the packets sent joins what was sent. */
  lemma WasSentEither(t: Transfer, sent: seq<Packet>, out: seq<Packet>, k: nat)
    ensures WasSent(t, sent + out, k) <==> WasSent(t, sent, k) || WasSent(t, out, k)
  {
    hide IsChunk;
    assert forall p :: p in sent + out <==> p in sent || p in out;
  }

  /** A pass over the window sends packet `k` exactly if its slot is chosen. */
  lemma PassSends(t: Transfer, st: SenderState, c: nat, chosen: set<nat>, k: nat)
    requires SenderLayout(t, st, c) && c - SenderWindow(t) <= k < c
    ensures WasSent(t, Transmission(st.window, chosen, |st.window|), k) <==> Slot(SenderWindow(t), k) in chosen
  {
    var w := SenderWindow(t);
    var out := Transmission(st.window, chosen, |st.window|);
    TransmissionMembers(st.window, chosen, |st.window|);
    assert SlotHolds(t, st, k);
    if Slot(w, k) in chosen {
      assert st.window[Slot(w, k)] in out;
    }
    if WasSent(t, out, k) {
      var p :| p in out && IsChunk(t, p, k);
      var i: nat :| 0 <= i < |st.window| && i in chosen && st.window[i] == p;
      WindowIsGenuine(t, st, c, i);
      OneChunk(t, p, Occupant(w, c - w, i), k);
    }
  }

  lemma PassTells(t: Transfer, st: SenderState, st': SenderState, c: nat, sent: seq<Packet>, chosen: set<nat>)
    requires SenderLayout(t, st, c) && FlagsTell(t, st, c, sent)
    requires st'.window == MarkSent(st.window, chosen)
    ensures FlagsTell(t, st', c, sent + Transmission(st.window, chosen, |st.window|))
  {
    var w := SenderWindow(t);
    var out := Transmission(st.window, chosen, |st.window|);
    forall k: nat | c - w <= k < c
      ensures st'.window[Slot(w, k)].sent <==> WasSent(t, sent + out, k)
    {
      PassSends(t, st, c, chosen, k);
      WasSentEither(t, sent, out, k);
    }
    TransmissionMembers(st.window, chosen, |st.window|);
    forall p | p in sent + out
      ensures exists k: nat :: k < c && IsChunk(t, p, k)
    {
      if p !in sent {
        var i: nat :| 0 <= i < |st.window| && i in chosen && st.window[i] == p;
        WindowIsGenuine(t, st, c, i);
      }
    }
  }

  /** The flags after a slide from `c` to `c'` packets: what stays in the window keeps its flag,
      and what is read is flagged sent exactly if it passes the loss simulator. */
  predicate FlagsSlide(t: Transfer, st: SenderState, st': SenderState, c: nat, c': nat, pass: set<nat>) {
    var w := SenderWindow(t);
    && |st.window| == |st'.window| == w <= c <= c' && 0 < w
    && forall k: nat :: c' - w <= k < c' ==>
         st'.window[Slot(w, k)].sent == if k < c then st.window[Slot(w, k)].sent else Slot(w, k) in pass
  }

  lemma RefillFlags(t: Transfer, st: SenderState, c: nat, pass: set<nat>)
    requires Sliding(t, st, c) && 0 < |st.window|
    ensures var st2 := Refill(t, st.(noPackets := st.noPackets - 1), Chunk(t, c), pass);
      FlagsSlide(t, st, st2, c, c + 1, pass)
  {
    var w := SenderWindow(t);
    var st2 := Refill(t, st.(noPackets := st.noPackets - 1), Chunk(t, c), pass);
    forall k: nat | c + 1 - w <= k < c
      ensures Slot(w, k) != Slot(w, c)
    {
      SlotsDiffer(w, k, c);
    }
  }

  lemma FlagsCompose(t: Transfer, st: SenderState, st1: SenderState, st2: SenderState, c: nat, c2: nat, pass: set<nat>)
    requires FlagsSlide(t, st, st1, c, c + 1, pass) && FlagsSlide(t, st1, st2, c + 1, c2, pass)
    ensures FlagsSlide(t, st, st2, c, c2, pass)
  {
    hide Slot;
  }

  lemma ReadIsUnique(t: Transfer, st: SenderState, c: nat, c': nat)
    requires SenderLayout(t, st, c) && SenderLayout(t, st, c')
    ensures c == c'
  {
    OffsetGrows(t, Min(c, c'), Max(c, c'));
  }

  lemma {:induction false} SlideFlags(t: Transfer, st: SenderState, c: nat, c': nat, pass: set<nat>)
    requires Sliding(t, st, c) && 0 < |st.window| && SenderLayout(t, Slide(t, st, pass).0, c')
    ensures FlagsSlide(t, st, Slide(t, st, pass).0, c, c', pass)
    decreases PacketCount(t) - c
  {
    hide SlotHolds, Refill, FlagsSlide, PacketOf, NextPacket;
    if !st.window[st.base].ack || st.noPackets <= 0 {
      CountOutlastsFile(t, st, c);
      ReadIsUnique(t, st, c, c');
      NothingSlides(t, st, st, c, pass);
    } else if c == PacketCount(t) {
      SlideEnds(t, st, c, pass);
      ReadIsUnique(t, Slide(t, st, pass).0, c, c');
      NothingSlides(t, st, st.(noPackets := st.noPackets - 1), c, pass);
    } else {
      var c1 := RefillStep(t, st, c, pass);
      var st2 := Refill(t, st.(noPackets := st.noPackets - 1), Chunk(t, c), pass);
      assert Slide(t, st, pass).0 == Slide(t, st2, pass).0;
      SlideFlags(t, st2, c + 1, c', pass);
      RefillFlags(t, st, c, pass);
      FlagsCompose(t, st, st2, Slide(t, st, pass).0, c, c', pass);
    }
  }

  lemma NothingSlides(t: Transfer, st: SenderState, st': SenderState, c: nat, pass: set<nat>)
    requires Sliding(t, st, c) && 0 < |st.window| && st'.window == st.window
    ensures FlagsSlide(t, st, st', c, c, pass)
  {
  }

  /** The slide sends packet `k` of those it reads exactly if its slot passes. */
  lemma SlideSends(t: Transfer, c: nat, c': nat, pass: set<nat>, k: nat)
    requires c <= c' <= PacketCount(t) && k < c'
    ensures WasSent(t, NewPackets(t, c, c', pass), k) <==> c <= k && Slot(SenderWindow(t), k) in pass
  {
    NewPacketsMembers(t, c, c', pass);
    var out := NewPackets(t, c, c', pass);
    if c <= k && Slot(SenderWindow(t), k) in pass {
      assert PacketOf(t, k, false) in out && IsChunk(t, PacketOf(t, k, false), k);
    }
    if WasSent(t, out, k) {
      var p :| p in out && IsChunk(t, p, k);
      var j :| c <= j < c' && Slot(SenderWindow(t), j) in pass && PacketOf(t, j, false) == p;
      OneChunk(t, p, j, k);
    }
  }

  lemma SlideTells(t: Transfer, st: SenderState, st': SenderState, c: nat, c': nat, sent: seq<Packet>, pass: set<nat>)
    requires FlagsTell(t, st, c, sent) && FlagsSlide(t, st, st', c, c', pass) && c' <= PacketCount(t)
    ensures FlagsTell(t, st', c', sent + NewPackets(t, c, c', pass))
  {
    var w := SenderWindow(t);
    var out := NewPackets(t, c, c', pass);
    forall k: nat | c' - w <= k < c'
      ensures st'.window[Slot(w, k)].sent <==> WasSent(t, sent + out, k)
    {
      SlideSends(t, c, c', pass, k);
      WasSentEither(t, sent, out, k);
      if c <= k && WasSent(t, sent, k) {
        var p :| p in sent && IsChunk(t, p, k);
        var j: nat :| j < c && IsChunk(t, p, j);
        OneChunk(t, p, j, k);
      }
    }
    NewPacketsMembers(t, c, c', pass);
    forall p | p in sent + out
      ensures exists k: nat :: k < c' && IsChunk(t, p, k)
    {
      if p !in sent {
        var j: nat :| c <= j < c' && Slot(w, j) in pass && PacketOf(t, j, false) == p;
        assert IsChunk(t, p, j);
      }
    }
  }

  lemma AckTells(t: Transfer, st: SenderState, c: nat, sent: seq<Packet>, a: AckPacket, pass: set<nat>)
      returns (c': nat)
    requires SenderLayout(t, st, c) && FlagsTell(t, st, c, sent) && CanHandleAck(t, st, a)
    ensures SenderLayout(t, OnAck(t, st, a, pass).0, c')
    ensures FlagsTell(t, OnAck(t, st, a, pass).0, c', sent + OnAck(t, st, a, pass).1)
  {
    if EndsTransfer(t, a) {
      c' := c;
      SenderKept(t, st, OnAck(t, st, a, pass).0, c);
      assert sent + [] == sent;
    } else {
      c' := AckMarksOccupant(t, st, c, a, pass);
      AckFlags(t, st, c, c', a, pass);
      ReadAtMost(t, OnAck(t, st, a, pass).0, c');
      hide OnAck, SenderLayout, FlagsTell, FlagsSlide;
      SlideTells(t, st, OnAck(t, st, a, pass).0, c, c', sent, pass);
    }
  }

  lemma ReadAtMost(t: Transfer, st: SenderState, c: nat)
    requires SenderLayout(t, st, c)
    ensures c <= PacketCount(t)
  {
  }

  lemma AckFlags(t: Transfer, st: SenderState, c: nat, c': nat, a: AckPacket, pass: set<nat>)
    requires SenderLayout(t, st, c) && CanHandleAck(t, st, a) && !EndsTransfer(t, a)
    requires SenderLayout(t, OnAck(t, st, a, pass).0, c')
    ensures FlagsSlide(t, st, OnAck(t, st, a, pass).0, c, c', pass)
  {
    var st1 := st.(maxErrors := 0, timeout := DecreasedTimeout(st.timeout),
                   lastConfirmed := Max(a.size, st.lastConfirmed));
    if st.window[a.seqNum].ack {
      assert OnAck(t, st, a, pass).0 == st1;
      OffsetGrows(t, Min(c, c'), Max(c, c'));
      NothingSlides(t, st, st1, c, pass);
    } else {
      TimeoutStaysGood(st.timeout);
      var st2 := st1.(window := st.window[a.seqNum := st.window[a.seqNum].(ack := true)]);
      MarkOne(t, st, st2, c, a.seqNum);
      SlideFlags(t, st2, c, c', pass);
    }
  }

  lemma ExpiryTells(t: Transfer, st: SenderState, c: nat, sent: seq<Packet>, pass: set<nat>)
    requires SenderLayout(t, st, c) && FlagsTell(t, st, c, sent) && st.phase.Waiting?
    ensures SenderLayout(t, OnTimeout(t, st, pass).0, c)
    ensures FlagsTell(t, OnTimeout(t, st, pass).0, c, sent + OnTimeout(t, st, pass).1)
  {
    var st', chosen := OnTimeout(t, st, pass).0, Offered(st.window, st.lastConfirmed) * pass;
    if st'.phase.Waiting? {
      TimeoutStaysGood(st.timeout);
      SentFlagIsIdle(t, st, st', c, chosen);
      PassTells(t, st, st', c, sent, chosen);
    } else {
      SenderKept(t, st, st', c);
      assert sent + [] == sent;
    }
  }

  lemma StartTells(t: Transfer, slots: set<nat>)
    ensures SenderLayout(t, Start(t, slots), SenderWindow(t))
    ensures FlagsTell(t, Start(t, slots), SenderWindow(t), SendWindow(FilledSender(t), slots).1)
  {
    var st, chosen := FilledSender(t), Unacked(FilledSender(t).window) * slots;
    FilledLayout(t);
    SentFlagIsIdle(t, st, Start(t, slots), SenderWindow(t), chosen);
    assert FlagsTell(t, st, SenderWindow(t), []);
    PassTells(t, st, Start(t, slots), SenderWindow(t), [], chosen);
    assert [] + SendWindow(st, slots).1 == SendWindow(st, slots).1;
  }

  /** For every run of the sender: a slot of the window is flagged sent exactly if its packet has
      been sent at least once, and no packet has been sent that was not read. */
  lemma {:induction false} SentFlagMeansSent(t: Transfer, slots: set<nat>, events: seq<Event>) returns (c: nat)
    requires Plausible(t, Start(t, slots), events)
    ensures SenderLayout(t, After(t, Start(t, slots), events), c)
    ensures FlagsTell(t, After(t, Start(t, slots), events), c, Sent(t, slots, events))
    decreases |events|
  {
    if events == [] {
      c := SenderWindow(t);
      StartTells(t, slots);
    } else {
      hide SenderLayout, FlagsTell, OnAck, OnTimeout, Start;
      LastEvent(t, Start(t, slots), events);
      var before, e := events[..|events| - 1], events[|events| - 1];
      c := SentFlagMeansSent(t, slots, before);
      var m, sent := After(t, Start(t, slots), before), Sent(t, slots, before);
      match e {
        case Ack(a, pass) => c := AckTells(t, m, c, sent, a, pass);
        case Expiry(pass) => ExpiryTells(t, m, c, sent, pass);
      }
    }
  }

  // ---------------------------------------------------------------------
  // The count

  /** An event that acknowledges a slot for the first time since it was filled. */
  predicate Settles(t: Transfer, st: SenderState, e: Event) {
    IsData(t, e) && 0 <= e.a.seqNum < |st.window| && !st.window[e.a.seqNum].ack
  }

  predicate BaseAcked(st: SenderState) {
    st.base < |st.window| && st.window[st.base].ack
  }

  /** How often the slide has asked for more of the file in vain: once for every first
      acknowledgment that leaves the base acknowledged. */
  function EmptyReads(t: Transfer, slots: set<nat>, events: seq<Event>): nat
    requires Plausible(t, Start(t, slots), events)
    decreases |events|
  {
    if events == [] then 0
    else
      LastEvent(t, Start(t, slots), events);
      var before, e := events[..|events| - 1], events[|events| - 1];
      EmptyReads(t, slots, before) +
      if Settles(t, After(t, Start(t, slots), before), e) && BaseAcked(After(t, Start(t, slots), events)) then 1 else 0
  }

  /** The slide takes one off the count for every packet it reads, and one more if it ends
      with the base acknowledged. */
  lemma {:induction false} SlideCounts(t: Transfer, st: SenderState, c: nat, c': nat, pass: set<nat>)
    requires Sliding(t, st, c) && 0 < |st.window| && SenderLayout(t, Slide(t, st, pass).0, c')
    requires c == PacketCount(t) && BaseAcked(st) ==> 0 < st.noPackets
    ensures c <= c'
    ensures Slide(t, st, pass).0.noPackets ==
              st.noPackets - (c' - c) - (if BaseAcked(Slide(t, st, pass).0) then 1 else 0)
    ensures c == PacketCount(t) ==> Slide(t, st, pass).0.window == st.window
    decreases PacketCount(t) - c
  {
    hide SlotHolds, Refill, PacketOf, NextPacket;
    if !st.window[st.base].ack || st.noPackets <= 0 {
      CountOutlastsFile(t, st, c);
      ReadIsUnique(t, st, c, c');
    } else if c == PacketCount(t) {
      SlideEnds(t, st, c, pass);
      ReadIsUnique(t, Slide(t, st, pass).0, c, c');
    } else {
      var c1 := RefillStep(t, st, c, pass);
      var st2 := Refill(t, st.(noPackets := st.noPackets - 1), Chunk(t, c), pass);
      assert Slide(t, st, pass).0 == Slide(t, st2, pass).0;
      SlideCounts(t, st2, c + 1, c', pass);
    }
  }

  function Numbers(n: nat): (s: set<nat>)
    ensures |s| == n && forall j: nat :: j in s <==> j < n
  {
    if n == 0 then {} else Numbers(n - 1) + {n - 1}
  }

  lemma FewerUnacked(x: set<nat>, y: set<nat>)
    requires x <= y
    ensures |x| <= |y|
  {
    assert x + (y - x) == y && |x + (y - x)| == |x| + |y - x|;
  }

  lemma UnackedFit(window: seq<Packet>, j: nat)
    requires j < |window|
    ensures |Unacked(window)| <= |window|
    ensures window[j].ack ==> |Unacked(window)| < |window|
    ensures |Unacked(window[j := window[j].(ack := true)])| == |Unacked(window)| - (if window[j].ack then 0 else 1)
  {
    FewerUnacked(Unacked(window), Numbers(|window|));
    if window[j].ack {
      FewerUnacked(Unacked(window), Numbers(|window|) - {j});
    }
    assert Unacked(window[j := window[j].(ack := true)]) == Unacked(window) - {j};
  }

  /** The count after `c` packets were read and `empty` reads in vain; of those there have been
      no more than slots acknowledged. */
  predicate CountTells(t: Transfer, st: SenderState, c: nat, empty: nat) {
    && st.noPackets == PacketCount(t) - (c - SenderWindow(t)) - empty
    && (0 < empty ==> c == PacketCount(t))
    && |Unacked(st.window)| + empty <= SenderWindow(t)
  }

  lemma AckCountTells(t: Transfer, st: SenderState, c: nat, c': nat, empty: nat, a: AckPacket, pass: set<nat>)
    requires SenderLayout(t, st, c) && CountTells(t, st, c, empty) && CanHandleAck(t, st, a) && !EndsTransfer(t, a)
    requires !st.window[a.seqNum].ack && SenderLayout(t, OnAck(t, st, a, pass).0, c')
    ensures CountTells(t, OnAck(t, st, a, pass).0, c', empty + if BaseAcked(OnAck(t, st, a, pass).0) then 1 else 0)
  {
    var st1 := st.(maxErrors := 0, timeout := DecreasedTimeout(st.timeout),
                   lastConfirmed := Max(a.size, st.lastConfirmed));
    var st2 := st1.(window := st.window[a.seqNum := st.window[a.seqNum].(ack := true)]);
    TimeoutStaysGood(st.timeout);
    MarkOne(t, st, st2, c, a.seqNum);
    UnackedFit(st.window, a.seqNum);
    assert a.seqNum in Unacked(st.window);
    SlideCounts(t, st2, c, c', pass);
    var st' := OnAck(t, st, a, pass).0;
    assert st' == Slide(t, st2, pass).0;
    UnackedFit(st'.window, st'.base);
    hide Slide, OnAck, Sliding, Unacked;
  }

  /** For every run of the sender: the count is the packet count less one for every packet the
      slide has read and one for every read in vain, so it never stops the slide early and never
      becomes negative. */
  lemma {:induction false} CountIsExact(t: Transfer, slots: set<nat>, events: seq<Event>) returns (c: nat)
    requires Plausible(t, Start(t, slots), events)
    ensures SenderLayout(t, After(t, Start(t, slots), events), c)
    ensures CountTells(t, After(t, Start(t, slots), events), c, EmptyReads(t, slots, events))
    decreases |events|
  {
    if events == [] {
      c := SenderWindow(t);
      StartTells(t, slots);
      FewerUnacked(Unacked(Start(t, slots).window), Numbers(c));
    } else {
      LastEvent(t, Start(t, slots), events);
      var before, e := events[..|events| - 1], events[|events| - 1];
      hide Start;
      c := CountIsExact(t, slots, before);
      c := EventCountTells(t, After(t, Start(t, slots), before), c, EmptyReads(t, slots, before), e);
    }
  }

  lemma EventCountTells(t: Transfer, st: SenderState, c: nat, empty: nat, e: Event) returns (c': nat)
    requires SenderLayout(t, st, c) && CountTells(t, st, c, empty)
    requires st.phase.Waiting? && (e.Ack? ==> CanHandleAck(t, st, e.a))
    ensures SenderLayout(t, Handle(t, st, e), c')
    ensures CountTells(t, Handle(t, st, e), c',
                       empty + if Settles(t, st, e) && BaseAcked(Handle(t, st, e)) then 1 else 0)
  {
    c' := HandleKeeps(t, st, c, e);
    hide SenderLayout, CountTells, Slide;
    if Settles(t, st, e) {
      AckCountTells(t, st, c, c', empty, e.a, e.slots);
    } else {
      CountUntouched(t, st, c, c', empty, e);
    }
  }

  lemma CountUntouched(t: Transfer, st: SenderState, c: nat, c': nat, empty: nat, e: Event)
    requires SenderLayout(t, st, c) && CountTells(t, st, c, empty) && !Settles(t, st, e)
    requires st.phase.Waiting? && (e.Ack? ==> CanHandleAck(t, st, e.a))
    requires SenderLayout(t, Handle(t, st, e), c')
    ensures CountTells(t, Handle(t, st, e), c', empty)
  {
    hide Slide, Transmission;
    var st' := Handle(t, st, e);
    OffsetGrows(t, Min(c, c'), Max(c, c'));
    assert Unacked(st'.window) == Unacked(st.window);
  }
}
