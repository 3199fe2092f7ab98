/** The sender as the program runs it: a window array, a file position and counters
    updated in place. */
module SenderProcess {
  import opened Protocol
  import opened Chunks
  import opened Sender

  class Process {
    const t: Transfer
    const windowSize: nat
    const window: array<Packet>
    var i: nat
    var position: nat
    var counter: nat
    var noPackets: int
    var lastConfirmed: int
    var maxErrors: nat
    var timeout: int
    var phase: SenderPhase

    ghost function State(): SenderState
      requires windowSize <= window.Length
      reads this, window
    {
      SenderState(window[..windowSize], i, position, counter, noPackets, lastConfirmed, maxErrors, timeout, phase)
    }

    /** Count the packets, size the window and fill it from the file. */
    constructor (t: Transfer)
      ensures fresh(window) && this.t == t
      ensures windowSize <= window.Length == t.windowSize
      ensures State() == FilledSender(t)
    {
      this.t := t;
      var n := if |t.file| % t.packetSize != 0 then |t.file| / t.packetSize + 1 else |t.file| / t.packetSize;
      CountFormula(|t.file|, t.packetSize);
      var w: nat := if n < t.windowSize then n else t.windowSize;
      var slots := new Packet[t.windowSize](_ => BlankPacket(t.packetSize));
      var read: nat, seqNum := 0, 0;
      for j := 0 to w
        invariant read == Offset(t, j)
        invariant seqNum == if j == w then 0 else j
        invariant forall k :: 0 <= k < j ==> slots[k] == PacketOf(t, k, false)
      {
        ChunkShape(t, j);
        var data := FRead(t, read);
        if |data| == 0 {
          break;
        }
        read := read + |data|;
        slots[j] := Packet(Padded(t, data), seqNum, n, read, |data|, false, false, false);
        WrapSequenceNumber(seqNum, w);
        seqNum := (seqNum + 1) % w;
      }
      windowSize, window := w, slots;
      i, position, counter := 0, read, read;
      noPackets, lastConfirmed, maxErrors := n, 0, 0;
      timeout, phase := TIMEOUT, Waiting;
      new;
      assert window[..windowSize] == FilledSender(t).window;
    }

    /** One pass over the window. */
    method SendDataToReceiver(pass: set<nat>) returns (out: seq<Packet>)
      requires windowSize <= window.Length
      modifies window
      ensures (State(), out) == SendPass(old(State()), pass)
    {
      out := SendUnacked(pass, window[..windowSize], Unacked(window[..windowSize]) * pass);
    }

    method SendUnacked(pass: set<nat>, ghost before: seq<Packet>, ghost chosen: set<nat>) returns (out: seq<Packet>)
      requires windowSize <= window.Length
      requires before == window[..windowSize] && chosen == Unacked(before) * pass
      modifies window
      ensures var n := Tried(before, pass, 0);
        && window[..windowSize] == MarkSent(before[..n], chosen) + before[n..]
        && out == Transmission(before, chosen, n)
    {
      hide MarkSent;
      out := [];
      ghost var n := Tried(before, pass, 0);
      ghost var after := MarkSent(before[..n], chosen) + before[n..];
      var j := 0;
      while j < windowSize
        invariant 0 <= j <= n <= windowSize && Tried(before, pass, j) == n
        invariant forall k :: j <= k < windowSize ==> window[k] == before[k]
        invariant forall k :: 0 <= k < j ==> window[k] == after[k]
        invariant out == Transmission(before, chosen, j)
      {
        assert window[j] == before[j];
        TriedStep(before, pass, chosen, j);
        var sent, stop := SendIfUnacked(j, pass);
        out := out + sent;
        j := j + 1;
        if stop {
          break;
        }
      }
      hide Tried, Transmission;
      assert j == n && window[..windowSize] == after;
    }

    /** One iteration of that pass: the slot is transmitted unless it is acknowledged or lost,
        and a transmitted empty packet ends the pass. */
    method SendIfUnacked(j: nat, pass: set<nat>) returns (out: seq<Packet>, stop: bool)
      requires j < window.Length
      modifies window
      ensures var sends := !old(window[j].ack) && j in pass;
        && out == (if sends then [old(window[j])] else [])
        && window[j] == (if sends then old(window[j]).(sent := true) else old(window[j]))
        && stop == (sends && old(window[j].size) == 0)
      ensures forall k :: 0 <= k < window.Length && k != j ==> window[k] == old(window[k])
    {
      out, stop := [], false;
      if !window[j].ack && j in pass {
        var sent := SendSlot(j);
        out := [sent];
        stop := window[j].size == 0;
      }
    }

    /** Transmit one slot and flag it. */
    method SendSlot(j: nat) returns (sent: Packet)
      requires j < window.Length
      modifies window
      ensures sent == old(window[j])
      ensures window[j] == old(window[j]).(sent := true)
      ensures forall k :: 0 <= k < window.Length && k != j ==> window[k] == old(window[k])
    {
      sent := window[j];
      window[j] := window[j].(sent := true);
    }

    /** One acknowledgment in the waiting loop. */
    method HandleAck(a: AckPacket, pass: set<nat>) returns (out: seq<Packet>)
      requires windowSize <= window.Length && CanHandleAck(t, State(), a)
      modifies this, window
      ensures (State(), out) == OnAck(t, old(State()), a, pass)
    {
      out := [];
      maxErrors := 0;
      if a.seqNum == SEQ_NUM_ERROR || a.writeByte > |t.file| || a.writeByte == WRITE_BYTE_ERROR {
        phase := Draining(0);
        return;
      }
      DecreaseTimeout();
      if a.size > lastConfirmed {
        lastConfirmed := a.size;
      }
      if window[a.seqNum].ack {
        return;
      }
      window[a.seqNum] := window[a.seqNum].(ack := true);
      out := SlideWindow(pass);
    }

    /** The slide loop of the waiting loop. */
    method SlideWindow(pass: set<nat>) returns (out: seq<Packet>)
      requires windowSize <= window.Length && i < windowSize
      modifies this, window
      ensures (State(), out) == Slide(t, old(State()), pass)
    {
      out := [];
      ghost var goal := Slide(t, State(), pass);
      while window[i].ack && noPackets > 0
        invariant i < windowSize
        invariant ContinuesTo(t, State(), pass, out, goal)
        decreases noPackets
      {
        ghost var before := State();
        noPackets := noPackets - 1;
        var data := FRead(t, position);
        SlideOnce(t, before, pass, out, goal);
        assert State() == before.(noPackets := before.noPackets - 1);
        if |data| == 0 {
          return;
        }
        var sent := RefillBase(data, pass);
        out := out + sent;
      }
      SlideDone(t, State(), pass, out, goal);
    }

    /** One iteration of the slide: put the bytes just read in the base slot and send them. */
    method RefillBase(data: seq<Int8>, pass: set<nat>) returns (sent: seq<Packet>)
      requires windowSize <= window.Length && i < windowSize && |data| <= t.packetSize
      modifies this, window
      ensures State() == Refill(t, old(State()), data, pass)
      ensures sent == if old(i) in pass then [NextPacket(t, old(State()), data)] else []
    {
      position := position + |data|;
      counter := counter + |data|;
      window[i] := Packet(Padded(t, data), i, noPackets, counter, |data|, false, false, false);
      sent := [];
      if i in pass {
        sent := [window[i]];
        window[i] := window[i].(sent := true);
      }
      i := (i + 1) % windowSize;
    }

    /** One expiry of the receive timeout in the waiting loop. */
    method HandleTimeout(pass: set<nat>) returns (out: seq<Packet>)
      requires windowSize <= window.Length
      modifies this, window
      ensures (State(), out) == OnTimeout(t, old(State()), pass)
    {
      out := [];
      maxErrors := maxErrors + 1;
      if maxErrors >= t.maxErrors {
        phase := Draining(0);
        return;
      }
      IncreaseTimeout();
      out := Resend(lastConfirmed, pass, window[..windowSize], Offered(window[..windowSize], lastConfirmed) * pass);
    }

    /** The retransmission loop of a timeout. */
    method Resend(confirmed: int, pass: set<nat>, ghost before: seq<Packet>, ghost chosen: set<nat>)
        returns (out: seq<Packet>)
      requires windowSize <= window.Length
      requires before == window[..windowSize] && chosen == Offered(before, confirmed) * pass
      modifies window
      ensures window[..windowSize] == MarkSent(before, chosen)
      ensures out == Transmission(before, chosen, windowSize)
    {
      out := [];
      ghost var after := MarkSent(before, chosen);
      var j := 0;
      while j < windowSize
        invariant 0 <= j <= windowSize
        invariant forall k :: j <= k < windowSize ==> window[k] == before[k]
        invariant forall k :: 0 <= k < j ==> window[k] == after[k]
        invariant out == Transmission(before, chosen, j)
      {
        if (!window[j].ack || window[j].noBytesToSend > confirmed) && j in pass {
          assert j in chosen;
          var sent := SendSlot(j);
          out := out + [sent];
        } else {
          assert j !in chosen;
        }
        j := j + 1;
      }
    }

    method IncreaseTimeout()
      modifies this`timeout
      ensures timeout == IncreasedTimeout(old(timeout))
    {
      if timeout <= MAX_TIMEOUT - TIME_UNIT {
        timeout := timeout + TIME_UNIT;
      }
    }

    method DecreaseTimeout()
      modifies this`timeout
      ensures timeout == DecreasedTimeout(old(timeout))
    {
      if timeout >= MIN_TIMEOUT + TIME_UNIT {
        timeout := timeout - TIME_UNIT;
      }
    }

    /** One acknowledgment in the loop that swallows late ones. */
    method SwallowAck(a: AckPacket)
      requires phase.Draining?
      modifies this`phase
      ensures phase == Draining(a.writeByte)
    {
      phase := Draining(a.writeByte);
    }

    /** The end of `main_sender`, once no more acknowledgments come. */
    method FinishTransfer() returns (out: seq<Packet>)
      requires windowSize <= window.Length && phase.Draining?
      modifies this
      ensures (State(), out) == Finish(t, old(State()))
    {
      out := [];
      timeout := 0;
      if phase.ret == WRITE_BYTE_ERROR {
        phase := Closed(TRANSFER_ERROR);
      } else if maxErrors >= t.maxErrors {
        out := [AbortPacket(t.packetSize)];
        phase := Closed(TRANSFER_ERROR);
      } else {
        phase := Closed(EXIT_SUCCESS);
      }
    }
  }

  /** How `main_sender` starts: fill the window and make one pass over it. */
  method StartSender(t: Transfer, pass: set<nat>) returns (p: Process, out: seq<Packet>)
    ensures fresh(p) && fresh(p.window) && p.t == t && p.windowSize <= p.window.Length
    ensures (p.State(), out) == SendWindow(FilledSender(t), pass)
  {
    p := new Process(t);
    forall j | 0 <= j < p.windowSize
      ensures p.window[j].size != 0
    {
      assert p.window[j] == p.State().window[j];
      ChunkShape(t, j);
    }
    PassIsWhole(p.State(), pass);
    out := p.SendDataToReceiver(pass);
  }

  lemma TriedStep(window: seq<Packet>, pass: set<nat>, chosen: set<nat>, j: nat)
    requires j < |window| && chosen == Unacked(window) * pass
    ensures j in chosen <==> !window[j].ack && j in pass
    ensures Tried(window, pass, j) ==
              if j in chosen && window[j].size == 0 then j + 1 else Tried(window, pass, j + 1)
    ensures Transmission(window, chosen, j + 1) ==
              Transmission(window, chosen, j) + if j in chosen then [window[j]] else []
  {
  }

  /** Having sent `out`, sliding on from `st` reaches `goal`. */
  ghost predicate ContinuesTo(t: Transfer, st: SenderState, pass: set<nat>, out: seq<Packet>,
                              goal: (SenderState, seq<Packet>))
    requires st.base < |st.window|
  {
    goal.0 == Slide(t, st, pass).0 && goal.1 == out + Slide(t, st, pass).1
  }

  lemma SlideOnce(t: Transfer, st: SenderState, pass: set<nat>, out: seq<Packet>, goal: (SenderState, seq<Packet>))
    requires st.base < |st.window| && st.window[st.base].ack && st.noPackets > 0
    requires ContinuesTo(t, st, pass, out, goal)
    ensures var st1 := st.(noPackets := st.noPackets - 1);
            var data := FRead(t, st.position);
            if data == [] then goal.0 == st1 && goal.1 == out
            else ContinuesTo(t, Refill(t, st1, data, pass), pass,
                             out + if st.base in pass then [NextPacket(t, st1, data)] else [], goal)
  {
    var data := FRead(t, st.position);
    if data != [] {
      var st1 := st.(noPackets := st.noPackets - 1);
      var sends := if st.base in pass then [NextPacket(t, st1, data)] else [];
      var rest := Slide(t, Refill(t, st1, data, pass), pass).1;
      assert out + (sends + rest) == (out + sends) + rest;
    }
  }

  lemma SlideDone(t: Transfer, st: SenderState, pass: set<nat>, out: seq<Packet>, goal: (SenderState, seq<Packet>))
    requires st.base < |st.window| && (!st.window[st.base].ack || st.noPackets <= 0)
    requires ContinuesTo(t, st, pass, out, goal)
    ensures goal.0 == st && goal.1 == out
  {
  }

  lemma WrapSequenceNumber(j: nat, w: nat)
    requires j < w
    ensures (j + 1) % w == if j + 1 == w then 0 else j + 1
  {
  }
}
