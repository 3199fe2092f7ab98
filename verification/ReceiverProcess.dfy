/** The receiver as the program runs it: a window array and counters updated in place. */
module ReceiverProcess {
  import opened Protocol
  import opened Chunks
  import opened Receiver

  class Process {
    var window: array<Packet>
    var i: nat
    var sizeReceived: int
    var remaining: int
    var isFirst: bool
    var output: seq<Int8>
    var phase: ReceiverPhase

    ghost function State(): ReceiverState
      reads this, window
    {
      ReceiverState(window[..], i, sizeReceived, remaining, isFirst, output, phase)
    }

    constructor (t: Transfer)
      ensures fresh(window) && State() == InitialReceiver(t)
    {
      var slots := new Packet[t.windowSize](_ => BlankPacket(t.packetSize));
      for j := 0 to t.windowSize
        invariant forall k :: 0 <= k < j ==> slots[k] == BlankPacket(t.packetSize).(seqNum := k)
        invariant forall k :: j <= k < t.windowSize ==> slots[k] == BlankPacket(t.packetSize)
      {
        slots[j] := slots[j].(seqNum := j, received := false, sent := false, ack := false,
                              noBytesToSend := 0, size := 0);
      }
      window := slots;
      i, sizeReceived, remaining, isFirst := 0, 0, 0, true;
      output, phase := [], Receiving;
    }

    /** The body of the receive loop for one datagram. */
    method ReceivePacket(p: Packet, pass: bool) returns (acks: seq<AckPacket>)
      requires CanReceive(State(), p)
      modifies this, window
      ensures window == old(window)
      ensures (State(), acks) == Receive(old(State()), p, pass)
    {
      acks := [];
      if p.seqNum == SEQ_NUM_ERROR {
        phase, output := Aborted, [];
        return;
      }
      if p.seqNum >= window.Length {
        acks := [AckPacket(SEQ_NUM_ERROR, 0, 0)];
        if remaining <= 0 {
          phase := Finished;
        }
        return;
      }
      if isFirst {
        remaining := p.noPacketsToSend;
        isFirst := false;
      }
      if window[p.seqNum].received || sizeReceived < window[p.seqNum].noBytesToSend || p.noBytesToSend <= sizeReceived {
        if pass {
          acks := [AckPacket(p.seqNum, p.noBytesToSend, sizeReceived)];
        }
        return;
      }
      window[p.seqNum] := p.(received := true);
      label stored:
      WriteContiguous();
      assert State() == Drain(old@stored(State()), window.Length);
      if pass {
        acks := [AckPacket(p.seqNum, p.noBytesToSend, sizeReceived)];
        window[p.seqNum] := window[p.seqNum].(ack := true);
      }
      if remaining <= 0 {
        phase := Finished;
      }
    }

    /** The drain loop, with its cap of one iteration per slot. */
    method WriteContiguous()
      requires i < window.Length
      modifies this, window
      ensures window == old(window)
      ensures State() == Drain(old(State()), window.Length)
    {
      var processCount, maxIterations := 0, window.Length;
      while window[i].received && processCount < maxIterations
        invariant window == old(window) && i < window.Length
        invariant 0 <= processCount <= maxIterations == window.Length
        invariant Drain(State(), maxIterations - processCount) == Drain(old(State()), maxIterations)
        decreases maxIterations - processCount
      {
        processCount := processCount + 1;
        ghost var before := State();
        var p := window[i];
        sizeReceived := p.noBytesToSend;
        output := output + Written(p);
        remaining := remaining - 1;
        window[i] := window[i].(received := false);
        window[i] := window[i].(ack := false);
        i := (i + 1) % window.Length;
        assert State() == WriteBase(before);
      }
    }

    /** After the loop, the receiver confirms the end of the transfer several times over. */
    method SendFinalAcks() returns (acks: seq<AckPacket>)
      requires phase.Finished?
      modifies this
      ensures State() == old(State()).(phase := Completed)
      ensures acks == FinalAcks(old(State()))
    {
      acks := [];
      for n := 0 to MAX_RETRIES
        invariant |acks| == n && forall k :: 0 <= k < n ==> acks[k] == AckPacket(SEQ_NUM_ERROR, 0, sizeReceived)
      {
        acks := acks + [AckPacket(SEQ_NUM_ERROR, 0, sizeReceived)];
      }
      phase := Completed;
    }
  }
}
