/** Whole runs of the receiver alone, under arbitrary loss, duplication and reordering. */
module ReceiverRuns {
  import opened Protocol
  import opened Chunks
  import opened Receiver
  import opened ReceiverTrace

  /** One arrival: the packet, its number in the file, and the fate of its acknowledgment. */
  datatype Arrival = Arrival(p: Packet, k: nat, pass: bool)

  /** How many packets have been written, read off the countdown. */
  function WrittenCount(t: Transfer, st: ReceiverState): int {
    if st.first then 0 else PacketCount(t) - st.remaining
  }

  /** Every arrival is a packet of the file, and the very first one carries the full packet
      count. Nothing else is asked of the network, or of the sender. */
  predicate Genuine(t: Transfer, st: ReceiverState, arrivals: seq<Arrival>)
    decreases |arrivals|
  {
    arrivals == [] ||
    var a := arrivals[0];
    && CanReceive(st, a.p)
    && IsChunk(t, a.p, a.k)
    && (st.first ==> a.p.noPacketsToSend == PacketCount(t))
    && Genuine(t, Receive(st, a.p, a.pass).0, arrivals[1..])
  }

  /** No arrival is beyond the receiver's window. */
  predicate InWindow(t: Transfer, st: ReceiverState, arrivals: seq<Arrival>)
    requires Genuine(t, st, arrivals)
    decreases |arrivals|
  {
    arrivals == [] ||
    var a := arrivals[0];
    && a.k < WrittenCount(t, st) + t.windowSize
    && InWindow(t, Receive(st, a.p, a.pass).0, arrivals[1..])
  }

  function After(t: Transfer, st: ReceiverState, arrivals: seq<Arrival>): ReceiverState
    requires Genuine(t, st, arrivals)
    decreases |arrivals|
  {
    if arrivals == [] then st
    else After(t, Receive(st, arrivals[0].p, arrivals[0].pass).0, arrivals[1..])
  }

  /** Packet `k` is among the arrivals. */
  predicate Arrived(arrivals: seq<Arrival>, k: nat) {
    exists i :: 0 <= i < |arrivals| && arrivals[i].k == k
  }

  /** From any state between arrivals: what the receiver has afterwards is what it had
      together with what arrived, however the arrivals were ordered or repeated. */
  lemma {:induction false} RunLayout(t: Transfer, st: ReceiverState, r: nat, arrivals: seq<Arrival>) returns (r': nat)
    requires ReceiverLayout(t, st, r) && (st.phase.Receiving? || st.phase.Finished?)
    requires Genuine(t, st, arrivals) && InWindow(t, st, arrivals)
    ensures r <= r' && ReceiverLayout(t, After(t, st, arrivals), r')
    ensures forall k :: Has(t, After(t, st, arrivals), r', k) <==> Has(t, st, r, k) || Arrived(arrivals, k)
    ensures arrivals != [] ==>
              After(t, st, arrivals).phase == if r' == PacketCount(t) then Finished else Receiving
    ensures After(t, st, arrivals).phase in {Receiving, Finished}
    decreases |arrivals|
  {
    if arrivals == [] {
      r' := r;
    } else {
      var a, rest := arrivals[0], arrivals[1..];
      var r1 := ReceiveChunk(t, st, r, a.p, a.k, a.pass);
      var st1 := Receive(st, a.p, a.pass).0;
      r' := RunLayout(t, st1, r1, rest);
      if rest == [] {
        assert After(t, st1, rest) == st1;
      }
      forall k
        ensures Has(t, After(t, st, arrivals), r', k) <==> Has(t, st, r, k) || Arrived(arrivals, k)
      {
        assert Has(t, After(t, st1, rest), r', k) <==> Has(t, st1, r1, k) || Arrived(rest, k);
        if Arrived(rest, k) {
          var i :| 0 <= i < |rest| && rest[i].k == k;
          assert arrivals[i + 1].k == k;
        }
        if Arrived(arrivals, k) && k != a.k {
          var i :| 0 <= i < |arrivals| && arrivals[i].k == k;
          assert rest[i - 1].k == k;
        }
      }
    }
  }

  /** Receiver correctness for every run: the output is the part of the file before the
      first packet that never arrived, and the loop is left exactly when every packet of a
      non-empty file has arrived, with the whole file written. */
  lemma ReceiverCorrect(t: Transfer, arrivals: seq<Arrival>) returns (r: nat)
    requires Genuine(t, InitialReceiver(t), arrivals) && InWindow(t, InitialReceiver(t), arrivals)
    ensures var st := After(t, InitialReceiver(t), arrivals);
      && r <= PacketCount(t)
      && 0 <= st.sizeReceived <= |t.file|
      && st.output == Joined(t, r) == t.file[..st.sizeReceived]
      && (forall k :: 0 <= k < r ==> Arrived(arrivals, k))
      && !Arrived(arrivals, r)
      && (st.phase.Finished? <==> 0 < |t.file| && forall k :: 0 <= k < PacketCount(t) ==> Arrived(arrivals, k))
      && (st.phase.Finished? ==> st.output == t.file)
  {
    InitialLayout(t);
    r := RunLayout(t, InitialReceiver(t), 0, arrivals);
    var st := After(t, InitialReceiver(t), arrivals);
    ChunksJoinToFile(t, r);
    OffsetReachesSize(t, r);
    OffsetReachesSize(t, 0);
    assert forall k :: 0 <= k < r ==> Has(t, st, r, k);
    assert !Has(t, st, r, r);
    if arrivals == [] {
      assert r == 0;
    } else {
      assert Arrived(arrivals, arrivals[0].k);
      assert IsChunk(t, arrivals[0].p, arrivals[0].k);
    }
  }

  // ---------------------------------------------------------------------
  // Packets beyond the window as well

  lemma {:induction false} RunTracked(t: Transfer, st: ReceiverState, ks: seq<nat>, arrivals: seq<Arrival>)
      returns (ks': seq<nat>)
    requires Tracked(t, st, ks) && (st.phase.Receiving? || st.phase.Finished?) && Genuine(t, st, arrivals)
    ensures ks <= ks' && Tracked(t, After(t, st, arrivals), ks')
    ensures After(t, st, arrivals).phase in {Receiving, Finished}
    ensures After(t, st, arrivals).first <==> st.first && arrivals == []
    decreases |arrivals|
  {
    ks' := ks;
    if arrivals != [] {
      var a := arrivals[0];
      ks' := ReceiveTracked(t, st, ks, a.p, a.k, a.pass);
      hide Receive, Tracked;
      ks' := RunTracked(t, Receive(st, a.p, a.pass).0, ks', arrivals[1..]);
    }
  }

  /** Whatever packets of the file arrive, the receiver writes whole packets, every one in its
      own slot and at least a window after the one before it there. So it can finish only with
      the whole file, even if packets beyond its window reached it. */
  lemma FinishesOnlyWhole(t: Transfer, arrivals: seq<Arrival>) returns (ks: seq<nat>)
    requires Genuine(t, InitialReceiver(t), arrivals)
    ensures var st := After(t, InitialReceiver(t), arrivals);
      && st.output == Along(t, ks) && Successive(t, ks) && st.sizeReceived == Reached(t, ks)
      && (st.phase.Finished? <==> arrivals != [] && |ks| == PacketCount(t))
      && (st.phase.Finished? ==> st.output == t.file && st.sizeReceived == |t.file|)
  {
    TraceStarts(t);
    ks := RunTracked(t, InitialReceiver(t), [], arrivals);
    if After(t, InitialReceiver(t), arrivals).phase.Finished? {
      FullTraceIsFile(t, ks);
    }
  }

  /** A packet with a slot number beyond the window, at any moment of any such run: it is answered
      by an acknowledgment of the end of the transfer, nothing is stored or written, and the loop
      is left exactly if nothing has arrived before, as no count has been announced then. */
  lemma StrayArrival(t: Transfer, arrivals: seq<Arrival>, p: Packet, pass: bool)
    requires Genuine(t, InitialReceiver(t), arrivals) && p.seqNum >= t.windowSize
    requires After(t, InitialReceiver(t), arrivals).phase.Receiving?
    ensures var st := After(t, InitialReceiver(t), arrivals);
      && CanReceive(st, p)
      && var (st', out) := Receive(st, p, pass);
         && out == [AckPacket(SEQ_NUM_ERROR, 0, 0)]
         && st' == st.(phase := if arrivals == [] then Finished else Receiving)
  {
    TraceStarts(t);
    var ks := RunTracked(t, InitialReceiver(t), [], arrivals);
  }
}
