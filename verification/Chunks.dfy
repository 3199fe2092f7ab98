/** How a file is cut into packets, and which window slot each packet uses
    (the arithmetic of `main_sender` and of the slide in `wait_ack`). */
module Chunks {
  import opened Protocol

  /** What one transfer is run with: the file and the configurable settings. */
  datatype Setup = Setup(file: seq<Int8>, packetSize: nat, windowSize: nat, maxErrors: nat) {
    predicate Valid() {
      1 <= packetSize && 1 <= windowSize && 1 <= maxErrors
    }
  }

  type Transfer = t: Setup | t.Valid() witness Setup([], 1, 1, 1)

  /** How many reads of up to `p` bytes it takes to consume `n` bytes. */
  function Reads(n: nat, p: nat): nat
    requires 1 <= p
  {
    if n == 0 then 0 else 1 + Reads(n - Min(n, p), p)
  }

  /** The number of packets of the file. `CountFormula` shows that it is what the
      sender computes from the file size. */
  function PacketCount(t: Transfer): nat {
    Reads(|t.file|, t.packetSize)
  }

  /** The number of window slots the sender uses. */
  function SenderWindow(t: Transfer): (w: nat)
    ensures w <= t.windowSize && w <= PacketCount(t)
  {
    Min(PacketCount(t), t.windowSize)
  }

  /** How many bytes the first `k` reads of one packet each have consumed. */
  function Offset(t: Transfer, k: nat): (n: nat)
    ensures n <= |t.file|
  {
    if k == 0 then 0 else Min(Offset(t, k - 1) + t.packetSize, |t.file|)
  }

  /** What `fread` returns for one packet when the file stands at `position`. */
  function FRead(t: Transfer, position: nat): (data: seq<Int8>)
    ensures |data| <= t.packetSize
  {
    if position >= |t.file| then []
    else t.file[position..Min(position + t.packetSize, |t.file|)]
  }

  /** The bytes of packet number `k`. */
  function Chunk(t: Transfer, k: nat): seq<Int8> {
    FRead(t, Offset(t, k))
  }

  /** A short read leaves the rest of the payload buffer zeroed. */
  function Padded(t: Transfer, data: seq<Int8>): (payload: seq<Int8>)
    requires |data| <= t.packetSize
    ensures |payload| == t.packetSize && payload[..|data|] == data
  {
    data + Zeros(t.packetSize - |data|)
  }

  /** The slot of packet `k` in a circular window of `w` slots. */
  function Slot(w: nat, k: nat): (s: nat)
    ensures 0 < w ==> s < w
  {
    if w == 0 then 0 else if k < w then k else Slot(w, k - w)
  }

  /** The packet the sender builds for chunk `k`: the initial fill announces the
      full count, the slide a count decremented once for every later packet. */
  function PacketOf(t: Transfer, k: nat, sent: bool): Packet {
    var w := SenderWindow(t);
    Packet(
      Padded(t, Chunk(t, k)),
      Slot(w, k),
      if k < w then PacketCount(t) else PacketCount(t) - (k - w + 1),
      Offset(t, k + 1),
      |Chunk(t, k)|,
      sent, false, false)
  }

  /** `p` is packet number `k` of this file, whatever its `sent` and `ack` flags say. */
  predicate IsChunk(t: Transfer, p: Packet, k: nat) {
    k < PacketCount(t) && p.(ack := false) == PacketOf(t, k, p.sent)
  }

  /** The contents of chunks `0..k`, joined in index order. */
  function Joined(t: Transfer, k: nat): seq<Int8> {
    if k == 0 then [] else Joined(t, k - 1) + Chunk(t, k - 1)
  }

  // ---------------------------------------------------------------------
  // Offsets and packet counts

  /** The sender's formula for the packet count: the quotient, rounded up. */
  function CountFromSize(n: nat, p: nat): int
    requires 1 <= p
  {
    if n % p != 0 then n / p + 1 else n / p
  }

  lemma {:induction false} CountFormula(n: nat, p: nat)
    requires 1 <= p
    ensures CountFromSize(n, p) == Reads(n, p)
  {
    if n >= p {
      CountFormula(n - p, p);
      DivModStep(n, p);
    } else {
      DivModSmall(n, p);
    }
  }

  lemma DivModSmall(n: nat, p: nat)
    requires n < p
    ensures n / p == 0 && n % p == n
  {
  }

  lemma DivModStep(n: int, p: int)
    requires 1 <= p <= n
    ensures n / p == (n - p) / p + 1 && n % p == (n - p) % p
  {
    var q, m := (n - p) / p, (n - p) % p;
    assert n - p == q * p + m;
    assert (q + 1) * p == q * p + p;
    DivModUnique(n, p, q + 1, m);
  }

  lemma DivModUnique(n: int, p: int, q: int, m: int)
    requires 0 <= m < p && n == q * p + m
    ensures n / p == q && n % p == m
  {
    var d := n / p - q;
    assert d * p == m - n % p;
    if d >= 1 {
      assert false;
    } else if d <= -1 {
      assert false;
    }
  }

  /** In closed form, packet `k` starts at byte `k * packetSize`, cut at the file size. */
  lemma {:induction false} OffsetIsMultiple(t: Transfer, k: nat)
    ensures Offset(t, k) == Min(k * t.packetSize, |t.file|)
  {
    if k > 0 {
      OffsetIsMultiple(t, k - 1);
      assert k * t.packetSize == (k - 1) * t.packetSize + t.packetSize;
    }
  }

  /** After `k` packets the rest of the file still takes all the remaining packets. */
  lemma {:induction false} ReadsLeft(t: Transfer, k: nat)
    requires k <= PacketCount(t)
    ensures Reads(|t.file| - Offset(t, k), t.packetSize) == PacketCount(t) - k
  {
    if k > 0 {
      ReadsLeft(t, k - 1);
    }
  }

  /** The file size is reached by the last packet and by no earlier one. */
  lemma OffsetReachesSize(t: Transfer, k: nat)
    ensures k < PacketCount(t) <==> Offset(t, k) < |t.file|
  {
    if k <= PacketCount(t) {
      ReadsLeft(t, k);
    } else {
      ReadsLeft(t, PacketCount(t));
      OffsetClimbs(t, PacketCount(t), k);
    }
  }

  /** The packet count, compared with a number of packets, in bytes. */
  lemma CountBySize(t: Transfer, k: nat)
    ensures PacketCount(t) <= k <==> |t.file| <= k * t.packetSize
  {
    OffsetReachesSize(t, k);
    OffsetIsMultiple(t, k);
  }

  lemma {:induction false} OffsetClimbs(t: Transfer, j: nat, k: nat)
    requires j <= k
    ensures Offset(t, j) <= Offset(t, k)
  {
    if j < k {
      OffsetClimbs(t, j, k - 1);
    }
  }

  /** Offsets climb strictly up to the file size. */
  lemma OffsetGrows(t: Transfer, j: nat, k: nat)
    requires j <= k
    ensures Offset(t, j) <= Offset(t, k)
    ensures j < k && j < PacketCount(t) ==> Offset(t, j) < Offset(t, k)
    ensures k >= PacketCount(t) ==> Offset(t, k) == |t.file|
  {
    OffsetClimbs(t, j, k);
    OffsetReachesSize(t, j);
    OffsetReachesSize(t, k);
    if j < k && j < PacketCount(t) {
      OffsetClimbs(t, j + 1, k);
    }
  }

  /** Distinct packets end at distinct offsets, so an offset names a packet. */
  lemma OffsetNamesChunk(t: Transfer, j: nat, k: nat)
    requires j < PacketCount(t) && k < PacketCount(t)
    ensures Offset(t, j + 1) == Offset(t, k + 1) ==> j == k
  {
    if j < k {
      OffsetGrows(t, j + 1, k);
      OffsetGrows(t, k, k + 1);
    } else if k < j {
      OffsetGrows(t, k + 1, j);
      OffsetGrows(t, j, j + 1);
    }
  }

  /** Every packet of the file carries between one byte and a full payload, and
      reading it moves the file to the next offset; past the last one nothing is read. */
  lemma ChunkShape(t: Transfer, k: nat)
    ensures Offset(t, k) + |Chunk(t, k)| == Offset(t, k + 1)
    ensures k < PacketCount(t) ==> 1 <= |Chunk(t, k)| <= t.packetSize
    ensures k >= PacketCount(t) ==> Chunk(t, k) == []
    ensures t.file[..Offset(t, k)] + Chunk(t, k) == t.file[..Offset(t, k + 1)]
  {
    if k < PacketCount(t) {
      OffsetGrows(t, k, k + 1);
    } else {
      OffsetGrows(t, PacketCount(t), k);
    }
  }

  /** Packetisation round trip: the chunks, joined in order, are the file. */
  lemma {:induction false} ChunksJoinToFile(t: Transfer, k: nat)
    ensures Joined(t, k) == t.file[..Offset(t, k)]
    ensures Joined(t, PacketCount(t)) == t.file
  {
    PrefixJoined(t, k);
    PrefixJoined(t, PacketCount(t));
    OffsetGrows(t, 0, PacketCount(t));
  }

  lemma {:induction false} PrefixJoined(t: Transfer, k: nat)
    ensures Joined(t, k) == t.file[..Offset(t, k)]
  {
    if k > 0 {
      PrefixJoined(t, k - 1);
      ChunkShape(t, k - 1);
    }
  }

  // ---------------------------------------------------------------------
  // Slots

  /** The slot is the packet number modulo the window size. */
  lemma {:induction false} SlotIsRemainder(w: nat, k: nat)
    requires 0 < w
    ensures Slot(w, k) == k % w
  {
    if k >= w {
      SlotIsRemainder(w, k - w);
      DivModStep(k, w);
    } else {
      DivModSmall(k, w);
    }
  }

  /** One packet further is one slot further, wrapping at the end of the window. */
  lemma {:induction false} SlotNext(w: nat, k: nat)
    requires 0 < w
    ensures Slot(w, k + 1) == (if Slot(w, k) + 1 == w then 0 else Slot(w, k) + 1)
    ensures Slot(w, k + 1) == (Slot(w, k) + 1) % w
  {
    if k >= w {
      SlotNext(w, k - w);
    }
  }

  /** Seen from packet `b`, packet `b + d` lies `d` slots further round. */
  lemma {:induction false} SlotAhead(w: nat, b: nat, d: nat)
    requires d < w
    ensures Slot(w, b + d) == (if Slot(w, b) + d < w then Slot(w, b) + d else Slot(w, b) + d - w)
  {
    if d > 0 {
      SlotAhead(w, b, d - 1);
      SlotNext(w, b + d - 1);
    }
  }

  /** Within one window no two packets share a slot. */
  lemma SlotsDiffer(w: nat, j: nat, k: nat)
    requires j < k < j + w
    ensures Slot(w, j) != Slot(w, k)
  {
    SlotAhead(w, j, k - j);
  }

  /** The packet at or after `b` that uses slot `s`. */
  function Occupant(w: nat, b: nat, s: nat): (k: nat)
    requires s < w
    ensures b <= k < b + w && Slot(w, k) == s
  {
    var i := Slot(w, b);
    var d := if i <= s then s - i else s + w - i;
    SlotAhead(w, b, d);
    b + d
  }

  /** For the packets of a file, the sender's window and the receiver's agree on slots. */
  lemma SameSlots(t: Transfer, k: nat)
    requires k < PacketCount(t)
    ensures Slot(SenderWindow(t), k) == Slot(t.windowSize, k)
  {
  }
}
