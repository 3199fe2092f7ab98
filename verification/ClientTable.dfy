/** The parent's two tables as the program keeps them, a packed bitmask and an array of
    process ids, updated in place. */
module ClientTable {
  import opened Bitmask
  import opened ClientSlots

  class Table {
    const maxClients: nat
    const bitmask: array<bv8>
    const childPids: array<int>

    ghost predicate Valid() {
      && bitmask.Length == (maxClients + 7) / CHAR_BIT && childPids.Length == maxClients
      && bitmask as object != childPids
    }

    /** Whether slot `j` is marked busy. */
    predicate Busy(j: nat)
      requires Valid() && j < maxClients
      reads bitmask
    {
      BitIn(bitmask[..], j)
    }

    ghost function BusySlots(): (slots: seq<bool>)
      requires Valid()
      reads bitmask
      ensures |slots| == maxClients && forall j :: 0 <= j < maxClients ==> slots[j] == Busy(j)
    {
      seq(maxClients, (j: nat) requires j < maxClients reads bitmask => Busy(j))
    }

    /** The state of parent and children that these tables are part of. */
    ghost function View(children: map<int, Child>, parent: Parent): Server
      requires Valid()
      reads bitmask, childPids
    {
      Server(BusySlots(), childPids[..], children, parent)
    }

    constructor (n: nat)
      ensures Valid() && maxClients == n && fresh(bitmask) && fresh(childPids)
      ensures forall j :: 0 <= j < n ==> !Busy(j) && childPids[j] == INVALID_PID
      ensures View(map[], Listening) == InitialServer(n)
    {
      maxClients := n;
      bitmask := new bv8[(n + 7) / CHAR_BIT](_ => 0);
      childPids := new int[n](_ => INVALID_PID);
      new;
      assert View(map[], Listening) == InitialServer(n);
    }

    method SetBit(clientId: nat, state: bool)
      requires Valid() && clientId < maxClients
      modifies bitmask
      ensures forall j :: 0 <= j < maxClients ==> Busy(j) == if j == clientId then state else old(Busy(j))
      ensures BusySlots() == old(BusySlots())[clientId := state]
    {
      ghost var before := bitmask[..];
      WriteBit(clientId / CHAR_BIT, clientId % CHAR_BIT, state);
      hide BitIn, WithBit;
      forall j | 0 <= j < maxClients
        ensures Busy(j) == if j == clientId then state else old(Busy(j))
      {
        WithBitIn(before, clientId, state, j);
      }
    }

    method WriteBit(byteIndex: nat, bitIndex: nat, state: bool)
      requires byteIndex < bitmask.Length && bitIndex < CHAR_BIT
      modifies bitmask
      ensures bitmask[..] == old(bitmask[..])[byteIndex := WithBit(old(bitmask[byteIndex]), bitIndex, state)]
    {
      hide ShiftedOne, BitMask;
      var mask := ShiftedOne(bitIndex);
      if state {
        bitmask[byteIndex] := bitmask[byteIndex] | mask;
      } else {
        bitmask[byteIndex] := bitmask[byteIndex] & !mask;
      }
    }

    method GetBit(clientId: nat) returns (bit: bv8)
      requires Valid() && clientId < maxClients
      ensures bit == if Busy(clientId) then 1 else 0
    {
      bit := ShiftedBit(bitmask[clientId / CHAR_BIT], clientId % CHAR_BIT);
    }

    /** The search of the accept path: the lowest free slot, which it marks busy. When all
        slots are busy the result is `maxClients`, one past the end of both tables, and the
        program goes on with that number. On the state of parent and children it is the
        claiming step. */
    method ClaimSlot() returns (noClient: nat)
      requires Valid()
      modifies bitmask
      ensures noClient <= maxClients
      ensures noClient < maxClients <==> exists j :: 0 <= j < maxClients && !old(Busy(j))
      ensures forall j :: 0 <= j < noClient ==> old(Busy(j))
      ensures noClient < maxClients ==> !old(Busy(noClient))
      ensures forall j :: 0 <= j < maxClients ==> Busy(j) == (old(Busy(j)) || j == noClient)
      ensures noClient < maxClients ==> forall children ::
                && Enabled(old(View(children, Listening)), Claim(noClient))
                && View(children, Claimed(noClient)) == Apply(old(View(children, Listening)), Claim(noClient))
    {
      noClient := 0;
      while noClient < maxClients
        invariant noClient <= maxClients
        invariant forall j :: 0 <= j < noClient ==> Busy(j)
        invariant forall j :: 0 <= j < maxClients ==> Busy(j) == old(Busy(j))
      {
        var bit := GetBit(noClient);
        if bit == 0 {
          SetBit(noClient, true);
          break;
        }
        noClient := noClient + 1;
      }
    }

    /** What the child of slot `noClient` does with the tables before it exits: the freeing step. */
    method FreeSlot(noClient: nat)
      requires Valid() && noClient < maxClients
      modifies bitmask
      ensures forall children: map<int, Child>, pid, parent ::
                Enabled(old(View(children, parent)), Free(pid)) && children[pid].slot == noClient ==>
                  View(children[pid := children[pid].(freed := true)], parent)
                  == Apply(old(View(children, parent)), Free(pid))
    {
      SetBit(noClient, false);
    }

    /** The parent's entry after a fork: the recording step. */
    method RecordChild(noClient: nat, pid: int)
      requires Valid() && noClient < maxClients
      modifies childPids
      ensures childPids[..] == old(childPids[..])[noClient := pid]
      ensures forall children ::
                View(children, Listening) == Apply(old(View(children, Forked(noClient, pid))), Record)
    {
      childPids[noClient] := pid;
    }

    /** The bookkeeping for one terminated child: the reaping step. */
    method ReapChild(wpid: int)
      requires Valid()
      modifies bitmask, childPids
      ensures var i := FirstNamed(old(childPids[..]), wpid);
        && childPids[..] == (if i < maxClients then old(childPids[..])[i := INVALID_PID] else old(childPids[..]))
        && forall j :: 0 <= j < maxClients ==> Busy(j) == (old(Busy(j)) && j != i)
      ensures forall children :: Enabled(old(View(children, Listening)), Reap(wpid)) ==>
                View(children - {wpid}, Listening) == Apply(old(View(children, Listening)), Reap(wpid))
    {
      ghost var found := FirstNamed(childPids[..], wpid);
      var i := 0;
      while i < maxClients
        invariant 0 <= i <= maxClients && i <= found
        invariant childPids[..] == old(childPids[..])
        invariant forall j :: 0 <= j < maxClients ==> Busy(j) == old(Busy(j))
      {
        if childPids[i] == wpid {
          childPids[i] := INVALID_PID;
          SetBit(i, false);
          break;
        }
        i := i + 1;
      }
    }
  }
}
