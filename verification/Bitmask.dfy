/** The bitmask of busy client slots (`set_bit` and `get_bit` of src/spqr_server.c). */
module Bitmask {

  const CHAR_BIT := 8

  /** The byte with only bit `k` set. */
  function BitMask(k: nat): bv8
    requires k < CHAR_BIT
  {
    match k
    case 0 => 0x01 case 1 => 0x02 case 2 => 0x04 case 3 => 0x08
    case 4 => 0x10 case 5 => 0x20 case 6 => 0x40 case _ => 0x80
  }

  /** Bit `k` of a byte. */
  predicate BitAt(b: bv8, k: nat)
    requires k < CHAR_BIT
  {
    b & BitMask(k) != 0
  }

  function WithBit(b: bv8, k: nat, state: bool): bv8
    requires k < CHAR_BIT
  {
    if state then b | BitMask(k) else b & !BitMask(k)
  }

  /** The shifted one with which the program sets and clears bit `k`. */
  function ShiftedOne(k: nat): (mask: bv8)
    requires k < CHAR_BIT
    ensures mask == BitMask(k)
  {
    (1 as bv8) << k
  }

  /** The shifted byte with which the program reads bit `k`. */
  function ShiftedBit(b: bv8, k: nat): (bit: bv8)
    requires k < CHAR_BIT
    ensures bit == if BitAt(b, k) then 1 else 0
  {
    (b >> k) & 1
  }

  lemma MaskedAlone(b: bv8, m: bv8)
    requires m != 0
    ensures (b | m) & m != 0 && (b & !m) & m == 0
  {
  }

  lemma MaskedApart(b: bv8, m: bv8, n: bv8)
    requires m & n == 0
    ensures (b | m) & n == b & n && (b & !m) & n == b & n
  {
  }

  lemma MasksDisjoint(j: nat, k: nat)
    requires j < CHAR_BIT && k < CHAR_BIT
    ensures BitMask(k) != 0 && (j != k ==> BitMask(j) & BitMask(k) == 0)
  {
  }

  /** Setting one bit of a byte leaves the other seven alone. */
  lemma WithBitAt(b: bv8, k: nat, state: bool, j: nat)
    requires k < CHAR_BIT && j < CHAR_BIT
    ensures BitAt(WithBit(b, k, state), j) == if j == k then state else BitAt(b, j)
  {
    hide BitMask;
    MasksDisjoint(k, j);
    if j == k {
      MaskedAlone(b, BitMask(k));
    } else {
      MaskedApart(b, BitMask(k), BitMask(j));
    }
  }

  /** Bit `j` of a packed sequence of bytes. */
  predicate BitIn(bytes: seq<bv8>, j: nat)
    requires j / CHAR_BIT < |bytes|
  {
    BitAt(bytes[j / CHAR_BIT], j % CHAR_BIT)
  }

  /** Setting bit `i` of a packed sequence changes that bit only. */
  lemma WithBitIn(bytes: seq<bv8>, i: nat, state: bool, j: nat)
    requires i / CHAR_BIT < |bytes| && j / CHAR_BIT < |bytes|
    ensures BitIn(bytes[i / CHAR_BIT := WithBit(bytes[i / CHAR_BIT], i % CHAR_BIT, state)], j) ==
            if j == i then state else BitIn(bytes, j)
  {
    hide BitAt, WithBit;
    if j / CHAR_BIT == i / CHAR_BIT {
      WithBitAt(bytes[i / CHAR_BIT], i % CHAR_BIT, state, j % CHAR_BIT);
    }
  }
}
