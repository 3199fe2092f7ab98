/** The datagrams and constants shared by both ends of a transfer
    (include/protocol.h and include/settings.h). */
module Protocol {

  /** One byte of a payload. */
  newtype Int8 = x: int | -128 <= x < 128

  const TRANSFER_ERROR := -1
  const SEQ_NUM_ERROR := -2
  const WRITE_BYTE_ERROR := -3
  const EXIT_SUCCESS := 0

  /** How many copies of the end-of-transfer acknowledgment the receiver sends. */
  const MAX_RETRIES := 10

  /** The timeout settings, in microseconds. */
  const TIMEOUT := 8000
  const TIME_UNIT := 4000
  const MAX_TIMEOUT := 80000
  const MIN_TIMEOUT := 8000

  datatype Packet = Packet(
    payload: seq<Int8>,
    seqNum: int,
    noPacketsToSend: int,
    noBytesToSend: int,
    size: int,
    sent: bool,
    received: bool,
    ack: bool)

  datatype AckPacket = AckPacket(seqNum: int, size: int, writeByte: int)

  /** The bytes `fwrite` stores for a packet. A size beyond the payload buffer, which no
      packet of a file has, is undefined in the program; here it writes the whole buffer. */
  function Written(p: Packet): seq<Int8> {
    if 0 <= p.size <= |p.payload| then p.payload[..p.size] else p.payload
  }

  function Zeros(n: nat): seq<Int8> {
    seq(n, _ => 0)
  }

  /** A zeroed `packet_t` with a payload buffer of `n` bytes. */
  function BlankPacket(n: nat): Packet {
    Packet(Zeros(n), 0, 0, 0, 0, false, false, false)
  }

  /** The packet with which a failed sender tells the receiver to give up. */
  function AbortPacket(n: nat): Packet {
    BlankPacket(n).(seqNum := SEQ_NUM_ERROR)
  }

  function Min(a: int, b: int): int {
    if a < b then a else b
  }

  function Max(a: int, b: int): int {
    if a < b then b else a
  }
}
