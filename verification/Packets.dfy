/** src/common/TftpPacketStuff: the DATA, ACK and ERROR packets, and what an end
    makes of a datagram it receives (section 5 of RFC 1350). */
module Packets {
  import opened Bytes

  const OPCODE_RRQ: byte := 1
  const OPCODE_WRQ: byte := 2
  const OPCODE_DATA: byte := 3
  const OPCODE_ACK: byte := 4
  const OPCODE_ERROR: byte := 5
  const OPCODE_OACK: byte := 6

  const WIRE_NUMBERS := 0x1_0000

  /** UdpClient's receive buffer; a longer datagram loses its tail. */
  const MAX_PACKET_SIZE := 65500

  const MIN_BLOCK_SIZE := 8
  const MAX_BLOCK_SIZE := 65464
  const MAX_ERROR_CODE := 8

  /** A received packet as the two transfer loops tell packets apart. The Bad
      cases are those in which a parser throws. */
  datatype Message =
    | Data(number: nat, payload: seq<byte>)
    | Ack(number: nat)
    | Error
    | Other
    | BadOpcode
    | BadData
    | BadAck
    | BadError

  function Received(datagram: seq<byte>): seq<byte> {
    if |datagram| > MAX_PACKET_SIZE then datagram[..MAX_PACKET_SIZE] else datagram
  }

  /** The 16 bits after the opcode. */
  function ParseNumber(raw: seq<byte>): nat
    requires |raw| >= 4
  {
    var hi: nat, lo: nat := raw[2], raw[3];
    hi * 256 + lo
  }

  function Parse(datagram: seq<byte>, blksize: nat): Message {
    var raw := Received(datagram);
    if |raw| < 2 || raw[0] != 0 || raw[1] < OPCODE_RRQ || raw[1] > OPCODE_OACK then BadOpcode
    else if raw[1] == OPCODE_DATA then
      if |raw| < 4 then BadData
      else
        var kept := if |raw| > 2 + 2 + blksize then raw[..2 + 2 + blksize] else raw;
        Data(ParseNumber(raw), kept[4..])
    else if raw[1] == OPCODE_ACK then
      if |raw| < 4 then BadAck else Ack(ParseNumber(raw))
    else if raw[1] == OPCODE_ERROR then
      if |raw| < 5 || ParseNumber(raw) > MAX_ERROR_CODE then BadError else Error
    else Other
  }

  /** The uint16_t parameter of the packet constructors truncates the block number. */
  function Wire(block: nat): (w: nat)
    ensures w < WIRE_NUMBERS
  {
    block % WIRE_NUMBERS
  }

  lemma WireBelow(block: nat)
    requires block < WIRE_NUMBERS
    ensures Wire(block) == block
  {
  }

  lemma WireNext(block: nat)
    ensures Wire(block + 1) == (Wire(block) + 1) % WIRE_NUMBERS
  {
  }

  /** The two bytes of a block number. */
  lemma WireBytes(block: nat)
    ensures Wire(block) == block / 256 % 256 * 256 + block % 256
  {
    var q := block / 256;
    assert block == q / 256 * WIRE_NUMBERS + (q % 256 * 256 + block % 256);
  }

  function Header(opcode: byte, block: nat): seq<byte> {
    [0, opcode, block / 256 % 256, block % 256]
  }

  function PrintData(block: nat, payload: seq<byte>): seq<byte> {
    Header(OPCODE_DATA, block) + payload
  }

  lemma SameOnTheWire(block: nat, payload: seq<byte>)
    ensures PrintData(Wire(block), payload) == PrintData(block, payload)
  {
    WireBytes(block);
  }

  function PrintAck(block: nat): seq<byte> {
    Header(OPCODE_ACK, block)
  }

  /** An ERROR packet with an empty message text. */
  const ERROR_PACKET: seq<byte> := [0, OPCODE_ERROR, 0, 4, 0]

  /** What the client answers to a datagram from an unknown port. */
  const UNKNOWN_TID: seq<byte> := [0, OPCODE_ERROR, 0, 5, 0]

  /** The bytes of these packets (section 5 of RFC 1350). */
  lemma PrintedBytes(block: nat, payload: seq<byte>)
    ensures PrintData(block, payload) == [0, 3, block / 256 % 256, block % 256] + payload
    ensures PrintAck(block) == [0, 4, block / 256 % 256, block % 256]
    ensures ERROR_PACKET == [0, 5, 0, 4, 0] && UNKNOWN_TID == [0, 5, 0, 5, 0]
  {
  }

  predicate Opens(datagram: seq<byte>, opcode: byte) {
    |datagram| >= 2 && datagram[0] == 0 && datagram[1] == opcode
  }

  /** What any datagram is taken for, by its first bytes and its length, of
      which the first 65500 bytes count. */
  lemma ParseExactly(datagram: seq<byte>, blksize: nat)
    ensures var m, raw := Parse(datagram, blksize), Received(datagram);
            && raw == (if |datagram| > 65500 then datagram[..65500] else datagram)
            && (m.Data? <==> Opens(raw, 3) && |raw| >= 4)
            && (m.Data? ==> m.number == 256 * raw[2] as int + raw[3]
                            && m.payload == (if |raw| > 4 + blksize then raw[4..4 + blksize] else raw[4..]))
            && (m.Ack? <==> Opens(raw, 4) && |raw| >= 4)
            && (m.Ack? ==> m.number == 256 * raw[2] as int + raw[3])
            && (m.Error? <==> Opens(raw, 5) && |raw| >= 5 && raw[2] == 0 && raw[3] <= 8)
            && (m.Other? <==> Opens(raw, 1) || Opens(raw, 2) || Opens(raw, 6))
            && (m.BadOpcode? <==> |raw| < 2 || raw[0] != 0 || raw[1] == 0 || raw[1] > 6)
            && (m.BadData? <==> Opens(raw, 3) && |raw| < 4)
            && (m.BadAck? <==> Opens(raw, 4) && |raw| < 4)
  {
    var raw := Received(datagram);
    if Opens(raw, 3) && |raw| > 4 + blksize {
      assert raw[..4 + blksize][4..] == raw[4..4 + blksize];
    }
  }

  lemma ParsePrintAck(block: nat, blksize: nat)
    ensures Parse(PrintAck(block), blksize) == Ack(Wire(block))
  {
    WireBytes(block);
  }

  lemma ParseErrorPacket(blksize: nat)
    ensures Parse(ERROR_PACKET, blksize) == Error
  {
  }

  /** The end of a payload longer than the receiver's block size is cut off. */
  lemma ParseCutsData(block: nat, payload: seq<byte>, blksize: nat)
    requires |payload| <= MAX_BLOCK_SIZE && blksize <= MAX_BLOCK_SIZE
    ensures Parse(PrintData(block, payload), blksize)
         == Data(Wire(block), if |payload| > blksize then payload[..blksize] else payload)
  {
    WireBytes(block);
    assert PrintData(block, payload)[4..] == payload;
  }

  lemma ParsePrintData(block: nat, payload: seq<byte>, blksize: nat)
    requires |payload| <= blksize <= MAX_BLOCK_SIZE
    ensures Parse(PrintData(block, payload), blksize) == Data(Wire(block), payload)
  {
    ParseCutsData(block, payload, blksize);
  }

  lemma ParseIsBounded(datagram: seq<byte>, blksize: nat)
    ensures match Parse(datagram, blksize)
            case Data(number, payload) => number < WIRE_NUMBERS && |payload| <= blksize
            case Ack(number) => number < WIRE_NUMBERS
            case _ => true
  {
  }
}
