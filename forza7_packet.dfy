/**
 * Decoding of the Forza 7 "Dash" datagram: the fixed-offset field reads the
 * reader performs (readFloat, readUint8_t, readInt8_t) and the length test a
 * received datagram must pass before it is decoded.
 */
module Forza7Packet {
  import opened Wrappers

  /** One octet of a datagram, as its unsigned value. */
  type Byte = b: int | 0 <= b < 256

  const DashPacketSize: nat := 324
  /** Capacity of the receive buffer: longer datagrams are cut to this length. */
  const ReceiveBufferSize: nat := 2048
  const RpmOffset: nat := 12
  const GearOffset: nat := 312
  /** A proxy for ABS: the game exposes no ABS flag, any non-zero value here counts as active. */
  const AbsOffset: nat := 315
  const Word32Modulus: nat := 0x1_0000_0000

  /** readUint8_t: the byte at `offset` read as an unsigned 8-bit value. */
  function ReadUint8(buffer: seq<Byte>, offset: nat): (v: int)
    requires offset < |buffer|
    ensures 0 <= v < 256
    ensures v == buffer[offset]
  {
    buffer[offset]
  }

  /** readInt8_t: the byte at `offset` read as a two's-complement signed 8-bit value. */
  function ReadInt8(buffer: seq<Byte>, offset: nat): (v: int)
    requires offset < |buffer|
    ensures -128 <= v < 128
    ensures v % 256 == buffer[offset]
    ensures (v != 0) == (buffer[offset] != 0)
  {
    var b: int := buffer[offset];
    if b < 128 then b else b - 256
  }

  /**
   * readFloat: the four bytes at `offset` copied into a float. The model keeps
   * the float's bit pattern, the little-endian 32-bit word of those bytes.
   */
  function ReadWord32(buffer: seq<Byte>, offset: nat): (w: nat)
    requires offset + 4 <= |buffer|
    ensures w < Word32Modulus
    ensures Word32Bytes(w) == buffer[offset..offset + 4]
  {
    var b0: int, b1: int, b2: int, b3: int := buffer[offset], buffer[offset + 1], buffer[offset + 2], buffer[offset + 3];
    b0 + 256 * (b1 + 256 * (b2 + 256 * b3))
  }

  /** The four little-endian bytes of a 32-bit word. */
  function Word32Bytes(w: nat): (bytes: seq<Byte>)
    requires w < Word32Modulus
    ensures |bytes| == 4
  {
    [w % 256, (w / 256) % 256, (w / 256 / 256) % 256, w / 256 / 256 / 256]
  }

  lemma ReadWord32OfBytes(w: nat)
    requires w < Word32Modulus
    ensures ReadWord32(Word32Bytes(w), 0) == w
  {
  }

  /** The three fields the reader takes from a Dash packet. */
  datatype DashFrame = DashFrame(rpmBits: nat, gear: int, absRaw: int)

  /** The ranges of the field types: a 32-bit float pattern, uint8_t and int8_t. */
  ghost predicate ValidFrame(f: DashFrame)
  {
    f.rpmBits < Word32Modulus && 0 <= f.gear < 256 && -128 <= f.absRaw < 128
  }

  /** True of the byte positions the decoder reads. */
  predicate IsFieldOffset(i: nat)
  {
    RpmOffset <= i < RpmOffset + 4 || i == GearOffset || i == AbsOffset
  }

  /** The field reads of one accepted packet. */
  function DecodeDash(packet: seq<Byte>): (f: DashFrame)
    requires |packet| == DashPacketSize
    ensures ValidFrame(f)
  {
    DashFrame(ReadWord32(packet, RpmOffset), ReadUint8(packet, GearOffset), ReadInt8(packet, AbsOffset))
  }

  /**
   * A packet carrying frame `f`: the bytes of `background` with the field
   * positions overwritten by the encoding of `f`.
   */
  function EncodeDash(f: DashFrame, background: seq<Byte>): (packet: seq<Byte>)
    requires ValidFrame(f) && |background| == DashPacketSize
    ensures |packet| == DashPacketSize
    ensures forall i :: 0 <= i < DashPacketSize && !IsFieldOffset(i) ==> packet[i] == background[i]
  {
    var rpm := Word32Bytes(f.rpmBits);
    background[RpmOffset := rpm[0]][RpmOffset + 1 := rpm[1]][RpmOffset + 2 := rpm[2]][RpmOffset + 3 := rpm[3]]
              [GearOffset := f.gear][AbsOffset := f.absRaw % 256]
  }

  /** Decoding recovers every field that was encoded, whatever the other bytes. */
  lemma DecodeEncodeDash(f: DashFrame, background: seq<Byte>)
    requires ValidFrame(f) && |background| == DashPacketSize
    ensures DecodeDash(EncodeDash(f, background)) == f
  {
  }

  /** Re-encoding a decoded packet over itself gives the packet back: no field byte is lost. */
  lemma EncodeDecodeDash(packet: seq<Byte>)
    requires |packet| == DashPacketSize
    ensures EncodeDash(DecodeDash(packet), packet) == packet
  {
    var p := EncodeDash(DecodeDash(packet), packet);
    assert forall i :: 0 <= i < |p| ==> p[i] == packet[i];
  }

  /** The decoder reads nothing but bytes 12..15, 312 and 315. */
  lemma DecodeDashReadsOnlyFields(p: seq<Byte>, q: seq<Byte>)
    requires |p| == DashPacketSize && |q| == DashPacketSize
    requires forall i :: 0 <= i < DashPacketSize && IsFieldOffset(i) ==> p[i] == q[i]
    ensures DecodeDash(p) == DecodeDash(q)
  {
  }

  /** The bytes 00 00 48 42 at offset 12 are the float 50.0, bit pattern 0x42480000. */
  lemma RpmOfFiftyPattern(packet: seq<Byte>)
    requires |packet| == DashPacketSize
    requires packet[RpmOffset..RpmOffset + 4] == [0x00, 0x00, 0x48, 0x42]
    ensures DecodeDash(packet).rpmBits == 0x4248_0000
  {
  }

  /** What one non-blocking receive yields. */
  datatype Poll = NoDatagram | Datagram(bytes: seq<Byte>)

  /**
   * The value recvfrom returns into the 2048-byte buffer: -1 when nothing is
   * waiting, otherwise the datagram's length cut to the buffer's capacity.
   */
  function Received(poll: Poll): (n: int)
    ensures -1 <= n <= ReceiveBufferSize
    ensures n == -1 <==> poll.NoDatagram?
    ensures poll.Datagram? && |poll.bytes| <= ReceiveBufferSize ==> n == |poll.bytes|
    ensures poll.Datagram? && |poll.bytes| > ReceiveBufferSize ==> n == ReceiveBufferSize
  {
    match poll
    case NoDatagram => -1
    case Datagram(bytes) => if |bytes| < ReceiveBufferSize then |bytes| else ReceiveBufferSize
  }

  /**
   * The packet handed to the decoder, if any: the receive must have returned a
   * positive count equal to the Dash packet size.
   */
  function AcceptedPacket(poll: Poll): (packet: Option<seq<Byte>>)
    ensures packet.Some? <==> poll.Datagram? && |poll.bytes| == DashPacketSize
    ensures packet.Some? ==> packet.value == poll.bytes
  {
    var received := Received(poll);
    if received > 0 && received == DashPacketSize then Some(poll.bytes[..received]) else None
  }
}
