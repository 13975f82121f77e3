/**
 * The segment codec of the reliable stream (P2/streamer.py).
 *
 * A segment travels as `checksum ++ body`, where the body is what
 * `struct.pack('!i??Ns', sequence, is_ack, is_fin, data)` writes: a 4-byte
 * big-endian two's-complement sequence number, one byte per flag, then the
 * payload. The checksum is MD5 in the source; here it is any total function
 * from bytes to a 16-byte digest, so nothing is claimed about collisions.
 */
module Codec {
  import opened Base

  const MIN_INT32: int := -0x8000_0000
  const MAX_INT32: int := 0x7FFF_FFFF
  const CHECKSUM_SIZE: nat := 16
  const HEADER_SIZE: nat := 6

  predicate IsInt32(n: int) {
    MIN_INT32 <= n <= MAX_INT32
  }

  type Checksum = s: seq<byte> | |s| == CHECKSUM_SIZE witness seq(CHECKSUM_SIZE, _ => 0)

  /** `calculate_checksum`: a 16-byte digest of the body, otherwise unspecified. */
  type Digest = seq<byte> -> Checksum

  /** What `unpack_tcp_packet` returns: (sequence, is_ack, is_fin, data). */
  datatype Segment = Segment(sequence: int, isAck: bool, isFin: bool, payload: seq<byte>)

  // ---------------------------------------------------------------------------
  // The '!i' field: a signed 32-bit integer, big-endian

  function Pow256(k: nat): (r: nat)
    ensures r >= 1
  {
    if k == 0 then 1 else 0x100 * Pow256(k - 1)
  }

  /** Base-256 digit `k` of `u`, counting from the least significant. */
  function DigitOf(u: nat, k: nat): byte {
    (u / Pow256(k)) % 0x100
  }

  /** Two's complement of a signed 32-bit integer, as a value in [0, 2^32). */
  function Unsigned32(n: int): nat
    requires IsInt32(n)
  {
    if n < 0 then n + 0x1_0000_0000 else n
  }

  function Int32ToBytes(n: int): (r: seq<byte>)
    requires IsInt32(n)
    ensures |r| == 4
  {
    var u := Unsigned32(n);
    seq(4, i requires 0 <= i < 4 => DigitOf(u, 3 - i))
  }

  function BytesToInt32(b: seq<byte>): (n: int)
    requires |b| == 4
    ensures IsInt32(n)
  {
    var u := (b[0] as int) * 0x100_0000 + (b[1] as int) * 0x1_0000 + (b[2] as int) * 0x100 + (b[3] as int);
    if u > MAX_INT32 then u - 0x1_0000_0000 else u
  }

  lemma Pow256Values()
    ensures Pow256(0) == 1 && Pow256(1) == 0x100 && Pow256(2) == 0x1_0000 && Pow256(3) == 0x100_0000
  {
  }

  /** A 32-bit word is the sum of its four base-256 digits. */
  lemma DigitsOfWord(u: int)
    requires 0 <= u < 0x1_0000_0000
    ensures (u / 0x100_0000) * 0x100_0000 + ((u / 0x1_0000) % 0x100) * 0x1_0000
            + ((u / 0x100) % 0x100) * 0x100 + u % 0x100 == u
  {
    var a := u / 0x100;
    var b := a / 0x100;
    var c := b / 0x100;
    assert u == a * 0x100 + u % 0x100;
    assert a == b * 0x100 + a % 0x100;
    assert b == c * 0x100 + b % 0x100;
    assert u / 0x1_0000 == b;
    assert u / 0x100_0000 == c;
  }

  lemma Int32RoundTrip(n: int)
    requires IsInt32(n)
    ensures BytesToInt32(Int32ToBytes(n)) == n
  {
    var u := Unsigned32(n);
    var b := Int32ToBytes(n);
    Pow256Values();
    assert b[0] == DigitOf(u, 3) && b[1] == DigitOf(u, 2) && b[2] == DigitOf(u, 1) && b[3] == DigitOf(u, 0);
    assert b[0] == u / 0x100_0000;
    DigitsOfWord(u);
  }

  lemma BytesRoundTrip(b: seq<byte>)
    requires |b| == 4
    ensures Int32ToBytes(BytesToInt32(b)) == b
  {
    var u := (b[0] as int) * 0x100_0000 + (b[1] as int) * 0x1_0000 + (b[2] as int) * 0x100 + (b[3] as int);
    assert Unsigned32(BytesToInt32(b)) == u;
    Pow256Values();
    var r := Int32ToBytes(BytesToInt32(b));
    assert r[0] == DigitOf(u, 3) && r[1] == DigitOf(u, 2) && r[2] == DigitOf(u, 1) && r[3] == DigitOf(u, 0);
    DigitsOfBytes(b[0], b[1], b[2], b[3]);
    assert r == b;
  }

  /** Reading the base-256 digits back out of the number four bytes make. */
  lemma DigitsOfBytes(b0: int, b1: int, b2: int, b3: int)
    requires 0 <= b0 < 0x100 && 0 <= b1 < 0x100 && 0 <= b2 < 0x100 && 0 <= b3 < 0x100
    ensures var u := b0 * 0x100_0000 + b1 * 0x1_0000 + b2 * 0x100 + b3;
      u / 0x100_0000 == b0 && (u / 0x1_0000) % 0x100 == b1 && (u / 0x100) % 0x100 == b2 && u % 0x100 == b3
  {
    var u := b0 * 0x100_0000 + b1 * 0x1_0000 + b2 * 0x100 + b3;
    var a := b0 * 0x100 + b1;
    var c := a * 0x100 + b2;
    assert u == c * 0x100 + b3;
    assert u / 0x100 == c;
    assert c / 0x100 == a;
    assert u / 0x1_0000 == a;
    assert u / 0x100_0000 == b0;
  }

  // ---------------------------------------------------------------------------
  // create_tcp_packet / unpack_tcp_packet

  function FlagByte(flag: bool): byte {
    if flag then 1 else 0
  }

  /**
   * `create_tcp_packet`: `struct.pack` refuses a sequence number outside the
   * signed 32-bit range (struct.error), which is None here.
   */
  function Pack(sequence: int, data: seq<byte>, isAck: bool, isFin: bool): (r: Option<seq<byte>>)
    ensures r.Some? <==> IsInt32(sequence)
  {
    if IsInt32(sequence) then
      Some(Int32ToBytes(sequence) + [FlagByte(isAck), FlagByte(isFin)] + data)
    else None
  }

  /**
   * `unpack_tcp_packet`: a body shorter than the 6 header bytes makes the
   * format string invalid (struct.error), which is None here; any non-zero
   * flag byte reads as true.
   */
  function Unpack(body: seq<byte>): (r: Option<Segment>)
    ensures r.Some? <==> |body| >= HEADER_SIZE
    ensures r.Some? ==> IsInt32(r.value.sequence)
  {
    if |body| < HEADER_SIZE then None
    else Some(Segment(BytesToInt32(body[..4]), body[4] != 0, body[5] != 0, body[HEADER_SIZE..]))
  }

  /** Packing then unpacking gives back every field, for any 32-bit sequence number. */
  lemma PackUnpack(sequence: int, data: seq<byte>, isAck: bool, isFin: bool)
    requires IsInt32(sequence)
    ensures Pack(sequence, data, isAck, isFin).Some?
    ensures |Pack(sequence, data, isAck, isFin).value| == HEADER_SIZE + |data|
    ensures Unpack(Pack(sequence, data, isAck, isFin).value) == Some(Segment(sequence, isAck, isFin, data))
  {
    var body := Pack(sequence, data, isAck, isFin).value;
    assert body[..4] == Int32ToBytes(sequence);
    Int32RoundTrip(sequence);
    assert body[HEADER_SIZE..] == data;
  }

  /** A body whose flag bytes are 0 or 1 is exactly what packing its unpacked fields writes. */
  lemma UnpackPack(body: seq<byte>)
    requires |body| >= HEADER_SIZE && body[4] <= 1 && body[5] <= 1
    ensures var s := Unpack(body).value; Pack(s.sequence, s.payload, s.isAck, s.isFin) == Some(body)
  {
    var s := Unpack(body).value;
    BytesRoundTrip(body[..4]);
    assert body == body[..4] + [body[4], body[5]] + body[HEADER_SIZE..];
  }

  // ---------------------------------------------------------------------------
  // Framing: checksum ++ body, and the listener's acceptance test

  /** `checksum + tcp_packet` as built before every `sendto`. */
  function Frame(h: Digest, sequence: int, data: seq<byte>, isAck: bool, isFin: bool): (r: Option<seq<byte>>)
    ensures r.Some? <==> IsInt32(sequence)
  {
    match Pack(sequence, data, isAck, isFin)
    case None => None
    case Some(body) => Some(h(body) + body)
  }

  /**
   * What one listener iteration makes of a datagram (P2/streamer.py:271-291):
   * empty datagrams and empty bodies are skipped, a body too short to unpack
   * raises inside the try and is dropped, and a prefix that differs from the
   * digest of the rest is dropped. The body is unpacked before the checksum is
   * compared, so both must pass.
   */
  function Parse(h: Digest, datagram: seq<byte>): (r: Option<Segment>)
    ensures r.Some? <==>
      |datagram| >= CHECKSUM_SIZE + HEADER_SIZE && datagram[..CHECKSUM_SIZE] == h(datagram[CHECKSUM_SIZE..])
    ensures r.Some? ==> Unpack(datagram[CHECKSUM_SIZE..]) == r && IsInt32(r.value.sequence)
  {
    if |datagram| == 0 then None
    else
      var body := if |datagram| > CHECKSUM_SIZE then datagram[CHECKSUM_SIZE..] else [];
      if body == [] then None
      else match Unpack(body)
        case None => None
        case Some(s) => if datagram[..CHECKSUM_SIZE] != h(body) then None else Some(s)
  }

  /** Every frame the sender builds passes the receiver's check and decodes to what was sent. */
  lemma FrameAccepted(h: Digest, sequence: int, data: seq<byte>, isAck: bool, isFin: bool)
    requires IsInt32(sequence)
    ensures Frame(h, sequence, data, isAck, isFin).Some?
    ensures Parse(h, Frame(h, sequence, data, isAck, isFin).value) == Some(Segment(sequence, isAck, isFin, data))
  {
    PackUnpack(sequence, data, isAck, isFin);
    var body := Pack(sequence, data, isAck, isFin).value;
    var frame := h(body) + body;
    assert frame[..CHECKSUM_SIZE] == h(body);
    assert frame[CHECKSUM_SIZE..] == body;
  }

  /** Flipping the checksum prefix of a valid frame to anything else gets it dropped. */
  lemma TamperedChecksumDropped(h: Digest, body: seq<byte>, prefix: seq<byte>)
    requires |prefix| == CHECKSUM_SIZE && prefix != h(body)
    ensures Parse(h, prefix + body) == None
  {
    var d := prefix + body;
    if |d| >= CHECKSUM_SIZE + HEADER_SIZE {
      assert d[..CHECKSUM_SIZE] == prefix;
      assert d[CHECKSUM_SIZE..] == body;
    }
  }
}
