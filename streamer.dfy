/**
 * The reliable stream of P2/streamer.py as a state machine.
 *
 * The Python class runs a listener thread, one `threading.Timer` per sent
 * segment, one per scheduled ack, and a coalescing timer; `recv` and `close`
 * poll with `time.sleep`. Here every such activity is one step method on the
 * `Streamer` object, and any interleaving of steps is a run of the model.
 * Frames handed to `socket.sendto` are appended to `sent`; a datagram returned
 * by `socket.recvfrom` is the argument of `ListenerStep`.
 */
module Streamer {
  import opened Base
  import opened Codec

  /** 1472 - 16 (checksum) - 4 (sequence) - 2 (flags) bytes of payload per segment. */
  const CHUNK_SIZE: nat := 1450

  /** `b'-1'`, the payload of every ack, fin and fin-ack segment. */
  const CONTROL_PAYLOAD: seq<byte> := [45, 49]

  // ---------------------------------------------------------------------------
  // Segmentation of the coalescing buffer (P2/streamer.py:102-103)

  /** `[buf[i:i + 1450] for i in range(0, len(buf), 1450)]` */
  function Chunks(buf: seq<byte>): seq<seq<byte>>
    decreases |buf|
  {
    if |buf| <= CHUNK_SIZE then (if buf == [] then [] else [buf])
    else [buf[..CHUNK_SIZE]] + Chunks(buf[CHUNK_SIZE..])
  }

  function Concat(parts: seq<seq<byte>>): seq<byte> {
    if parts == [] then [] else parts[0] + Concat(parts[1..])
  }

  /** The chunks put back together are the buffer. */
  lemma {:induction false} ChunksConcat(buf: seq<byte>)
    ensures Concat(Chunks(buf)) == buf
    decreases |buf|
  {
    if |buf| > CHUNK_SIZE {
      ChunksConcat(buf[CHUNK_SIZE..]);
      assert buf == buf[..CHUNK_SIZE] + buf[CHUNK_SIZE..];
    }
  }

  /** ceil(n / 1450) chunks of 1 to 1450 bytes, all but the last exactly 1450. */
  lemma {:induction false} ChunksShape(buf: seq<byte>)
    ensures |Chunks(buf)| == (|buf| + CHUNK_SIZE - 1) / CHUNK_SIZE
    ensures forall i :: 0 <= i < |Chunks(buf)| ==> 1 <= |Chunks(buf)[i]| <= CHUNK_SIZE
    ensures forall i :: 0 <= i < |Chunks(buf)| - 1 ==> |Chunks(buf)[i]| == CHUNK_SIZE
    decreases |buf|
  {
    if |buf| > CHUNK_SIZE {
      var rest := buf[CHUNK_SIZE..];
      ChunksShape(rest);
      var c := Chunks(buf);
      assert c == [buf[..CHUNK_SIZE]] + Chunks(rest);
      forall i | 0 < i < |c| ensures c[i] == Chunks(rest)[i - 1] { }
    }
  }

  /** 3000 bytes go out as 1450, 1450 and 100 bytes. */
  lemma ChunksOf3000(buf: seq<byte>)
    requires |buf| == 3000
    ensures |Chunks(buf)| == 3
    ensures |Chunks(buf)[0]| == 1450 && |Chunks(buf)[1]| == 1450 && |Chunks(buf)[2]| == 100
  {
    var rest := buf[CHUNK_SIZE..];
    assert Chunks(rest) == [rest[..CHUNK_SIZE]] + Chunks(rest[CHUNK_SIZE..]);
    assert Chunks(rest[CHUNK_SIZE..]) == [rest[CHUNK_SIZE..]];
  }

  // ---------------------------------------------------------------------------
  // The frames a flush emits

  /** How many chunks a flush frames before the sequence number leaves the 32-bit range. */
  function SendableCount(start: int, n: nat): (k: nat)
    requires 0 <= start <= MAX_INT32 + 1
    ensures k <= n && start + k <= MAX_INT32 + 1
    ensures k < n ==> start + k == MAX_INT32 + 1
  {
    if n <= MAX_INT32 + 1 - start then n else MAX_INT32 + 1 - start
  }

  function DataFrame(h: Digest, sequence: int, chunk: seq<byte>): seq<byte>
    requires IsInt32(sequence)
  {
    Frame(h, sequence, chunk, false, false).value
  }

  function ControlFrame(h: Digest, sequence: int, isAck: bool, isFin: bool): seq<byte>
    requires IsInt32(sequence)
  {
    Frame(h, sequence, CONTROL_PAYLOAD, isAck, isFin).value
  }

  /** How a chunk becomes a frame given its number; the flush only applies it to 32-bit numbers. */
  type Encoder = (int, seq<byte>) -> seq<byte>

  function DataEncoder(h: Digest): Encoder {
    (n: int, chunk: seq<byte>) => if IsInt32(n) then DataFrame(h, n, chunk) else []
  }

  predicate FitsInt32(start: int, n: nat) {
    0 <= start && start + n <= MAX_INT32 + 1
  }

  /** The frames for the first `n` chunks, numbered consecutively from `start`, in sending order. */
  function DataFrames(enc: Encoder, start: int, chunks: seq<seq<byte>>, n: nat): (r: seq<seq<byte>>)
    requires n <= |chunks|
    ensures |r| == n
  {
    if n == 0 then [] else DataFrames(enc, start, chunks, n - 1) + [enc(start + n - 1, chunks[n - 1])]
  }

  /** `send_buffer` after the frames for the first `n` chunks are stored under their numbers from `start`. */
  function StoreFrames(buffer: map<int, seq<byte>>, enc: Encoder, start: int, chunks: seq<seq<byte>>, n: nat): map<int, seq<byte>>
    requires n <= |chunks|
  {
    if n == 0 then buffer
    else StoreFrames(buffer, enc, start, chunks, n - 1)[start + n - 1 := enc(start + n - 1, chunks[n - 1])]
  }

  /** `sent_ack_buffer` after `n` sequence numbers from `start` are set to False. */
  function MarkUnacked(acks: map<int, bool>, start: int, n: nat): map<int, bool> {
    if n == 0 then acks else MarkUnacked(acks, start, n - 1)[start + n - 1 := false]
  }

  lemma DataFramesStep(enc: Encoder, start: int, chunks: seq<seq<byte>>, n: nat)
    requires n < |chunks|
    ensures DataFrames(enc, start, chunks, n + 1) == DataFrames(enc, start, chunks, n) + [enc(start + n, chunks[n])]
  {
    var m := n + 1;
    assert m - 1 == n;
  }

  lemma StoreFramesStep(buffer: map<int, seq<byte>>, enc: Encoder, start: int, chunks: seq<seq<byte>>, n: nat)
    requires n < |chunks|
    ensures StoreFrames(buffer, enc, start, chunks, n + 1)
         == StoreFrames(buffer, enc, start, chunks, n)[start + n := enc(start + n, chunks[n])]
  {
    var m := n + 1;
    assert m - 1 == n;
  }

  lemma MarkUnackedStep(acks: map<int, bool>, start: int, n: nat)
    ensures MarkUnacked(acks, start, n + 1) == MarkUnacked(acks, start, n)[start + n := false]
  {
    var m := n + 1;
    assert m - 1 == n;
  }

  /** Frame `i` of a flush is chunk `i` encoded under number `start + i`. */
  lemma {:induction false} DataFramesIndex(enc: Encoder, start: int, chunks: seq<seq<byte>>, n: nat, i: nat)
    requires n <= |chunks| && i < n
    ensures DataFrames(enc, start, chunks, n)[i] == enc(start + i, chunks[i])
  {
    if i < n - 1 {
      DataFramesIndex(enc, start, chunks, n - 1, i);
    }
  }

  /** Storing a flush's frames adds exactly the new numbers to `send_buffer`. */
  lemma {:induction false} StoreFramesKeys(buffer: map<int, seq<byte>>, enc: Encoder, start: int, chunks: seq<seq<byte>>, n: nat)
    requires n <= |chunks|
    ensures forall k :: k in StoreFrames(buffer, enc, start, chunks, n) <==> k in buffer || start <= k < start + n
  {
    if n > 0 {
      StoreFramesKeys(buffer, enc, start, chunks, n - 1);
    }
  }

  /** Each new number maps to its own chunk's frame, whatever was stored under it before. */
  lemma {:induction false} StoreFramesAt(buffer: map<int, seq<byte>>, enc: Encoder, start: int, chunks: seq<seq<byte>>, n: nat, i: nat)
    requires n <= |chunks| && i < n
    ensures start + i in StoreFrames(buffer, enc, start, chunks, n)
    ensures StoreFrames(buffer, enc, start, chunks, n)[start + i] == enc(start + i, chunks[i])
  {
    if i < n - 1 {
      StoreFramesAt(buffer, enc, start, chunks, n - 1, i);
    }
  }

  /** The numbers a flush covers are all marked unacknowledged. */
  lemma {:induction false} MarkUnackedAt(acks: map<int, bool>, start: int, n: nat, i: nat)
    requires i < n
    ensures start + i in MarkUnacked(acks, start, n) && !MarkUnacked(acks, start, n)[start + i]
  {
    if i < n - 1 {
      MarkUnackedAt(acks, start, n - 1, i);
    }
  }

  /** Marking numbers unacknowledged never removes an entry of `sent_ack_buffer`. */
  lemma {:induction false} MarkUnackedKeeps(acks: map<int, bool>, start: int, n: nat)
    ensures acks.Keys <= MarkUnacked(acks, start, n).Keys
  {
    if n > 0 {
      MarkUnackedKeeps(acks, start, n - 1);
    }
  }

  /**
   * `send_buffer` and `sent_ack_buffer` keep `frames` for retransmission: the
   * number `start + i` holds frame `i` and is marked unacknowledged.
   */
  predicate KeptForResend(sendBuffer: map<int, seq<byte>>, acks: map<int, bool>, start: int, frames: seq<seq<byte>>) {
    forall k :: start <= k < start + |frames| ==>
      && k in sendBuffer && sendBuffer[k] == frames[k - start]
      && k in acks && !acks[k]
  }

  /** Every number a flush covers holds the frame sent under it and is marked unacknowledged. */
  lemma StoredAndMarked(buffer: map<int, seq<byte>>, acks: map<int, bool>, enc: Encoder, start: int, chunks: seq<seq<byte>>, n: nat,
                         stored: map<int, seq<byte>>, marked: map<int, bool>, frames: seq<seq<byte>>)
    requires n <= |chunks|
    requires stored == StoreFrames(buffer, enc, start, chunks, n)
    requires marked == MarkUnacked(acks, start, n)
    requires frames == DataFrames(enc, start, chunks, n)
    ensures KeptForResend(stored, marked, start, frames)
  {
    forall k | start <= k < start + n
      ensures && k in stored && stored[k] == frames[k - start]
              && k in marked && !marked[k]
    {
      DataFramesIndex(enc, start, chunks, n, k - start);
      StoreFramesAt(buffer, enc, start, chunks, n, k - start);
      MarkUnackedAt(acks, start, n, k - start);
    }
  }

  predicate IsData(s: Segment) {
    !s.isAck && !s.isFin
  }

  /** `frame` is accepted by the receiver as the data segment numbered `k`. */
  predicate DecodesAsData(h: Digest, frame: seq<byte>, k: int) {
    var s := Parse(h, frame);
    s.Some? && s.value.sequence == k && IsData(s.value)
  }

  /** Every entry of `send_buffer` is a frame the receiver accepts as the data segment its key numbers. */
  predicate FramesDecode(h: Digest, sendBuffer: map<int, seq<byte>>) {
    forall k :: k in sendBuffer ==> DecodesAsData(h, sendBuffer[k], k)
  }

  /** The data encoder's frame for a 32-bit number is accepted as that data segment. */
  lemma DataEncoderDecodes(h: Digest, k: int, chunk: seq<byte>)
    requires IsInt32(k)
    ensures DataEncoder(h)(k, chunk) == DataFrame(h, k, chunk)
    ensures Parse(h, DataEncoder(h)(k, chunk)) == Some(Segment(k, false, false, chunk))
  {
    FrameAccepted(h, k, chunk, false, false);
  }

  /** Storing a frame that decodes as data segment `k` under key `k` keeps `send_buffer` decodable. */
  lemma FramesDecodeUpdate(h: Digest, sendBuffer: map<int, seq<byte>>, k: int, frame: seq<byte>)
    requires FramesDecode(h, sendBuffer) && DecodesAsData(h, frame, k)
    ensures FramesDecode(h, sendBuffer[k := frame])
  {
    var updated := sendBuffer[k := frame];
    forall j | j in updated
      ensures DecodesAsData(h, updated[j], j)
    {
      if j != k {
        assert updated[j] == sendBuffer[j];
      }
    }
  }

  /** Storing a flush's frames keeps every entry of `send_buffer` a decodable data frame. */
  lemma {:induction false} StoreFramesDecode(buffer: map<int, seq<byte>>, h: Digest, start: int, chunks: seq<seq<byte>>, n: nat)
    requires n <= |chunks| && FitsInt32(start, n) && FramesDecode(h, buffer)
    ensures FramesDecode(h, StoreFrames(buffer, DataEncoder(h), start, chunks, n))
  {
    if n > 0 {
      StoreFramesDecode(buffer, h, start, chunks, n - 1);
      var prev := StoreFrames(buffer, DataEncoder(h), start, chunks, n - 1);
      var frame := DataEncoder(h)(start + n - 1, chunks[n - 1]);
      DataEncoderDecodes(h, start + n - 1, chunks[n - 1]);
      FramesDecodeUpdate(h, prev, start + n - 1, frame);
    }
  }

  /**
   * What the peer's listener decodes from a flush: consecutive data segments
   * whose payloads put together give back the coalesced buffer.
   */
  lemma FlushDecodes(h: Digest, start: int, buf: seq<byte>)
    requires FitsInt32(start, |Chunks(buf)|)
    ensures var frames := DataFrames(DataEncoder(h), start, Chunks(buf), |Chunks(buf)|);
      && (forall i :: 0 <= i < |frames| ==>
            Parse(h, frames[i]) == Some(Segment(start + i, false, false, Chunks(buf)[i])))
      && Concat(seq(|frames|, i requires 0 <= i < |frames| => Parse(h, frames[i]).value.payload)) == buf
  {
    var chunks := Chunks(buf);
    var frames := DataFrames(DataEncoder(h), start, chunks, |chunks|);
    forall i | 0 <= i < |frames|
      ensures Parse(h, frames[i]) == Some(Segment(start + i, false, false, chunks[i]))
    {
      DataFramesIndex(DataEncoder(h), start, chunks, |chunks|, i);
      DataEncoderDecodes(h, start + i, chunks[i]);
    }
    var payloads := seq(|frames|, i requires 0 <= i < |frames| => Parse(h, frames[i]).value.payload);
    assert payloads == chunks;
    ChunksConcat(buf);
  }

  /**
   * One pass of the loop body of P2/streamer.py:106-116 for a number that
   * `struct.pack` accepts: the False entry, then the frame sent and stored.
   * `enc` is the data encoder of `h`, passed along so that callers see the
   * frame only through it.
   */
  method SendChunk(h: Digest, enc: Encoder, sequenceNumber: int, chunk: seq<byte>,
                   wire0: seq<seq<byte>>, buffer0: map<int, seq<byte>>, acks0: map<int, bool>)
    returns (wire: seq<seq<byte>>, buffer: map<int, seq<byte>>, acks: map<int, bool>)
    requires enc == DataEncoder(h) && IsInt32(sequenceNumber)
    ensures wire == wire0 + [enc(sequenceNumber, chunk)]
    ensures buffer == buffer0[sequenceNumber := enc(sequenceNumber, chunk)]
    ensures acks == acks0[sequenceNumber := false]
  {
    acks := acks0[sequenceNumber := false];
    var packet := Frame(h, sequenceNumber, chunk, false, false);
    wire := wire0 + [packet.value];
    buffer := buffer0[sequenceNumber := packet.value];
  }

  /** The pass for chunk `i`: the running wire log and maps move from `i` chunks sent to `i + 1`. */
  method SendNext(h: Digest, enc: Encoder, chunks: seq<seq<byte>>, start: int, i: nat,
                  wire0: seq<seq<byte>>, buffer0: map<int, seq<byte>>, acks0: map<int, bool>,
                  wire: seq<seq<byte>>, buffer: map<int, seq<byte>>, acks: map<int, bool>)
    returns (wire': seq<seq<byte>>, buffer': map<int, seq<byte>>, acks': map<int, bool>)
    requires enc == DataEncoder(h) && i < |chunks| && IsInt32(start + i)
    requires wire == wire0 + DataFrames(enc, start, chunks, i)
    requires buffer == StoreFrames(buffer0, enc, start, chunks, i)
    requires acks == MarkUnacked(acks0, start, i)
    ensures wire' == wire0 + DataFrames(enc, start, chunks, i + 1)
    ensures buffer' == StoreFrames(buffer0, enc, start, chunks, i + 1)
    ensures acks' == MarkUnacked(acks0, start, i + 1)
  {
    DataFramesStep(enc, start, chunks, i);
    StoreFramesStep(buffer0, enc, start, chunks, i);
    MarkUnackedStep(acks0, start, i);
    wire', buffer', acks' := SendChunk(h, enc, start + i, chunks[i], wire, buffer, acks);
  }

  /**
   * The first `k` passes of the loop of P2/streamer.py:105-116, all with
   * numbers `struct.pack` accepts, on the values of the fields it changes: the
   * wire log, `send_buffer` and `sent_ack_buffer`.
   */
  method SendFrames(h: Digest, chunks: seq<seq<byte>>, start: int, k: nat,
                    wire0: seq<seq<byte>>, buffer0: map<int, seq<byte>>, acks0: map<int, bool>)
    returns (wire: seq<seq<byte>>, buffer: map<int, seq<byte>>, acks: map<int, bool>)
    requires k <= |chunks| && FitsInt32(start, k)
    ensures wire == wire0 + DataFrames(DataEncoder(h), start, chunks, k)
    ensures buffer == StoreFrames(buffer0, DataEncoder(h), start, chunks, k)
    ensures acks == MarkUnacked(acks0, start, k)
  {
    var enc := DataEncoder(h);
    wire, buffer, acks := wire0, buffer0, acks0;
    var i := 0;
    while i < k
      invariant 0 <= i <= k
      invariant wire == wire0 + DataFrames(enc, start, chunks, i)
      invariant buffer == StoreFrames(buffer0, enc, start, chunks, i)
      invariant acks == MarkUnacked(acks0, start, i)
    {
      wire, buffer, acks := SendNext(h, enc, chunks, start, i, wire0, buffer0, acks0, wire, buffer, acks);
      i := i + 1;
    }
  }

  /**
   * The whole loop of P2/streamer.py:105-116. Each chunk gets the next number,
   * a False entry in `sent_ack_buffer`, and then is packed, sent and stored.
   * The entry is written before packing, so when the number leaves the 32-bit
   * range the entry is left behind and `struct.error` (`raised`) ends the loop.
   */
  method SendChunks(h: Digest, chunks: seq<seq<byte>>, start: int,
                    wire0: seq<seq<byte>>, buffer0: map<int, seq<byte>>, acks0: map<int, bool>)
    returns (raised: bool, wire: seq<seq<byte>>, buffer: map<int, seq<byte>>, acks: map<int, bool>, next: int)
    requires 0 <= start <= MAX_INT32 + 1
    ensures var k := SendableCount(start, |chunks|);
      && raised == (k < |chunks|)
      && next == start + k
      && wire == wire0 + DataFrames(DataEncoder(h), start, chunks, k)
      && buffer == StoreFrames(buffer0, DataEncoder(h), start, chunks, k)
      && acks == MarkUnacked(acks0, start, if raised then k + 1 else k)
  {
    var k := SendableCount(start, |chunks|);
    wire, buffer, acks := SendFrames(h, chunks, start, k, wire0, buffer0, acks0);
    next := start + k;
    // the chunk numbered 2^31, if any: its entry is written, then packing fails
    raised := k < |chunks|;
    if raised {
      MarkUnackedStep(acks0, start, k);
      acks := acks[next := false];
    }
  }

  // ---------------------------------------------------------------------------
  // The connection state and one function per step

  /** The coalescing `threading.Timer`: it can be started once, and is dead after firing or cancel. */
  datatype TimerState = NotStarted | Armed | Spent

  /** How a poll of the FIN loop in `close` ends. */
  datatype CloseProgress = Waiting | Finished | PackError

  /** How one firing of a retransmission timer ends. */
  datatype Retransmission =
    | Idle        // the connection is closed: nothing is done and no timer follows
    | Resent      // still unacknowledged: the frame goes out again and the timer is rescheduled
    | Forgotten   // acknowledged: the entry leaves `sent_ack_buffer`
    | KeyMissing  // no entry: KeyError ends the timer thread

  /** The fields of a `Streamer` that the protocol reads and writes. */
  datatype Conn = Conn(
    receiveBuffer: map<int, seq<byte>>,
    sendBuffer: map<int, seq<byte>>,
    sentAckBuffer: map<int, bool>,
    currSequenceNumber: int,
    closeSequenceNumber: Option<int>,
    closedFromRecv: bool,
    closedAck: bool,
    closed: bool,
    nagleSendBuffer: seq<byte>,
    oldData: seq<byte>,
    nagleTimer: TimerState,
    pendingAcks: seq<int>,
    finTransmitted: bool,
    sent: seq<seq<byte>>)

  /** The state after a step together with what the step returns or raises. */
  datatype Outcome<T> = Outcome(conn: Conn, out: T)

  /** `__init__`: empty buffers, counter 0, nothing closed, the coalescing timer created but not started. */
  function Initial(): Conn {
    Conn(map[], map[], map[], 0, None, false, false, false, [], [], NotStarted, [], false, [])
  }

  /**
   * What every reachable state satisfies. The counter stays in the range
   * `struct.pack('!i')` accepts plus one, because it only grows by framing
   * or by delivering a received (hence 32-bit) number; every stored frame is
   * numbered below it and decodes as the data segment of its key; a non-empty
   * `old_data`, never longer than the coalescing buffer it was copied from,
   * means the coalescing timer has been started.
   */
  ghost predicate ConnValid(h: Digest, c: Conn) {
    && 0 <= c.currSequenceNumber <= MAX_INT32 + 1
    && (forall k :: k in c.receiveBuffer ==> IsInt32(k))
    && (forall i :: 0 <= i < |c.pendingAcks| ==> IsInt32(c.pendingAcks[i]))
    && (forall k :: k in c.sendBuffer ==> 0 <= k < c.currSequenceNumber)
    && FramesDecode(h, c.sendBuffer)
    && |c.oldData| <= |c.nagleSendBuffer|
    && (c.oldData != [] ==> c.nagleTimer != NotStarted)
  }

  /**
   * The flush of P2/streamer.py:102-116: every chunk of the coalescing buffer
   * is numbered, marked unacknowledged, framed, sent and stored. The buffer
   * itself is not cleared. `out` is the `struct.error` of a number past 2^31 - 1.
   */
  function Flush(h: Digest, c: Conn): (r: Outcome<bool>)
    requires 0 <= c.currSequenceNumber <= MAX_INT32 + 1
    ensures r.conn.nagleSendBuffer == c.nagleSendBuffer
    ensures c.currSequenceNumber <= r.conn.currSequenceNumber <= MAX_INT32 + 1
    ensures r.out ==> r.conn.currSequenceNumber == MAX_INT32 + 1
  {
    var chunks := Chunks(c.nagleSendBuffer);
    var start := c.currSequenceNumber;
    var k := SendableCount(start, |chunks|);
    var raised := k < |chunks|;
    Outcome(c.(sent := c.sent + DataFrames(DataEncoder(h), start, chunks, k),
               sendBuffer := StoreFrames(c.sendBuffer, DataEncoder(h), start, chunks, k),
               sentAckBuffer := MarkUnacked(c.sentAckBuffer, start, if raised then k + 1 else k),
               currSequenceNumber := start + k),
            raised)
  }

  /**
   * `run_nagle_algo`, called from `send` (`inCallback` false) or as the body of
   * the coalescing timer (`inCallback` true). `out` is an exception escaping:
   * `struct.error` from the flush, or the RuntimeError of starting a
   * `threading.Timer` that has already run.
   */
  function NagleCheck(h: Digest, c: Conn, inCallback: bool): (r: Outcome<bool>)
    requires 0 <= c.currSequenceNumber <= MAX_INT32 + 1
    ensures r.conn.nagleSendBuffer == c.nagleSendBuffer
    ensures r.conn.sent == c.sent || (c.nagleSendBuffer != [] && c.oldData == c.nagleSendBuffer)
  {
    if c.nagleSendBuffer == [] then Outcome(c, false)
    else if c.oldData == c.nagleSendBuffer then
      // cancel() kills a waiting timer; inside the callback the timer is already running
      Flush(h, c.(nagleTimer := if !inCallback && c.nagleTimer == Armed then Spent else c.nagleTimer))
    else
      var remembered := c.(oldData := c.nagleSendBuffer);
      if inCallback || c.nagleTimer == Armed then Outcome(remembered, false)
      else if c.nagleTimer == NotStarted then Outcome(remembered.(nagleTimer := Armed), false)
      else Outcome(remembered, true)
  }

  /** `send`: append to the coalescing buffer, then run the coalescing check. */
  function SendData(h: Digest, c: Conn, data: seq<byte>): (r: Outcome<bool>)
    requires 0 <= c.currSequenceNumber <= MAX_INT32 + 1
    ensures r.conn.nagleSendBuffer == c.nagleSendBuffer + data
    ensures r.conn.sent == c.sent || c.oldData == c.nagleSendBuffer + data
  {
    NagleCheck(h, c.(nagleSendBuffer := c.nagleSendBuffer + data), false)
  }

  /** The coalescing timer fires: the check runs inside the timer thread, after which the timer is dead. */
  function NagleTimerFired(h: Digest, c: Conn): Outcome<bool>
    requires 0 <= c.currSequenceNumber <= MAX_INT32 + 1 && c.nagleTimer == Armed
  {
    var r := NagleCheck(h, c, true);
    Outcome(r.conn.(nagleTimer := Spent), r.out)
  }

  /** What the listener does with a segment that passed its checks (P2/streamer.py:293-320). */
  function HandleSegment(h: Digest, c: Conn, s: Segment): (r: Conn)
    requires IsInt32(s.sequence)
    ensures r.sendBuffer == c.sendBuffer && r.currSequenceNumber == c.currSequenceNumber
    ensures r.nagleSendBuffer == c.nagleSendBuffer && r.closed == c.closed
  {
    if s.isAck && s.isFin then c.(closedAck := true)
    else if s.isAck then c.(sentAckBuffer := c.sentAckBuffer[s.sequence := true])
    else if s.isFin then
      c.(sent := c.sent + [ControlFrame(h, s.sequence, true, true)], closedFromRecv := true)
    else
      // the delayed ack is scheduled; a payload already buffered is kept
      c.(pendingAcks := c.pendingAcks + [s.sequence],
         receiveBuffer := if s.sequence in c.receiveBuffer then c.receiveBuffer
                          else c.receiveBuffer[s.sequence := s.payload])
  }

  /** One iteration of `listener` on the datagram `recvfrom` returned; once `closed` is set the loop has exited. */
  function Receive(h: Digest, c: Conn, datagram: seq<byte>): (r: Conn)
    ensures c.closed ==> r == c
    ensures r.sendBuffer == c.sendBuffer && r.currSequenceNumber == c.currSequenceNumber
  {
    if c.closed then c
    else match Parse(h, datagram)
      case None => c
      case Some(s) => HandleSegment(h, c, s)
  }

  /** A delayed ack fires: `send_tcp_ack_packet(seq, b'-1')`. */
  function AckFired(h: Digest, c: Conn, i: nat): (r: Conn)
    requires i < |c.pendingAcks| && IsInt32(c.pendingAcks[i])
    ensures |r.sent| == |c.sent| + 1 && r.sent[..|c.sent|] == c.sent
    ensures |r.pendingAcks| + 1 == |c.pendingAcks|
  {
    c.(sent := c.sent + [ControlFrame(h, c.pendingAcks[i], true, false)],
       pendingAcks := c.pendingAcks[..i] + c.pendingAcks[i + 1..])
  }

  /** One firing of `handle_packet_retransmission(seq, frame)`. */
  function Retransmit(c: Conn, sequenceNumber: int, frame: seq<byte>): (r: Outcome<Retransmission>)
    ensures r.out == Resent <==> !c.closed && sequenceNumber in c.sentAckBuffer && !c.sentAckBuffer[sequenceNumber]
    ensures r.out != Resent ==> r.conn.sent == c.sent
  {
    if c.closed then Outcome(c, Idle)
    else if sequenceNumber !in c.sentAckBuffer then Outcome(c, KeyMissing)
    else if !c.sentAckBuffer[sequenceNumber] then Outcome(c.(sent := c.sent + [frame]), Resent)
    else Outcome(c.(sentAckBuffer := c.sentAckBuffer - {sequenceNumber}), Forgotten)
  }

  /** One pass of the `recv` loop: hand over the payload numbered by the counter, or wait. */
  function Deliver(c: Conn): (r: Outcome<Option<seq<byte>>>)
    ensures r.conn.currSequenceNumber == c.currSequenceNumber + (if r.out.Some? then 1 else 0)
  {
    var n := c.currSequenceNumber;
    if n in c.receiveBuffer then
      Outcome(c.(receiveBuffer := c.receiveBuffer - {n}, currSequenceNumber := n + 1), Some(c.receiveBuffer[n]))
    else Outcome(c, None)
  }

  /**
   * The waits at the head of `close` (P2/streamer.py:334-344): go on only once
   * the coalescing timer is not alive and `sent_ack_buffer` is empty; then fix
   * the FIN's number.
   */
  function BeginClose(c: Conn): (r: Outcome<bool>)
    ensures r.out ==> r.conn.closeSequenceNumber == Some(c.currSequenceNumber) && !r.conn.finTransmitted
    ensures !r.out ==> r.conn == c
  {
    if c.nagleTimer != Armed && |c.sentAckBuffer| == 0 then
      Outcome(c.(closeSequenceNumber := Some(c.currSequenceNumber), finTransmitted := false), true)
    else Outcome(c, false)
  }

  /**
   * One pass of the FIN loop of `close` (P2/streamer.py:345-364): leave once both
   * the peer's FIN and its FIN-ack have arrived; otherwise send the FIN the first
   * time and whenever the 0.25 s resend delay has elapsed (`resendDue`).
   */
  function CloseStep(h: Digest, c: Conn, resendDue: bool): (r: Outcome<CloseProgress>)
    requires c.closeSequenceNumber.Some?
    ensures r.conn.closed <==> c.closed || r.out == Finished
    ensures r.out == PackError ==> !IsInt32(c.closeSequenceNumber.value)
  {
    if c.closedFromRecv && c.closedAck then Outcome(c.(closed := true), Finished)
    else if !c.finTransmitted || resendDue then
      var n := c.closeSequenceNumber.value;
      if !IsInt32(n) then Outcome(c, PackError)
      else Outcome(c.(sent := c.sent + [ControlFrame(h, n, false, true)], finTransmitted := true), Waiting)
    else Outcome(c, Waiting)
  }

  // ---------------------------------------------------------------------------
  // What the steps keep and what they promise

  lemma InitialValid(h: Digest)
    ensures ConnValid(h, Initial())
  {
  }

  /** A flush keeps the invariant: the new numbers are below the advanced counter and their frames decode. */
  lemma FlushValid(h: Digest, c: Conn)
    requires ConnValid(h, c)
    ensures ConnValid(h, Flush(h, c).conn)
  {
    var chunks := Chunks(c.nagleSendBuffer);
    var k := SendableCount(c.currSequenceNumber, |chunks|);
    StoreFramesKeys(c.sendBuffer, DataEncoder(h), c.currSequenceNumber, chunks, k);
    StoreFramesDecode(c.sendBuffer, h, c.currSequenceNumber, chunks, k);
  }

  lemma NagleCheckValid(h: Digest, c: Conn, inCallback: bool)
    requires ConnValid(h, c) && (inCallback ==> c.nagleTimer == Armed)
    ensures ConnValid(h, NagleCheck(h, c, inCallback).conn)
  {
    if c.nagleSendBuffer != [] && c.oldData == c.nagleSendBuffer {
      var stopped := c.(nagleTimer := if !inCallback && c.nagleTimer == Armed then Spent else c.nagleTimer);
      TimerChangeValid(h, c, stopped);
      FlushedCheckValid(h, c, inCallback, stopped);
    } else if c.nagleSendBuffer != [] {
      TimerChangeValid(h, c, NagleCheck(h, c, inCallback).conn);
    }
  }

  /** Proof aid: a check that flushes leaves a valid connection. */
  lemma FlushedCheckValid(h: Digest, c: Conn, inCallback: bool, stopped: Conn)
    requires ConnValid(h, stopped) && c.nagleSendBuffer != [] && c.oldData == c.nagleSendBuffer
    requires stopped == c.(nagleTimer := if !inCallback && c.nagleTimer == Armed then Spent else c.nagleTimer)
    ensures ConnValid(h, NagleCheck(h, c, inCallback).conn)
  {
    FlushValid(h, stopped);
  }

  /** Proof aid: remembering the buffer in `old_data` and moving the timer on keeps a connection valid. */
  lemma TimerChangeValid(h: Digest, c: Conn, c1: Conn)
    requires ConnValid(h, c)
    requires c1 == c.(oldData := c1.oldData, nagleTimer := c1.nagleTimer)
    requires |c1.oldData| <= |c.nagleSendBuffer| && (c1.oldData != [] ==> c1.nagleTimer != NotStarted)
    ensures ConnValid(h, c1)
  {
  }

  lemma SendDataValid(h: Digest, c: Conn, data: seq<byte>)
    requires ConnValid(h, c)
    ensures ConnValid(h, SendData(h, c, data).conn)
  {
    NagleCheckValid(h, c.(nagleSendBuffer := c.nagleSendBuffer + data), false);
  }

  lemma NagleTimerFiredValid(h: Digest, c: Conn)
    requires ConnValid(h, c) && c.nagleTimer == Armed
    ensures ConnValid(h, NagleTimerFired(h, c).conn)
  {
    NagleCheckValid(h, c, true);
  }

  /**
   * The buffer is never cleared: once a check has flushed it, the next check
   * (from `send` with no new data, or from the timer) flushes the same bytes
   * again under new numbers.
   */
  lemma FlushRepeats(h: Digest, c: Conn, inCallback: bool)
    requires ConnValid(h, c) && c.nagleSendBuffer != [] && c.oldData == c.nagleSendBuffer
    ensures var after := NagleCheck(h, c, inCallback).conn;
      && after.nagleSendBuffer == c.nagleSendBuffer
      && after.oldData == after.nagleSendBuffer
      && NagleCheck(h, after, false).conn.sent ==
         after.sent + DataFrames(DataEncoder(h), after.currSequenceNumber, Chunks(c.nagleSendBuffer),
                                 SendableCount(after.currSequenceNumber, |Chunks(c.nagleSendBuffer)|))
  {
    FlushValid(h, c.(nagleTimer := if !inCallback && c.nagleTimer == Armed then Spent else c.nagleTimer));
  }

  /**
   * Coalescing: data that changes the buffer is only remembered, so nothing
   * is framed or sent until a later check sees the buffer unchanged.
   */
  lemma SendDataDefers(h: Digest, c: Conn, data: seq<byte>)
    requires 0 <= c.currSequenceNumber <= MAX_INT32 + 1 && |c.oldData| <= |c.nagleSendBuffer| && data != []
    ensures var r := SendData(h, c, data);
      && r.conn.sent == c.sent && r.conn.sendBuffer == c.sendBuffer
      && r.conn.currSequenceNumber == c.currSequenceNumber
      && r.conn.oldData == r.conn.nagleSendBuffer == c.nagleSendBuffer + data
      && (r.out <==> c.nagleTimer == Spent)
  {
    assert |c.oldData| < |c.nagleSendBuffer + data|;
  }

  /**
   * What a flush sends when no number overflows: the frames the receiver
   * decodes back into the coalescing buffer (`FlushDecodes`), in order, with
   * the counter advanced past them.
   */
  lemma FlushSendsBuffer(h: Digest, c: Conn)
    requires FitsInt32(c.currSequenceNumber, |Chunks(c.nagleSendBuffer)|)
    ensures var r := Flush(h, c);
      var n := |Chunks(c.nagleSendBuffer)|;
      && !r.out
      && r.conn.sent == c.sent + DataFrames(DataEncoder(h), c.currSequenceNumber, Chunks(c.nagleSendBuffer), n)
      && r.conn.currSequenceNumber == c.currSequenceNumber + n
  {
    assert SendableCount(c.currSequenceNumber, |Chunks(c.nagleSendBuffer)|) == |Chunks(c.nagleSendBuffer)|;
  }

  /** Proof aid: the stored and marked maps of a flush in which no number overflows. */
  lemma FlushFields(h: Digest, c: Conn, chunks: seq<seq<byte>>, start: int, n: nat, r: Conn)
    requires chunks == Chunks(c.nagleSendBuffer) && start == c.currSequenceNumber && n == |chunks|
    requires FitsInt32(start, n) && r == Flush(h, c).conn
    ensures r.sendBuffer == StoreFrames(c.sendBuffer, DataEncoder(h), start, chunks, n)
    ensures r.sentAckBuffer == MarkUnacked(c.sentAckBuffer, start, n)
  {
    assert SendableCount(start, n) == n;
  }

  /**
   * What a flush keeps for retransmission when no number overflows: each
   * frame it sent is stored under its number in `send_buffer` and that number
   * is marked unacknowledged.
   */
  lemma FlushStoresFrames(h: Digest, c: Conn)
    requires FitsInt32(c.currSequenceNumber, |Chunks(c.nagleSendBuffer)|)
    ensures var r := Flush(h, c).conn;
      var frames := DataFrames(DataEncoder(h), c.currSequenceNumber, Chunks(c.nagleSendBuffer), |Chunks(c.nagleSendBuffer)|);
      KeptForResend(r.sendBuffer, r.sentAckBuffer, c.currSequenceNumber, frames)
  {
    var chunks := Chunks(c.nagleSendBuffer);
    var n := |chunks|;
    var start := c.currSequenceNumber;
    var r := Flush(h, c).conn;
    FlushFields(h, c, chunks, start, n, r);
    StoredAndMarked(c.sendBuffer, c.sentAckBuffer, DataEncoder(h), start, chunks, n,
      r.sendBuffer, r.sentAckBuffer, DataFrames(DataEncoder(h), start, chunks, n));
  }

  lemma HandleSegmentValid(h: Digest, c: Conn, s: Segment)
    requires ConnValid(h, c) && IsInt32(s.sequence)
    ensures ConnValid(h, HandleSegment(h, c, s))
  {
  }

  lemma ReceiveValid(h: Digest, c: Conn, datagram: seq<byte>)
    requires ConnValid(h, c)
    ensures ConnValid(h, Receive(h, c, datagram))
  {
    if !c.closed && Parse(h, datagram).Some? {
      HandleSegmentValid(h, c, Parse(h, datagram).value);
    }
  }

  /** A datagram whose checksum prefix is not the digest of the rest changes nothing. */
  lemma CorruptedIgnored(h: Digest, c: Conn, prefix: seq<byte>, body: seq<byte>)
    requires |prefix| == CHECKSUM_SIZE && prefix != h(body)
    ensures Receive(h, c, prefix + body) == c
  {
    TamperedChecksumDropped(h, body, prefix);
  }

  /**
   * An ack for any number, even one this side never sent, sets that number's
   * `sent_ack_buffer` entry, creating it if needed; nothing else changes.
   */
  lemma AckRecorded(h: Digest, c: Conn, n: int)
    requires !c.closed && IsInt32(n)
    ensures Receive(h, c, ControlFrame(h, n, true, false)) == c.(sentAckBuffer := c.sentAckBuffer[n := true])
  {
    FrameAccepted(h, n, CONTROL_PAYLOAD, true, false);
  }

  /**
   * A data frame arriving while its number is not buffered stores its payload
   * and schedules one ack; arriving again (a retransmission) schedules another
   * ack but keeps the first payload.
   */
  lemma DataBufferedOnce(h: Digest, c: Conn, n: int, payload: seq<byte>, again: seq<byte>)
    requires !c.closed && IsInt32(n) && n !in c.receiveBuffer
    ensures var c1 := Receive(h, c, DataFrame(h, n, payload));
      var c2 := Receive(h, c1, DataFrame(h, n, again));
      && c1.receiveBuffer == c.receiveBuffer[n := payload]
      && c2.receiveBuffer == c1.receiveBuffer
      && c2.pendingAcks == c.pendingAcks + [n, n]
  {
    FrameAccepted(h, n, payload, false, false);
    FrameAccepted(h, n, again, false, false);
  }

  /** A FIN is answered at once with a FIN-ack of the same number, and marks the peer as closed. */
  lemma FinAnswered(h: Digest, c: Conn, n: int)
    requires !c.closed && IsInt32(n)
    ensures var c1 := Receive(h, c, ControlFrame(h, n, false, true));
      && c1 == c.(sent := c.sent + [ControlFrame(h, n, true, true)], closedFromRecv := true)
      && Parse(h, c1.sent[|c.sent|]) == Some(Segment(n, true, true, CONTROL_PAYLOAD))
  {
    FrameAccepted(h, n, CONTROL_PAYLOAD, false, true);
    FrameAccepted(h, n, CONTROL_PAYLOAD, true, true);
  }

  /**
   * End to end: a data frame framed by one side and received by a peer whose
   * counter has reached its number is what the peer's next `recv` returns.
   */
  lemma DeliveredInOrder(h: Digest, peer: Conn, n: int, payload: seq<byte>)
    requires !peer.closed && IsInt32(n) && peer.currSequenceNumber == n && n !in peer.receiveBuffer
    ensures var r := Deliver(Receive(h, peer, DataFrame(h, n, payload)));
      r.out == Some(payload) && r.conn.currSequenceNumber == n + 1 && n !in r.conn.receiveBuffer
  {
    FrameAccepted(h, n, payload, false, false);
  }

  lemma AckFiredValid(h: Digest, c: Conn, i: nat)
    requires ConnValid(h, c) && i < |c.pendingAcks|
    ensures ConnValid(h, AckFired(h, c, i))
  {
    var rest := c.pendingAcks[..i] + c.pendingAcks[i + 1..];
    forall j | 0 <= j < |rest| ensures IsInt32(rest[j]) {
      if j < i { assert rest[j] == c.pendingAcks[j]; } else { assert rest[j] == c.pendingAcks[j + 1]; }
    }
  }

  /** A delayed ack acknowledges the data segment it was scheduled for. */
  lemma AckFiredAcknowledges(h: Digest, c: Conn, i: nat)
    requires i < |c.pendingAcks| && IsInt32(c.pendingAcks[i])
    ensures var c1 := AckFired(h, c, i);
      && |c1.sent| == |c.sent| + 1
      && Parse(h, c1.sent[|c.sent|]) == Some(Segment(c.pendingAcks[i], true, false, CONTROL_PAYLOAD))
      && multiset(c1.pendingAcks) == multiset(c.pendingAcks) - multiset{c.pendingAcks[i]}
  {
    FrameAccepted(h, c.pendingAcks[i], CONTROL_PAYLOAD, true, false);
    assert c.pendingAcks == c.pendingAcks[..i] + [c.pendingAcks[i]] + c.pendingAcks[i + 1..];
  }

  lemma RetransmitValid(h: Digest, c: Conn, sequenceNumber: int, frame: seq<byte>)
    requires ConnValid(h, c)
    ensures ConnValid(h, Retransmit(c, sequenceNumber, frame).conn)
  {
  }

  /**
   * Retransmission resends exactly what was stored for the number, which the
   * peer decodes as that data segment, until an ack arrives; the firing after
   * the ack forgets the entry and sends nothing.
   */
  lemma RetransmitUntilAcked(h: Digest, c: Conn, n: int)
    requires ConnValid(h, c) && !c.closed && n in c.sendBuffer && n in c.sentAckBuffer
    ensures var r := Retransmit(c, n, c.sendBuffer[n]);
      !c.sentAckBuffer[n] ==>
        r.out == Resent && r.conn == c.(sent := c.sent + [c.sendBuffer[n]]) && DecodesAsData(h, r.conn.sent[|c.sent|], n)
    ensures var acked := Receive(h, c, ControlFrame(h, n, true, false));
      var r := Retransmit(acked, n, c.sendBuffer[n]);
      r.out == Forgotten && r.conn.sent == c.sent && n !in r.conn.sentAckBuffer
  {
    AckRecorded(h, c, n);
  }

  lemma DeliverValid(h: Digest, c: Conn)
    requires ConnValid(h, c)
    ensures ConnValid(h, Deliver(c).conn)
  {
  }

  /** `recv` hands over payloads strictly by number: only the counter's own, after which the counter moves on. */
  lemma DeliverNext(c: Conn)
    ensures var r := Deliver(c);
      && (r.out.Some? <==> c.currSequenceNumber in c.receiveBuffer)
      && (r.out.Some? ==> r.out.value == c.receiveBuffer[c.currSequenceNumber]
                          && r.conn == c.(receiveBuffer := c.receiveBuffer - {c.currSequenceNumber},
                                          currSequenceNumber := c.currSequenceNumber + 1)
                          && r.conn.receiveBuffer.Keys == c.receiveBuffer.Keys - {c.currSequenceNumber})
      && (r.out.None? ==> r.conn == c)
      && r.conn.sendBuffer == c.sendBuffer && r.conn.sent == c.sent
  {
  }

  /**
   * One counter for both directions: delivering a payload moves the number
   * the next flush starts from, so sent data numbers skip one per payload received.
   */
  lemma DeliverShiftsSending(h: Digest, c: Conn)
    requires ConnValid(h, c) && c.currSequenceNumber in c.receiveBuffer
    ensures var d := Deliver(c).conn;
      && d.currSequenceNumber == c.currSequenceNumber + 1
      && (forall k :: k in Flush(h, d).conn.sendBuffer ==> k in c.sendBuffer || k > c.currSequenceNumber)
      && c.currSequenceNumber !in Flush(h, d).conn.sendBuffer
  {
    var d := Deliver(c).conn;
    var chunks := Chunks(d.nagleSendBuffer);
    var k := SendableCount(d.currSequenceNumber, |chunks|);
    StoreFramesKeys(d.sendBuffer, DataEncoder(h), d.currSequenceNumber, chunks, k);
  }

  lemma BeginCloseValid(h: Digest, c: Conn)
    requires ConnValid(h, c)
    ensures ConnValid(h, BeginClose(c).conn)
  {
  }

  lemma CloseStepValid(h: Digest, c: Conn, resendDue: bool)
    requires ConnValid(h, c) && c.closeSequenceNumber.Some?
    ensures ConnValid(h, CloseStep(h, c, resendDue).conn)
  {
  }

  /**
   * The close handshake: the FIN loop ends exactly when both the peer's FIN and
   * its FIN-ack have been received; until then every pass that sends, sends a
   * FIN numbered with the counter value fixed at the start of `close`.
   */
  lemma CloseHandshake(h: Digest, c: Conn, resendDue: bool)
    requires c.closeSequenceNumber.Some? && IsInt32(c.closeSequenceNumber.value)
    ensures var r := CloseStep(h, c, resendDue);
      && (r.out == Finished <==> c.closedFromRecv && c.closedAck)
      && r.out != PackError
      && (r.out == Waiting && |r.conn.sent| > |c.sent| ==>
            r.conn.sent == c.sent + [ControlFrame(h, c.closeSequenceNumber.value, false, true)]
            && Parse(h, r.conn.sent[|c.sent|]) == Some(Segment(c.closeSequenceNumber.value, false, true, CONTROL_PAYLOAD)))
      && (r.out == Waiting && !c.finTransmitted ==> |r.conn.sent| == |c.sent| + 1 && r.conn.finTransmitted)
  {
    FrameAccepted(h, c.closeSequenceNumber.value, CONTROL_PAYLOAD, false, true);
  }

  /** `close` goes past its waits only when no sent segment still awaits its ack and no coalescing is pending. */
  lemma BeginCloseWaits(c: Conn)
    ensures BeginClose(c).out <==> c.nagleTimer != Armed && c.sentAckBuffer == map[]
  {
    if |c.sentAckBuffer| == 0 {
      assert c.sentAckBuffer.Keys == {};
    }
  }

  /** The peer's FIN-ack only records that this side's FIN was acknowledged; nothing is sent. */
  lemma FinAckRecorded(h: Digest, c: Conn, n: int)
    requires !c.closed && IsInt32(n)
    ensures Receive(h, c, ControlFrame(h, n, true, true)) == c.(closedAck := true)
  {
    FrameAccepted(h, n, CONTROL_PAYLOAD, true, true);
  }

  /** Once the connection is closed a retransmission timer does nothing and is not rescheduled. */
  lemma RetransmitAfterClose(c: Conn, n: int, frame: seq<byte>)
    requires c.closed
    ensures Retransmit(c, n, frame) == Outcome(c, Idle)
  {
  }

  /** With nothing to coalesce, the check changes nothing, starts no timer and raises nothing. */
  lemma NagleCheckIdle(h: Digest, c: Conn, inCallback: bool)
    requires 0 <= c.currSequenceNumber <= MAX_INT32 + 1 && c.nagleSendBuffer == []
    ensures NagleCheck(h, c, inCallback) == Outcome(c, false)
  {
  }

  /**
   * Only a retransmission timer that finds its number acknowledged removes an
   * entry of `sent_ack_buffer`, and only its own: every other step keeps every
   * key. This lemma covers the listener's steps and `recv`; the next two cover
   * the sending side, `close` and the retransmission timer.
   */
  lemma ListenerKeepsAcks(h: Digest, c: Conn)
    ensures forall s: Segment :: IsInt32(s.sequence) ==> c.sentAckBuffer.Keys <= HandleSegment(h, c, s).sentAckBuffer.Keys
    ensures forall d :: c.sentAckBuffer.Keys <= Receive(h, c, d).sentAckBuffer.Keys
    ensures forall i: nat :: i < |c.pendingAcks| && IsInt32(c.pendingAcks[i]) ==>
      c.sentAckBuffer.Keys <= AckFired(h, c, i).sentAckBuffer.Keys
    ensures c.sentAckBuffer.Keys <= Deliver(c).conn.sentAckBuffer.Keys
  {
  }

  lemma SenderKeepsAcks(h: Digest, c: Conn)
    requires 0 <= c.currSequenceNumber <= MAX_INT32 + 1
    ensures c.sentAckBuffer.Keys <= Flush(h, c).conn.sentAckBuffer.Keys
    ensures forall b :: c.sentAckBuffer.Keys <= NagleCheck(h, c, b).conn.sentAckBuffer.Keys
    ensures forall d :: c.sentAckBuffer.Keys <= SendData(h, c, d).conn.sentAckBuffer.Keys
    ensures c.sentAckBuffer.Keys <= BeginClose(c).conn.sentAckBuffer.Keys
    ensures forall b :: c.closeSequenceNumber.Some? ==> c.sentAckBuffer.Keys <= CloseStep(h, c, b).conn.sentAckBuffer.Keys
  {
    FlushKeeps(h, c);
    forall b: bool ensures c.sentAckBuffer.Keys <= NagleCheck(h, c, b).conn.sentAckBuffer.Keys {
      NagleCheckKeeps(h, c, b);
    }
    forall d: seq<byte> ensures c.sentAckBuffer.Keys <= SendData(h, c, d).conn.sentAckBuffer.Keys {
      NagleCheckKeeps(h, c.(nagleSendBuffer := c.nagleSendBuffer + d), false);
    }
  }

  lemma RetransmitForgetsOnly(c: Conn, n: int, frame: seq<byte>)
    ensures var r := Retransmit(c, n, frame);
      && (r.out != Forgotten ==> r.conn.sentAckBuffer == c.sentAckBuffer)
      && (r.out == Forgotten ==> n in c.sentAckBuffer && r.conn.sentAckBuffer.Keys == c.sentAckBuffer.Keys - {n})
  {
  }

  lemma FlushKeeps(h: Digest, c: Conn)
    requires 0 <= c.currSequenceNumber <= MAX_INT32 + 1
    ensures c.sentAckBuffer.Keys <= Flush(h, c).conn.sentAckBuffer.Keys
  {
    var chunks := Chunks(c.nagleSendBuffer);
    var k := SendableCount(c.currSequenceNumber, |chunks|);
    MarkUnackedKeeps(c.sentAckBuffer, c.currSequenceNumber, if k < |chunks| then k + 1 else k);
  }

  lemma NagleCheckKeeps(h: Digest, c: Conn, b: bool)
    requires 0 <= c.currSequenceNumber <= MAX_INT32 + 1
    ensures c.sentAckBuffer.Keys <= NagleCheck(h, c, b).conn.sentAckBuffer.Keys
  {
    if c.nagleSendBuffer != [] && c.oldData == c.nagleSendBuffer {
      FlushKeeps(h, c.(nagleTimer := if !b && c.nagleTimer == Armed then Spent else c.nagleTimer));
    }
  }

  /**
   * A late duplicate ack brings back an entry the retransmission timer has
   * already forgotten. That timer is not rescheduled after forgetting, and no
   * other step removes a key, so `close` waits on the entry for ever.
   */
  lemma LateAckBlocksClose(h: Digest, c: Conn, n: int, frame: seq<byte>)
    requires !c.closed && IsInt32(n) && c.nagleTimer != Armed && c.sentAckBuffer == map[n := true]
    ensures var r := Retransmit(c, n, frame);
      && r.out == Forgotten
      && BeginClose(r.conn).out
      && var late := Receive(h, r.conn, ControlFrame(h, n, true, false));
         late.sentAckBuffer == map[n := true] && !BeginClose(late).out
  {
    var r := Retransmit(c, n, frame);
    assert r.conn.sentAckBuffer == map[];
    AckRecorded(h, r.conn, n);
    BeginCloseWaits(r.conn);
    BeginCloseWaits(Receive(h, r.conn, ControlFrame(h, n, true, false)));
  }

  // ---------------------------------------------------------------------------
  // The object

  class Streamer {
    /** `calculate_checksum` */
    const digest: Digest

    var receiveBuffer: map<int, seq<byte>>
    var sendBuffer: map<int, seq<byte>>
    var sentAckBuffer: map<int, bool>
    /** Next sequence number to send AND next one to deliver: one counter for both directions. */
    var currSequenceNumber: int
    var closeSequenceNumber: Option<int>
    var closedFromRecv: bool
    var closedAck: bool
    var closed: bool
    var nagleSendBuffer: seq<byte>
    var oldData: seq<byte>
    var nagleTimer: TimerState
    /** Sequence numbers whose delayed ack (`Timer(0.05, send_tcp_ack_packet)`) has not fired yet. */
    var pendingAcks: seq<int>
    /** `is_fin_packet_transmitted`, the local of `close`. */
    var finTransmitted: bool
    /** Every frame handed to `socket.sendto`, in order. */
    var sent: seq<seq<byte>>

    function Snapshot(): Conn
      reads this
    {
      Conn(receiveBuffer, sendBuffer, sentAckBuffer, currSequenceNumber, closeSequenceNumber,
           closedFromRecv, closedAck, closed, nagleSendBuffer, oldData, nagleTimer,
           pendingAcks, finTransmitted, sent)
    }

    ghost predicate Valid()
      reads this
    {
      ConnValid(digest, Snapshot())
    }

    constructor (checksum: Digest)
      ensures digest == checksum && Snapshot() == Initial() && Valid()
    {
      digest := checksum;
      receiveBuffer, sendBuffer, sentAckBuffer := map[], map[], map[];
      currSequenceNumber := 0;
      closeSequenceNumber := None;
      closedFromRecv, closedAck, closed := false, false, false;
      nagleSendBuffer, oldData := [], [];
      nagleTimer := NotStarted;
      pendingAcks := [];
      finTransmitted := false;
      sent := [];
    }

    /**
     * The loop of P2/streamer.py:105-116 over the chunks of the coalescing
     * buffer, run on the fields it changes.
     */
    method FlushChunks() returns (raised: bool)
      requires 0 <= currSequenceNumber <= MAX_INT32 + 1
      modifies this`sent, this`sendBuffer, this`sentAckBuffer, this`currSequenceNumber
      ensures Outcome(Snapshot(), raised) == Flush(digest, old(Snapshot()))
    {
      var chunks := Chunks(nagleSendBuffer);
      var wire, buffer, acks, next;
      raised, wire, buffer, acks, next := SendChunks(digest, chunks, currSequenceNumber, sent, sendBuffer, sentAckBuffer);
      sent, sendBuffer, sentAckBuffer, currSequenceNumber := wire, buffer, acks, next;
    }

    /** `run_nagle_algo`; `inCallback` tells whether the coalescing timer's thread is running it. */
    method RunNagleAlgo(inCallback: bool) returns (raised: bool)
      requires Valid() && (inCallback ==> nagleTimer == Armed)
      modifies this
      ensures Outcome(Snapshot(), raised) == NagleCheck(digest, old(Snapshot()), inCallback)
      ensures Valid()
    {
      NagleCheckValid(digest, Snapshot(), inCallback);
      if nagleSendBuffer == [] {
        return false;
      }
      if oldData == nagleSendBuffer {
        raised := FlushUnchanged(inCallback);
      } else {
        raised := Remember(inCallback);
      }
    }

    /** The buffer did not change since the last check: cancel a waiting timer and flush. */
    method FlushUnchanged(inCallback: bool) returns (raised: bool)
      requires 0 <= currSequenceNumber <= MAX_INT32 + 1
      requires nagleSendBuffer != [] && oldData == nagleSendBuffer
      modifies this
      ensures Outcome(Snapshot(), raised) == NagleCheck(digest, old(Snapshot()), inCallback)
    {
      if !inCallback && nagleTimer == Armed {
        nagleTimer := Spent;
      }
      raised := FlushChunks();
    }

    /** The buffer changed: remember it and make sure the coalescing timer is running. */
    method Remember(inCallback: bool) returns (raised: bool)
      requires 0 <= currSequenceNumber <= MAX_INT32 + 1
      requires nagleSendBuffer != [] && oldData != nagleSendBuffer
      modifies this
      ensures Outcome(Snapshot(), raised) == NagleCheck(digest, old(Snapshot()), inCallback)
    {
      oldData := nagleSendBuffer;
      if inCallback || nagleTimer == Armed {
        raised := false;
      } else if nagleTimer == NotStarted {
        nagleTimer := Armed;
        raised := false;
      } else {
        // `Timer.start` on a timer that already ran raises RuntimeError
        raised := true;
      }
    }

    method Send(data: seq<byte>) returns (raised: bool)
      requires Valid()
      modifies this
      ensures Outcome(Snapshot(), raised) == SendData(digest, old(Snapshot()), data)
      ensures Valid()
    {
      nagleSendBuffer := nagleSendBuffer + data;
      raised := RunNagleAlgo(false);
    }

    /** The coalescing timer, started and not cancelled, runs its callback. */
    method FireNagleTimer() returns (raised: bool)
      requires Valid() && nagleTimer == Armed
      modifies this
      ensures Outcome(Snapshot(), raised) == NagleTimerFired(digest, old(Snapshot()))
      ensures Valid()
    {
      raised := RunNagleAlgo(true);
      nagleTimer := Spent;
    }

    /** One iteration of `listener` on the datagram `recvfrom` returned. */
    method ListenerStep(datagram: seq<byte>)
      requires Valid()
      modifies this
      ensures Snapshot() == Receive(digest, old(Snapshot()), datagram)
      ensures Valid()
    {
      ReceiveValid(digest, Snapshot(), datagram);
      if closed {
        return;
      }
      var segment := ParseDatagram(datagram);
      if segment.Some? {
        HandlePacket(segment.value);
      }
    }

    /**
     * The checks of P2/streamer.py:271-291: split off the checksum, skip an
     * empty body, unpack (a short body raises and is dropped), then compare.
     */
    method ParseDatagram(datagram: seq<byte>) returns (segment: Option<Segment>)
      ensures segment == Parse(digest, datagram)
    {
      if |datagram| == 0 {
        return None;
      }
      var checksum := datagram[..if |datagram| < CHECKSUM_SIZE then |datagram| else CHECKSUM_SIZE];
      var body := if |datagram| > CHECKSUM_SIZE then datagram[CHECKSUM_SIZE..] else [];
      if body == [] {
        return None;
      }
      segment := Unpack(body);
      if segment.Some? && checksum != digest(body) {
        segment := None;
      }
    }

    /** The branches of P2/streamer.py:293-320 on a segment that passed the checks. */
    method HandlePacket(segment: Segment)
      requires IsInt32(segment.sequence)
      modifies this
      ensures Snapshot() == HandleSegment(digest, old(Snapshot()), segment)
    {
      if segment.isAck && segment.isFin {
        closedAck := true;
      } else if segment.isAck {
        sentAckBuffer := sentAckBuffer[segment.sequence := true];
      } else if segment.isFin {
        sent := sent + [ControlFrame(digest, segment.sequence, true, true)];
        closedFromRecv := true;
      } else {
        pendingAcks := pendingAcks + [segment.sequence];
        if segment.sequence !in receiveBuffer {
          receiveBuffer := receiveBuffer[segment.sequence := segment.payload];
        }
      }
    }

    /** The delayed ack scheduled as the `i`-th pending one fires. */
    method FireAck(i: nat)
      requires Valid() && i < |pendingAcks|
      modifies this
      ensures Snapshot() == AckFired(digest, old(Snapshot()), i)
      ensures Valid()
    {
      AckFiredValid(digest, Snapshot(), i);
      sent := sent + [ControlFrame(digest, pendingAcks[i], true, false)];
      pendingAcks := pendingAcks[..i] + pendingAcks[i + 1..];
    }

    /** `handle_packet_retransmission(sequenceNumber, frame)`, run by a retransmission timer. */
    method HandlePacketRetransmission(sequenceNumber: int, frame: seq<byte>) returns (result: Retransmission)
      requires Valid()
      modifies this
      ensures Outcome(Snapshot(), result) == Retransmit(old(Snapshot()), sequenceNumber, frame)
      ensures Valid()
    {
      if closed {
        return Idle;
      }
      if sequenceNumber !in sentAckBuffer {
        return KeyMissing;
      }
      if !sentAckBuffer[sequenceNumber] {
        sent := sent + [frame];
        result := Resent;
      } else {
        sentAckBuffer := sentAckBuffer - {sequenceNumber};
        result := Forgotten;
      }
    }

    /** One pass of the `recv` loop; `None` is a pass that sleeps. */
    method RecvStep() returns (data: Option<seq<byte>>)
      requires Valid()
      modifies this
      ensures Outcome(Snapshot(), data) == Deliver(old(Snapshot()))
      ensures Valid()
    {
      if currSequenceNumber in receiveBuffer {
        data := Some(receiveBuffer[currSequenceNumber]);
        receiveBuffer := receiveBuffer - {currSequenceNumber};
        currSequenceNumber := currSequenceNumber + 1;
      } else {
        data := None;
      }
    }

    /** The waits at the head of `close`; `false` is a pass that sleeps. */
    method WaitBeforeClose() returns (proceeded: bool)
      requires Valid()
      modifies this
      ensures Outcome(Snapshot(), proceeded) == BeginClose(old(Snapshot()))
      ensures Valid()
    {
      proceeded := nagleTimer != Armed && |sentAckBuffer| == 0;
      if proceeded {
        finTransmitted := false;
        closeSequenceNumber := Some(currSequenceNumber);
      }
    }

    /** One pass of the FIN loop of `close`. */
    method CloseLoopStep(resendDue: bool) returns (progress: CloseProgress)
      requires Valid() && closeSequenceNumber.Some?
      modifies this
      ensures Outcome(Snapshot(), progress) == CloseStep(digest, old(Snapshot()), resendDue)
      ensures Valid()
    {
      if closedFromRecv && closedAck {
        closed := true;
        return Finished;
      }
      if !finTransmitted || resendDue {
        var sequenceNumber := closeSequenceNumber.value;
        if !IsInt32(sequenceNumber) {
          return PackError;
        }
        sent := sent + [ControlFrame(digest, sequenceNumber, false, true)];
        finTransmitted := true;
      }
      progress := Waiting;
    }
  }
}
