/** The length-prefixed frame that both the server's sessions
    (Server/TCP/src/sourse.cpp) and the client (Client/TCP/src/sourse.cpp)
    send and receive: a 4-byte size in host (little-endian) order, then the
    payload.

    `recv` is not called: its outcome is an input. Error numbers are those
    of Linux. */
module Framing {
  import opened Bytes
  import opened Optional

  /** What a `recv` call returned: 0 (orderly close), -1 with the error it
      resolved to, or that many bytes. */
  datatype RecvResult =
    | Closed
    | Failed(errno: int)
    | Received(data: seq<uint8>)

  const EAGAIN: int := 11
  const EPIPE: int := 32
  const ECONNRESET: int := 104
  const ETIMEDOUT: int := 110

  /** The errors the source names as transport failures. They disconnect,
      exactly as every other error except EAGAIN does; the only difference in
      the source is that the others are also logged. */
  predicate IsTransportError(errno: int): (b: bool)
    ensures b ==> errno != 0 && errno != EAGAIN
  {
    errno == ETIMEDOUT || errno == ECONNRESET || errno == EPIPE
  }

  /** A header read whose outcome the source handles without reading an
      uninitialised size: a -1 whose error resolves to 0 and a short read of
      1..3 bytes leave `size` unset, so they are excluded. */
  predicate DefinedHeaderRead(r: RecvResult) {
    match r
    case Closed => true
    case Failed(e) => e != 0
    case Received(d) => |d| == 4
  }

  /** A read into a buffer of `size` bytes returns at most `size` bytes. */
  predicate DefinedPayloadRead(r: RecvResult, size: nat) {
    r.Received? ==> 0 < |r.data| <= size
  }

  /** The two reads of a receive are defined: the header read, and the payload
      read whenever a non-zero size makes the source perform it. */
  predicate DefinedReads(header: RecvResult, payload: RecvResult) {
    DefinedHeaderRead(header) &&
    (header.Received? && ValueOf(header.data) != 0 ==> DefinedPayloadRead(payload, ValueOf(header.data)))
  }

  /** What `send` can return for a buffer of `len` bytes: -1, or a count. */
  predicate DefinedSendResult(r: int, len: nat) {
    r == -1 || 0 <= r <= len
  }

  /** The 4 bytes written in front of a payload of n bytes: n cut to 32 bits
      (`*reinterpret_cast<uint32_t*>(...) = size`, or `static_cast<int>(size)`). */
  function FrameHeader(n: nat): (h: seq<uint8>)
    ensures |h| == 4
    ensures ValueOf(h) == n % 0x1_0000_0000
  {
    ValueOfMemoryBytes(n % 0x1_0000_0000, 4);
    MemoryBytes(n % 0x1_0000_0000, 4)
  }

  /** The bytes a send of `payload` hands to the OS. */
  function Frame(payload: seq<uint8>): (f: seq<uint8>)
    ensures |f| == |payload| + 4
    ensures f[4..] == payload
    ensures |payload| < 0x1_0000_0000 ==> ValueOf(f[..4]) == |payload|
  {
    var f := FrameHeader(|payload|) + payload;
    assert f[..4] == FrameHeader(|payload|);
    f
  }

  /** The payload buffer after the blocking read: `resize(size)` zero-fills it
      and `recv` overwrites the front with what arrived. None when the read
      failed. A short read or an orderly close is not detected. */
  function FillPayload(size: nat, r: RecvResult): (b: Option<seq<uint8>>)
    requires DefinedPayloadRead(r, size)
    ensures b.None? <==> r.Failed?
    ensures b.Some? ==> |b.value| == size
    ensures r.Received? ==> b == Some(r.data + Zeros(size - |r.data|))
    ensures r.Closed? ==> b == Some(Zeros(size))
  {
    match r
    case Failed(_) => None
    case Closed => Some(Zeros(size))
    case Received(data) => Some(data + Zeros(size - |data|))
  }

  /** How a receive on a connected socket ends. */
  datatype ReadVerdict =
    | NoData             // nothing to hand on; the socket stays up
    | Drop               // the socket must be disconnected; nothing to hand on
    | Payload(data: seq<uint8>)

  /** The receive logic shared by `Server::Client::loadData` and
      `Client::LoadData`, from the header read on. It ends in disconnection
      exactly when the peer closed, the header read failed with anything but
      EAGAIN, or the payload read failed. It hands data on only after a full
      header with a non-zero size, and then exactly `size` bytes; no upper
      bound applies to `size`. */
  function ReadFrame(header: RecvResult, payload: RecvResult): (v: ReadVerdict)
    requires DefinedReads(header, payload)
    ensures v == Drop <==>
      header.Closed? ||
      (header.Failed? && header.errno != EAGAIN) ||
      (header.Received? && ValueOf(header.data) != 0 && payload.Failed?)
    ensures v.Payload? <==> header.Received? && ValueOf(header.data) != 0 && !payload.Failed?
    ensures v.Payload? ==> |v.data| == ValueOf(header.data)
    ensures v.Payload? && payload.Received? ==>
      v.data[..|payload.data|] == payload.data &&
      v.data[|payload.data|..] == Zeros(ValueOf(header.data) - |payload.data|)
    ensures v.Payload? && payload.Closed? ==> v.data == Zeros(ValueOf(header.data))
  {
    match header
    case Closed => Drop
    case Failed(e) =>
      if IsTransportError(e) then Drop
      else if e == EAGAIN then NoData
      else Drop
    case Received(d) =>
      var size := ValueOf(d);
      if size == 0 then NoData
      else
        match FillPayload(size, payload)
        case None => Drop
        case Some(data) => Payload(data)
  }

  /** Round trip: a frame received whole gives back the payload sent. */
  lemma FrameRoundTrip(payload: seq<uint8>)
    requires 0 < |payload| < 0x1_0000_0000
    ensures DefinedReads(Received(Frame(payload)[..4]), Received(Frame(payload)[4..]))
    ensures ReadFrame(Received(Frame(payload)[..4]), Received(Frame(payload)[4..])) == Payload(payload)
  {
    var f := Frame(payload);
    assert Zeros(0) == [];
    assert f[4..] + Zeros(0) == payload;
  }

  /** A frame of size 0 is a no-op: nothing is handed on and nothing is read after it. */
  lemma EmptyFrameIsNoData(payload: RecvResult)
    ensures DefinedReads(Received(Frame([])), payload)
    ensures ReadFrame(Received(Frame([])), payload) == NoData
  {
  }
}
