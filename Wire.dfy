/** The protocol constants and the byte codecs of `NetworkThreadPool`
    (TCP/inc/header.h and TCP/src/sourse.cpp).

    A buffer (`DataBuffer_t`, a `std::vector<uint8_t>`) passed by reference is
    modelled as a sequence in and a sequence out; a by-reference read iterator
    as a cursor in and a cursor out. */
module Wire {
  import opened Bytes
  import opened Optional

  /** `kLocalhostIP`: 127.0.0.1 as it lies in memory on a little-endian host. */
  const LocalhostIP: nat := 0x0100007f

  lemma LocalhostBytes()
    ensures LocalhostIP < Pow256(4)
    ensures MemoryBytes(LocalhostIP, 4) == [127, 0, 0, 1]
  {
  }

  /** `MessageType`: the tag of a request from a client. */
  datatype MessageType = Registered | Authorize | SendingTo

  function MessageTypeByte(t: MessageType): uint8 {
    match t
    case Registered => 0x00
    case Authorize => 0x01
    case SendingTo => 0x02
  }

  /** `ResponseCode`: the tag of an answer from the server. */
  datatype ResponseCode =
    | AuthenticationOk
    | AuthenticationFail
    | IncomingMessage
    | SendingOk
    | SendingFail
    | AccessDenied

  function ResponseCodeByte(c: ResponseCode): uint8 {
    match c
    case AuthenticationOk => 0x00
    case AuthenticationFail => 0x01
    case IncomingMessage => 0x02
    case SendingOk => 0x03
    case SendingFail => 0x04
    case AccessDenied => 0xFF
  }

  /** Reads a tag byte back; the inverse of MessageTypeByte. */
  function ParseMessageType(b: uint8): (r: Option<MessageType>)
    ensures r.Some? ==> MessageTypeByte(r.value) == b
    ensures r.None? <==> b > 0x02
  {
    if b == 0x00 then Some(Registered)
    else if b == 0x01 then Some(Authorize)
    else if b == 0x02 then Some(SendingTo)
    else None
  }

  /** Reads a response byte back; the inverse of ResponseCodeByte. */
  function ParseResponseCode(b: uint8): (r: Option<ResponseCode>)
    ensures r.Some? ==> ResponseCodeByte(r.value) == b
    ensures r.None? <==> (0x04 < b < 0xFF)
  {
    if b == 0x00 then Some(AuthenticationOk)
    else if b == 0x01 then Some(AuthenticationFail)
    else if b == 0x02 then Some(IncomingMessage)
    else if b == 0x03 then Some(SendingOk)
    else if b == 0x04 then Some(SendingFail)
    else if b == 0xFF then Some(AccessDenied)
    else None
  }

  lemma MessageTypeRoundTrip(t: MessageType)
    ensures ParseMessageType(MessageTypeByte(t)) == Some(t)
  {
  }

  lemma ResponseCodeRoundTrip(c: ResponseCode)
    ensures ParseResponseCode(ResponseCodeByte(c)) == Some(c)
  {
  }

  /** `SocketStatusInfo`: the status of a socket, a session, a client or a server. */
  datatype SocketStatusInfo =
    | Connected
    | InitError
    | BindError
    | ConnectError
    | KeepAliveError
    | ListeningError
    | Disconnected

  function StatusCode(s: SocketStatusInfo): uint8 {
    match s
    case Connected => 0
    case InitError => 1
    case BindError => 2
    case ConnectError => 3
    case KeepAliveError => 4
    case ListeningError => 5
    case Disconnected => 6
  }

  /** The codes are 0..6, one per status, and 0 (Connected) is the only success. */
  lemma StatusCodes(s: SocketStatusInfo, t: SocketStatusInfo)
    ensures StatusCode(s) <= 6
    ensures StatusCode(s) == StatusCode(t) <==> s == t
    ensures StatusCode(s) == 0 <==> s == Connected
  {
  }

  /** `Append<T>`: pushes the `size` (= sizeof(T)) memory bytes of `value`, in
      memory order, onto the buffer. */
  method Append(buffer: seq<uint8>, value: nat, size: nat) returns (out: seq<uint8>)
    requires value < Pow256(size)
    ensures |out| == |buffer| + size
    ensures out[..|buffer|] == buffer
    ensures out[|buffer|..] == MemoryBytes(value, size)
  {
    var data := MemoryBytes(value, size);
    out := buffer;
    for k := 0 to size
      invariant out == buffer + data[..k]
    {
      out := out + [data[k]];
    }
    assert data[..size] == data;
  }

  /** `Extract<T>`: copies the `size` bytes at the cursor into a value and
      moves the cursor past them. The source does no bounds check; the model
      requires the bytes to be there. */
  method Extract(buffer: seq<uint8>, it: nat, size: nat) returns (value: nat, next: nat)
    requires it + size <= |buffer|
    ensures next == it + size
    ensures value < Pow256(size)
    ensures MemoryBytes(value, size) == buffer[it..next]
  {
    next := it + size;
    value := ValueOf(buffer[it..next]);
    MemoryBytesOfValue(buffer[it..next]);
  }

  /** `Extract<T>` at the offset where `Append<T>` wrote reads back the value
      appended, whatever precedes and follows it. */
  lemma ExtractReadsAppended(prefix: seq<uint8>, value: nat, size: nat, rest: seq<uint8>, read: nat)
    requires value < Pow256(size) && read < Pow256(size)
    requires MemoryBytes(read, size) == (prefix + MemoryBytes(value, size) + rest)[|prefix|..|prefix| + size]
    ensures read == value
  {
    assert (prefix + MemoryBytes(value, size) + rest)[|prefix|..|prefix| + size] == MemoryBytes(value, size);
    MemoryBytesInjective(read, value, size);
  }

  /** What `AppendString` appends: the length as a uint64, then the bytes, no terminator. */
  function StringRecord(s: seq<uint8>): (r: seq<uint8>)
    requires |s| < Pow256(8)
    ensures |r| == 8 + |s| && r[8..] == s
  {
    MemoryBytes(|s|, 8) + s
  }

  /** `AppendString`. */
  method AppendString(buffer: seq<uint8>, s: seq<uint8>) returns (out: seq<uint8>)
    requires |s| < Pow256(8)
    ensures out == buffer + StringRecord(s)
  {
    var head := Append(buffer, |s|, 8);
    out := PushBytes(head, s);
    AppendedRecord(buffer, head, s);
  }

  /** The `push_back` loop of `AppendString`: the bytes, one at a time, in order. */
  method PushBytes(buffer: seq<uint8>, bytes: seq<uint8>) returns (out: seq<uint8>)
    ensures out == buffer + bytes
  {
    out := buffer;
    for k := 0 to |bytes|
      invariant out == buffer + bytes[..k]
    {
      assert bytes[..k + 1] == bytes[..k] + [bytes[k]];
      out := out + [bytes[k]];
    }
    assert bytes[..|bytes|] == bytes;
  }

  /** The buffer after the length, followed by the string's bytes, is the
      buffer followed by the string record. */
  lemma AppendedRecord(buffer: seq<uint8>, head: seq<uint8>, s: seq<uint8>)
    requires |s| < Pow256(8)
    requires |head| == |buffer| + 8 && head[..|buffer|] == buffer && head[|buffer|..] == MemoryBytes(|s|, 8)
    ensures head + s == buffer + StringRecord(s)
  {
    var m := MemoryBytes(|s|, 8);
    ConcatAfterSplit(buffer, head, m, s);
    assert StringRecord(s) == m + s;
  }

  /** A buffer made of `buffer` then `m`, followed by s. */
  lemma ConcatAfterSplit(buffer: seq<uint8>, head: seq<uint8>, m: seq<uint8>, s: seq<uint8>)
    requires |buffer| <= |head| && head[..|buffer|] == buffer && head[|buffer|..] == m
    ensures head + s == buffer + (m + s)
  {
    assert head == head[..|buffer|] + head[|buffer|..];
  }

  /** A 0 byte lies at or after the cursor. */
  predicate HasTerminator(buffer: seq<uint8>, it: nat) {
    exists k :: it <= k < |buffer| && buffer[k] == 0
  }

  /** The bytes from the cursor up to (not including) the first 0 byte. */
  function CString(buffer: seq<uint8>, it: nat): (r: seq<uint8>)
    requires HasTerminator(buffer, it)
    ensures it + |r| < |buffer| && buffer[it + |r|] == 0
    ensures r == buffer[it..it + |r|]
    ensures forall i :: 0 <= i < |r| ==> r[i] != 0
    decreases |buffer| - it
  {
    if buffer[it] == 0 then []
    else
      assert HasTerminator(buffer, it + 1);
      [buffer[it]] + CString(buffer, it + 1)
  }

  /** `ExtractString`: collects bytes until a 0 byte and leaves the cursor just
      past that 0. It reads no length prefix. */
  method ExtractString(buffer: seq<uint8>, it: nat) returns (s: seq<uint8>, next: nat)
    requires HasTerminator(buffer, it)
    ensures s == CString(buffer, it)
    ensures next == it + |s| + 1 && next <= |buffer|
  {
    s := [];
    next := it;
    while buffer[next] != 0
      invariant it <= next < |buffer|
      invariant HasTerminator(buffer, next)
      invariant CString(buffer, it) == s + CString(buffer, next)
      invariant next == it + |s|
      decreases |buffer| - next
    {
      assert HasTerminator(buffer, next + 1);
      s := s + [buffer[next]];
      next := next + 1;
    }
    next := next + 1;
  }

  /** Byte `n` of the (n+1)-byte representation of a value below 256^n is 0. */
  lemma {:induction false} TopByteZero(value: nat, n: nat)
    requires value < Pow256(n)
    ensures MemoryBytes(value, n + 1)[n] == 0
  {
    if n > 0 {
      TopByteZero(value / 256, n - 1);
      assert MemoryBytes(value, n + 1)[1..] == MemoryBytes(value / 256, n);
    }
  }

  /** For any string shorter than 2^56 bytes, `ExtractString` at the offset
      where `AppendString` wrote (whatever precedes and follows the record)
      stops inside the 8 length bytes, so it never consumes the record
      `AppendString` wrote. */
  lemma ExtractStringMissesStringRecord(buffer: seq<uint8>, it: nat, s: seq<uint8>)
    requires |s| < Pow256(7)
    requires it + 8 + |s| <= |buffer| && buffer[it..it + 8 + |s|] == StringRecord(s)
    ensures HasTerminator(buffer, it)
    ensures |CString(buffer, it)| < 8
    ensures it + |CString(buffer, it)| + 1 != it + |StringRecord(s)|
  {
    var w := buffer[it..it + 8 + |s|];
    RecordZeros(w, s);
    SliceAt(buffer, it, 8 + |s|, w, 7);
    CStringStopsAtZero(buffer, it, it + 7);
    if s == [] {
      SliceAt(buffer, it, 8 + |s|, w, 0);
      CStringStopsAtZero(buffer, it, it);
    }
  }

  /** A record of a string shorter than 2^56 bytes has a 0 as its eighth
      byte, and the record of the empty string starts with a 0. */
  lemma RecordZeros(w: seq<uint8>, s: seq<uint8>)
    requires |s| < Pow256(7) && w == StringRecord(s)
    ensures |w| == 8 + |s| && w[7] == 0
    ensures s == [] ==> w[0] == 0
  {
    var m := MemoryBytes(|s|, 8);
    assert w == m + s;
    TopByteZero(|s|, 7);
    assert w[7] == m[7];
    assert w[0] == m[0];
  }

  /** Byte j of a slice is byte it + j of the buffer. */
  lemma SliceAt(buffer: seq<uint8>, it: nat, n: nat, w: seq<uint8>, j: nat)
    requires j < n && it + n <= |buffer| && buffer[it..it + n] == w
    ensures buffer[it + j] == w[j]
  {
  }

  /** The string read from the cursor ends at or before any later 0 byte. */
  lemma {:induction false} CStringStopsAtZero(buffer: seq<uint8>, it: nat, k: nat)
    requires it <= k < |buffer| && buffer[k] == 0
    ensures HasTerminator(buffer, it)
    ensures |CString(buffer, it)| <= k - it
    decreases k - it
  {
    assert buffer[k] == 0;
    if buffer[it] != 0 {
      CStringStopsAtZero(buffer, it + 1, k);
    }
  }

  /** A concrete case: the two-byte string "hi" written by `AppendString` is
      read back by `ExtractString` as the one byte 2 (its length's low byte),
      with the cursor 2 bytes on instead of 10. */
  lemma ExtractStringOfHi()
    ensures HasTerminator(StringRecord([104, 105]), 0)
    ensures CString(StringRecord([104, 105]), 0) == [2]
  {
    var b := StringRecord([104, 105]);
    assert b[0] == 2 && b[1] == 0;
    assert HasTerminator(b, 1);
    assert CString(b, 1) == [];
  }

  /** The decoding evidently intended for a string field: a uint64 length,
      then that many bytes. None when the buffer is too short. */
  function DecodeString(buffer: seq<uint8>, it: nat): (r: Option<(seq<uint8>, nat)>)
    ensures r.Some? ==> it + 8 <= r.value.1 <= |buffer|
    ensures r.Some? ==> r.value.1 == it + 8 + |r.value.0|
    ensures r.Some? ==> r.value.0 == buffer[it + 8..r.value.1]
    ensures r.Some? ==> ValueOf(buffer[it..it + 8]) == |r.value.0|
    ensures r.None? <==> it + 8 > |buffer| || it + 8 + ValueOf(buffer[it..it + 8]) > |buffer|
  {
    if it + 8 > |buffer| then None
    else
      var n := ValueOf(buffer[it..it + 8]);
      if it + 8 + n > |buffer| then None
      else Some((buffer[it + 8..it + 8 + n], it + 8 + n))
  }

  /** DecodeString inverts AppendString: wherever `AppendString` wrote a
      record, whatever precedes and follows it, DecodeString reads back the
      string and leaves the cursor just past the record. */
  lemma DecodeStringOfStringRecord(buffer: seq<uint8>, it: nat, s: seq<uint8>)
    requires |s| < Pow256(8)
    requires it + 8 + |s| <= |buffer| && buffer[it..it + 8 + |s|] == StringRecord(s)
    ensures DecodeString(buffer, it) == Some((s, it + 8 + |s|))
  {
    var w := buffer[it..it + 8 + |s|];
    RecordParts(w, s);
    SubSlices(buffer, it, 8 + |s|, w);
    DecodeStringAt(buffer, it, s);
  }

  /** The length field of a string record holds the string's length, and
      the bytes after it are the string. */
  lemma RecordParts(w: seq<uint8>, s: seq<uint8>)
    requires |s| < Pow256(8) && w == StringRecord(s)
    ensures |w| == 8 + |s| && ValueOf(w[..8]) == |s| && w[8..] == s
  {
    assert w[..8] == MemoryBytes(|s|, 8);
    ValueOfMemoryBytes(|s|, 8);
  }

  /** The two parts of a slice of length n, split after 8 bytes. */
  lemma SubSlices(buffer: seq<uint8>, it: nat, n: nat, w: seq<uint8>)
    requires 8 <= n && it + n <= |buffer| && buffer[it..it + n] == w
    ensures buffer[it..it + 8] == w[..8] && buffer[it + 8..it + n] == w[8..]
  {
  }

  /** DecodeString finds s wherever its length and its bytes lie in the buffer. */
  lemma DecodeStringAt(buffer: seq<uint8>, it: nat, s: seq<uint8>)
    requires it + 8 + |s| <= |buffer|
    requires ValueOf(buffer[it..it + 8]) == |s| && buffer[it + 8..it + 8 + |s|] == s
    ensures DecodeString(buffer, it) == Some((s, it + 8 + |s|))
  {
  }

  /** The record `AppendString` leaves after any buffer. */
  lemma AppendedStringRecord(buffer: seq<uint8>, s: seq<uint8>)
    requires |s| < Pow256(8)
    ensures (buffer + StringRecord(s))[|buffer|..|buffer| + 8 + |s|] == StringRecord(s)
  {
  }

  /** `htons` on a little-endian host: the two bytes of the port swapped. */
  function Htons(port: uint16): (r: uint16)
    ensures MemoryBytes(r, 2) == [(port / 0x100) as uint8, (port % 0x100) as uint8]
  {
    (port % 0x100) * 0x100 + port / 0x100
  }

  /** Swapping twice gives the port back. */
  lemma HtonsInvolution(port: uint16)
    ensures Htons(Htons(port)) == port
  {
    var hi, lo := port / 0x100, port % 0x100;
    assert Htons(port) == lo * 0x100 + hi;
    BytePair(lo, hi);
  }

  /** The high and the low byte of a two-byte value. */
  lemma BytePair(hi: nat, lo: nat)
    requires hi < 0x100 && lo < 0x100
    ensures (hi * 0x100 + lo) / 0x100 == hi && (hi * 0x100 + lo) % 0x100 == lo
  {
  }
}
