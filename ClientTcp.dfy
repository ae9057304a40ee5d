/** The client side of the TCP layer (Client/TCP/src/sourse.cpp): one
    connection to a server, polled by jobs it keeps submitting to a shared
    `NetworkThreadPool`.

    As on the server side, OS calls are inputs and the bytes handed to `send`
    are returned. */
module ClientTcp {
  import opened Bytes
  import opened Optional
  import opened Wire
  import opened Framing
  import opened ThreadPool
  import ServerTcp

  /** The changing part of a client: status, handle, and the handles closed so far. */
  datatype ClientState = ClientState(status: SocketStatusInfo, socket: int, closed: seq<int>)

  /** `Client::Disconnect`: acts only on a Connected client, which it marks
      Disconnected and whose handle it closes. The handle keeps its value.
      From any other status nothing changes. */
  function DisconnectSpec(s: ClientState): (r: ClientState)
    ensures r.status == if s.status == Connected then Disconnected else s.status
    ensures r.socket == s.socket
    ensures r.closed == s.closed + (if s.status == Connected then [s.socket] else [])
  {
    if s.status != Connected then s
    else s.(status := Disconnected, closed := s.closed + [s.socket])
  }

  /** A second Disconnect closes nothing. */
  lemma DisconnectIdempotent(s: ClientState)
    ensures DisconnectSpec(DisconnectSpec(s)) == DisconnectSpec(s)
  {
  }

  /** Where the flavours differ: a session of the server that is already
      Disconnected still closes a valid handle, a client does not. */
  lemma DisconnectFlavoursDiffer(socket: int, closed: seq<int>)
    requires socket != ServerTcp.InvalidSocket
    ensures DisconnectSpec(ClientState(Disconnected, socket, closed)).closed == closed
    ensures ServerTcp.DisconnectSpec(ServerTcp.SessionState(Disconnected, socket, closed)).closed == closed + [socket]
  {
  }

  /** `connectTo`'s status and handle bookkeeping. The socket call's result
      becomes the handle; a failed connect closes it. The previous status is
      not consulted. */
  function ConnectSpec(s: ClientState, socketResult: int, connectOk: bool): (r: ClientState)
    ensures r.socket == socketResult
    ensures r.status == Connected <==> socketResult >= 0 && connectOk
    ensures r.status == InitError <==> socketResult < 0
    ensures r.status == ConnectError <==> socketResult >= 0 && !connectOk
    ensures r.closed == s.closed + (if socketResult >= 0 && !connectOk then [socketResult] else [])
  {
    if socketResult < 0 then ClientState(InitError, socketResult, s.closed)
    else if !connectOk then ClientState(ConnectError, socketResult, s.closed + [socketResult])
    else ClientState(Connected, socketResult, s.closed)
  }

  /** `Client::LoadData`: the new state and the data returned. */
  function LoadSpec(s: ClientState, header: RecvResult, payload: RecvResult): (r: (ClientState, seq<uint8>))
    requires DefinedReads(header, payload)
    ensures r.0 == (if s.status == Connected && ReadFrame(header, payload) == Drop then DisconnectSpec(s) else s)
    ensures r.1 != [] <==> s.status == Connected && ReadFrame(header, payload).Payload?
    ensures r.1 != [] ==> Some(r.1) == FillPayload(ValueOf(header.data), payload)
  {
    if s.status != Connected then (s, [])
    else
      match ReadFrame(header, payload)
      case NoData => (s, [])
      case Drop => (DisconnectSpec(s), [])
      case Payload(data) => (s, data)
  }

  /** A connected client stays Connected after a load exactly when the read
      did not end in a drop; otherwise it is Disconnected and its handle closed. */
  lemma LoadKeepsConnection(s: ClientState, header: RecvResult, payload: RecvResult)
    requires DefinedReads(header, payload) && s.status == Connected
    ensures LoadSpec(s, header, payload).0.status == Connected <==> ReadFrame(header, payload) != Drop
    ensures ReadFrame(header, payload) == Drop ==>
      LoadSpec(s, header, payload).0 == ClientState(Disconnected, s.socket, s.closed + [s.socket])
  {
  }

  /** A client that is not Connected reads nothing and does not change. */
  lemma LoadWhenNotConnected(s: ClientState, header: RecvResult, payload: RecvResult)
    requires DefinedReads(header, payload) && s.status != Connected
    ensures LoadSpec(s, header, payload) == (s, [])
  {
  }

  /** The two flavours' loads agree on the data they return, and on the
      resulting status from the same starting status. */
  lemma LoadFlavoursAgree(status: SocketStatusInfo, socket: int, closed: seq<int>, header: RecvResult, payload: RecvResult)
    requires DefinedReads(header, payload)
    ensures var (c, cd) := LoadSpec(ClientState(status, socket, closed), header, payload);
      var (v, vd) := ServerTcp.LoadSpec(ServerTcp.SessionState(status, socket, closed), header, payload);
      cd == vd && c.status == v.status
  {
  }

  /** The header read of `loadDataSync` returned all four bytes. */
  predicate FullHeader(header: RecvResult) {
    header.Received? && |header.data| == 4
  }

  /** The size `loadDataSync` acts on: the header's value when all four
      bytes arrived, and otherwise 0 (its `size` starts at 0 and a short read
      is not used). */
  function SyncSize(header: RecvResult): (n: nat)
    ensures n != 0 ==> FullHeader(header) && n == ValueOf(header.data)
    ensures FullHeader(header) ==> n == ValueOf(header.data)
    ensures n < 0x1_0000_0000
  {
    assert Pow256(4) == 0x1_0000_0000 by {
      assert Pow256(2) == 0x1_0000;
    }
    if FullHeader(header) then ValueOf(header.data) else 0
  }

  /** The jobs a client submits to its pool: one pass of `handleThreadPool`. */
  datatype ClientJob = PollJob(client: Client)

  /** A client in thread-pool mode (`Client(ThreadPool*)`). */
  class Client {
    var status: SocketStatusInfo  // client_status_
    var socket: int               // client_socket_
    var closed: seq<int>          // the handles this client has closed
    var host: uint32              // address_.sin_addr.s_addr
    var sinPort: uint16           // address_.sin_port, in network byte order
    const pool: NetworkThreadPool<ClientJob>  // threadClient.threadPool

    ghost function State(): ClientState
      reads this
    {
      ClientState(status, socket, closed)
    }

    function GetStatus(): SocketStatusInfo reads this { status }
    function GetHost(): uint32 reads this { host }
    function GetPort(): uint16 reads this { sinPort }

    /** A new client is Disconnected and uses the given pool. */
    constructor(pool: NetworkThreadPool<ClientJob>)
      ensures GetStatus() == Disconnected && closed == []
      ensures this.pool == pool
    {
      this.pool := pool;
      status := Disconnected;
      socket := ServerTcp.InvalidSocket;
      closed := [];
      host := 0;
      sinPort := 0;
    }

    /** `Disconnect`. */
    method Disconnect() returns (st: SocketStatusInfo)
      modifies this
      ensures State() == DisconnectSpec(old(State()))
      ensures st == status
      ensures host == old(host) && sinPort == old(sinPort)
    {
      if status != Connected {
        return status;
      }
      status := Disconnected;
      closed := closed + [socket];
      st := status;
    }

    /** `connectTo(host, port)`: the socket call returns `socketResult`, and
        the connect call succeeds iff `connectOk`. The address is recorded
        once the socket exists, with the port in network byte order. */
    method ConnectTo(h: uint32, port: uint16, socketResult: int, connectOk: bool) returns (st: SocketStatusInfo)
      modifies this
      ensures State() == ConnectSpec(old(State()), socketResult, connectOk)
      ensures st == status
      ensures socketResult >= 0 ==> GetHost() == h && GetPort() == Htons(port)
      ensures socketResult < 0 ==> host == old(host) && sinPort == old(sinPort)
    {
      socket := socketResult;
      if socket < 0 {
        status := InitError;
        return status;
      }
      host := h;
      sinPort := Htons(port);
      if !connectOk {
        closed := closed + [socket];
        status := ConnectError;
        return status;
      }
      status := Connected;
      st := status;
    }

    /** `SendData`: builds the frame (a 4-byte int size, then the payload)
        whatever the status, and succeeds iff `send` took every byte. */
    method SendData(buffer: seq<uint8>, sendResult: int) returns (ok: bool, wire: seq<uint8>)
      requires DefinedSendResult(sendResult, |buffer| + 4)
      ensures wire == Frame(buffer)
      ensures ok <==> sendResult == |buffer| + 4
    {
      var sendBuffer := Append([], |buffer| % 0x1_0000_0000, 4);
      for k := 0 to |buffer|
        invariant sendBuffer == FrameHeader(|buffer|) + buffer[..k]
      {
        sendBuffer := sendBuffer + [buffer[k]];
      }
      assert buffer[..|buffer|] == buffer;
      wire := sendBuffer;
      ok := !(sendResult == -1 || sendResult != |buffer| + 4);
    }

    /** `LoadData`: the non-blocking header read, then the payload read. */
    method LoadData(header: RecvResult, payload: RecvResult) returns (data: seq<uint8>)
      requires DefinedReads(header, payload)
      modifies this
      ensures (State(), data) == LoadSpec(old(State()), header, payload)
      ensures host == old(host) && sinPort == old(sinPort)
    {
      if status != Connected {
        return [];
      }
      var error := 0;
      match header {
        case Closed =>
          var _ := Disconnect();
          return [];
        case Failed(e) =>
          error := e;
        case Received(_) =>
      }
      if error != 0 {
        if IsTransportError(error) {
          var _ := Disconnect();
          return [];
        } else if error == EAGAIN {
          return [];
        } else {
          var _ := Disconnect();
          return [];
        }
      }
      var size := ValueOf(header.data);
      if size == 0 {
        return [];
      }
      var dataBuffer := Zeros(size);
      match payload {
        case Failed(_) =>
          var _ := Disconnect();
          return [];
        case Closed =>
        case Received(got) =>
          assert dataBuffer[|got|..] == Zeros(size - |got|);
          dataBuffer := got + dataBuffer[|got|..];
      }
      data := dataBuffer;
    }

    /** `loadDataSync`: a blocking header read, and a payload read only when
        all four header bytes arrived and the size is not 0. The status is not
        consulted and a failed payload read is ignored: the buffer is then
        `size` zero bytes. */
    method LoadDataSync(header: RecvResult, payload: RecvResult) returns (data: seq<uint8>)
      requires header.Received? ==> 0 < |header.data| <= 4
      requires SyncSize(header) != 0 ==> DefinedPayloadRead(payload, SyncSize(header))
      ensures |data| == SyncSize(header)
      ensures SyncSize(header) != 0 && payload.Received? ==> data[..|payload.data|] == payload.data
      ensures forall i :: 0 <= i < |data| && !(payload.Received? && i < |payload.data|) ==> data[i] == 0
    {
      data := [];
      var size := 0;
      var answer := 0;
      match header {
        case Received(got) =>
          answer := |got|;
          if answer == 4 {
            size := ValueOf(got);
          }
        case Closed =>
        case Failed(_) =>
          answer := -1;
      }
      if size != 0 && answer == 4 {
        data := Zeros(size);
        match payload {
          case Received(got) =>
            data := got + data[|got|..];
          case Closed =>
          case Failed(_) =>
        }
      }
    }

    /** `setHandler` in thread-pool mode: submits the first polling job. */
    method SetHandler()
      modifies pool
      ensures pool.State() == AddTaskSpec(old(pool.State()), PollJob(this))
    {
      pool.AddTask(PollJob(this));
    }

    /** `handleThreadPool`: one load, then a follow-up job exactly when the
        client is still Connected (dropped, like any job, while the pool is
        terminating). The data handler is not run; the data is returned, and
        `handlerThrows` says whether the handler throws when it is given data.
        An exception ends the pass in the `catch` blocks without a follow-up
        job, so the client is not polled again although it stays Connected. */
    method HandleThreadPool(header: RecvResult, payload: RecvResult, handlerThrows: bool) returns (data: seq<uint8>)
      requires DefinedReads(header, payload)
      modifies this, pool
      ensures (State(), data) == LoadSpec(old(State()), header, payload)
      ensures host == old(host) && sinPort == old(sinPort)
      ensures pool.State() ==
        if status == Connected && !(data != [] && handlerThrows) then AddTaskSpec(old(pool.State()), PollJob(this))
        else old(pool.State())
    {
      data := LoadData(header, payload);
      if data != [] && handlerThrows {
        return;
      }
      if status == Connected {
        pool.AddTask(PollJob(this));
      }
    }
  }

  /** A polling client keeps exactly one job for itself in a running pool: a
      pass that keeps the connection re-queues, a pass that drops it does not. */
  lemma PollRequeuesIffConnected(s: ClientState, p: PoolState<ClientJob>, c: Client, header: RecvResult, payload: RecvResult)
    requires DefinedReads(header, payload) && s.status == Connected && !p.terminate
    ensures var t := LoadSpec(s, header, payload).0;
      |(if t.status == Connected then AddTaskSpec(p, PollJob(c)) else p).queue| ==
        |p.queue| + (if ReadFrame(header, payload) != Drop then 1 else 0)
  {
    LoadKeepsConnection(s, header, payload);
  }

  /** A pass that hands data on leaves the client Connected, so when the
      handler throws on that data the client stays Connected with no job left
      to poll it. */
  lemma DataKeepsConnection(s: ClientState, header: RecvResult, payload: RecvResult)
    requires DefinedReads(header, payload) && s.status == Connected
    requires LoadSpec(s, header, payload).1 != []
    ensures LoadSpec(s, header, payload).0 == s
  {
  }
}
