/** The server side of the TCP layer (Server/TCP/inc/header.h and
    Server/TCP/src/sourse.cpp): the keep-alive configuration, one accepted
    session (`Server::Client`, declared as `InterfaceServerSession`), and the
    server's session list and start/stop status.

    OS calls are inputs: a `recv` outcome, a `send` result, whether `socket`,
    `setsockopt`, `bind` and `listen` succeed. What a session hands to `send`
    is returned, and the handles it closes are logged in `closed`. */
module ServerTcp {
  import opened Bytes
  import opened Optional
  import opened Wire
  import opened Framing
  import opened ThreadPool

  /** `ServerKeepAliveConfig`: idle time, probe interval and probe count. */
  class ServerKeepAliveConfig {
    var idle: int      // idle_
    var interval: int  // interval_
    var count: int     // count_

    function GetIdle(): int reads this { idle }
    function GetInterval(): int reads this { interval }
    function GetCount(): int reads this { count }

    /** The constructor, with the declared defaults 120 / 3 / 5. */
    constructor(idle: int := 120, interval: int := 3, count: int := 5)
      ensures GetIdle() == idle && GetInterval() == interval && GetCount() == count
    {
      this.idle := idle;
      this.interval := interval;
      this.count := count;
    }

    method SetIdle(v: int)
      modifies this`idle
      ensures GetIdle() == v
      ensures GetInterval() == old(GetInterval()) && GetCount() == old(GetCount())
    {
      idle := v;
    }

    method SetInterval(v: int)
      modifies this`interval
      ensures GetInterval() == v
      ensures GetIdle() == old(GetIdle()) && GetCount() == old(GetCount())
    {
      interval := v;
    }

    method SetCount(v: int)
      modifies this`count
      ensures GetCount() == v
      ensures GetIdle() == old(GetIdle()) && GetInterval() == old(GetInterval())
    {
      count := v;
    }
  }

  /** The value of an invalid socket handle (`-1` on *nix). */
  const InvalidSocket: int := -1

  /** The changing part of a session: its status, its handle, and the handles
      it has closed so far (each `shutdown` + `close` pair is one entry). */
  datatype SessionState = SessionState(status: SocketStatusInfo, socket: int, closed: seq<int>)

  /** `Server::Client::disconnect`: always ends Disconnected; closes the handle
      only when it is valid, then marks it invalid. */
  function DisconnectSpec(s: SessionState): (r: SessionState)
    ensures r.status == Disconnected && r.socket == InvalidSocket
  {
    if s.socket == InvalidSocket then s.(status := Disconnected)
    else SessionState(Disconnected, InvalidSocket, s.closed + [s.socket])
  }

  /** The session's destructor: closes the handle when it is valid and
      changes nothing else. */
  function ReleaseSpec(s: SessionState): (r: SessionState)
    ensures r.status == s.status && r.socket == s.socket
    ensures r.closed == s.closed + (if s.socket == InvalidSocket then [] else [s.socket])
  {
    if s.socket == InvalidSocket then s
    else s.(closed := s.closed + [s.socket])
  }

  /** Disconnecting twice is disconnecting once: the second call closes nothing. */
  lemma DisconnectIdempotent(s: SessionState)
    ensures DisconnectSpec(DisconnectSpec(s)) == DisconnectSpec(s)
  {
  }

  /** A disconnect closes at most one handle, never an invalid one, and keeps
      every earlier close. */
  lemma DisconnectClosesAtMostOnce(s: SessionState)
    ensures DisconnectSpec(s).closed == s.closed + (if s.socket == InvalidSocket then [] else [s.socket])
  {
  }

  /** `Server::Client::loadData`: the new state and the data returned. */
  function LoadSpec(s: SessionState, header: RecvResult, payload: RecvResult): (r: (SessionState, seq<uint8>))
    requires DefinedReads(header, payload)
    ensures r.0 == (if s.status == Connected && ReadFrame(header, payload) == Drop then DisconnectSpec(s) else s)
    ensures r.1 != [] <==> s.status == Connected && ReadFrame(header, payload).Payload?
    ensures r.1 != [] ==> Some(r.1) == FillPayload(ValueOf(header.data), payload)
  {
    if s.status != Connected then (s, [])
    else
      match ReadFrame(header, payload)
      case NoData => (s, [])
      case Drop => (DisconnectSpec(s), [])
      case Payload(data) => (s, data)
  }

  /** A session that is not connected reads nothing and does not change. */
  lemma LoadWhenNotConnected(s: SessionState, header: RecvResult, payload: RecvResult)
    requires DefinedReads(header, payload) && s.status != Connected
    ensures LoadSpec(s, header, payload) == (s, [])
  {
  }

  /** The status only ever moves from Connected to Disconnected: a load on a
      connected session either keeps the whole state or disconnects it. */
  lemma LoadIsMonotone(s: SessionState, header: RecvResult, payload: RecvResult)
    requires DefinedReads(header, payload)
    ensures var (t, data) := LoadSpec(s, header, payload);
      t == s || (s.status == Connected && t == DisconnectSpec(s) && data == [])
  {
  }

  /** EAGAIN on the header read keeps the session connected and returns nothing. */
  lemma LoadWouldBlock(s: SessionState, payload: RecvResult)
    ensures DefinedReads(Failed(EAGAIN), payload)
    ensures LoadSpec(s, Failed(EAGAIN), payload) == (s, [])
  {
  }

  /** A connected session receiving a whole frame returns its payload and
      stays connected. */
  lemma LoadFrame(s: SessionState, payload: seq<uint8>)
    requires s.status == Connected && 0 < |payload| < 0x1_0000_0000
    ensures DefinedReads(Received(Frame(payload)[..4]), Received(Frame(payload)[4..]))
    ensures LoadSpec(s, Received(Frame(payload)[..4]), Received(Frame(payload)[4..])) == (s, payload)
  {
    FrameRoundTrip(payload);
  }

  /** One accepted connection (`Server::Client`). */
  class ServerSession {
    const host: uint32  // address_.sin_addr.s_addr, as accepted
    const port: uint16  // address_.sin_port, in network byte order as accepted
    var status: SocketStatusInfo  // client_status_
    var socket: int               // client_socket_
    var closed: seq<int>          // the handles this session has closed

    ghost function State(): SessionState
      reads this
    {
      SessionState(status, socket, closed)
    }

    function GetStatus(): SocketStatusInfo reads this { status }
    function GetHost(): uint32 { host }
    function GetPort(): uint16 { port }

    /** The session has the given remote address (`getHost() == host && getPort() == port`). */
    predicate Matches(h: uint32, p: uint16) {
      GetHost() == h && GetPort() == p
    }

    /** A new session: the accepted handle and address, status Connected. */
    constructor(socket: int, host: uint32, port: uint16)
      ensures State() == SessionState(Connected, socket, [])
      ensures GetStatus() == Connected
      ensures GetHost() == host && GetPort() == port
    {
      this.host := host;
      this.port := port;
      this.status := Connected;
      this.socket := socket;
      this.closed := [];
    }

    /** `disconnect`. */
    method Disconnect() returns (st: SocketStatusInfo)
      modifies this
      ensures State() == DisconnectSpec(old(State()))
      ensures st == Disconnected
    {
      status := Disconnected;
      if socket == InvalidSocket {
        return status;
      }
      closed := closed + [socket];
      socket := InvalidSocket;
      st := status;
    }

    /** The destructor `~Client`, run when the server's list drops the session. */
    method Release()
      modifies this
      ensures State() == ReleaseSpec(old(State()))
    {
      if socket == InvalidSocket {
        return;
      }
      closed := closed + [socket];
    }

    /** `sendData`: on a connected session, builds the frame (uint32 size, then
        the payload), hands all of it to `send` and reports failure only when
        `send` returns a negative value: a short write counts as success. On
        any other session it sends nothing and fails. */
    method SendData(buffer: seq<uint8>, sendResult: int) returns (ok: bool, wire: seq<uint8>)
      requires DefinedSendResult(sendResult, |buffer| + 4)
      ensures status != Connected ==> !ok && wire == []
      ensures status == Connected ==> wire == Frame(buffer) && (ok <==> sendResult >= 0)
    {
      if status != Connected {
        return false, [];
      }
      var sendBuffer := Append([], |buffer| % 0x1_0000_0000, 4);
      for k := 0 to |buffer|
        invariant sendBuffer == FrameHeader(|buffer|) + buffer[..k]
      {
        sendBuffer := sendBuffer + [buffer[k]];
      }
      assert buffer[..|buffer|] == buffer;
      wire := sendBuffer;
      ok := !(sendResult < 0);
    }

    /** The body of `sendDataBy`'s loop for this session: when the address
        matches, `SendData`; otherwise nothing is sent. */
    method SendDataIfMatches(h: uint32, p: uint16, buffer: seq<uint8>, sendResult: int)
      returns (hit: bool, wire: seq<uint8>)
      requires DefinedSendResult(sendResult, |buffer| + 4)
      ensures hit == Matches(h, p)
      ensures wire == if hit && status == Connected then Frame(buffer) else []
    {
      hit := GetHost() == h && GetPort() == p;
      wire := [];
      if hit {
        var _, w := SendData(buffer, sendResult);
        wire := w;
      }
    }

    /** `loadData`: the header read, then the payload read. */
    method LoadData(header: RecvResult, payload: RecvResult) returns (data: seq<uint8>)
      requires DefinedReads(header, payload)
      modifies this
      ensures (State(), data) == LoadSpec(old(State()), header, payload)
    {
      if status != Connected {
        return [];
      }
      var error := 0;
      match header {
        case Closed =>
          var _ := Disconnect();
          return [];
        case Failed(e) =>
          error := e;
        case Received(_) =>
      }
      if error != 0 {
        if IsTransportError(error) {
          var _ := Disconnect();
          return [];
        } else if error == EAGAIN {
          return [];
        } else {
          var _ := Disconnect();
          return [];
        }
      }
      var size := ValueOf(header.data);
      if size == 0 {
        return [];
      }
      var dataBuffer := Zeros(size);
      match payload {
        case Failed(_) =>
          var _ := Disconnect();
          return [];
        case Closed =>
        case Received(got) =>
          assert dataBuffer[|got|..] == Zeros(size - |got|);
          dataBuffer := got + dataBuffer[|got|..];
      }
      data := dataBuffer;
    }
  }

  /** The jobs the server submits to its pool. */
  datatype ServerJob = AcceptLoop | WaitingDataLoop

  /** The status `startServer` ends in, from the outcomes of its OS steps. */
  function StartStatus(socketOk: bool, reuseOk: bool, bindOk: bool, listenOk: bool): (r: SocketStatusInfo)
    ensures r == Connected <==> socketOk && reuseOk && bindOk && listenOk
    ensures r == InitError <==> !socketOk || !reuseOk
    ensures r == BindError <==> socketOk && reuseOk && !bindOk
    ensures r == ListeningError <==> socketOk && reuseOk && bindOk && !listenOk
  {
    if !socketOk then InitError
    else if !reuseOk then InitError
    else if !bindOk then BindError
    else if !listenOk then ListeningError
    else Connected
  }

  /** A restart of a running server leaves exactly the accept job and the poll
      job queued, in that order. */
  lemma RestartQueue(p: PoolState<ServerJob>)
    ensures AddAll(ResetJobSpec(p), [AcceptLoop, WaitingDataLoop]).queue == [AcceptLoop, WaitingDataLoop]
  {
    AddAllQueues(ResetJobSpec(p), [AcceptLoop, WaitingDataLoop]);
  }

  /** `Server`: the listening port, the status, the session list and the pool. */
  class Server {
    var status: SocketStatusInfo        // server_status_
    var port: uint16                    // port_
    var sessions: seq<ServerSession>    // client_list_
    const pool: NetworkThreadPool<ServerJob>
    const keepAlive: ServerKeepAliveConfig

    /** The list owns each session once (a list of `unique_ptr`). */
    ghost predicate Valid()
      reads this
    {
      forall i, j :: 0 <= i < j < |sessions| ==> sessions[i] != sessions[j]
    }

    function GetServerStatus(): SocketStatusInfo reads this { status }
    function GetServerPort(): uint16 reads this { port }

    /** A new server is Disconnected, has no sessions and an idle pool. */
    constructor(port: uint16, keepAlive: ServerKeepAliveConfig, threadCount: nat)
      ensures Valid()
      ensures GetServerStatus() == Disconnected && GetServerPort() == port && sessions == []
      ensures this.keepAlive == keepAlive
      ensures fresh(pool) && pool.State() == PoolState([], false, threadCount)
    {
      this.port := port;
      this.keepAlive := keepAlive;
      this.status := Disconnected;
      this.sessions := [];
      this.pool := new NetworkThreadPool<ServerJob>(threadCount);
    }

    /** `stopServer`: resets the pool, marks the server Disconnected and
        clears the list, whose destructors close the sessions' handles. */
    method StopServer()
      requires Valid()
      modifies this, pool, sessions
      ensures Valid()
      ensures status == Disconnected && sessions == [] && port == old(port)
      ensures pool.State() == ResetJobSpec(old(pool.State()))
      ensures forall s :: s in old(sessions) ==> s.State() == ReleaseSpec(old(s.State()))
    {
      pool.ResetJob();
      status := Disconnected;
      var dropped := sessions;
      sessions := [];
      for i := 0 to |dropped|
        invariant forall k :: 0 <= k < i ==> dropped[k].State() == ReleaseSpec(old(dropped[k].State()))
        invariant forall k :: i <= k < |dropped| ==> dropped[k].State() == old(dropped[k].State())
        invariant status == Disconnected && sessions == [] && port == old(port)
        invariant pool.State() == ResetJobSpec(old(pool.State()))
      {
        dropped[i].Release();
      }
    }

    /** `startServer`: stops a running server first, then performs the OS
        steps; on success the server is up and the accept job and the poll
        job are submitted, in that order. */
    method StartServer(socketOk: bool, reuseOk: bool, bindOk: bool, listenOk: bool) returns (st: SocketStatusInfo)
      requires Valid()
      modifies this, pool, sessions
      ensures Valid()
      ensures st == status == StartStatus(socketOk, reuseOk, bindOk, listenOk)
      ensures port == old(port)
      ensures sessions == if old(status) == Connected then [] else old(sessions)
      ensures forall s :: s in old(sessions) ==>
        s.State() == if old(status) == Connected then ReleaseSpec(old(s.State())) else old(s.State())
      ensures var base := if old(status) == Connected then ResetJobSpec(old(pool.State())) else old(pool.State());
        pool.State() == if st == Connected then AddAll(base, [AcceptLoop, WaitingDataLoop]) else base
    {
      if status == Connected {
        StopServer();
      }
      if !socketOk || !reuseOk {
        status := InitError;
        return status;
      }
      if !bindOk {
        status := BindError;
        return status;
      }
      if !listenOk {
        status := ListeningError;
        return status;
      }
      status := Connected;
      ghost var base := pool.State();
      pool.AddTask(AcceptLoop);
      pool.AddTask(WaitingDataLoop);
      assert pool.State() == AddAll(base, [AcceptLoop, WaitingDataLoop]) by {
        assert [AcceptLoop, WaitingDataLoop][1..] == [WaitingDataLoop];
      }
      st := status;
    }

    /** `setServerPort`: stores the port and (re)starts the server on it. */
    method SetServerPort(newPort: uint16, socketOk: bool, reuseOk: bool, bindOk: bool, listenOk: bool) returns (p: uint16)
      requires Valid()
      modifies this, pool, sessions
      ensures Valid()
      ensures p == newPort && GetServerPort() == newPort
      ensures status == StartStatus(socketOk, reuseOk, bindOk, listenOk)
      ensures sessions == if old(status) == Connected then [] else old(sessions)
      ensures forall s :: s in old(sessions) ==>
        s.State() == if old(status) == Connected then ReleaseSpec(old(s.State())) else old(s.State())
      ensures var base := if old(status) == Connected then ResetJobSpec(old(pool.State())) else old(pool.State());
        pool.State() == if status == Connected then AddAll(base, [AcceptLoop, WaitingDataLoop]) else base
    {
      port := newPort;
      var _ := StartServer(socketOk, reuseOk, bindOk, listenOk);
      p := newPort;
    }

    /** One pass of `handlingAcceptLoop`: `accept4` returns `acceptResult` for
        a peer at `h` with the raw port `sinPort`, and `enableKeepAlive`
        succeeds iff `keepAliveOk`. An accepted peer on a running server is
        added as a new session when keep-alive is set, and is shut down and
        closed otherwise. The pass queues itself again while the server is up.
        `closedHandles` are the handles the pass closed. */
    method HandlingAcceptLoop(acceptResult: int, h: uint32, sinPort: uint16, keepAliveOk: bool)
      returns (closedHandles: seq<int>)
      requires Valid()
      modifies this, pool
      ensures Valid()
      ensures status == old(status) && port == old(port)
      ensures closedHandles == if acceptResult >= 0 && status == Connected && !keepAliveOk then [acceptResult] else []
      ensures !(acceptResult >= 0 && status == Connected && keepAliveOk) ==> sessions == old(sessions)
      ensures acceptResult >= 0 && status == Connected && keepAliveOk ==>
        |sessions| == |old(sessions)| + 1 && sessions[..|old(sessions)|] == old(sessions)
      ensures acceptResult >= 0 && status == Connected && keepAliveOk ==>
        fresh(sessions[|old(sessions)|]) && sessions[|old(sessions)|].Matches(h, sinPort)
      ensures acceptResult >= 0 && status == Connected && keepAliveOk ==>
        sessions[|old(sessions)|].State() == SessionState(Connected, acceptResult, [])
      ensures pool.State() == if status == Connected then AddTaskSpec(old(pool.State()), AcceptLoop) else old(pool.State())
    {
      closedHandles := [];
      if acceptResult >= 0 && status == Connected {
        if keepAliveOk {
          var session := new ServerSession(acceptResult, h, sinPort);
          sessions := sessions + [session];
          assert sessions[..|old(sessions)|] == old(sessions);
        } else {
          closedHandles := closedHandles + [acceptResult];
        }
      }
      if status == Connected {
        pool.AddTask(AcceptLoop);
      }
    }

    /** `ServerConnectTo(host, port, handler)`: opens a socket to the peer and,
        once connected, adds a session for it to the list. The socket call
        returns `socketResult`, the connect call succeeds iff `connectOk`, and
        `enableKeepAlive` iff `keepAliveOk`. A failed connect closes the
        handle and adds nothing. A failed keep-alive shuts the handle down and
        closes it, yet the session is still added with that handle and the
        call still succeeds. `closedHandles` are the handles the call closed.
        The address is stored with the port in network byte order. */
    method ServerConnectTo(h: uint32, p: uint16, socketResult: int, connectOk: bool, keepAliveOk: bool)
      returns (ok: bool, closedHandles: seq<int>)
      requires Valid()
      modifies this
      ensures Valid()
      ensures ok <==> socketResult >= 0 && connectOk
      ensures closedHandles == if socketResult >= 0 && (!connectOk || !keepAliveOk) then [socketResult] else []
      ensures !ok ==> sessions == old(sessions)
      ensures ok ==> |sessions| == |old(sessions)| + 1 && sessions[..|old(sessions)|] == old(sessions)
      ensures ok ==> fresh(sessions[|old(sessions)|]) && sessions[|old(sessions)|].Matches(h, Htons(p))
      ensures ok ==> sessions[|old(sessions)|].State() == SessionState(Connected, socketResult, [])
      ensures status == old(status) && port == old(port)
    {
      closedHandles := [];
      if socketResult < 0 {
        return false, closedHandles;
      }
      var clientSocket := socketResult;
      var sinPort := Htons(p);
      if !connectOk {
        closedHandles := closedHandles + [clientSocket];
        return false, closedHandles;
      }
      if !keepAliveOk {
        closedHandles := closedHandles + [clientSocket];
      }
      var session := new ServerSession(clientSocket, h, sinPort);
      sessions := sessions + [session];
      assert sessions[..|old(sessions)|] == old(sessions);
      ok := true;
    }

    /** `ServerSendData`: sends the buffer to every session; returns what each
        session handed to `send` (empty for a session that is not connected). */
    method ServerSendData(buffer: seq<uint8>, sendResults: seq<int>) returns (wires: seq<seq<uint8>>)
      requires |sendResults| == |sessions|
      requires forall i :: 0 <= i < |sendResults| ==> DefinedSendResult(sendResults[i], |buffer| + 4)
      ensures |wires| == |sessions|
      ensures forall i :: 0 <= i < |sessions| ==>
        wires[i] == if sessions[i].status == Connected then Frame(buffer) else []
    {
      wires := [];
      for i := 0 to |sessions|
        invariant |wires| == i
        invariant forall k :: 0 <= k < i ==>
          wires[k] == if sessions[k].status == Connected then Frame(buffer) else []
      {
        var _, wire := sessions[i].SendData(buffer, sendResults[i]);
        wires := wires + [wire];
      }
    }

    /** `ServerSendDataBy`: sends to every session with the given address and
        to no other; true iff some session has that address, whether or not
        its send succeeded. */
    method ServerSendDataBy(host: uint32, port: uint16, buffer: seq<uint8>, sendResults: seq<int>)
      returns (found: bool, wires: seq<seq<uint8>>)
      requires |sendResults| == |sessions|
      requires forall i :: 0 <= i < |sendResults| ==> DefinedSendResult(sendResults[i], |buffer| + 4)
      ensures found <==> exists i :: 0 <= i < |sessions| && sessions[i].Matches(host, port)
      ensures |wires| == |sessions|
      ensures forall i :: 0 <= i < |sessions| ==>
        wires[i] == if sessions[i].Matches(host, port) && sessions[i].status == Connected then Frame(buffer) else []
    {
      found := false;
      wires := [];
      ghost var frame := Frame(buffer);
      ghost var at := 0;
      for i := 0 to |sessions|
        invariant |wires| == i
        invariant found ==> 0 <= at < i && sessions[at].Matches(host, port)
        invariant !found ==> forall k :: 0 <= k < i ==> !sessions[k].Matches(host, port)
        invariant forall k :: 0 <= k < i ==>
          wires[k] == if sessions[k].Matches(host, port) && sessions[k].status == Connected then frame else []
      {
        var hit, wire := sessions[i].SendDataIfMatches(host, port, buffer, sendResults[i]);
        if hit {
          found, at := true, i;
        }
        wires := wires + [wire];
      }
    }

    /** `ServerDisconnectBy`: disconnects every session with the given address
        and no other; true iff some session has that address. */
    method ServerDisconnectBy(host: uint32, port: uint16) returns (found: bool)
      requires Valid()
      modifies sessions
      ensures found <==> exists i :: 0 <= i < |sessions| && sessions[i].Matches(host, port)
      ensures forall i :: 0 <= i < |sessions| ==>
        sessions[i].State() ==
          if sessions[i].Matches(host, port) then DisconnectSpec(old(sessions[i].State())) else old(sessions[i].State())
    {
      found := false;
      for i := 0 to |sessions|
        invariant found <==> exists k :: 0 <= k < i && sessions[k].Matches(host, port)
        invariant forall k :: 0 <= k < i ==>
          sessions[k].State() ==
            if sessions[k].Matches(host, port) then DisconnectSpec(old(sessions[k].State())) else old(sessions[k].State())
        invariant forall k :: i <= k < |sessions| ==> sessions[k].State() == old(sessions[k].State())
      {
        if sessions[i].GetHost() == host && sessions[i].GetPort() == port {
          var _ := sessions[i].Disconnect();
          found := true;
        }
      }
    }

    /** `ServerDisconnectAll`: disconnects every session. */
    method ServerDisconnectAll()
      requires Valid()
      modifies sessions
      ensures forall i :: 0 <= i < |sessions| ==> sessions[i].State() == DisconnectSpec(old(sessions[i].State()))
    {
      for i := 0 to |sessions|
        invariant forall k :: 0 <= k < i ==> sessions[k].State() == DisconnectSpec(old(sessions[k].State()))
        invariant forall k :: i <= k < |sessions| ==> sessions[k].State() == old(sessions[k].State())
      {
        var _ := sessions[i].Disconnect();
      }
    }
  }
}
