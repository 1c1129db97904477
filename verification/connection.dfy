/**
 The connection side of the module: the heartbeat interval and timeout
 timers, the TCP socket, the reconnect that a lost heartbeat schedules, and
 the writes `send` makes. Timers and sockets are tracked twice: as the
 handles the module keeps, and as what the JavaScript runtime actually has
 scheduled or open. A timer or socket the runtime holds but the module has
 no handle for is a leak.
 */
module Connection {
  import opened Wrappers
  import opened Text
  import Frame

  /** The `InstanceStatus` values the module reports. */
  datatype Status = Ok | Connecting | ConnectionFailure | Disconnected

  /** The configuration fields the connection reads. */
  datatype Config = Config(host: string, port: int, pollInterval: int)

  /** `this.config.host && this.config.port`: a non-empty host and a non-zero port. */
  predicate HasTarget(c: Config) {
    c.host != "" && c.port != 0
  }

  /** A TCP helper: its identity, and whether it reports `isConnected`. */
  datatype Socket = Socket(id: nat, connected: bool)

  /**
   What the runtime holds for the module: the scheduled interval and timeout
   timers, the number of pending (never cancelled) reconnect timeouts, the
   sockets created and not yet destroyed, and the next fresh identity.
   */
  datatype Runtime = Runtime(
    intervals: set<nat>,
    timeouts: set<nat>,
    reconnects: nat,
    sockets: set<nat>,
    nextId: nat)

  /**
   The module instance. `wire` is every character written to a socket, in
   order; `statuses` is every `updateStatus` call, in order.
   */
  datatype Instance = Instance(
    config: Config,
    heartbeatTimer: Option<nat>,
    heartbeatTimeoutTimer: Option<nat>,
    socket: Option<Socket>,
    socketBuffer: string,
    umix: Frame.Umix,
    wire: string,
    statuses: seq<Status>,
    rt: Runtime)

  function Ids(h: Option<nat>): set<nat> {
    match h
    case None => {}
    case Some(id) => {id}
  }

  function SocketIds(h: Option<Socket>): set<nat> {
    match h
    case None => {}
    case Some(sock) => {sock.id}
  }

  /**
   The runtime holds exactly the timers and the socket the module has handles
   for, every identity in use is below the next fresh one, and the read buffer
   is empty.
   */
  ghost predicate Tracked(s: Instance) {
    && s.rt.intervals == Ids(s.heartbeatTimer)
    && s.rt.timeouts == Ids(s.heartbeatTimeoutTimer)
    && s.rt.sockets == SocketIds(s.socket)
    && (s.heartbeatTimer.Some? ==> s.heartbeatTimer.value < s.rt.nextId)
    && (s.heartbeatTimeoutTimer.Some? ==> s.heartbeatTimeoutTimer.value < s.rt.nextId)
    && (s.socket.Some? ==> s.socket.value.id < s.rt.nextId)
    && s.socketBuffer == ""
  }

  /** Nothing leaks, and the two heartbeat timers are armed together. */
  ghost predicate Valid(s: Instance) {
    Tracked(s) && (s.heartbeatTimer.Some? <==> s.heartbeatTimeoutTimer.Some?)
  }

  /** The instance before `init_tcp` first runs. */
  function Init(config: Config): (s: Instance)
    ensures Valid(s)
    ensures s.socket.None? && s.heartbeatTimer.None? && s.rt.reconnects == 0 && s.wire == []
  {
    Instance(config, None, None, None, "", map[], "", [], Runtime({}, {}, 0, {}, 0))
  }

  /** `socket !== undefined && socket.isConnected`. */
  predicate CanWrite(s: Instance) {
    s.socket.Some? && s.socket.value.connected
  }

  /** `send(cmd)`: writes `cmd` and CRLF on a connected socket; otherwise writes, queues and raises nothing. */
  function Send(s: Instance, cmd: string): (r: Instance)
    ensures CanWrite(s) ==> r.wire == s.wire + cmd + "\r\n"
    ensures !CanWrite(s) ==> r.wire == s.wire
    ensures r == s.(wire := r.wire)
  {
    if CanWrite(s) then s.(wire := s.wire + cmd + "\r\n") else s
  }

  /** `stopHeartbeat`: clears whichever heartbeat timers are armed and forgets their handles. */
  function StopHeartbeat(s: Instance): (r: Instance)
    ensures r.heartbeatTimer.None? && r.heartbeatTimeoutTimer.None?
    ensures r.rt.sockets == s.rt.sockets && r.rt.reconnects == s.rt.reconnects && r.rt.nextId == s.rt.nextId
    ensures r == s.(heartbeatTimer := None, heartbeatTimeoutTimer := None, rt := r.rt)
  {
    var rt := s.rt.(intervals := s.rt.intervals - Ids(s.heartbeatTimer),
                    timeouts := s.rt.timeouts - Ids(s.heartbeatTimeoutTimer));
    s.(heartbeatTimer := None, heartbeatTimeoutTimer := None, rt := rt)
  }

  /** `resetHeartbeatTimeout`: clears the armed timeout, if any, and arms a fresh one. */
  function ResetHeartbeatTimeout(s: Instance): (r: Instance)
    ensures r.heartbeatTimeoutTimer == Some(s.rt.nextId)
    ensures r.rt.intervals == s.rt.intervals && r.rt.sockets == s.rt.sockets && r.rt.reconnects == s.rt.reconnects
    ensures r == s.(heartbeatTimeoutTimer := r.heartbeatTimeoutTimer, rt := r.rt)
  {
    var id := s.rt.nextId;
    var rt := s.rt.(timeouts := s.rt.timeouts - Ids(s.heartbeatTimeoutTimer) + {id}, nextId := id + 1);
    s.(heartbeatTimeoutTimer := Some(id), rt := rt)
  }

  /** `startHeartbeat`: stops first, then arms one interval timer and one timeout timer. */
  function StartHeartbeat(s: Instance): (r: Instance)
    ensures r.heartbeatTimer.Some? && r.heartbeatTimeoutTimer.Some?
    ensures r.socket == s.socket && r.wire == s.wire && r.rt.sockets == s.rt.sockets && r.rt.reconnects == s.rt.reconnects
  {
    var t := StopHeartbeat(s);
    var id := t.rt.nextId;
    var u := t.(heartbeatTimer := Some(id), rt := t.rt.(intervals := t.rt.intervals + {id}, nextId := id + 1));
    ResetHeartbeatTimeout(u)
  }

  /** `sendHeartbeat`: sends the empty frame `<>`, then re-arms the timeout. */
  function SendHeartbeat(s: Instance): (r: Instance)
    ensures r.wire == Send(s, "<>").wire
    ensures r.heartbeatTimeoutTimer.Some?
    ensures r.socket == s.socket && r.heartbeatTimer == s.heartbeatTimer && r.rt.reconnects == s.rt.reconnects
  {
    ResetHeartbeatTimeout(Send(s, "<>"))
  }

  /** Destroys the current socket, if any, and forgets it. */
  function DestroySocket(s: Instance): (r: Instance)
    ensures r.socket.None?
    ensures r.rt.sockets == s.rt.sockets - SocketIds(s.socket)
    ensures r == s.(socket := None, rt := r.rt)
    ensures r.rt == s.rt.(sockets := r.rt.sockets)
  {
    match s.socket
    case None => s
    case Some(sock) => s.(socket := None, rt := s.rt.(sockets := s.rt.sockets - {sock.id}))
  }

  /**
   `onHeartbeatTimeout`: reports the failure, stops both timers, destroys the
   socket and schedules exactly one reconnect, which nothing can cancel.
   */
  function OnHeartbeatTimeout(s: Instance): (r: Instance)
    ensures r.heartbeatTimer.None? && r.heartbeatTimeoutTimer.None? && r.socket.None?
    ensures r.rt.reconnects == s.rt.reconnects + 1
    ensures r.statuses == s.statuses + [ConnectionFailure]
    ensures r.wire == s.wire && r.umix == s.umix && r.socketBuffer == s.socketBuffer
  {
    var t := StopHeartbeat(s.(statuses := s.statuses + [ConnectionFailure]));
    var u := DestroySocket(t);
    u.(rt := u.rt.(reconnects := u.rt.reconnects + 1))
  }

  /**
   `init_tcp`: destroys any existing socket (clearing the read buffer only
   then), reports `Connecting`, and creates a new, not yet connected socket
   only when the host and port are set. The timers are left alone.
   */
  function InitTcp(s: Instance): (r: Instance)
    ensures r.socket.Some? <==> HasTarget(s.config)
    ensures r.socket.Some? ==> !r.socket.value.connected && r.socket.value.id == s.rt.nextId
    ensures r.rt.sockets == s.rt.sockets - SocketIds(s.socket) + SocketIds(r.socket)
    ensures s.socket.Some? ==> r.socketBuffer == ""
    ensures s.socket.None? ==> r.socketBuffer == s.socketBuffer
    ensures r.statuses == s.statuses + [Connecting]
    ensures r.heartbeatTimer == s.heartbeatTimer && r.heartbeatTimeoutTimer == s.heartbeatTimeoutTimer
    ensures r.rt.intervals == s.rt.intervals && r.rt.timeouts == s.rt.timeouts && r.rt.reconnects == s.rt.reconnects
    ensures r.wire == s.wire && r.umix == s.umix
  {
    var t := if s.socket.Some? then DestroySocket(s).(socketBuffer := "") else s;
    var u := t.(statuses := t.statuses + [Connecting]);
    if HasTarget(u.config) then
      var id := u.rt.nextId;
      u.(socket := Some(Socket(id, false)), rt := u.rt.(sockets := u.rt.sockets + {id}, nextId := id + 1))
    else
      u
  }

  /**
   The `data` handler: the chunk is trimmed and handled as one message, and
   the heartbeat timeout is re-armed only if one is armed already.
   */
  function OnData(s: Instance, chunk: string): (r: Instance)
    ensures r.heartbeatTimeoutTimer.Some? <==> s.heartbeatTimeoutTimer.Some?
    ensures s.heartbeatTimeoutTimer.None? ==> r.rt == s.rt
    ensures r.umix == Frame.HandleMessage(s.umix, Trim(chunk))
    ensures r.wire == s.wire && r.socket == s.socket && r.heartbeatTimer == s.heartbeatTimer
    ensures r.rt.intervals == s.rt.intervals && r.rt.sockets == s.rt.sockets && r.rt.reconnects == s.rt.reconnects
  {
    var t := if s.heartbeatTimeoutTimer.Some? then ResetHeartbeatTimeout(s) else s;
    t.(umix := Frame.HandleMessage(t.umix, Trim(chunk)))
  }

  /** `onConnected`: reports `Ok`, asks for system information, and starts the heartbeat when polling is on. */
  function OnConnected(s: Instance): (r: Instance)
    ensures r.statuses == s.statuses + [Ok]
    ensures r.wire == Send(s, "<SYS?>").wire
    ensures r.heartbeatTimer.Some? <==> s.config.pollInterval > 0 || s.heartbeatTimer.Some?
    ensures s.config.pollInterval > 0 ==> r.heartbeatTimeoutTimer.Some?
    ensures r.socket == s.socket && r.rt.reconnects == s.rt.reconnects
  {
    var t := Send(s.(statuses := s.statuses + [Ok]), "<SYS?>");
    if s.config.pollInterval > 0 then StartHeartbeat(t) else t
  }

  /** The TCP helper reports a new status; it is connected exactly when the status is `Ok`. */
  function OnSocketStatus(s: Instance, st: Status): (r: Instance)
    requires s.socket.Some?
    ensures r.socket == Some(s.socket.value.(connected := st == Ok))
    ensures r.statuses == s.statuses + [st]
    ensures r == s.(socket := r.socket, statuses := r.statuses)
  {
    s.(socket := Some(s.socket.value.(connected := st == Ok)), statuses := s.statuses + [st])
  }

  /** Calls made into the module and things that happen to it. */
  datatype Event =
    | CallInitTcp
    | CallSend(cmd: string)
    | CallOnConnected
    | IntervalFired(id: nat)
    | TimeoutFired(id: nat)
    | ReconnectFired
    | SocketStatusChanged(status: Status)
    | DataReceived(chunk: string)

  /** An event can happen: a timer fires only while scheduled, and socket events need a socket. */
  predicate Enabled(s: Instance, e: Event) {
    match e
    case IntervalFired(id) => id in s.rt.intervals
    case TimeoutFired(id) => id in s.rt.timeouts
    case ReconnectFired => s.rt.reconnects > 0
    case SocketStatusChanged(_) => s.socket.Some?
    case DataReceived(_) => s.socket.Some?
    case _ => true
  }

  /** One event. An event that cannot happen leaves the instance as it is. */
  function Step(s: Instance, e: Event): (r: Instance)
    ensures !Enabled(s, e) ==> r == s
  {
    if !Enabled(s, e) then s
    else match e
      case CallInitTcp => InitTcp(s)
      case CallSend(cmd) => Send(s, cmd)
      case CallOnConnected => OnConnected(s)
      case IntervalFired(_) => SendHeartbeat(s)
      case TimeoutFired(id) => OnHeartbeatTimeout(s.(rt := s.rt.(timeouts := s.rt.timeouts - {id})))
      case ReconnectFired => InitTcp(s.(rt := s.rt.(reconnects := s.rt.reconnects - 1)))
      case SocketStatusChanged(st) => OnSocketStatus(s, st)
      case DataReceived(chunk) => OnData(s, chunk)
  }

  function Run(s: Instance, es: seq<Event>): Instance
    decreases |es|
  {
    if |es| == 0 then s else Run(Step(s, es[0]), es[1..])
  }

  /** Whether every event of `es` can happen when its turn comes. */
  predicate Feasible(s: Instance, es: seq<Event>)
    decreases |es|
  {
    |es| == 0 || (Enabled(s, es[0]) && Feasible(Step(s, es[0]), es[1..]))
  }

  // Nothing leaks

  /** After `stopHeartbeat` no heartbeat timer is scheduled at all. */
  lemma StopHeartbeatClearsAll(s: Instance)
    requires Valid(s)
    ensures var r := StopHeartbeat(s); Valid(r) && r.rt.intervals == {} && r.rt.timeouts == {}
  {
  }

  /** Re-arming keeps exactly one timeout scheduled, a fresh one; the one it replaces can no longer fire. */
  lemma ResetHeartbeatTimeoutKeepsOne(s: Instance)
    requires Tracked(s) && s.heartbeatTimer.Some?
    ensures var r := ResetHeartbeatTimeout(s);
      && Valid(r)
      && r.rt.timeouts == {s.rt.nextId}
      && (s.heartbeatTimeoutTimer.Some? ==> s.heartbeatTimeoutTimer.value !in r.rt.timeouts)
  {
  }

  /** After `startHeartbeat` exactly one interval timer and one timeout timer are scheduled. */
  lemma StartHeartbeatArmsOneEach(s: Instance)
    requires Valid(s)
    ensures var r := StartHeartbeat(s);
      Valid(r) && |r.rt.intervals| == 1 && |r.rt.timeouts| == 1
  {
    var t := StopHeartbeat(s);
    StopHeartbeatClearsAll(s);
    var id := t.rt.nextId;
    var u := t.(heartbeatTimer := Some(id), rt := t.rt.(intervals := t.rt.intervals + {id}, nextId := id + 1));
    assert Tracked(u);
    ResetHeartbeatTimeoutKeepsOne(u);
  }

  /**
   A heartbeat timeout firing leaves no heartbeat timer and no socket behind,
   reports one failure, and adds exactly one pending reconnect.
   */
  lemma TimeoutFiredTearsDown(s: Instance, id: nat)
    requires Valid(s) && id in s.rt.timeouts
    ensures var r := Step(s, TimeoutFired(id));
      && Valid(r)
      && r.rt.intervals == {} && r.rt.timeouts == {} && r.rt.sockets == {}
      && r.rt.reconnects == s.rt.reconnects + 1
      && r.statuses == s.statuses + [ConnectionFailure]
  {
  }

  /** `init_tcp` destroys the old socket before it creates the new one, so at most one socket is open. */
  lemma InitTcpAtMostOneSocket(s: Instance)
    requires Valid(s)
    ensures var r := InitTcp(s);
      && Valid(r)
      && |r.rt.sockets| <= 1
      && (s.socket.Some? ==> s.socket.value.id !in r.rt.sockets)
  {
  }

  /**
   Inbound data re-arms an armed timeout, so the deadline armed before it can
   no longer fire; with no timeout armed it schedules nothing.
   */
  lemma DataPostponesTimeout(s: Instance, chunk: string)
    requires Valid(s)
    ensures var r := Step(s, DataReceived(chunk));
      && Valid(r)
      && (s.heartbeatTimeoutTimer.Some? && s.socket.Some? ==>
            !Enabled(r, TimeoutFired(s.heartbeatTimeoutTimer.value)))
      && (s.heartbeatTimeoutTimer.None? ==> r.rt == s.rt)
  {
    if s.socket.Some? && s.heartbeatTimeoutTimer.Some? {
      ResetHeartbeatTimeoutKeepsOne(s);
    }
  }

  /**
   A heartbeat sent on the interval re-arms the timeout too, so it also
   cancels the deadline armed before it, whether or not anything arrived.
   */
  lemma HeartbeatPostponesTimeout(s: Instance, id: nat)
    requires Valid(s) && id in s.rt.intervals
    ensures var r := Step(s, IntervalFired(id));
      && Valid(r)
      && r.wire == Send(s, "<>").wire
      && !Enabled(r, TimeoutFired(s.heartbeatTimeoutTimer.value))
  {
    ResetHeartbeatTimeoutKeepsOne(Send(s, "<>"));
  }

  /** Every event keeps the instance free of leaks. */
  lemma StepPreservesValid(s: Instance, e: Event)
    requires Valid(s)
    ensures Valid(Step(s, e))
  {
    if Enabled(s, e) {
      match e
      case CallInitTcp => InitTcpAtMostOneSocket(s);
      case CallSend(_) =>
      case CallOnConnected =>
        var t := Send(s.(statuses := s.statuses + [Ok]), "<SYS?>");
        if s.config.pollInterval > 0 {
          StartHeartbeatArmsOneEach(t);
        }
      case IntervalFired(id) => HeartbeatPostponesTimeout(s, id);
      case TimeoutFired(id) => TimeoutFiredTearsDown(s, id);
      case ReconnectFired => InitTcpAtMostOneSocket(s.(rt := s.rt.(reconnects := s.rt.reconnects - 1)));
      case SocketStatusChanged(_) =>
      case DataReceived(chunk) => DataPostponesTimeout(s, chunk);
    }
  }

  /** Any run keeps the instance free of leaks. */
  lemma {:induction false} RunPreservesValid(s: Instance, es: seq<Event>)
    requires Valid(s)
    ensures Valid(Run(s, es))
    decreases |es|
  {
    if |es| > 0 {
      StepPreservesValid(s, es[0]);
      RunPreservesValid(Step(s, es[0]), es[1..]);
    }
  }

  /**
   From the start, whatever happens: at most one socket is open, and it and
   every scheduled heartbeat timer are ones the module holds a handle for.
   */
  lemma NoLeaks(config: Config, es: seq<Event>)
    ensures var r := Run(Init(config), es);
      && r.rt.sockets == SocketIds(r.socket) && |r.rt.sockets| <= 1
      && r.rt.intervals == Ids(r.heartbeatTimer) && |r.rt.intervals| <= 1
      && r.rt.timeouts == Ids(r.heartbeatTimeoutTimer) && |r.rt.timeouts| <= 1
  {
    RunPreservesValid(Init(config), es);
  }

  // Reconnects

  function CountTimeouts(es: seq<Event>): nat
    decreases |es|
  {
    if |es| == 0 then 0 else (if es[0].TimeoutFired? then 1 else 0) + CountTimeouts(es[1..])
  }

  function CountReconnects(es: seq<Event>): nat
    decreases |es|
  {
    if |es| == 0 then 0 else (if es[0].ReconnectFired? then 1 else 0) + CountReconnects(es[1..])
  }

  /**
   Each heartbeat timeout adds one pending reconnect and each reconnect that
   fires takes one away; nothing else changes the count.
   */
  lemma {:induction false} ReconnectAccounting(s: Instance, es: seq<Event>)
    requires Feasible(s, es)
    ensures Run(s, es).rt.reconnects + CountReconnects(es) == s.rt.reconnects + CountTimeouts(es)
    decreases |es|
  {
    if |es| > 0 {
      ReconnectAccounting(Step(s, es[0]), es[1..]);
    }
  }

  /**
   `onConnected` is the only caller of `startHeartbeat`, and nothing in the
   module calls `onConnected`. Without that call no heartbeat timer is ever
   armed, so no heartbeat timeout fires and no reconnect is scheduled.
   */
  lemma {:induction false} NoHeartbeatWithoutOnConnected(s: Instance, es: seq<Event>)
    requires Valid(s) && s.heartbeatTimer.None?
    requires forall i :: 0 <= i < |es| ==> !es[i].CallOnConnected?
    ensures var r := Run(s, es);
      && r.heartbeatTimer.None? && r.heartbeatTimeoutTimer.None?
      && r.rt.intervals == {} && r.rt.timeouts == {}
      && r.rt.reconnects <= s.rt.reconnects
    decreases |es|
  {
    if |es| > 0 {
      var t := Step(s, es[0]);
      StepPreservesValid(s, es[0]);
      assert t.heartbeatTimer.None? && t.rt.reconnects <= s.rt.reconnects;
      NoHeartbeatWithoutOnConnected(t, es[1..]);
    }
  }

  // Writes

  /** Writes only ever append to what has been written. */
  lemma {:induction false} WireOnlyGrows(s: Instance, es: seq<Event>)
    ensures s.wire <= Run(s, es).wire
    decreases |es|
  {
    if |es| > 0 {
      var t := Step(s, es[0]);
      assert s.wire <= t.wire;
      WireOnlyGrows(t, es[1..]);
    }
  }

  /**
   Until a socket reports `Ok`, nothing is written: sends and heartbeats made
   while disconnected are dropped without being queued.
   */
  lemma {:induction false} SilentUntilConnected(s: Instance, es: seq<Event>)
    requires !CanWrite(s)
    requires forall i :: 0 <= i < |es| ==> es[i] != SocketStatusChanged(Ok)
    ensures Run(s, es).wire == s.wire
    decreases |es|
  {
    if |es| > 0 {
      var t := Step(s, es[0]);
      assert !CanWrite(t) && t.wire == s.wire;
      SilentUntilConnected(t, es[1..]);
    }
  }

  // The heartbeat deadline

  /** Events that neither deliver data, send a heartbeat, restart the heartbeat nor fire a timeout. */
  predicate Quiet(e: Event) {
    !e.DataReceived? && !e.IntervalFired? && !e.CallOnConnected? && !e.TimeoutFired?
  }

  /**
   Only inbound data, a heartbeat, a restart of the heartbeat or the timeout
   itself move the armed timeout: through any other events it stays armed,
   ready to fire.
   */
  lemma {:induction false} TimeoutStaysArmed(s: Instance, es: seq<Event>)
    requires Valid(s) && s.heartbeatTimeoutTimer.Some?
    requires forall i :: 0 <= i < |es| ==> Quiet(es[i])
    ensures Run(s, es).heartbeatTimeoutTimer == s.heartbeatTimeoutTimer
    ensures Enabled(Run(s, es), TimeoutFired(s.heartbeatTimeoutTimer.value))
    decreases |es|
  {
    if |es| > 0 {
      var t := Step(s, es[0]);
      StepPreservesValid(s, es[0]);
      assert t.heartbeatTimeoutTimer == s.heartbeatTimeoutTimer;
      TimeoutStaysArmed(t, es[1..]);
    }
  }

  /** `n` heartbeats as the module sends them, with nothing received in between. */
  function Heartbeats(s: Instance, n: nat): Instance
    decreases n
  {
    if n == 0 then s else Heartbeats(SendHeartbeat(s), n - 1)
  }

  /**
   Every heartbeat cancels the armed timeout and arms a fresh one, so after
   any number of heartbeats the deadline armed when the peer fell silent can
   no longer fire: once `onConnected` has started the heartbeat with a poll
   interval below the 10 second timeout, the module's own heartbeats keep a
   silent peer from ever being detected.
   */
  lemma {:induction false} HeartbeatsMaskSilence(s: Instance, n: nat)
    requires Valid(s) && s.heartbeatTimeoutTimer.Some? && n > 0
    ensures var r := Heartbeats(s, n);
      && Valid(r)
      && r.heartbeatTimeoutTimer.Some?
      && s.heartbeatTimeoutTimer.value !in r.rt.timeouts
    decreases n
  {
    HeartbeatsFresh(s, s.heartbeatTimeoutTimer.value, n);
  }

  lemma {:induction false} HeartbeatsFresh(s: Instance, id: nat, n: nat)
    requires Valid(s) && s.heartbeatTimeoutTimer.Some? && id < s.rt.nextId
    requires n > 0 || id !in s.rt.timeouts
    ensures var r := Heartbeats(s, n);
      && Valid(r)
      && r.heartbeatTimeoutTimer.Some?
      && id !in r.rt.timeouts
    decreases n
  {
    if n > 0 {
      var t := SendHeartbeat(s);
      ResetHeartbeatTimeoutKeepsOne(Send(s, "<>"));
      HeartbeatsFresh(t, id, n - 1);
    }
  }
}
