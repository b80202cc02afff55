/** coreapi/TunnelManager.cc: modes, states, the tunnel client and UDP mirror detection. */
module TunnelManager {
  import opened Wrappers

  datatype Mode = Enable | Disable | Auto

  datatype State = Disabled | Connecting | Ready | Autodetecting

  datatype Event = TunnelEvent(connected: bool) | MirrorEvent(haveUdp: bool)

  datatype ServerAddr = ServerAddr(addr: string, port: int)

  datatype Mirror = Mirror(server: ServerAddr, delay: int)

  /** The manager's fields as a value. client holds the client's own server list. The last two fields are the environment:
      how many started mirror tests have not answered yet, and which mirrors the current detection has started. */
  datatype Tunnel = Tunnel(mode: Mode, state: State, client: Option<seq<ServerAddr>>, factories: bool,
                           servers: seq<ServerAddr>, mirrors: seq<Mirror>, current: Option<nat>,
                           queue: seq<Event>, outstanding: nat, tried: seq<nat>)

  const NEW_TUNNEL := Tunnel(Disable, Disabled, None, false, [], [], None, [], 0, [])

  // ---- what each operation does

  function WithClient(t: Tunnel): Tunnel { t.(client := Some(t.servers)) }

  function AddServerTo(t: Tunnel, addr: ServerAddr): Tunnel {
    t.(servers := t.servers + [addr], client := if t.client.Some? then Some(t.client.value + [addr]) else None)
  }

  function AddMirrorTo(t: Tunnel, addr: ServerAddr, mirror: Mirror): Tunnel {
    var added := AddServerTo(t, addr);
    added.(mirrors := added.mirrors + [mirror])
  }

  // Every mirror test is stopped, and clearing the list leaves no valid position in it.
  function Cleaned(t: Tunnel): Tunnel {
    t.(servers := [], mirrors := [], current := None, outstanding := 0,
       client := if t.client.Some? then Some([]) else None)
  }

  function StartTest(t: Tunnel, i: nat): Tunnel {
    t.(current := Some(i), outstanding := t.outstanding + 1, tried := (if i == 0 then [] else t.tried) + [i])
  }

  function SetModeOf(t: Tunnel, mode: Mode): Tunnel {
    if t.mode == mode || (mode == Disable && t.state == Disabled) || (mode == Enable && t.state == Ready) then t
    else
      match mode
      case Enable => if t.state == Disabled then WithClient(t).(state := Connecting, mode := Enable) else t
      case Disable => if t.state == Ready then t.(factories := false, state := Disabled, mode := Disable, client := None) else t
      case Auto =>
        if (t.state == Disabled || t.state == Ready) && t.mirrors != []
        then StartTest(t, 0).(state := Autodetecting, mode := Auto) else t
  }

  // The result of starting the detection is not looked at.
  function NetworkReachableIn(t: Tunnel, reachable: bool): Tunnel {
    if reachable && t.mode == Auto && t.state != Connecting && t.state != Autodetecting
    then (if t.mirrors != [] then StartTest(t, 0) else t).(state := Autodetecting)
    else t
  }

  function ProcessTunnelEventIn(t: Tunnel, connected: bool): Tunnel {
    if connected && t.state == Connecting then t.(factories := true, state := Ready) else t
  }

  // After a failed test the position in the mirror list is advanced, so it must be valid.
  predicate MirrorEventDefined(t: Tunnel, haveUdp: bool) {
    t.state == Autodetecting && !haveUdp ==> t.current.Some? && t.current.value < |t.mirrors|
  }

  function ProcessMirrorEventIn(t: Tunnel, haveUdp: bool): Tunnel
    requires MirrorEventDefined(t, haveUdp)
  {
    if t.state != Autodetecting then t
    else if haveUdp then t.(client := None, state := Disabled)
    else
      var next := t.current.value + 1;
      if next < |t.mirrors| then StartTest(t, next)
      else if t.client.None? then WithClient(t).(current := Some(next), state := Connecting)
      else t.(current := Some(next), state := Ready)
  }

  predicate EventDefined(t: Tunnel, ev: Event) { ev.MirrorEvent? ==> MirrorEventDefined(t, ev.haveUdp) }

  function ProcessEvent(t: Tunnel, ev: Event): Tunnel
    requires EventDefined(t, ev)
  {
    match ev
    case TunnelEvent(connected) => ProcessTunnelEventIn(t, connected)
    case MirrorEvent(haveUdp) => ProcessMirrorEventIn(t, haveUdp)
  }

  // One turn of the loop of onIterate.
  function PopEvent(t: Tunnel): Tunnel
    requires t.queue != [] && EventDefined(t, t.queue[0])
  {
    ProcessEvent(t.(queue := t.queue[1..]), t.queue[0])
  }

  lemma ProcessKeepsQueue(t: Tunnel, ev: Event)
    requires EventDefined(t, ev)
    ensures ProcessEvent(t, ev).queue == t.queue
  {
  }

  ghost predicate DrainDefined(t: Tunnel, n: nat)
    decreases n
  {
    n == |t.queue| && (n > 0 ==> EventDefined(t, t.queue[0]) && DrainDefined(PopEvent(t), n - 1))
  }

  function Drain(t: Tunnel, n: nat): Tunnel
    requires DrainDefined(t, n)
    decreases n
  {
    if n == 0 then t else Drain(PopEvent(t), n - 1)
  }

  // ---- the classes

  class TunnelClient {
    var servers: seq<ServerAddr>

    constructor ()
      ensures servers == []
    {
      servers := [];
    }

    method AddServer(addr: ServerAddr)
      modifies this
      ensures servers == old(servers) + [addr]
    {
      servers := servers + [addr];
    }
  }

  class TunnelManager {
    var mode: Mode
    var state: State
    var client: TunnelClient?
    var factories: bool
    var servers: seq<ServerAddr>
    var mirrors: seq<Mirror>
    var current: Option<nat>
    var queue: seq<Event>
    var outstanding: nat
    ghost var tried: seq<nat>

    ghost function Value(): Tunnel
      reads this, client
    {
      Tunnel(mode, state, if client == null then None else Some(client.servers), factories,
             servers, mirrors, current, queue, outstanding, tried)
    }

    constructor ()
      ensures Value() == NEW_TUNNEL
    {
      mode, state, client, factories := Disable, Disabled, null, false;
      servers, mirrors, current, queue, outstanding, tried := [], [], None, [], 0, [];
    }

    // A null ip is stored as an empty string.
    method AddServer(ip: Option<string>, port: int)
      modifies `servers, client
      ensures Value() == AddServerTo(old(Value()), ServerAddr(if ip.Some? then ip.value else "", port))
      ensures servers == old(servers) + [ServerAddr(if ip.Some? then ip.value else "", port)]
      ensures client != null ==> client.servers == old(client.servers) + [ServerAddr(if ip.Some? then ip.value else "", port)]
    {
      var addr := ServerAddr(if ip.Some? then ip.value else "", port);
      servers := servers + [addr];
      if client != null { client.AddServer(addr); }
    }

    method AddServerWithMirror(ip: Option<string>, port: int, udpMirrorPort: uint32, delay: uint32)
      modifies `servers, `mirrors, client
      ensures var host := if ip.Some? then ip.value else "";
              && Value() == AddMirrorTo(old(Value()), ServerAddr(host, port), Mirror(ServerAddr(host, udpMirrorPort), delay))
              && servers == old(servers) + [ServerAddr(host, port)]
              && mirrors == old(mirrors) + [Mirror(ServerAddr(host, udpMirrorPort), delay)]
              && (client != null ==> client.servers == old(client.servers) + [ServerAddr(host, port)])
    {
      var host := if ip.Some? then ip.value else "";
      AddServer(Some(host), port);
      mirrors := mirrors + [Mirror(ServerAddr(host, udpMirrorPort), delay)];
    }

    method CleanServers()
      modifies `servers, `mirrors, `current, `outstanding, client
      ensures Value() == Cleaned(old(Value()))
      ensures servers == [] && mirrors == [] && current == None && outstanding == 0 && (client != null ==> client.servers == [])
    {
      servers := [];
      outstanding := 0;
      mirrors, current := [], None;
      if client != null { client.servers := []; }
    }

    // A live client must not be overwritten.
    method StartClient()
      requires client == null
      modifies `client
      ensures Value() == WithClient(old(Value())) && fresh(client)
      ensures client.servers == servers
    {
      client := new TunnelClient();
      var i := 0;
      while i < |servers|
        invariant 0 <= i <= |servers|
        invariant fresh(client) && client.servers == servers[..i]
      {
        client.AddServer(servers[i]);
        i := i + 1;
      }
      assert servers[..i] == servers;
    }

    method StartUdpMirror(i: nat)
      requires i < |mirrors|
      modifies `current, `outstanding, `tried
      ensures Value() == StartTest(old(Value()), i)
      ensures current == Some(i) && outstanding == old(outstanding) + 1
    {
      current := Some(i);
      outstanding := outstanding + 1;
      tried := (if i == 0 then [] else tried) + [i];
    }

    method StartAutoDetection() returns (started: bool)
      modifies `current, `outstanding, `tried
      ensures started <==> mirrors != []
      ensures Value() == if started then StartTest(old(Value()), 0) else old(Value())
      ensures current == (if started then Some(0) else old(current))
      ensures outstanding == old(outstanding) + if started then 1 else 0
    {
      if |mirrors| == 0 { return false; }
      StartUdpMirror(0);
      started := true;
    }

    method SetMode(newMode: Mode)
      requires TunnelOk(Value())
      modifies `mode, `state, `client, `factories, `current, `outstanding, `tried
      ensures Value() == SetModeOf(old(Value()), newMode)
      ensures old(mode) == newMode ==> Value() == old(Value())
      ensures old(mode) != newMode && newMode == Enable ==>
                if old(state) == Disabled then mode == Enable && state == Connecting && fresh(client) && client.servers == servers
                else Value() == old(Value())
      ensures old(mode) != newMode && newMode == Disable ==>
                if old(state) == Ready then mode == Disable && state == Disabled && client == null && !factories
                else Value() == old(Value())
      ensures old(mode) != newMode && newMode == Auto ==>
                if (old(state) == Disabled || old(state) == Ready) && mirrors != []
                then && mode == Auto && state == Autodetecting && client == old(client)
                     && current == Some(0) && outstanding == old(outstanding) + 1
                else Value() == old(Value())
    {
      if mode == newMode { return; }
      if (newMode == Disable && state == Disabled) || (newMode == Enable && state == Ready) { return; }
      match newMode
      case Enable =>
        if state == Disabled {
          StartClient();
          state, mode := Connecting, newMode;
        }
      case Disable =>
        if state == Ready {
          factories := false;
          state, mode := Disabled, newMode;
          client := null;
        }
      case Auto =>
        if state == Disabled || state == Ready {
          var started := StartAutoDetection();
          if started { state, mode := Autodetecting, newMode; }
        }
    }

    method NetworkReachable(reachable: bool)
      modifies `state, `current, `outstanding, `tried
      ensures Value() == NetworkReachableIn(old(Value()), reachable)
      ensures if reachable && mode == Auto && (old(state) == Disabled || old(state) == Ready)
              then state == Autodetecting && (mirrors != [] ==> current == Some(0) && outstanding == old(outstanding) + 1)
              else Value() == old(Value())
    {
      if reachable && mode == Auto && state != Connecting && state != Autodetecting {
        var started := StartAutoDetection();
        state := Autodetecting;
      }
    }

    method PostEvent(ev: Event)
      modifies `queue
      ensures Value() == old(Value()).(queue := old(queue) + [ev])
    {
      queue := queue + [ev];
    }

    method ProcessTunnelEvent(connected: bool)
      modifies `state, `factories
      ensures Value() == ProcessTunnelEventIn(old(Value()), connected)
      ensures if connected && old(state) == Connecting then state == Ready && factories
              else state == old(state) && factories == old(factories)
    {
      if connected {
        if state == Connecting {
          factories := true;
          state := Ready;
        }
      }
    }

    method ProcessUdpMirrorEvent(haveUdp: bool)
      requires MirrorEventDefined(Value(), haveUdp)
      modifies `state, `client, `current, `outstanding, `tried
      ensures Value() == ProcessMirrorEventIn(old(Value()), haveUdp)
      ensures old(state) != Autodetecting ==> Value() == old(Value())
      ensures old(state) == Autodetecting && haveUdp ==>
                state == Disabled && client == null && current == old(current) && outstanding == old(outstanding)
      ensures old(state) == Autodetecting && !haveUdp ==>
                && current == Some(old(current).value + 1)
                && if current.value < |mirrors| then
                     state == Autodetecting && client == old(client) && outstanding == old(outstanding) + 1
                   else
                     && outstanding == old(outstanding)
                     && state == (if old(client) == null then Connecting else Ready)
                     && if old(client) == null then fresh(client) && client.servers == servers else client == old(client)
    {
      if state != Autodetecting { return; }
      if haveUdp {
        if client != null { client := null; }
        state := Disabled;
      } else {
        var next := current.value + 1;
        if next != |mirrors| {
          StartUdpMirror(next);
        } else {
          current := Some(next);
          if client == null {
            StartClient();
            state := Connecting;
          } else {
            state := Ready;
          }
        }
      }
    }

    method OnIterate()
      requires DrainDefined(Value(), |queue|)
      modifies `state, `client, `factories, `current, `queue, `outstanding, `tried
      ensures Value() == Drain(old(Value()), |old(queue)|) && queue == []
    {
      while |queue| != 0
        invariant DrainDefined(Value(), |queue|)
        invariant Drain(Value(), |queue|) == Drain(old(Value()), |old(queue)|)
        decreases |queue|
      {
        var ev := queue[0];
        ghost var before := Value();
        queue := queue[1..];
        ProcessKeepsQueue(Value(), ev);
        match ev
        case TunnelEvent(connected) => ProcessTunnelEvent(connected);
        case MirrorEvent(haveUdp) => ProcessUdpMirrorEvent(haveUdp);
        assert Value() == PopEvent(before);
      }
    }

    method IsActivated() returns (activated: bool)
      requires TunnelOk(Value())
      ensures activated <==> state != Disabled
    {
      match mode
      case Auto => activated := !(state == Disabled);
      case Disable => activated := false;
      case Enable => activated := true;
    }
  }

  // ---- the invariant of every reachable state

  predicate TunnelOk(t: Tunnel) {
    && (t.state == Disabled ==> t.client.None?)
    && (t.state == Connecting || t.state == Ready ==> t.client.Some?)
    && (t.state == Ready || (t.state == Autodetecting && t.client.Some?) ==> t.factories)
    && (t.mode == Disable ==> t.state == Disabled)
    && (t.mode == Enable ==> t.state == Connecting || t.state == Ready)
    && (t.state == Autodetecting ==> t.mode == Auto)
    && (t.client.Some? ==> t.client.value == t.servers)
  }
}
