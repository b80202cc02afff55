/** coreapi/linphone_tunnel.cc: the list of configurations and the server tables of the manager it feeds. */
module TunnelTables {
  import opened Wrappers
  import opened TunnelConfig
  import M = TunnelManager
  import R = TunnelRuns

  /** A LinphoneTunnelConfig: the handle stands for its address, by which the list finds it. */
  datatype Config = Config(handle: nat, settings: Settings)

  // ---- the tables as projections of the list

  function HostOf(s: Settings): string { if s.host.Some? then s.host.value else "" }

  function AddrOf(s: Settings): M.ServerAddr { M.ServerAddr(HostOf(s), s.port) }

  // Port and delay pass through unsigned parameters.
  function MirrorOf(s: Settings): M.Mirror {
    M.Mirror(M.ServerAddr(HostOf(s), s.mirrorPort % 0x1_0000_0000), s.delay % 0x1_0000_0000)
  }

  function Addrs(list: seq<Config>): (r: seq<M.ServerAddr>)
    ensures |r| == |list|
  {
    seq(|list|, i requires 0 <= i < |list| => AddrOf(list[i].settings))
  }

  function Mirrors(list: seq<Config>): seq<M.Mirror> {
    if list == [] then []
    else
      var last := list[|list| - 1].settings;
      Mirrors(list[..|list| - 1]) + if last.mirrorPort != -1 then [MirrorOf(last)] else []
  }

  predicate Agree(t: M.Tunnel, list: seq<Config>) {
    && t.servers == Addrs(list) && t.mirrors == Mirrors(list)
    && (t.client.Some? ==> t.client.value == t.servers)
  }

  // ---- what each operation does

  function AddConfigTo(t: M.Tunnel, s: Settings): M.Tunnel {
    if s.mirrorPort == -1 then M.AddServerTo(t, AddrOf(s)) else M.AddMirrorTo(t, AddrOf(s), MirrorOf(s))
  }

  function AddAll(t: M.Tunnel, list: seq<Config>): M.Tunnel {
    if list == [] then t else AddConfigTo(AddAll(t, list[..|list| - 1]), list[|list| - 1].settings)
  }

  function Find(list: seq<Config>, handle: nat): (i: nat)
    ensures i <= |list| && (i < |list| ==> list[i].handle == handle)
    ensures forall j :: 0 <= j < i ==> list[j].handle != handle
  {
    if list == [] || list[0].handle == handle then 0 else 1 + Find(list[1..], handle)
  }

  function Without(list: seq<Config>, i: nat): (r: seq<Config>)
    requires i < |list|
    ensures |r| == |list| - 1 && forall j :: 0 <= j < |r| ==> r[j] == list[if j < i then j else j + 1]
  {
    list[..i] + list[i + 1..]
  }

  function SettingsOf(list: seq<Config>): seq<Settings> { seq(|list|, i requires 0 <= i < |list| => list[i].settings) }

  class LinphoneTunnel {
    const manager: M.TunnelManager
    var configList: seq<Config>
    var stored: Option<string>

    constructor (manager: M.TunnelManager)
      ensures this.manager == manager && configList == [] && stored == None
    {
      this.manager, configList, stored := manager, [], None;
    }

    method AddServerIntern(c: Config)
      modifies `configList, manager, manager.client
      ensures manager.Value() == AddConfigTo(old(manager.Value()), c.settings)
      ensures manager.client == old(manager.client)
      ensures configList == old(configList) + [c]
      ensures var s := c.settings;
              var host := if s.host.Some? then s.host.value else "";
              && manager.servers == old(manager.servers) + [M.ServerAddr(host, s.port)]
              && manager.mirrors == old(manager.mirrors) + if s.mirrorPort == -1 then [] else
                   [M.Mirror(M.ServerAddr(host, s.mirrorPort % 0x1_0000_0000), s.delay % 0x1_0000_0000)]
    {
      var s := c.settings;
      if s.mirrorPort == -1 {
        manager.AddServer(s.host, s.port);
      } else {
        manager.AddServerWithMirror(s.host, s.port, s.mirrorPort % 0x1_0000_0000, s.delay % 0x1_0000_0000);
      }
      configList := configList + [c];
    }

    method Save()
      modifies `stored
      ensures stored == Joined(SettingsOf(configList))
    {
      stored := SaveConfig(SettingsOf(configList));
    }

    method AddServer(c: Config)
      modifies this, manager, manager.client
      ensures (manager.Value(), configList) == Step(old(manager.Value()), old(configList), Add(c))
      ensures configList == old(configList) + [c] && stored == Joined(SettingsOf(configList))
    {
      AddServerIntern(c);
      Save();
    }

    method RefreshConfig()
      modifies `configList, manager, manager.client
      ensures configList == old(configList)
      ensures manager.Value() == AddAll(M.Cleaned(old(manager.Value())), configList)
    {
      var oldList := configList;
      configList := [];
      manager.CleanServers();
      var i := 0;
      while i < |oldList|
        invariant 0 <= i <= |oldList| && configList == oldList[..i]
        invariant manager.client == old(manager.client)
        invariant manager.Value() == AddAll(M.Cleaned(old(manager.Value())), oldList[..i])
      {
        assert oldList[..i + 1][..i] == oldList[..i];
        AddServerIntern(oldList[i]);
        i := i + 1;
      }
      assert oldList[..i] == oldList;
    }

    method RemoveServer(c: Config)
      modifies this, manager, manager.client
      ensures var i := Find(old(configList), c.handle);
              if i == |old(configList)| then
                manager.Value() == old(manager.Value()) && configList == old(configList) && stored == old(stored)
              else
                && (manager.Value(), configList) == Step(old(manager.Value()), old(configList), Remove(c.handle))
                && configList == Without(old(configList), i) && stored == Joined(SettingsOf(configList))
                && manager.Value() == AddAll(M.Cleaned(old(manager.Value())), configList)
    {
      var i := Find(configList, c.handle);
      if i < |configList| {
        configList := Without(configList, i);
        RefreshConfig();
        Save();
      }
    }

    method CleanServers()
      modifies this, manager, manager.client
      ensures (manager.Value(), configList) == Step(old(manager.Value()), old(configList), CleanAll)
      ensures manager.servers == [] && manager.mirrors == [] && configList == [] && stored == None
    {
      manager.CleanServers();
      configList := [];
      Save();
    }

    // At startup: what the configuration file holds is added on top, under new handles.
    method LoadConfigs(handles: nat)
      requires Agree(manager.Value(), configList)
      modifies `configList, manager, manager.client
      ensures Agree(manager.Value(), configList)
      ensures SettingsOf(configList) == SettingsOf(old(configList)) + Loaded(stored)
    {
      hide Agree, AddConfigTo;
      var loaded := LoadConfig(stored);
      var i := 0;
      while i < |loaded|
        invariant 0 <= i <= |loaded| && manager.client == old(manager.client)
        invariant Agree(manager.Value(), configList)
        invariant SettingsOf(configList) == SettingsOf(old(configList)) + loaded[..i]
      {
        var c := Config(handles + i, loaded[i]);
        AddKeepsAgreement(manager.Value(), configList, c);
        assert SettingsOf(configList + [c]) == SettingsOf(configList) + [loaded[i]];
        AddServerIntern(c);
        i := i + 1;
      }
      assert loaded[..i] == loaded;
    }
  }

  // ---- agreement over every sequence of operations

  datatype TableAction = Add(config: Config) | Remove(handle: nat) | CleanAll | Other(act: R.Action)

  // Steps of the manager that are not server operations.
  predicate Allowed(t: M.Tunnel, act: TableAction) {
    act.Other? ==> !act.act.AddServer? && !act.act.AddMirror? && act.act != R.Clean && R.Defined(t, act.act)
  }

  function Step(t: M.Tunnel, list: seq<Config>, act: TableAction): (M.Tunnel, seq<Config>)
    requires Allowed(t, act)
  {
    match act
    case Add(c) => (AddConfigTo(t, c.settings), list + [c])
    case Remove(handle) =>
      var i := Find(list, handle);
      if i == |list| then (t, list) else (AddAll(M.Cleaned(t), Without(list, i)), Without(list, i))
    case CleanAll => (M.Cleaned(t), [])
    case Other(a) => (R.Step(t, a), list)
  }

  lemma AddKeepsAgreement(t: M.Tunnel, list: seq<Config>, c: Config)
    requires Agree(t, list)
    ensures Agree(AddConfigTo(t, c.settings), list + [c])
  {
    hide AddrOf, MirrorOf;
    ProjectionsGrow(list, c);
  }

  lemma ProjectionsGrow(list: seq<Config>, c: Config)
    ensures Addrs(list + [c]) == Addrs(list) + [AddrOf(c.settings)]
    ensures Mirrors(list + [c]) == Mirrors(list) + if c.settings.mirrorPort != -1 then [MirrorOf(c.settings)] else []
  {
    hide AddrOf, MirrorOf;
    assert (list + [c])[..|list|] == list;
  }

  lemma {:induction false} RebuiltAgrees(t: M.Tunnel, list: seq<Config>)
    ensures Agree(AddAll(M.Cleaned(t), list), list)
  {
    if list != [] {
      RebuiltAgrees(t, list[..|list| - 1]);
      AddKeepsAgreement(AddAll(M.Cleaned(t), list[..|list| - 1]), list[..|list| - 1], list[|list| - 1]);
      assert list[..|list| - 1] + [list[|list| - 1]] == list;
    }
  }

  lemma StepKeepsAgreement(t: M.Tunnel, list: seq<Config>, act: TableAction)
    requires Agree(t, list) && Allowed(t, act)
    ensures Agree(Step(t, list, act).0, Step(t, list, act).1)
  {
    match act
    case Add(c) => AddKeepsAgreement(t, list, c);
    case Remove(handle) =>
      var i := Find(list, handle);
      if i < |list| { RebuiltAgrees(t, Without(list, i)); }
    case CleanAll =>
    case Other(a) => ManagerKeepsTables(t, a);
  }

  lemma ManagerKeepsTables(t: M.Tunnel, act: R.Action)
    requires !act.AddServer? && !act.AddMirror? && act != R.Clean && R.Defined(t, act)
    requires t.client.Some? ==> t.client.value == t.servers
    ensures var after := R.Step(t, act);
            after.servers == t.servers && after.mirrors == t.mirrors && (after.client.Some? ==> after.client.value == after.servers)
  {
  }

  predicate RunAllowed(t: M.Tunnel, list: seq<Config>, acts: seq<TableAction>)
    decreases acts
  {
    acts == [] || (Allowed(t, acts[0]) && var (t', list') := Step(t, list, acts[0]); RunAllowed(t', list', acts[1..]))
  }

  function Run(t: M.Tunnel, list: seq<Config>, acts: seq<TableAction>): (M.Tunnel, seq<Config>)
    requires RunAllowed(t, list, acts)
    decreases acts
  {
    if acts == [] then (t, list) else var (t', list') := Step(t, list, acts[0]); Run(t', list', acts[1..])
  }

  lemma {:induction false} TablesAlwaysAgree(t: M.Tunnel, list: seq<Config>, acts: seq<TableAction>)
    requires Agree(t, list) && RunAllowed(t, list, acts)
    ensures Agree(Run(t, list, acts).0, Run(t, list, acts).1)
    decreases acts
  {
    if acts != [] {
      StepKeepsAgreement(t, list, acts[0]);
      TablesAlwaysAgree(Step(t, list, acts[0]).0, Step(t, list, acts[0]).1, acts[1..]);
    }
  }

  lemma NewTunnelAgrees()
    ensures Agree(M.NEW_TUNNEL, [])
  {
  }
}
