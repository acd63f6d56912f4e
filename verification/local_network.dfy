/** The local network manager: a registry of running nodes, the bootstrap
    (beacon) set, the name counter and the Running -> Stopped lifecycle, advanced
    by pure transitions. Processes, API clients and health probes are external;
    their outcomes arrive as parameters. */
module LocalNetwork {
  import opened Wrappers
  import opened Json
  import Node
  import opened LocalConfig

  /** The genesis field holding the network id. */
  const GenesisNetworkIdKey: string := "networkID"

  // Default sub-directories of a node's directory for its database and logs.
  const DefaultDbSubDir: string := "db"
  const DefaultLogsSubDir: string := "logs"

  /** The network-wide configuration a network is created from. */
  datatype NetworkConfig = NetworkConfig(genesis: string, flags: Flags, nodeConfigs: seq<Node.Config>)

  /** A registered node: its final config (assigned name, merged flags), its
      resolved ports (`None`: allocated dynamically at launch), its directories
      and the flags pointing at the files written for it. */
  datatype LocalNode = LocalNode(
    name: string,
    config: Node.Config,
    apiPort: Option<uint16>,
    p2pPort: Option<uint16>,
    dbDir: string,
    logsDir: string,
    fileFlags: seq<CliFlag>)

  /** The manager's state. `bootstraps` names the registered beacon nodes. */
  datatype Network = Network(
    genesis: string,
    networkId: uint32,
    flags: Flags,
    rootDir: string,
    nodes: map<string, LocalNode>,
    bootstraps: set<string>,
    nextSuffix: nat,
    stopped: bool)

  datatype NetError =
    | ErrStopped
    | NotFound(name: string)
    | RepeatedName(name: string)
    | ConfigFileUnmarshal
    | BadEntry(cause: EntryError)
    | StartFailed(reason: string)
    | Unhealthy
    | GenesisMissing
    | GenesisUnmarshal
    | GenesisNoNetworkId
    | GenesisWrongType
    | InvalidNodeConfig(index: nat, problem: Node.ValidationError)
    | NoBeacon

  /** Creating and starting a node's process; `Fail` aborts the addition. */
  type Launcher = Node.Config -> Outcome<string>

  /** The state after an operation together with its outcome. */
  datatype Reply<+T> = Reply(state: Network, result: Result<T, NetError>)

  /** The names of the registered beacon nodes. */
  function BeaconNames(nodes: map<string, LocalNode>): set<string> {
    set n | n in nodes && nodes[n].config.isBeacon
  }

  /** The registry invariant: entries are keyed by their own name, the bootstrap
      set is exactly the registered beacons, and a stopped network holds nothing. */
  predicate Valid(net: Network) {
    && (forall n :: n in net.nodes ==> net.nodes[n].name == n && net.nodes[n].config.name == n)
    && net.bootstraps == BeaconNames(net.nodes)
    && (net.stopped ==> net.nodes == map[] && net.bootstraps == {})
  }

  /** Everything except the registry, the bootstrap set and the counter is fixed
      once the network exists. */
  predicate SameSetting(a: Network, b: Network) {
    a.genesis == b.genesis && a.networkId == b.networkId && a.flags == b.flags && a.rootDir == b.rootDir
  }

  // ---------------------------------------------------------------------------
  // Adding a node

  /** The decoded config file of a node; an empty file decodes to the empty map. */
  function ReadConfigFile(c: Node.Config, parse: Node.Parser): (r: Result<Document, NetError>)
    ensures |c.configFile| == 0 ==> r == Success(map[])
    ensures |c.configFile| > 0 ==> (r.Success? <==> parse(c.configFile).Some?)
    ensures r.Success? && |c.configFile| > 0 ==> r.value == parse(c.configFile).value
  {
    if |c.configFile| == 0 then Success(map[])
    else
      match parse(c.configFile)
      case None => Failure(ConfigFileUnmarshal)
      case Some(doc) => Success(doc)
  }

  /** A config that passed validation reads back as a well-typed document, so
      the helpers that read it later see the types validation checked. */
  lemma ValidatedConfigReads(c: Node.Config, parse: Node.Parser, networkId: uint32)
    ensures Node.Validate(c, parse, networkId).Pass? ==>
      ReadConfigFile(c, parse).Success? && Node.WellTyped(ReadConfigFile(c, parse).value, networkId)
  {
  }

  /** Everything `addNode` derives for a named node before launching it: ports,
      directories (by default `db` and `logs` inside the node's directory) and the
      written files' flags. It succeeds exactly when the config file decodes and
      each of the four entries has a usable type. */
  function PrepareNode(rootDir: string, c: Node.Config, parse: Node.Parser): (r: Result<LocalNode, NetError>)
    ensures var doc := ReadConfigFile(c, parse);
      var nodeDir := JoinPath(rootDir, c.name);
      r.Success? <==>
        && doc.Success?
        && GetPort(c.flags, doc.value, Node.HttpPortKey).Success?
        && GetPort(c.flags, doc.value, Node.StakingPortKey).Success?
        && GetConfigEntry(doc.value, Node.DbDirKey, JoinPath(nodeDir, DefaultDbSubDir)).Success?
        && GetConfigEntry(doc.value, Node.LogsDirKey, JoinPath(nodeDir, DefaultLogsSubDir)).Success?
    ensures r.Success? ==> r.value.name == c.name && r.value.config == c
    ensures r.Success? ==> r.value.fileFlags == WriteFiles(JoinPath(rootDir, c.name), c)
    ensures r.Success? ==>
      var doc := ReadConfigFile(c, parse).value;
      var nodeDir := JoinPath(rootDir, c.name);
      && GetPort(c.flags, doc, Node.HttpPortKey) == Success(r.value.apiPort)
      && GetPort(c.flags, doc, Node.StakingPortKey) == Success(r.value.p2pPort)
      && GetConfigEntry(doc, Node.DbDirKey, JoinPath(nodeDir, DefaultDbSubDir)) == Success(r.value.dbDir)
      && GetConfigEntry(doc, Node.LogsDirKey, JoinPath(nodeDir, DefaultLogsSubDir)) == Success(r.value.logsDir)
    ensures r.Failure? ==> r.error == ConfigFileUnmarshal || r.error.BadEntry?
  {
    var nodeDir := JoinPath(rootDir, c.name);
    var doc := ReadConfigFile(c, parse);
    if doc.Failure? then Failure(doc.error) else
    var apiPort := GetPort(c.flags, doc.value, Node.HttpPortKey);
    if apiPort.Failure? then Failure(BadEntry(apiPort.error)) else
    var p2pPort := GetPort(c.flags, doc.value, Node.StakingPortKey);
    if p2pPort.Failure? then Failure(BadEntry(p2pPort.error)) else
    var dbDir := GetConfigEntry(doc.value, Node.DbDirKey, JoinPath(nodeDir, DefaultDbSubDir));
    if dbDir.Failure? then Failure(BadEntry(dbDir.error)) else
    var logsDir := GetConfigEntry(doc.value, Node.LogsDirKey, JoinPath(nodeDir, DefaultLogsSubDir));
    if logsDir.Failure? then Failure(BadEntry(logsDir.error)) else
    Success(LocalNode(c.name, c, apiPort.value, p2pPort.value, dbDir.value, logsDir.value, WriteFiles(nodeDir, c)))
  }

  /** Port flags, when given, are integers, as `getPort` demands of flags. */
  predicate PortFlagsAreInts(flags: Flags) {
    && (Node.HttpPortKey in flags ==> flags[Node.HttpPortKey].Int?)
    && (Node.StakingPortKey in flags ==> flags[Node.StakingPortKey].Int?)
  }

  /** A config that passed validation, and whose port flags are integers, is
      prepared without error, whatever its name and directory. */
  lemma ValidConfigPrepares(rootDir: string, c: Node.Config, parse: Node.Parser, networkId: uint32)
    requires Node.Validate(c, parse, networkId).Pass? && PortFlagsAreInts(c.flags)
    ensures PrepareNode(rootDir, c, parse).Success?
  {
    ValidatedConfigReads(c, parse, networkId);
    var doc := ReadConfigFile(c, parse).value;
    ValidatedConfigFileResolves(doc, networkId, c.flags, JoinPath(JoinPath(rootDir, c.name), DefaultDbSubDir));
    ValidatedConfigFileResolves(doc, networkId, c.flags, JoinPath(JoinPath(rootDir, c.name), DefaultLogsSubDir));
  }

  /** The name `AddNode` gives a config: its own, or else the first generated
      name from the counter on that is not registered. */
  function ChosenName(net: Network, cfg: Node.Config): string {
    if cfg.name == "" then AutoName(FirstFree(net.nodes.Keys, net.nextSuffix)) else cfg.name
  }

  /** The config a node is prepared and launched with: the chosen name and the
      network flags overlaid by the node's. */
  function LaunchConfig(net: Network, cfg: Node.Config): Node.Config {
    cfg.(name := ChosenName(net, cfg), flags := MergeFlags(net.flags, cfg.flags))
  }

  /** `AddNode`: refused once stopped; otherwise merge flags, name the node,
      derive its setting, launch it, and only then register it (and add it to the
      bootstrap set if it is a beacon). Naming an unnamed node moves the counter
      even when a later step fails; nothing else changes on failure. */
  function AddNode(net: Network, cfg: Node.Config, parse: Node.Parser, launch: Launcher): (r: Reply<LocalNode>)
    ensures net.stopped ==> r == Reply(net, Failure(ErrStopped))
    ensures Valid(net) ==> Valid(r.state)
    ensures SameSetting(net, r.state) && r.state.stopped == net.stopped
    ensures !net.stopped && cfg.name != "" ==> r.state.nextSuffix == net.nextSuffix
    ensures !net.stopped && cfg.name == "" ==> r.state.nextSuffix == FirstFree(net.nodes.Keys, net.nextSuffix) + 1
    ensures r.result.Failure? ==> r.state.nodes == net.nodes && r.state.bootstraps == net.bootstraps
    ensures r.result.Failure? && cfg.name != "" ==> r.state == net
    ensures r.result.Success? ==>
      var n := r.result.value;
      && !net.stopped
      && n.name !in net.nodes
      && n.name == ChosenName(net, cfg)
      && n.config == LaunchConfig(net, cfg)
      && launch(n.config) == Pass
      && r.state.nodes == net.nodes[n.name := n]
      && r.state.bootstraps == (if cfg.isBeacon then net.bootstraps + {n.name} else net.bootstraps)
    ensures !net.stopped && cfg.name != "" && cfg.name in net.nodes ==> r.result == Failure(RepeatedName(cfg.name))
  {
    if net.stopped then Reply(net, Failure(ErrStopped))
    else
      var flags := MergeFlags(net.flags, cfg.flags);
      var naming := SetNodeName(net.nodes.Keys, cfg.name, net.nextSuffix);
      var named := net.(nextSuffix := naming.nextSuffix);
      match naming.chosen
      case Failure(taken) => Reply(named, Failure(RepeatedName(taken)))
      case Success(name) =>
        var c := cfg.(name := name, flags := flags);
        match PrepareNode(net.rootDir, c, parse)
        case Failure(e) => Reply(named, Failure(e))
        case Success(node) =>
          match launch(c)
          case Fail(reason) => Reply(named, Failure(StartFailed(reason)))
          case Pass => Reply(Register(named, node), Success(node))
  }

  /** Enters a started node into the registry, and into the bootstrap set when
      it is a beacon. A fresh, consistently named node keeps the registry
      invariant of a running network. */
  function Register(net: Network, node: LocalNode): (r: Network)
    ensures r.nodes == net.nodes[node.name := node]
    ensures r.bootstraps == if node.config.isBeacon then net.bootstraps + {node.name} else net.bootstraps
    ensures SameSetting(net, r) && r.stopped == net.stopped && r.nextSuffix == net.nextSuffix
    ensures Valid(net) && !net.stopped && node.name !in net.nodes && node.config.name == node.name ==> Valid(r)
  {
    var bootstraps := if node.config.isBeacon then net.bootstraps + {node.name} else net.bootstraps;
    var r := net.(nodes := net.nodes[node.name := node], bootstraps := bootstraps);
    assert node.name !in net.nodes ==>
      BeaconNames(r.nodes) == if node.config.isBeacon then BeaconNames(net.nodes) + {node.name} else BeaconNames(net.nodes);
    r
  }

  /** What `AddNode` does with a name it may use (any generated one, or an
      explicit one not registered): the preparation's error, else the launch's
      error as a start failure, else success with the prepared node. */
  lemma AddNodeOutcome(net: Network, cfg: Node.Config, parse: Node.Parser, launch: Launcher)
    requires !net.stopped && (cfg.name == "" || cfg.name !in net.nodes)
    ensures var r := AddNode(net, cfg, parse, launch);
      var c := LaunchConfig(net, cfg);
      var prepared := PrepareNode(net.rootDir, c, parse);
      && (prepared.Failure? ==> r.result == Failure(prepared.error))
      && (prepared.Success? && launch(c).Fail? ==> r.result == Failure(StartFailed(launch(c).error)))
      && (prepared.Success? && launch(c).Pass? ==> r.result == Success(prepared.value))
  {
  }

  /** The errors `AddNode` can report: the stopped sentinel, a registered explicit
      name, an undecodable config file, an entry of the wrong type, a failed start. */
  lemma AddNodeErrors(net: Network, cfg: Node.Config, parse: Node.Parser, launch: Launcher)
    ensures var r := AddNode(net, cfg, parse, launch);
      r.result.Failure? ==>
        || (net.stopped && r.result.error == ErrStopped)
        || (cfg.name != "" && cfg.name in net.nodes && r.result.error == RepeatedName(cfg.name))
        || r.result.error == ConfigFileUnmarshal
        || r.result.error.BadEntry?
        || r.result.error.StartFailed?
  {
    if !net.stopped && (cfg.name == "" || cfg.name !in net.nodes) {
      AddNodeOutcome(net, cfg, parse, launch);
    }
  }

  // ---------------------------------------------------------------------------
  // Removing a node, reads, health and stopping

  /** `RemoveNode`: refused once stopped, `NotFound` for an unregistered name;
      otherwise the node leaves the registry and the bootstrap set. */
  function RemoveNode(net: Network, name: string): (r: Reply<()>)
    ensures net.stopped ==> r == Reply(net, Failure(ErrStopped))
    ensures !net.stopped && name !in net.nodes ==> r == Reply(net, Failure(NotFound(name)))
    ensures !net.stopped && name in net.nodes ==> r.result.Success?
    ensures r.result.Success? ==>
      && r.state.nodes.Keys == net.nodes.Keys - {name}
      && (forall n :: n in r.state.nodes ==> r.state.nodes[n] == net.nodes[n])
      && r.state.bootstraps == net.bootstraps - {name}
    ensures Valid(net) ==> Valid(r.state)
    ensures SameSetting(net, r.state) && r.state.stopped == net.stopped && r.state.nextSuffix == net.nextSuffix
  {
    if net.stopped then Reply(net, Failure(ErrStopped))
    else if name !in net.nodes then Reply(net, Failure(NotFound(name)))
    else Reply(net.(nodes := net.nodes - {name}, bootstraps := net.bootstraps - {name}), Success(()))
  }

  /** `GetNode`. */
  function GetNode(net: Network, name: string): (r: Result<LocalNode, NetError>)
    ensures net.stopped ==> r == Failure(ErrStopped)
    ensures !net.stopped ==> (r.Success? <==> name in net.nodes)
    ensures r.Success? ==> r.value == net.nodes[name]
    ensures !net.stopped && name !in net.nodes ==> r == Failure(NotFound(name))
  {
    if net.stopped then Failure(ErrStopped)
    else if name !in net.nodes then Failure(NotFound(name))
    else Success(net.nodes[name])
  }

  /** `GetAllNodes`: a copy of the registry. */
  function GetAllNodes(net: Network): (r: Result<map<string, LocalNode>, NetError>)
    ensures net.stopped ==> r == Failure(ErrStopped)
    ensures !net.stopped ==> r.Success? && r.value.Keys == net.nodes.Keys
    ensures r.Success? ==> forall n :: n in r.value ==> r.value[n] == net.nodes[n]
  {
    if net.stopped then Failure(ErrStopped) else Success(net.nodes)
  }

  /** `GetNodeNames`: every registered name exactly once, in no particular order. */
  method GetNodeNames(net: Network) returns (r: Result<seq<string>, NetError>)
    ensures net.stopped ==> r == Failure(ErrStopped)
    ensures !net.stopped ==> r.Success?
    ensures r.Success? ==> |r.value| == |net.nodes|
    ensures r.Success? ==> forall n :: n in net.nodes <==> n in r.value
    ensures r.Success? ==> forall i, j :: 0 <= i < j < |r.value| ==> r.value[i] != r.value[j]
  {
    if net.stopped {
      return Failure(ErrStopped);
    }
    var names: seq<string> := [];
    var remaining := net.nodes.Keys;
    while remaining != {}
      invariant remaining <= net.nodes.Keys
      invariant forall n :: n in names <==> n in net.nodes.Keys - remaining
      invariant forall i, j :: 0 <= i < j < |names| ==> names[i] != names[j]
      invariant |names| + |remaining| == |net.nodes.Keys|
      decreases |remaining|
    {
      var n :| n in remaining;
      assert n !in names;
      var before := names;
      names := names + [n];
      assert forall i :: 0 <= i < |before| ==> names[i] == before[i] != n;
      remaining := remaining - {n};
    }
    return Success(names);
  }

  /** `Healthy`, with the concurrent polling folded into one verdict per node:
      refused once stopped, healthy when every registered node reports healthy
      (at once for an empty network), otherwise the wait fails. */
  function Healthy(net: Network, reportsHealthy: string -> bool): (r: Result<(), NetError>)
    ensures net.stopped ==> r == Failure(ErrStopped)
    ensures !net.stopped ==> (r.Success? <==> forall n :: n in net.nodes ==> reportsHealthy(n))
    ensures !net.stopped && net.nodes == map[] ==> r.Success?
    ensures r.Failure? ==> r.error == ErrStopped || r.error == Unhealthy
  {
    if net.stopped then Failure(ErrStopped)
    else if forall n :: n in net.nodes ==> reportsHealthy(n) then Success(())
    else Failure(Unhealthy)
  }

  /** `Stop`: the first call removes every node and marks the network stopped;
      any later call returns the stopped sentinel and changes nothing. */
  function Stop(net: Network): (r: Reply<()>)
    ensures net.stopped ==> r == Reply(net, Failure(ErrStopped))
    ensures !net.stopped ==> r.result.Success? && r.state.stopped
    ensures r.state.stopped
    ensures !net.stopped ==> r.state.nodes == map[] && r.state.bootstraps == {}
    ensures Valid(net) ==> Valid(r.state)
    ensures SameSetting(net, r.state)
  {
    if net.stopped then Reply(net, Failure(ErrStopped))
    else Reply(net.(nodes := map[], bootstraps := {}, stopped := true), Success(()))
  }

  // ---------------------------------------------------------------------------
  // Creating a network

  /** The network id recorded in the genesis document, read as a number and
      narrowed to 32 bits. A missing (empty) genesis is refused before decoding. */
  function NetworkIdFromGenesis(genesis: string, parse: Node.Parser): (r: Result<uint32, NetError>)
    ensures genesis == "" ==> r == Failure(GenesisMissing)
    ensures genesis != "" && parse(genesis).None? ==> r == Failure(GenesisUnmarshal)
    ensures r.Success? <==>
      genesis != "" && parse(genesis).Some? && GenesisNetworkIdKey in parse(genesis).value
      && parse(genesis).value[GenesisNetworkIdKey].Number?
    ensures r.Success? ==> r.value == ToUint32(parse(genesis).value[GenesisNetworkIdKey].n)
  {
    if genesis == "" then Failure(GenesisMissing) else
    match parse(genesis)
    case None => Failure(GenesisUnmarshal)
    case Some(doc) =>
      if GenesisNetworkIdKey !in doc then Failure(GenesisNoNetworkId)
      else
        match doc[GenesisNetworkIdKey]
        case Number(n) => Success(ToUint32(n))
        case _ => Failure(GenesisWrongType)
  }

  /** Validates the node configs from index `from` on, reporting the first failure. */
  function ValidateNodes(cfgs: seq<Node.Config>, parse: Node.Parser, networkId: uint32, from: nat): (r: Result<(), NetError>)
    requires from <= |cfgs|
    ensures r.Success? <==> forall i :: from <= i < |cfgs| ==> Node.Validate(cfgs[i], parse, networkId).Pass?
    ensures r.Failure? ==>
      && r.error.InvalidNodeConfig?
      && from <= r.error.index < |cfgs|
      && Node.Validate(cfgs[r.error.index], parse, networkId) == Fail(r.error.problem)
      && forall i :: from <= i < r.error.index ==> Node.Validate(cfgs[i], parse, networkId).Pass?
    decreases |cfgs| - from
  {
    if from == |cfgs| then Success(())
    else
      match Node.Validate(cfgs[from], parse, networkId)
      case Fail(e) => Failure(InvalidNodeConfig(from, e))
      case Pass => ValidateNodes(cfgs, parse, networkId, from + 1)
  }

  predicate SomeBeacon(cfgs: seq<Node.Config>) {
    exists i :: 0 <= i < |cfgs| && cfgs[i].isBeacon
  }

  /** One addition step, from a state and a config to a reply. */
  type Adder = (Network, Node.Config) -> Reply<LocalNode>

  /** The part of `AddNode`'s contract that adding a batch rests on: refusal
      once stopped, the registry invariant, the fixed setting, the counter, the
      refusal of a registered explicit name, and what a success registers. */
  predicate AddsLikeAddNode(net: Network, cfg: Node.Config, r: Reply<LocalNode>) {
    && (net.stopped ==> r.result.Failure?)
    && (Valid(net) ==> Valid(r.state))
    && SameSetting(net, r.state) && r.state.stopped == net.stopped
    && (!net.stopped ==>
          r.state.nextSuffix == if cfg.name == "" then FirstFree(net.nodes.Keys, net.nextSuffix) + 1 else net.nextSuffix)
    && (!net.stopped && cfg.name != "" && cfg.name in net.nodes ==> r.result.Failure?)
    && (r.result.Success? ==>
          var n := r.result.value;
          && n.name !in net.nodes
          && n.name == ChosenName(net, cfg)
          && n.config == LaunchConfig(net, cfg)
          && r.state.nodes == net.nodes[n.name := n])
  }

  ghost predicate IsAdder(add: Adder) {
    forall net, cfg :: AddsLikeAddNode(net, cfg, add(net, cfg))
  }

  /** `AddNode` with a fixed parser and launcher, as one addition step. */
  function Adding(parse: Node.Parser, launch: Launcher): (add: Adder)
    ensures IsAdder(add)
  {
    (net: Network, cfg: Node.Config) => AddNode(net, cfg, parse, launch)
  }

  /** Adds the configs one after another, stopping at the first failure
      (nodes added before it are not rolled back). */
  function AddAll(net: Network, cfgs: seq<Node.Config>, add: Adder): (r: Result<Network, NetError>)
    requires IsAdder(add)
    ensures r.Success? ==> !net.stopped || |cfgs| == 0
    ensures r.Success? && Valid(net) ==> Valid(r.value)
    ensures r.Success? ==> SameSetting(net, r.value) && r.value.stopped == net.stopped
    ensures r.Success? ==> |r.value.nodes| == |net.nodes| + |cfgs|
    decreases |cfgs|
  {
    if |cfgs| == 0 then Success(net)
    else
      var step := add(net, cfgs[0]);
      assert AddsLikeAddNode(net, cfgs[0], step);
      if step.result.Failure? then Failure(step.result.error)
      else AddAll(step.state, cfgs[1..], add)
  }

  /** Nodes registered before a batch stay registered, unchanged. */
  lemma {:induction false} AddAllKeepsEarlierNodes(net: Network, cfgs: seq<Node.Config>, add: Adder)
    requires IsAdder(add)
    ensures AddAll(net, cfgs, add).Success? ==>
      var nodes := AddAll(net, cfgs, add).value.nodes;
      forall n :: n in net.nodes ==> n in nodes && nodes[n] == net.nodes[n]
    decreases |cfgs|
  {
    if |cfgs| > 0 {
      var step := add(net, cfgs[0]);
      assert AddsLikeAddNode(net, cfgs[0], step);
      AddAllKeepsEarlierNodes(step.state, cfgs[1..], add);
    }
  }

  /** The network a configuration starts from, before any node is added. */
  function Fresh(config: NetworkConfig, networkId: uint32, rootDir: string): Network {
    Network(config.genesis, networkId, config.flags, rootDir, map[], {}, 0, false)
  }

  /** `newNetwork`: read the network id from the genesis, validate every node
      config against it, demand a beacon among a non-empty node list, then add the
      nodes in order, failing with the first error. */
  function Create(config: NetworkConfig, parse: Node.Parser, launch: Launcher, rootDir: string): (r: Result<Network, NetError>)
    ensures r.Success? ==> Valid(r.value) && !r.value.stopped
    ensures r.Success? ==> |r.value.nodes| == |config.nodeConfigs|
    ensures r.Success? ==> NetworkIdFromGenesis(config.genesis, parse) == Success(r.value.networkId)
    ensures r.Success? ==> r.value.genesis == config.genesis && r.value.flags == config.flags
    ensures NetworkIdFromGenesis(config.genesis, parse).Failure? ==> r == Failure(NetworkIdFromGenesis(config.genesis, parse).error)
  {
    var networkId := NetworkIdFromGenesis(config.genesis, parse);
    if networkId.Failure? then Failure(networkId.error) else
    var valid := ValidateNodes(config.nodeConfigs, parse, networkId.value, 0);
    if valid.Failure? then Failure(valid.error)
    else if |config.nodeConfigs| > 0 && !SomeBeacon(config.nodeConfigs) then Failure(NoBeacon)
    else AddAll(Fresh(config, networkId.value, rootDir), config.nodeConfigs, Adding(parse, launch))
  }

  /** Every node of a created network passed validation against its network id. */
  lemma CreateValidatesEveryNode(config: NetworkConfig, parse: Node.Parser, launch: Launcher, rootDir: string)
    ensures Create(config, parse, launch, rootDir).Success? ==>
      var net := Create(config, parse, launch, rootDir).value;
      forall i :: 0 <= i < |config.nodeConfigs| ==> Node.Validate(config.nodeConfigs[i], parse, net.networkId).Pass?
  {
  }

  /** A non-empty node list without a beacon is refused. */
  lemma CreateNeedsBeacon(config: NetworkConfig, parse: Node.Parser, launch: Launcher, rootDir: string)
    requires |config.nodeConfigs| > 0 && !SomeBeacon(config.nodeConfigs)
    ensures Create(config, parse, launch, rootDir).Failure?
  {
  }

  // ---------------------------------------------------------------------------
  // Properties of the registry across operations

  /** After a successful addition every earlier node is still found, the new one
      is found too, and the registry grew by exactly that name. */
  lemma AddThenGet(net: Network, cfg: Node.Config, parse: Node.Parser, launch: Launcher)
    requires Valid(net)
    ensures var r := AddNode(net, cfg, parse, launch);
      r.result.Success? ==>
      && r.state.nodes.Keys == net.nodes.Keys + {r.result.value.name}
      && |r.state.nodes| == |net.nodes| + 1
      && GetNode(r.state, r.result.value.name) == Success(r.result.value)
      && forall n :: n in net.nodes ==> GetNode(r.state, n) == GetNode(net, n)
  {
  }

  /** After a successful removal the removed name is not found, every other name
      is found exactly as before, and the registry shrank by one. */
  lemma RemoveThenGet(net: Network, name: string)
    requires RemoveNode(net, name).result.Success?
    ensures var s := RemoveNode(net, name).state;
      && GetNode(s, name) == Failure(NotFound(name))
      && |s.nodes| == |net.nodes| - 1
      && forall n :: n != name ==> GetNode(s, n) == GetNode(net, n)
  {
    var s := RemoveNode(net, name).state;
    assert s.nodes.Keys == net.nodes.Keys - {name};
  }

  /** Get and remove of a name fail with `NotFound` both before the name is ever
      added and after it has been added and removed again. */
  lemma NotFoundBeforeAndAfter(net: Network, cfg: Node.Config, parse: Node.Parser, launch: Launcher)
    requires Valid(net) && !net.stopped
    requires cfg.name != "" && cfg.name !in net.nodes
    requires PrepareNode(net.rootDir, LaunchConfig(net, cfg), parse).Success? && launch(LaunchConfig(net, cfg)) == Pass
    ensures GetNode(net, cfg.name) == Failure(NotFound(cfg.name))
    ensures RemoveNode(net, cfg.name).result == Failure(NotFound(cfg.name))
    ensures var added := AddNode(net, cfg, parse, launch).state;
      var removed := RemoveNode(added, cfg.name);
      && AddNode(net, cfg, parse, launch).result.Success?
      && GetNode(added, cfg.name).Success?
      && removed.result.Success?
      && GetNode(removed.state, cfg.name) == Failure(NotFound(cfg.name))
      && RemoveNode(removed.state, cfg.name).result == Failure(NotFound(cfg.name))
  {
    AddNodeOutcome(net, cfg, parse, launch);
  }

  /** Removing a beacon shrinks the bootstrap set by exactly one; removing any
      other node leaves it as it was. */
  lemma {:induction false} RemoveBeaconShrinksBootstraps(net: Network, name: string)
    requires Valid(net) && !net.stopped && name in net.nodes
    ensures var s := RemoveNode(net, name).state;
      && (net.nodes[name].config.isBeacon ==> |s.bootstraps| == |net.bootstraps| - 1)
      && (!net.nodes[name].config.isBeacon ==> s.bootstraps == net.bootstraps)
  {
    if net.nodes[name].config.isBeacon {
      assert name in BeaconNames(net.nodes);
    } else {
      assert name !in BeaconNames(net.nodes);
    }
  }

  /** The sole beacon's removal leaves the bootstrap set empty. */
  lemma RemoveSoleBeacon(net: Network, name: string)
    requires Valid(net) && !net.stopped
    requires net.nodes.Keys == {name} && net.nodes[name].config.isBeacon
    ensures RemoveNode(net, name).state.bootstraps == {}
  {
    assert BeaconNames(net.nodes) == {name};
  }

  /** Once stopped, every operation returns exactly the stopped sentinel and
      leaves the state alone. */
  lemma StoppedRefusesEverything(net: Network, cfg: Node.Config, name: string, parse: Node.Parser,
                                 launch: Launcher, reportsHealthy: string -> bool)
    requires !net.stopped
    ensures var s := Stop(net).state;
      && Stop(s) == Reply(s, Failure(ErrStopped))
      && AddNode(s, cfg, parse, launch) == Reply(s, Failure(ErrStopped))
      && GetNode(s, name) == Failure(ErrStopped)
      && RemoveNode(s, name) == Reply(s, Failure(ErrStopped))
      && Healthy(s, reportsHealthy) == Failure(ErrStopped)
      && GetAllNodes(s) == Failure(ErrStopped)
  {
  }

  // ---------------------------------------------------------------------------
  // Properties of network creation

  /** A network created with no nodes has none, and is healthy at once. */
  lemma CreateEmpty(config: NetworkConfig, parse: Node.Parser, launch: Launcher, rootDir: string, reportsHealthy: string -> bool)
    requires config.nodeConfigs == []
    requires NetworkIdFromGenesis(config.genesis, parse).Success?
    ensures Create(config, parse, launch, rootDir).Success?
    ensures var net := Create(config, parse, launch, rootDir).value;
      net.nodes == map[] && Healthy(net, reportsHealthy) == Success(())
  {
  }

  /** A given genesis that cannot be decoded fails creation before any node is
      looked at. */
  lemma CreateRejectsUndecodableGenesis(config: NetworkConfig, parse: Node.Parser, launch: Launcher, rootDir: string)
    requires config.genesis != "" && parse(config.genesis).None?
    ensures Create(config, parse, launch, rootDir) == Failure(GenesisUnmarshal)
  {
  }

  /** A network without a genesis is never created, whatever the decoder would
      make of the empty document and whatever the node configs hold. */
  lemma CreateRejectsMissingGenesis(config: NetworkConfig, parse: Node.Parser, launch: Launcher, rootDir: string)
    requires config.genesis == ""
    ensures Create(config, parse, launch, rootDir) == Failure(GenesisMissing)
  {
  }

  /** With a usable genesis, the first node config that fails validation is the
      error creation reports. */
  lemma CreateReportsFirstInvalidNode(config: NetworkConfig, parse: Node.Parser, launch: Launcher, rootDir: string, i: nat)
    requires NetworkIdFromGenesis(config.genesis, parse).Success?
    requires i < |config.nodeConfigs|
    requires var id := NetworkIdFromGenesis(config.genesis, parse).value;
      && Node.Validate(config.nodeConfigs[i], parse, id).Fail?
      && forall j :: 0 <= j < i ==> Node.Validate(config.nodeConfigs[j], parse, id).Pass?
    ensures var id := NetworkIdFromGenesis(config.genesis, parse).value;
      Create(config, parse, launch, rootDir) ==
        Failure(InvalidNodeConfig(i, Node.Validate(config.nodeConfigs[i], parse, id).error))
  {
    var id := NetworkIdFromGenesis(config.genesis, parse).value;
    var v := ValidateNodes(config.nodeConfigs, parse, id, 0);
    assert v.Failure?;
  }

  /** An explicit name already registered makes the batch fail. */
  lemma {:induction false} AddAllRejectsTaken(net: Network, cfgs: seq<Node.Config>, add: Adder, j: nat)
    requires IsAdder(add)
    requires j < |cfgs| && cfgs[j].name != "" && cfgs[j].name in net.nodes
    ensures AddAll(net, cfgs, add).Failure?
    decreases |cfgs|
  {
    var step := add(net, cfgs[0]);
    assert AddsLikeAddNode(net, cfgs[0], step);
    if step.result.Success? && j > 0 {
      assert cfgs[1..][j - 1] == cfgs[j];
      AddAllRejectsTaken(step.state, cfgs[1..], add, j - 1);
    }
  }

  /** A later config repeating the first config's explicit name makes the batch fail. */
  lemma FirstNameRepeated(net: Network, cfgs: seq<Node.Config>, add: Adder, j: nat)
    requires IsAdder(add)
    requires 0 < j < |cfgs| && cfgs[0].name != "" && cfgs[0].name == cfgs[j].name
    ensures AddAll(net, cfgs, add).Failure?
  {
    var step := add(net, cfgs[0]);
    assert AddsLikeAddNode(net, cfgs[0], step);
    if step.result.Success? {
      assert cfgs[1..][j - 1] == cfgs[j];
      AddAllRejectsTaken(step.state, cfgs[1..], add, j - 1);
    }
  }

  /** Two configs carrying the same explicit name make the batch fail. */
  lemma {:induction false} AddAllRejectsDuplicates(net: Network, cfgs: seq<Node.Config>, add: Adder, i: nat, j: nat)
    requires IsAdder(add)
    requires i < j < |cfgs| && cfgs[i].name != "" && cfgs[i].name == cfgs[j].name
    ensures AddAll(net, cfgs, add).Failure?
    decreases |cfgs|
  {
    if i == 0 {
      FirstNameRepeated(net, cfgs, add, j);
    } else {
      var step := add(net, cfgs[0]);
      assert AddsLikeAddNode(net, cfgs[0], step);
      if step.result.Success? {
        assert cfgs[1..][i - 1] == cfgs[i] && cfgs[1..][j - 1] == cfgs[j];
        AddAllRejectsDuplicates(step.state, cfgs[1..], add, i - 1, j - 1);
      }
    }
  }

  /** Repeated explicit names make network creation fail. */
  lemma CreateRejectsRepeatedNames(config: NetworkConfig, parse: Node.Parser, launch: Launcher, rootDir: string, i: nat, j: nat)
    requires i < j < |config.nodeConfigs|
    requires config.nodeConfigs[i].name != "" && config.nodeConfigs[i].name == config.nodeConfigs[j].name
    ensures Create(config, parse, launch, rootDir).Failure?
  {
    var id := NetworkIdFromGenesis(config.genesis, parse);
    if id.Success? {
      AddAllRejectsDuplicates(Fresh(config, id.value, rootDir), config.nodeConfigs, Adding(parse, launch), i, j);
    }
  }

  /** A successful step for an explicitly named config registers it under that
      name, with its own fields and the merged flags. */
  lemma NamedStep(net: Network, cfg: Node.Config, r: Reply<LocalNode>)
    requires AddsLikeAddNode(net, cfg, r) && r.result.Success? && cfg.name != ""
    ensures cfg.name in r.state.nodes && r.state.nodes[cfg.name].config == cfg.(flags := MergeFlags(net.flags, cfg.flags))
  {
    assert cfg.(name := cfg.name) == cfg;
  }

  /** Each explicitly named config is registered under its name with its own
      fields and the merged flags. */
  lemma {:induction false} AddAllRegistersConfigs(net: Network, cfgs: seq<Node.Config>, add: Adder, i: nat)
    requires IsAdder(add)
    requires i < |cfgs| && cfgs[i].name != ""
    requires AddAll(net, cfgs, add).Success?
    ensures var nodes := AddAll(net, cfgs, add).value.nodes;
      cfgs[i].name in nodes && nodes[cfgs[i].name].config == cfgs[i].(flags := MergeFlags(net.flags, cfgs[i].flags))
    decreases |cfgs|
  {
    var step := add(net, cfgs[0]);
    assert AddsLikeAddNode(net, cfgs[0], step);
    assert step.result.Success?;
    if i == 0 {
      NamedStep(net, cfgs[0], step);
      AddAllKeepsEarlierNodes(step.state, cfgs[1..], add);
    } else {
      assert cfgs[1..][i - 1] == cfgs[i];
      AddAllRegistersConfigs(step.state, cfgs[1..], add, i - 1);
    }
  }

  /** A created network holds each explicitly named node with the config it was
      given, flags merged with the network's. */
  lemma CreateRegistersConfigs(config: NetworkConfig, parse: Node.Parser, launch: Launcher, rootDir: string, i: nat)
    requires i < |config.nodeConfigs| && config.nodeConfigs[i].name != ""
    ensures Create(config, parse, launch, rootDir).Success? ==>
      var nodes := Create(config, parse, launch, rootDir).value.nodes;
      var c := config.nodeConfigs[i];
      c.name in nodes && nodes[c.name].config == c.(flags := MergeFlags(config.flags, c.flags))
  {
    if Create(config, parse, launch, rootDir).Success? {
      var id := NetworkIdFromGenesis(config.genesis, parse).value;
      AddAllRegistersConfigs(Fresh(config, id, rootDir), config.nodeConfigs, Adding(parse, launch), i);
    }
  }

  /** An unnamed node is never refused for its name: taken generated names are
      skipped. */
  lemma AutoNamedNeverRepeats(net: Network, cfg: Node.Config, parse: Node.Parser, launch: Launcher)
    requires cfg.name == ""
    ensures !AddNode(net, cfg, parse, launch).result.Failure?
      || !AddNode(net, cfg, parse, launch).result.error.RepeatedName?
  {
    AddNodeErrors(net, cfg, parse, launch);
  }

  /** A successful unnamed step extends a registry of generated names by the
      next generated name. */
  lemma GeneratedStep(net: Network, cfg: Node.Config, r: Reply<LocalNode>)
    requires AddsLikeAddNode(net, cfg, r) && r.result.Success? && cfg.name == ""
    requires net.nodes.Keys == AutoNamesBelow(net.nextSuffix)
    ensures r.state.nextSuffix == net.nextSuffix + 1
    ensures r.state.nodes.Keys == AutoNamesBelow(r.state.nextSuffix)
  {
    AutoNameFresh(net.nextSuffix);
    AutoNamesBelowNext(net.nextSuffix);
  }

  /** Unnamed configs added in order receive the consecutive generated names. */
  lemma {:induction false} AddAllGeneratedNames(net: Network, cfgs: seq<Node.Config>, add: Adder)
    requires IsAdder(add)
    requires forall c :: c in cfgs ==> c.name == ""
    requires net.nodes.Keys == AutoNamesBelow(net.nextSuffix)
    requires AddAll(net, cfgs, add).Success?
    ensures AddAll(net, cfgs, add).value.nodes.Keys == AutoNamesBelow(net.nextSuffix + |cfgs|)
    decreases |cfgs|
  {
    if |cfgs| > 0 {
      var step := add(net, cfgs[0]);
      assert AddsLikeAddNode(net, cfgs[0], step);
      assert step.result.Success?;
      GeneratedStep(net, cfgs[0], step);
      var rest := cfgs[1..];
      assert forall c :: c in rest ==> c in cfgs;
      AddAllGeneratedNames(step.state, rest, add);
      assert AddAll(net, cfgs, add) == AddAll(step.state, rest, add);
      assert step.state.nextSuffix + |rest| == net.nextSuffix + |cfgs|;
    }
  }

  /** A network created from unnamed configs names its nodes node-0, node-1, ... */
  lemma CreateGeneratedNames(config: NetworkConfig, parse: Node.Parser, launch: Launcher, rootDir: string)
    requires forall c :: c in config.nodeConfigs ==> c.name == ""
    ensures Create(config, parse, launch, rootDir).Success? ==>
      Create(config, parse, launch, rootDir).value.nodes.Keys == AutoNamesBelow(|config.nodeConfigs|)
  {
    if Create(config, parse, launch, rootDir).Success? {
      var id := NetworkIdFromGenesis(config.genesis, parse).value;
      AddAllGeneratedNames(Fresh(config, id, rootDir), config.nodeConfigs, Adding(parse, launch));
    }
  }

  /** The conditions under which every node of `config` can be added: a genesis
      with a usable network id, every node config valid against it, a beacon
      among a non-empty node list, integer port flags, and a launcher that never
      fails. */
  ghost predicate Startable(config: NetworkConfig, parse: Node.Parser, launch: Launcher) {
    && NetworkIdFromGenesis(config.genesis, parse).Success?
    && (forall i :: 0 <= i < |config.nodeConfigs| ==>
          Node.Validate(config.nodeConfigs[i], parse, NetworkIdFromGenesis(config.genesis, parse).value).Pass?)
    && (|config.nodeConfigs| > 0 ==> SomeBeacon(config.nodeConfigs))
    && PortFlagsAreInts(config.flags)
    && (forall i :: 0 <= i < |config.nodeConfigs| ==> PortFlagsAreInts(config.nodeConfigs[i].flags))
    && (forall c :: launch(c) == Pass)
  }

  /** One step of a batch under the conditions of `Startable`: a node whose name
      may be used is added, and the network stays running with the same setting. */
  lemma StartableStep(net: Network, cfg: Node.Config, parse: Node.Parser, launch: Launcher, networkId: uint32)
    requires !net.stopped && PortFlagsAreInts(net.flags) && PortFlagsAreInts(cfg.flags)
    requires cfg.name == "" || cfg.name !in net.nodes
    requires Node.Validate(cfg, parse, networkId).Pass? && forall c :: launch(c) == Pass
    ensures var step := Adding(parse, launch)(net, cfg);
      && step.result.Success?
      && step.state.nodes == net.nodes[ChosenName(net, cfg) := step.result.value]
      && !step.state.stopped && step.state.flags == net.flags
      && (cfg.name == "" ==> step.state.nextSuffix == FirstFree(net.nodes.Keys, net.nextSuffix) + 1)
  {
    var c := LaunchConfig(net, cfg);
    Node.ValidateIgnoresOtherFields(cfg, c, parse, networkId);
    ValidConfigPrepares(net.rootDir, c, parse, networkId);
    AddNodeOutcome(net, cfg, parse, launch);
  }

  /** Explicitly and distinctly named configs, none of them registered, all valid,
      are all added when every launch passes. */
  lemma {:induction false} AddAllNamedSucceeds(net: Network, cfgs: seq<Node.Config>, parse: Node.Parser, launch: Launcher, networkId: uint32)
    requires !net.stopped && PortFlagsAreInts(net.flags) && forall c :: launch(c) == Pass
    requires forall i :: 0 <= i < |cfgs| ==> cfgs[i].name != "" && cfgs[i].name !in net.nodes
    requires forall i, j :: 0 <= i < j < |cfgs| ==> cfgs[i].name != cfgs[j].name
    requires forall i :: 0 <= i < |cfgs| ==> Node.Validate(cfgs[i], parse, networkId).Pass? && PortFlagsAreInts(cfgs[i].flags)
    ensures AddAll(net, cfgs, Adding(parse, launch)).Success?
    decreases |cfgs|
  {
    if |cfgs| > 0 {
      var add := Adding(parse, launch);
      StartableStep(net, cfgs[0], parse, launch, networkId);
      var step := add(net, cfgs[0]);
      var rest := cfgs[1..];
      assert forall i :: 0 <= i < |rest| ==> rest[i] == cfgs[i + 1];
      AddAllNamedSucceeds(step.state, rest, parse, launch, networkId);
    }
  }

  /** Unnamed valid configs are all added when every launch passes: generated
      names never clash. */
  lemma {:induction false} AddAllUnnamedSucceeds(net: Network, cfgs: seq<Node.Config>, parse: Node.Parser, launch: Launcher, networkId: uint32)
    requires !net.stopped && PortFlagsAreInts(net.flags) && forall c :: launch(c) == Pass
    requires forall i :: 0 <= i < |cfgs| ==> cfgs[i].name == ""
    requires forall i :: 0 <= i < |cfgs| ==> Node.Validate(cfgs[i], parse, networkId).Pass? && PortFlagsAreInts(cfgs[i].flags)
    ensures AddAll(net, cfgs, Adding(parse, launch)).Success?
    decreases |cfgs|
  {
    if |cfgs| > 0 {
      var add := Adding(parse, launch);
      StartableStep(net, cfgs[0], parse, launch, networkId);
      var step := add(net, cfgs[0]);
      var rest := cfgs[1..];
      assert forall i :: 0 <= i < |rest| ==> rest[i] == cfgs[i + 1];
      AddAllUnnamedSucceeds(step.state, rest, parse, launch, networkId);
    }
  }

  /** A startable configuration whose nodes carry distinct explicit names creates
      a network holding exactly one node per config. */
  lemma CreateSucceedsNamed(config: NetworkConfig, parse: Node.Parser, launch: Launcher, rootDir: string)
    requires Startable(config, parse, launch)
    requires forall i :: 0 <= i < |config.nodeConfigs| ==> config.nodeConfigs[i].name != ""
    requires forall i, j :: 0 <= i < j < |config.nodeConfigs| ==> config.nodeConfigs[i].name != config.nodeConfigs[j].name
    ensures Create(config, parse, launch, rootDir).Success?
  {
    var id := NetworkIdFromGenesis(config.genesis, parse).value;
    AddAllNamedSucceeds(Fresh(config, id, rootDir), config.nodeConfigs, parse, launch, id);
  }

  /** A startable configuration of unnamed nodes creates a network whose nodes
      are node-0, node-1, ... */
  lemma CreateSucceedsUnnamed(config: NetworkConfig, parse: Node.Parser, launch: Launcher, rootDir: string)
    requires Startable(config, parse, launch)
    requires forall i :: 0 <= i < |config.nodeConfigs| ==> config.nodeConfigs[i].name == ""
    ensures Create(config, parse, launch, rootDir).Success?
    ensures Create(config, parse, launch, rootDir).value.nodes.Keys == AutoNamesBelow(|config.nodeConfigs|)
  {
    var id := NetworkIdFromGenesis(config.genesis, parse).value;
    AddAllUnnamedSucceeds(Fresh(config, id, rootDir), config.nodeConfigs, parse, launch, id);
    CreateGeneratedNames(config, parse, launch, rootDir);
  }

  /** The config the first node is launched with when added to a fresh network. */
  function FirstLaunchConfig(config: NetworkConfig): Node.Config
    requires |config.nodeConfigs| > 0
  {
    var c := config.nodeConfigs[0];
    c.(name := if c.name == "" then AutoName(0) else c.name, flags := MergeFlags(config.flags, c.flags))
  }

  /** When starting the first node's process fails, creation fails with that very
      start error. */
  lemma CreateReturnsStartFailure(config: NetworkConfig, parse: Node.Parser, launch: Launcher, rootDir: string, reason: string)
    requires |config.nodeConfigs| > 0 && SomeBeacon(config.nodeConfigs)
    requires NetworkIdFromGenesis(config.genesis, parse).Success?
    requires forall i :: 0 <= i < |config.nodeConfigs| ==>
      Node.Validate(config.nodeConfigs[i], parse, NetworkIdFromGenesis(config.genesis, parse).value).Pass?
    ensures PrepareNode(rootDir, FirstLaunchConfig(config), parse).Success? && launch(FirstLaunchConfig(config)) == Fail(reason)
      ==> Create(config, parse, launch, rootDir) == Failure(StartFailed(reason))
  {
  }

  /** If every process start fails, no non-empty network can be created. */
  lemma CreateFailsWhenNothingStarts(config: NetworkConfig, parse: Node.Parser, launch: Launcher, rootDir: string)
    requires |config.nodeConfigs| > 0
    requires forall c :: launch(c).Fail?
    ensures Create(config, parse, launch, rootDir).Failure?
  {
    var id := NetworkIdFromGenesis(config.genesis, parse);
    if id.Success? {
      var net := Fresh(config, id.value, rootDir);
      var step := AddNode(net, config.nodeConfigs[0], parse, launch);
      assert step.result.Failure?;
    }
  }

  /** A batch whose first `k` configs are added, leaving `mid`, and whose next
      step fails, fails with that step's error. */
  lemma {:induction false} AddAllStopsAtFailure(net: Network, cfgs: seq<Node.Config>, add: Adder, k: nat, mid: Network, e: NetError)
    requires IsAdder(add)
    requires k < |cfgs|
    requires AddAll(net, cfgs[..k], add) == Success(mid)
    requires add(mid, cfgs[k]).result == Failure(e)
    ensures AddAll(net, cfgs, add) == Failure(e)
    decreases k
  {
    if k > 0 {
      var step := add(net, cfgs[0]);
      assert cfgs[..k][0] == cfgs[0];
      assert cfgs[..k][1..] == cfgs[1..][..k - 1];
      AddAllStopsAtFailure(step.state, cfgs[1..], add, k - 1, mid, e);
    }
  }

  /** Once the genesis, the node configs and the beacon pass, creation is the
      batch addition of the configs to the fresh network. */
  lemma CreateAddsAll(config: NetworkConfig, parse: Node.Parser, launch: Launcher, rootDir: string)
    requires NetworkIdFromGenesis(config.genesis, parse).Success?
    requires forall i :: 0 <= i < |config.nodeConfigs| ==>
      Node.Validate(config.nodeConfigs[i], parse, NetworkIdFromGenesis(config.genesis, parse).value).Pass?
    requires |config.nodeConfigs| > 0 ==> SomeBeacon(config.nodeConfigs)
    ensures var id := NetworkIdFromGenesis(config.genesis, parse).value;
      Create(config, parse, launch, rootDir) == AddAll(Fresh(config, id, rootDir), config.nodeConfigs, Adding(parse, launch))
  {
  }

  /** When the first `k` nodes of a creation are added and starting node `k`'s
      process fails, creation fails with that very start error. */
  lemma CreateStopsAtStartFailure(config: NetworkConfig, parse: Node.Parser, launch: Launcher, rootDir: string,
                                  k: nat, mid: Network, reason: string)
    requires k < |config.nodeConfigs| && SomeBeacon(config.nodeConfigs)
    requires NetworkIdFromGenesis(config.genesis, parse).Success?
    requires forall i :: 0 <= i < |config.nodeConfigs| ==>
      Node.Validate(config.nodeConfigs[i], parse, NetworkIdFromGenesis(config.genesis, parse).value).Pass?
    requires var id := NetworkIdFromGenesis(config.genesis, parse).value;
      AddAll(Fresh(config, id, rootDir), config.nodeConfigs[..k], Adding(parse, launch)) == Success(mid)
    requires config.nodeConfigs[k].name == "" || config.nodeConfigs[k].name !in mid.nodes
    requires PrepareNode(mid.rootDir, LaunchConfig(mid, config.nodeConfigs[k]), parse).Success?
    requires launch(LaunchConfig(mid, config.nodeConfigs[k])) == Fail(reason)
    ensures Create(config, parse, launch, rootDir) == Failure(StartFailed(reason))
  {
    var id := NetworkIdFromGenesis(config.genesis, parse).value;
    CreateAddsAll(config, parse, launch, rootDir);
    AddNodeOutcome(mid, config.nodeConfigs[k], parse, launch);
    AddAllStopsAtFailure(Fresh(config, id, rootDir), config.nodeConfigs, Adding(parse, launch), k, mid, StartFailed(reason));
  }

  /** Every registered node's process was started without error. */
  ghost predicate AllLaunched(nodes: map<string, LocalNode>, launch: Launcher) {
    forall n :: n in nodes ==> launch(nodes[n].config) == Pass
  }

  /** A batch of additions registers only nodes whose start succeeded. */
  lemma {:induction false} AddAllLaunched(net: Network, cfgs: seq<Node.Config>, parse: Node.Parser, launch: Launcher)
    requires AllLaunched(net.nodes, launch)
    ensures AddAll(net, cfgs, Adding(parse, launch)).Success? ==>
      AllLaunched(AddAll(net, cfgs, Adding(parse, launch)).value.nodes, launch)
    decreases |cfgs|
  {
    if |cfgs| > 0 {
      var step := Adding(parse, launch)(net, cfgs[0]);
      assert step == AddNode(net, cfgs[0], parse, launch);
      if step.result.Success? {
        AddAllLaunched(step.state, cfgs[1..], parse, launch);
      }
    }
  }

  /** Every node of a created network had its process started without error:
      a start failure of any node makes creation fail. */
  lemma CreateLaunchedAll(config: NetworkConfig, parse: Node.Parser, launch: Launcher, rootDir: string)
    ensures Create(config, parse, launch, rootDir).Success? ==>
      AllLaunched(Create(config, parse, launch, rootDir).value.nodes, launch)
  {
    var id := NetworkIdFromGenesis(config.genesis, parse);
    if id.Success? {
      AddAllLaunched(Fresh(config, id.value, rootDir), config.nodeConfigs, parse, launch);
    }
  }
}
