# Local network runner: node configs and the local network manager

This project models two parts of the avalanche network runner.

- **Node configs and their validation.** This is a node's declarative `Config`, `Config.Validate` and `validateConfigFile`. A config needs an implementation-specific part, a staking key and a staking cert. Its optional config file must decode to a map. When that map holds any of the five checked keys, each must have its type: `network-id`, `http-port` and `staking-port` are numbers, and `db-dir` and `log-dir` are strings. A present network id must also narrow to the genesis network id.
- **The local network manager.** It is modelled as pure state transitions over a `Network` record, which holds:
  - the registry of nodes by name;
  - the bootstrap (beacon) set;
  - the counter for generated `node-N` names;
  - the running/stopped flag.

  The transitions are:
  - `Create`: read the network id from the genesis, validate every node config, demand a beacon, then add the nodes in order;
  - `AddNode` and `RemoveNode`;
  - `GetNode`, `GetAllNodes` and `GetNodeNames`;
  - `Healthy`;
  - `Stop`.

  Once stopped, every operation answers with the stopped sentinel. The pure helpers are also modelled:
  - merging network flags into node flags, where the node wins;
  - naming a node;
  - resolving ports, where flags win over the config file;
  - resolving directory entries;
  - the list of file flags the node process is started with.

Files:
- `wrappers.dfy`: `Option`, `Result` and `Outcome`.
- `json.dfy`: decoded values, plus Go's `uint16(...)` and `uint32(...)` narrowing.
- `decimal.dfy`: decimal rendering of a counter, with its inverse.
- `node.dfy`: node configs and their validation.
- `local_config.dfy`: the manager's pure helpers.
- `local_network.dfy`: the manager's state and operations.

Several parts of the manager are outside the model and enter as parameters:
- JSON decoding is a `Parser` function, where `None` means an unmarshal error.
- Starting a node's process is a `Launcher` function, where `Fail` means the start failed.
- Each node's health verdict is a `string -> bool` function.

The files local/network.go and network/config.go are not part of this model. The manager's behaviour is taken from local/network_test.go, which fixes the outcomes the tests exercise; where the tests leave a choice open, the model makes one and says so:
- `setNodeName` moves the counter past every generated name it hands out. The naming test (node-0, node-1, hi, node-2) pins this.
- A generated name that is already registered is skipped, and the next free one is taken. This is a choice of the model: the naming test only names nodes against an empty registry, so it does not decide between skipping and refusing, and the choice is not checked against the Go code.
- Network-level validation is modelled as what the creation tests require: a given (non-empty) genesis that decodes with a numeric `networkID`, every node config valid, and at least one beacon in a non-empty node list. Repeated explicit names are refused when the second node is added.

Adding a batch of nodes (`AddAll`) takes its step function as a parameter. It needs only `AddsLikeAddNode`, the part of `AddNode`'s contract it relies on. `Adding(parse, launch)` is `AddNode` itself, and its contract (`IsAdder`) says that it meets this contract. `Create` passes that step in.

## Model

| member | source | states |
|---|---|---|
| Node.Validate | network/node/node.go:38-49 | The checks run in a fixed order, and each missing part fails with its own error: the implementation-specific config first, then the staking key, then the staking cert. An empty config file passes, and an undecodable one fails with the unmarshal error. Validation passes exactly when the required parts are present and the config file is acceptable. |
| Node.ValidateConfigFile | network/node/node.go:51-94 | An empty file is accepted, and an undecodable one is rejected. Otherwise the file passes exactly when the decoded map is well typed and its network id matches. |
| Node.CheckDocument | network/node/node.go:58-93 | The verdict is Pass exactly when the declarative `WellTyped` predicate holds. Every failure is a type error or a network-id mismatch. A reported key is one of the checked keys and is present in the document. |
| Node.CheckDocumentFollowsTable | network/node/node.go:64-92 | The source's if-chain reports exactly the first failing row of the table of checked keys and kinds, taken in source order. |
| Node.NoCheckedKeysValidates | network/node/node.go:64-92 | Every checked key is optional: a document holding none of them passes. |
| Node.UnrelatedKeyIrrelevant | network/node/node.go:58-93 | Adding or replacing a key that is not checked never changes the verdict. |
| Node.ValidateIgnoresOtherFields | network/node/node.go:13-49 | The verdict depends only on the implementation-specific config, the staking key and cert, and the config file. The name, the beacon flag, the C-Chain file and the per-node flags (a field the tests set, local/network_test.go:73, not declared in node.go) are never consulted. |
| Node.EmptyConfigFileNotDecoded | network/node/node.go:54-57 | An empty config file is never handed to the decoder: the verdict is the same for every parser. |
| Node.InvalidShapesRejected | local/network_test.go:243-325 | Each rejected config-file shape gets its own error: a string network id, a mismatching network id, a numeric db dir, a numeric log dir, a string http port, a string staking port. |
| Json.ToUint16 | local/network_test.go:1026-1064 | Go's `uint16` conversion keeps in-range ports and is congruent to the input modulo 2^16. |
| Json.ToUint32 | network/node/node.go:69 | Go's `uint32` conversion of the network id keeps in-range values and is congruent to the input modulo 2^32. |
| Decimal.RoundTrip | local/network_test.go:491-537 | Reading back the decimal rendering of a counter gives the counter, as in node-0 … node-4. |
| Decimal.FromNatInjective | local/network_test.go:471-489 | Distinct counters render as distinct digit strings, and equal ones as equal strings. |
| LocalConfig.MergeFlags | local/network_test.go:913-954 | The merged keys are the union of both key sets. A node flag keeps its value, and a network flag the node does not set is copied. |
| LocalConfig.MergeFlagsEmpty | local/network_test.go:913-954 | With either side empty, the merge is the other side, as in the three table cases of the flags test that have an empty side. |
| LocalConfig.MergeFlagsIdempotent | local/network_test.go:913-954 | Merging the network flags a second time changes nothing. |
| LocalConfig.MergeFlagsKeepsNodeFlags | local/network_test.go:678-760 | A node flag overrides a network flag of the same name, and every network flag is present after the merge. |
| LocalConfig.AutoName | local/network_test.go:956-993 | A generated name is `node-` followed by a non-empty string of decimal digits. |
| LocalConfig.AutoNameInjective | local/network_test.go:471-489 | Two generated names are equal exactly when their counters are equal. |
| LocalConfig.FirstFree | local/network_test.go:471-489 | The least counter value, from the current one on, whose generated name is not registered. Every value skipped over names a registered node. |
| LocalConfig.SetNodeName | local/network_test.go:956-993 | An empty request always succeeds. It gets `node-<s>`, where s is the counter or a later value. Every value between the counter and s names a registered node, and the counter moves to s + 1. An explicit name is kept, leaves the counter alone, and is refused exactly when it is registered. A chosen name is never a registered one. |
| LocalConfig.AutoNamesBelowMembers | local/network_test.go:471-489 | `node-j` is among the names generated below k exactly when j < k. |
| LocalConfig.AutoNamesBelowNext | local/network_test.go:491-537 | Generating one more name adds exactly that name to the set. |
| LocalConfig.AutoNameFresh | local/network_test.go:471-489 | When only the earlier generated names are registered, the next generated name is free, nothing is skipped, and the counter advances by one. |
| LocalConfig.NameAllSequential | local/network_test.go:956-993 | When no generated name from the starting counter on is registered, the i-th empty request gets `node-(start + number of empty requests before it)`. Explicit names keep their text, consume no number, and are refused exactly when registered. |
| LocalConfig.NamingExample | local/network_test.go:956-993 | The requests "", "", "hi", "" on an empty registry give node-0, node-1, hi, node-2. "hi" is refused once it is registered. |
| LocalConfig.NamingSkipsTaken | local/network_test.go:471-489 | With node-0 and node-1 registered and the counter at 0, an unnamed node becomes node-2, and the counter moves to 3. |
| LocalConfig.GetPort | local/network_test.go:1026-1064 | A key in the flags decides the port: the model accepts it only as an integer (see Left out), narrowed to 16 bits. Otherwise the config file decides, and there it must be a number. A key in neither leaves the port unresolved without error. Every failure names the key. |
| LocalConfig.GetPortFlagsWin | local/network_test.go:1048-1055 | When the flags hold the key, the config file is never consulted. |
| LocalConfig.GetPortFallsBackToConfigFile | local/network_test.go:1030-1037 | Without the key among the flags, the result is the config file's answer alone. |
| LocalConfig.GetPortExamples | local/network_test.go:1026-1064 | The four cases of the port test: the config file gives 13; the flags give 13; flags 13 beat file 14; a key in neither is no error. |
| LocalConfig.GetConfigEntry | local/network_test.go:995-1024 | An absent key gives the default. A present key succeeds exactly when its value is a string, and then yields that string. A failure names the key. |
| LocalConfig.GetConfigEntryExamples | local/network_test.go:995-1024 | The three cases of the entry test: an absent key gives "1", a present key gives "hi", and an int value is an error. |
| LocalConfig.ValidatedConfigFileResolves | network/node/node.go:73-92 | A config file that passed node validation never trips the later readers: its directories resolve, and so do its ports unless a flag overrides them. |
| LocalConfig.WriteFiles | local/network_test.go:1080-1195 | The staking-key, staking-cert and genesis flags are always returned. The config-file flag is returned exactly when a config file is given, and the chain-config-dir flag exactly when a C-Chain config file is given. |
| LocalConfig.WriteFilesKeysDistinct | local/network_test.go:1080-1195 | No flag key is returned twice. |
| LocalConfig.WriteFilesAsSet | local/network_test.go:1163-1170 | As a set, the returned flags are exactly the expected ones for each case of the file test. |
| LocalConfig.WriteFilesDependsOnPresenceOnly | local/network_test.go:1111-1160 | The flags depend on which optional files are given, not on their contents or the rest of the config. |
| LocalNetwork.ValidatedConfigReads | network/node/node.go:51-94 | A node config that passed validation has a config file that reads back, and the document read is well typed for that network id. |
| LocalNetwork.PrepareNode | local/network_test.go:995-1064 | Preparation succeeds exactly when the config file reads and both ports and both directory entries resolve. A prepared node keeps its name and config, and its file flags are those of its directory. Its ports come from port resolution over its flags and config file. Its db and log directories come from the config file, defaulting to `db` and `logs` in the node's directory. A failure is an unmarshal error or a bad entry. |
| LocalNetwork.ValidConfigPrepares | network/node/node.go:64-92 | A config that passed validation, with integer port flags, is always prepared without error. |
| LocalNetwork.AddNode | local/network_test.go:558-593 | A stopped network refuses and does not change. Otherwise the registry invariant and the setting are kept. An explicit name leaves the counter alone, and an empty one moves it past the first free generated name. A failure registers nothing, and a registered explicit name fails with `RepeatedName`. A success registers a fresh node only after its launch passed. The node gets its explicit name or the first free generated name, and the merged flags. It joins the bootstrap set exactly when it is a beacon. |
| LocalNetwork.AddNodeOutcome | local/network_test.go:558-593 | With a usable name, adding reports the preparation's error if preparation fails. Otherwise it reports the launch's error as a start failure. Otherwise it succeeds with the prepared node. |
| LocalNetwork.AddNodeErrors | local/network_test.go:558-658 | Adding fails only with one of these errors: the stopped sentinel once stopped, `RepeatedName` for a registered explicit name, an unmarshal error, a bad entry, or a start failure. |
| LocalNetwork.Register | local/network_test.go:1197-1218 | Registering puts the node into the registry, and into the bootstrap set exactly when it is a beacon. Nothing else changes. In a running network, a fresh and consistently named node keeps the invariant: entries keyed by their own name, and the bootstrap set equal to the registered beacons. |
| LocalNetwork.RemoveNode | local/network_test.go:595-624 | A stopped network refuses. An unregistered name gives `NotFound` and changes nothing. A registered name leaves the registry and the bootstrap set, other entries are untouched, and the invariant is kept. |
| LocalNetwork.GetNode | local/network_test.go:595-624 | A stopped network refuses. Otherwise the lookup succeeds exactly for a registered name, returns its entry, and gives `NotFound` otherwise. |
| LocalNetwork.GetAllNodes | local/network_test.go:660-676 | A stopped network refuses. Otherwise the result has the registry's names, and each maps to the registry's entry. |
| LocalNetwork.GetNodeNames | local/network_test.go:850-864 | A stopped network refuses. Otherwise the result lists every registered name exactly once: the same membership, no repeats, the registry's size. |
| LocalNetwork.Healthy | local/network_test.go:458-468 | A stopped network refuses. A running network is healthy exactly when every registered node reports healthy, so an empty one is healthy at once. The only errors are the stopped sentinel and unhealthy. |
| LocalNetwork.Stop | local/network_test.go:626-658 | The first stop empties the registry and the bootstrap set and marks the network stopped. A second stop returns the stopped sentinel and changes nothing. |
| LocalNetwork.NetworkIdFromGenesis | local/network_test.go:327-377 | A missing (empty) genesis fails with its own error before decoding. A given genesis that does not decode fails with the unmarshal error. The id is read exactly when the genesis holds a numeric `networkID`, and is then that number narrowed to 32 bits. |
| LocalNetwork.ValidateNodes | local/network_test.go:223-456 | The batch passes exactly when every node config validates. Otherwise it reports the first failing index and that config's own validation error. |
| LocalNetwork.Adding | local/network_test.go:558-593 | `AddNode`, with a fixed parser and launcher, satisfies the step contract that adding a batch relies on. |
| LocalNetwork.AddAll | local/network_test.go:539-556 | For a step that meets the contract, a successful batch keeps the invariant and the setting. It grows the registry by exactly one node per config, and is empty when it started stopped. |
| LocalNetwork.AddAllKeepsEarlierNodes | local/network_test.go:558-593 | Nodes registered before a batch stay registered, unchanged. |
| LocalNetwork.Create | local/network_test.go:126-221 | A created network is running, keeps the invariant, and holds one node per config. Its genesis, flags and network id come from the configuration, and a genesis failure is reported as is. |
| LocalNetwork.CreateValidatesEveryNode | local/network_test.go:223-456 | Every node config of a created network validates against its network id. |
| LocalNetwork.CreateNeedsBeacon | local/network_test.go:415-426 | A non-empty node list without a beacon is refused. |
| LocalNetwork.AddThenGet | local/network_test.go:558-593 | After an addition, the registry has grown by exactly the new name, the new node is found, and every earlier node is found as before. |
| LocalNetwork.RemoveThenGet | local/network_test.go:578-593 | After a removal, the name is not found, every other name is found as before, and the registry has shrunk by one. |
| LocalNetwork.NotFoundBeforeAndAfter | local/network_test.go:595-624 | A name is not found, and cannot be removed, both before it is added and after it has been removed. In between, both succeed. |
| LocalNetwork.RemoveBeaconShrinksBootstraps | local/network_test.go:1197-1218 | Removing a beacon shrinks the bootstrap set by one; removing any other node leaves it alone. |
| LocalNetwork.RemoveSoleBeacon | local/network_test.go:1197-1218 | Removing the only node, a beacon, leaves the bootstrap set empty. |
| LocalNetwork.StoppedRefusesEverything | local/network_test.go:626-658 | After a stop, the operations listed here return exactly the stopped sentinel and change nothing: stop, add, get, remove, health and list-all. |
| LocalNetwork.CreateEmpty | local/network_test.go:126-143 | With a usable genesis and no node configs, creation succeeds with an empty registry that is healthy at once. |
| LocalNetwork.CreateRejectsUndecodableGenesis | local/network_test.go:327-339 | A given genesis that does not decode fails creation with the unmarshal error. |
| LocalNetwork.CreateRejectsMissingGenesis | local/network_test.go:366-377 | A network config without a genesis fails creation with the missing-genesis error, whatever the decoder and the node configs. |
| LocalNetwork.CreateReportsFirstInvalidNode | local/network_test.go:223-414 | With a usable genesis, creation reports exactly the first invalid node config's index and error. |
| LocalNetwork.AddAllRejectsTaken | local/network_test.go:427-441 | A config whose explicit name is already registered makes the batch fail. |
| LocalNetwork.FirstNameRepeated | local/network_test.go:427-441 | A later config repeating the first config's explicit name makes the batch fail. |
| LocalNetwork.AddAllRejectsDuplicates | local/network_test.go:427-441 | Any two configs sharing an explicit name make the batch fail. |
| LocalNetwork.CreateRejectsRepeatedNames | local/network_test.go:427-441 | Creation fails when two node configs share an explicit name. |
| LocalNetwork.NamedStep | local/network_test.go:558-593 | A successful step for an explicitly named config registers it under that name, with its own fields and the merged flags. |
| LocalNetwork.AddAllRegistersConfigs | local/network_test.go:160-179 | Each explicitly named config is registered under its name, with its own fields and the merged flags. |
| LocalNetwork.CreateRegistersConfigs | local/network_test.go:181-206 | A created network holds each explicitly named node with the config it was given, its flags merged with the network's. |
| LocalNetwork.AutoNamedNeverRepeats | local/network_test.go:471-489 | An unnamed node is never refused for its name, whatever is registered. |
| LocalNetwork.GeneratedStep | local/network_test.go:471-489 | A successful unnamed addition extends a registry of generated names by exactly the next generated name, and advances the counter by one. |
| LocalNetwork.AddAllGeneratedNames | local/network_test.go:471-537 | Unnamed configs added in order are registered as exactly the consecutive generated names. |
| LocalNetwork.CreateGeneratedNames | local/network_test.go:491-537 | A network created from n unnamed configs has exactly the names node-0 … node-(n-1). |
| LocalNetwork.StartableStep | local/network_test.go:558-593 | On a running network with integer port flags, a valid config is added whenever its name is usable and launches pass. The network stays running with the same flags. |
| LocalNetwork.AddAllNamedSucceeds | local/network_test.go:539-556 | A batch of valid configs with distinct explicit names, none registered, is added in full when launches pass. |
| LocalNetwork.AddAllUnnamedSucceeds | local/network_test.go:471-489 | A batch of valid unnamed configs is added in full when launches pass. |
| LocalNetwork.CreateSucceedsNamed | local/network_test.go:181-206 | Creation succeeds under these conditions: a genesis with a numeric network id, every node config valid against it, a beacon in a non-empty list, integer port flags, launches that pass, and distinct explicit names. |
| LocalNetwork.CreateSucceedsUnnamed | local/network_test.go:471-489 | Under the same conditions with every node unnamed, creation succeeds and the nodes are node-0 … node-(n-1). |
| LocalNetwork.CreateReturnsStartFailure | local/network_test.go:208-221 | When the first node's process fails to start, creation fails with that start error. |
| LocalNetwork.CreateFailsWhenNothingStarts | local/network_test.go:51-58 | When every process start fails, no non-empty network can be created. |
| LocalNetwork.AddAllStopsAtFailure | local/network_test.go:207-219 | When the first k configs of a batch are added and step k fails, the batch fails with exactly that step's error. |
| LocalNetwork.CreateStopsAtStartFailure | local/network_test.go:207-219 | When the first k nodes are added and starting node k's process fails, creation fails with that start error, for any k and not only the first node. |
| LocalNetwork.AddAllLaunched | local/network_test.go:51-58 | A batch that succeeds registers only nodes whose process start succeeded. |
| LocalNetwork.CreateLaunchedAll | local/network_test.go:207-219 | Every node of a created network had its process started without error, so a start failure of any node makes creation fail. |

## Left out

- Process management is left out: creating, starting, waiting on and stopping node processes, and redirecting their output. Starting is the `Launcher` parameter. Errors from stopping a process are not modelled, so `Stop` always succeeds the first time.
- Health polling, its timeouts and its context cancellation are left out. `Healthy` folds the polling into one verdict per node, given as a parameter.
- File system writes are left out. `WriteFiles` returns the flags only; the contents written and write errors are not modelled.
- JSON decoding is the `Parser` parameter. Numbers are integral (`Number`) rather than float64.
- Json.ToUint16 and Json.ToUint32: modelled as wrap-around modulo 2^16 and 2^32, which is exact for integral values in [0, 2^16) and [0, 2^32) respectively. Go's float-to-unsigned conversion of fractional, negative or huge float64 values is implementation-defined and not modelled.
- Crypto is left out: node IDs, TLS certificates, and validating the staking key and cert contents. So the "invalid staking cert/key" creation case is not modelled, and the bootstrap set holds node names rather than IDs and IPs.
- Rendering flags as command-line text is left out: the bootstrap IP and ID flags, the per-node flags, and the `--key=path` form of the file flags. The flags `WriteFiles` returns are compared as key and path pairs, not as the strings the flag-list test compares.
- LocalConfig.GetPort: a port flag is accepted only as an integer, and any other value, a float64 included, is refused with the key's error. The port test passes only Go ints as flags and does not decide whether a float64 flag is refused; this is a choice of the model. As a consequence the creation success lemmas require integer port flags (`PortFlagsAreInts`).
- LocalConfig.JoinPath: concatenates with `/` and does not clean the path as `filepath.Join` does, so a directory ending in `/` gives a doubled separator. Only paths built the same way are compared.
- LocalConfig.NameAllSequential: consecutive numbering is stated only when no generated name from the starting counter on is registered. Otherwise taken names are skipped and the numbers jump; `SetNodeName` states that case.
- LocalNetwork.CreateSucceedsNamed and LocalNetwork.CreateSucceedsUnnamed: success is proved for all-explicit, distinct names and for all-unnamed node lists. A mix is not covered, because an explicit name may collide with a name generated earlier in the batch: a name is generated from the names registered so far, and explicit names later in the same batch are not skipped, so an unnamed beacon followed by an explicit "node-0" fails with a repeated name.
- Genesis construction (`NewAvalancheGoGenesis`), default network generation and the binary path are left out.
- LocalNetwork.AddAll: states one node per config and the invariant. Which names arrive, when a batch fails and when it succeeds are stated by the lemmas that follow it: `AddAllRegistersConfigs`, `AddAllGeneratedNames`, `AddAllRejectsDuplicates`, `AddAllStopsAtFailure`, `AddAllLaunched`, `AddAllNamedSucceeds` and `AddAllUnnamedSucceeds`.
- Concurrency is left out: the manager's lock and its goroutines are not modelled. Every operation is one atomic transition.
