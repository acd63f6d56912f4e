/** The local network manager's pure helpers: flag merging, node naming, port and
    config-entry resolution, and the flags that point the node binary at the files
    written for it (`addNetworkFlags`, `setNodeName`, `getPort`, `getConfigEntry`
    and `writeFiles`, whose behaviour local/network_test.go fixes). */
module LocalConfig {
  import opened Wrappers
  import opened Json
  import Node
  import Decimal

  /** A flags mapping: flag name to value. */
  type Flags = map<string, Value>

  // ---------------------------------------------------------------------------
  // addNetworkFlags

  /** The flags a node runs with: the network-wide flags overlaid by the node's
      own, so the node's value wins on a shared key. */
  function MergeFlags(netFlags: Flags, nodeFlags: Flags): (r: Flags)
    ensures r.Keys == netFlags.Keys + nodeFlags.Keys
    ensures forall k :: k in nodeFlags ==> r[k] == nodeFlags[k]
    ensures forall k :: k in netFlags && k !in nodeFlags ==> r[k] == netFlags[k]
  {
    netFlags + nodeFlags
  }

  /** With either side empty the merge is the other side; with both empty it is empty. */
  lemma MergeFlagsEmpty(netFlags: Flags, nodeFlags: Flags)
    ensures MergeFlags(map[], nodeFlags) == nodeFlags
    ensures MergeFlags(netFlags, map[]) == netFlags
  {
  }

  /** Merging the network flags a second time changes nothing. */
  lemma MergeFlagsIdempotent(netFlags: Flags, nodeFlags: Flags)
    ensures MergeFlags(netFlags, MergeFlags(netFlags, nodeFlags)) == MergeFlags(netFlags, nodeFlags)
  {
  }

  /** The node's own flags survive the merge unchanged, and every network flag is
      present afterwards. */
  lemma MergeFlagsKeepsNodeFlags(netFlags: Flags, nodeFlags: Flags)
    ensures forall k :: k in nodeFlags ==> k in MergeFlags(netFlags, nodeFlags) && MergeFlags(netFlags, nodeFlags)[k] == nodeFlags[k]
    ensures netFlags.Keys <= MergeFlags(netFlags, nodeFlags).Keys
  {
  }

  // ---------------------------------------------------------------------------
  // setNodeName

  const DefaultNodeNamePrefix: string := "node-"

  /** The generated name for counter value `suffix`: `node-<suffix>`. */
  function AutoName(suffix: nat): (name: string)
    ensures |name| > |DefaultNodeNamePrefix|
    ensures name[..|DefaultNodeNamePrefix|] == DefaultNodeNamePrefix
    ensures Decimal.AllDigits(name[|DefaultNodeNamePrefix|..])
  {
    DefaultNodeNamePrefix + Decimal.FromNat(suffix)
  }

  /** Distinct counter values give distinct generated names. */
  lemma AutoNameInjective(a: nat, b: nat)
    ensures AutoName(a) == AutoName(b) <==> a == b
  {
    if AutoName(a) == AutoName(b) {
      assert Decimal.FromNat(a) == AutoName(a)[|DefaultNodeNamePrefix|..];
      assert Decimal.FromNat(b) == AutoName(b)[|DefaultNodeNamePrefix|..];
      Decimal.FromNatInjective(a, b);
    }
  }

  /** The least counter value from `k` on whose generated name is not registered.
      A registry is finite, so such a value always exists. */
  function FirstFree(registered: set<string>, k: nat): (s: nat)
    ensures k <= s && AutoName(s) !in registered
    ensures forall j: nat :: k <= j < s ==> AutoName(j) in registered
    decreases |registered|
  {
    if AutoName(k) !in registered then k
    else
      var s := FirstFree(registered - {AutoName(k)}, k + 1);
      AutoNameInjective(s, k);
      s
  }

  /** The outcome of naming one node: the advanced counter, and either the chosen
      name or the name that is already taken. */
  datatype Naming = Naming(nextSuffix: nat, chosen: Result<string, string>)

  /** `setNodeName`: an empty name is replaced by the first generated name, from
      the counter on, that is not registered (skipping taken ones), and the counter
      moves past it; an explicit name is kept, leaves the counter alone, and is
      refused when it is already registered. */
  function SetNodeName(registered: set<string>, requested: string, nextSuffix: nat): (r: Naming)
    ensures requested != "" ==> r.nextSuffix == nextSuffix
    ensures requested != "" ==> (r.chosen.Success? <==> requested !in registered)
    ensures requested != "" && r.chosen.Success? ==> r.chosen.value == requested
    ensures requested == "" ==> r.chosen.Success? && nextSuffix < r.nextSuffix
    ensures requested == "" ==>
      && r.chosen.value == AutoName(r.nextSuffix - 1)
      && forall j: nat :: nextSuffix <= j < r.nextSuffix - 1 ==> AutoName(j) in registered
    ensures r.chosen.Success? ==> r.chosen.value !in registered && r.chosen.value != ""
    ensures r.chosen.Failure? ==> r.chosen.error == requested && requested in registered
  {
    if requested == "" then
      var s := FirstFree(registered, nextSuffix);
      Naming(s + 1, Success(AutoName(s)))
    else if requested in registered then Naming(nextSuffix, Failure(requested))
    else Naming(nextSuffix, Success(requested))
  }

  /** The generated names for counter values below `k`. */
  function AutoNamesBelow(k: nat): set<string> {
    set j: nat | j < k :: AutoName(j)
  }

  lemma AutoNamesBelowMembers(k: nat, j: nat)
    ensures AutoName(j) in AutoNamesBelow(k) <==> j < k
  {
    if AutoName(j) in AutoNamesBelow(k) {
      var i: nat :| i < k && AutoName(i) == AutoName(j);
      AutoNameInjective(i, j);
    }
  }

  /** One more generated name extends the set by exactly that name. */
  lemma AutoNamesBelowNext(k: nat)
    ensures AutoNamesBelow(k + 1) == AutoNamesBelow(k) + {AutoName(k)}
  {
  }

  /** When only earlier generated names are registered, the next generated name is
      free and nothing is skipped. */
  lemma AutoNameFresh(k: nat)
    ensures SetNodeName(AutoNamesBelow(k), "", k) == Naming(k + 1, Success(AutoName(k)))
  {
    AutoNamesBelowMembers(k, k);
  }

  /** Naming a sequence of requests against a fixed registry, as repeated calls of
      `setNodeName` do; the result lists each call's outcome. */
  function NameAll(registered: set<string>, requests: seq<string>, nextSuffix: nat): (r: seq<Result<string, string>>)
    ensures |r| == |requests|
  {
    if |requests| == 0 then []
    else
      var first := SetNodeName(registered, requests[0], nextSuffix);
      [first.chosen] + NameAll(registered, requests[1..], first.nextSuffix)
  }

  /** The number of empty requests in `requests`. */
  function CountEmpty(requests: seq<string>): nat {
    if |requests| == 0 then 0 else (if requests[0] == "" then 1 else 0) + CountEmpty(requests[1..])
  }

  lemma {:induction false} CountEmptySnoc(requests: seq<string>, i: nat)
    requires i < |requests|
    ensures CountEmpty(requests[..i + 1]) == CountEmpty(requests[..i]) + (if requests[i] == "" then 1 else 0)
  {
    if i > 0 {
      assert requests[..i + 1][1..] == requests[1..][..i];
      assert requests[..i][1..] == requests[1..][..i - 1];
      CountEmptySnoc(requests[1..], i - 1);
    } else {
      assert requests[..1][1..] == [];
    }
  }

  /** Generated names are sequential: when no generated name from the counter on
      is registered, the i-th request, when empty, gets
      `node-<nextSuffix + number of empty requests before it>`; explicit names
      keep their text, consume no number, and are refused exactly when registered. */
  lemma {:induction false} NameAllSequential(registered: set<string>, requests: seq<string>, nextSuffix: nat, i: nat)
    requires i < |requests|
    requires forall j: nat :: nextSuffix <= j ==> AutoName(j) !in registered
    ensures var r := NameAll(registered, requests, nextSuffix)[i];
      && (requests[i] == "" ==> r == Success(AutoName(nextSuffix + CountEmpty(requests[..i]))))
      && (requests[i] != "" ==> r == (if requests[i] in registered then Failure(requests[i]) else Success(requests[i])))
  {
    var first := SetNodeName(registered, requests[0], nextSuffix);
    if requests[0] == "" {
      assert FirstFree(registered, nextSuffix) == nextSuffix;
    }
    if i == 0 {
      assert requests[..0] == [];
    } else {
      NameAllSequential(registered, requests[1..], first.nextSuffix, i - 1);
      assert requests[1..][..i - 1] == requests[..i][1..];
      assert requests[1..][i - 1] == requests[i];
    }
  }

  /** The sequence the naming test performs on an empty registry:
      "", "", "hi", "" become node-0, node-1, hi, node-2; "hi" is refused once it
      is registered. */
  lemma NamingExample()
    ensures NameAll({}, ["", "", "hi", ""], 0) ==
      [Success("node-0"), Success("node-1"), Success("hi"), Success("node-2")]
    ensures SetNodeName({"hi"}, "hi", 3).chosen.Failure?
  {
    assert AutoName(0) == "node-0" && AutoName(1) == "node-1" && AutoName(2) == "node-2";
    var rs: seq<string> := ["", "", "hi", ""];
    assert rs[1..] == ["", "hi", ""] && rs[1..][1..] == ["hi", ""] && rs[1..][1..][1..] == [""];
    assert NameAll({}, [""], 2) == [Success("node-2")];
    assert NameAll({}, ["hi", ""], 2) == [Success("hi"), Success("node-2")];
    assert NameAll({}, ["", "hi", ""], 1) == [Success("node-1"), Success("hi"), Success("node-2")];
  }

  /** Taken generated names are skipped: with node-0 and node-1 registered, an
      unnamed node becomes node-2 and the counter moves past it. */
  lemma NamingSkipsTaken()
    ensures SetNodeName({"node-0", "node-1"}, "", 0) == Naming(3, Success("node-2"))
  {
    assert AutoName(0) == "node-0" && AutoName(1) == "node-1" && AutoName(2) == "node-2";
    var taken := {"node-0", "node-1"};
    assert FirstFree(taken - {"node-0"} - {"node-1"}, 2) == 2;
    assert FirstFree(taken - {"node-0"}, 1) == 2;
  }

  // ---------------------------------------------------------------------------
  // getPort and getConfigEntry

  /** A flag or config entry whose value has the wrong type. */
  datatype EntryError = WrongEntryType(key: string)

  /** `getPort`: the flags decide when they hold the key (as an integer); otherwise
      the config file does (as a number); a key in neither leaves the port
      unresolved, which is not an error. Values are narrowed to 16 bits. */
  function GetPort(flags: Flags, configFile: Document, key: string): (r: Result<Option<uint16>, EntryError>)
    ensures key in flags ==> (r.Success? <==> flags[key].Int?)
    ensures key in flags && flags[key].Int? ==> r == Success(Some(ToUint16(flags[key].i)))
    ensures key !in flags && key in configFile ==> (r.Success? <==> configFile[key].Number?)
    ensures key !in flags && key in configFile && configFile[key].Number? ==> r == Success(Some(ToUint16(configFile[key].n)))
    ensures key !in flags && key !in configFile ==> r == Success(None)
    ensures r.Failure? ==> r.error == WrongEntryType(key)
  {
    if key in flags then
      if flags[key].Int? then Success(Some(ToUint16(flags[key].i))) else Failure(WrongEntryType(key))
    else if key in configFile then
      if configFile[key].Number? then Success(Some(ToUint16(configFile[key].n))) else Failure(WrongEntryType(key))
    else
      Success(None)
  }

  /** A flag value shadows the config file entirely. */
  lemma GetPortFlagsWin(flags: Flags, configFile: Document, other: Document, key: string)
    requires key in flags
    ensures GetPort(flags, configFile, key) == GetPort(flags, other, key)
  {
  }

  /** Without the key among the flags, only the config file matters. */
  lemma GetPortFallsBackToConfigFile(flags: Flags, configFile: Document, key: string)
    requires key !in flags
    ensures GetPort(flags, configFile, key) == GetPort(map[], configFile, key)
  {
  }

  /** The four cases of the port test. */
  lemma GetPortExamples()
    ensures GetPort(map[], map["flag" := Number(13)], "flag") == Success(Some(13))
    ensures GetPort(map["flag" := Int(13)], map[], "flag") == Success(Some(13))
    ensures GetPort(map["flag" := Int(13)], map["flag" := Number(14)], "flag") == Success(Some(13))
    ensures GetPort(map[], map[], "flag").Success?
  {
  }

  /** `getConfigEntry`: the default when the key is absent, the string when the
      value is a string, a type error otherwise. */
  function GetConfigEntry(doc: Document, key: string, default: string): (r: Result<string, EntryError>)
    ensures key !in doc ==> r == Success(default)
    ensures key in doc ==> (r.Success? <==> doc[key].Str?)
    ensures key in doc && doc[key].Str? ==> r == Success(doc[key].s)
    ensures r.Failure? ==> r.error == WrongEntryType(key)
  {
    if key !in doc then Success(default)
    else if doc[key].Str? then Success(doc[key].s)
    else Failure(WrongEntryType(key))
  }

  /** The three cases of the config-entry test. */
  lemma GetConfigEntryExamples()
    ensures GetConfigEntry(map["2" := Str("2")], "1", "1") == Success("1")
    ensures GetConfigEntry(map["1" := Str("hi"), "2" := Str("2")], "1", "1") == Success("hi")
    ensures GetConfigEntry(map["1" := Int(1), "2" := Str("2")], "1", "1").Failure?
  {
  }

  /** A config file that passed node validation never trips the type errors of
      the helpers that later read it: its directories resolve and, unless a flag
      overrides them, its ports resolve. */
  lemma ValidatedConfigFileResolves(doc: Document, expected: uint32, flags: Flags, default: string)
    requires Node.WellTyped(doc, expected)
    ensures GetConfigEntry(doc, Node.DbDirKey, default).Success?
    ensures GetConfigEntry(doc, Node.LogsDirKey, default).Success?
    ensures Node.HttpPortKey !in flags ==> GetPort(flags, doc, Node.HttpPortKey).Success?
    ensures Node.StakingPortKey !in flags ==> GetPort(flags, doc, Node.StakingPortKey).Success?
  {
  }

  // ---------------------------------------------------------------------------
  // writeFiles (the returned flags only)

  /** A command-line flag `--key=value`, kept as its key and value. */
  datatype CliFlag = CliFlag(key: string, value: string)

  // Flag names (avalanchego's) and the file layout inside a node's directory.
  const StakingKeyPathKey: string := "staking-tls-key-file"
  const StakingCertPathKey: string := "staking-tls-cert-file"
  const GenesisConfigFileKey: string := "genesis"
  const ConfigFileKey: string := "config-file"
  const ChainConfigDirKey: string := "chain-config-dir"

  const StakingKeyFileName: string := "staking.key"
  const StakingCertFileName: string := "staking.crt"
  const GenesisFileName: string := "genesis.json"
  const ConfigFileName: string := "config.json"
  const ChainConfigSubDir: string := "chainConfigs"

  /** A file inside a directory. Unlike `filepath.Join` this does not clean the
      path (no collapsing of repeated separators, `.` or `..`); the model only
      compares paths built the same way. */
  function JoinPath(dir: string, file: string): string {
    dir + "/" + file
  }

  function StakingKeyFlag(dir: string): CliFlag { CliFlag(StakingKeyPathKey, JoinPath(dir, StakingKeyFileName)) }
  function StakingCertFlag(dir: string): CliFlag { CliFlag(StakingCertPathKey, JoinPath(dir, StakingCertFileName)) }
  function GenesisFlag(dir: string): CliFlag { CliFlag(GenesisConfigFileKey, JoinPath(dir, GenesisFileName)) }
  function ConfigFileFlag(dir: string): CliFlag { CliFlag(ConfigFileKey, JoinPath(dir, ConfigFileName)) }
  function ChainConfigDirFlag(dir: string): CliFlag { CliFlag(ChainConfigDirKey, JoinPath(dir, ChainConfigSubDir)) }

  /** The flags `writeFiles` returns for the files it writes into `dir`: the staking
      key, staking cert and genesis always, the config file and the chain-config
      directory only when their contents are non-empty. */
  function WriteFiles(dir: string, c: Node.Config): (flags: seq<CliFlag>)
    ensures StakingKeyFlag(dir) in flags && StakingCertFlag(dir) in flags && GenesisFlag(dir) in flags
    ensures ConfigFileFlag(dir) in flags <==> |c.configFile| > 0
    ensures ChainConfigDirFlag(dir) in flags <==> |c.cChainConfigFile| > 0
  {
    [StakingKeyFlag(dir), StakingCertFlag(dir), GenesisFlag(dir)]
    + (if |c.configFile| > 0 then [ConfigFileFlag(dir)] else [])
    + (if |c.cChainConfigFile| > 0 then [ChainConfigDirFlag(dir)] else [])
  }

  /** No flag is given twice. */
  lemma WriteFilesKeysDistinct(dir: string, c: Node.Config)
    ensures var flags := WriteFiles(dir, c);
      forall i, j :: 0 <= i < j < |flags| ==> flags[i].key != flags[j].key
  {
  }

  /** Compared as a set, the returned flags are exactly the ones the files call
      for, with nothing else. */
  lemma WriteFilesAsSet(dir: string, c: Node.Config)
    ensures (set f | f in WriteFiles(dir, c)) ==
      {StakingKeyFlag(dir), StakingCertFlag(dir), GenesisFlag(dir)}
      + (if |c.configFile| > 0 then {ConfigFileFlag(dir)} else {})
      + (if |c.cChainConfigFile| > 0 then {ChainConfigDirFlag(dir)} else {})
  {
  }

  /** The flags depend on the directory and on which optional files are given,
      not on their contents nor on anything else in the config. */
  lemma WriteFilesDependsOnPresenceOnly(dir: string, c: Node.Config, d: Node.Config)
    requires (|c.configFile| > 0) == (|d.configFile| > 0)
    requires (|c.cChainConfigFile| > 0) == (|d.cChainConfigFile| > 0)
    ensures WriteFiles(dir, c) == WriteFiles(dir, d)
  {
  }
}
