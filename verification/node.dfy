/** A node's declarative configuration and its validation
    (`Config`, `Config.Validate` and `validateConfigFile` of network/node/node.go). */
module Node {
  import opened Wrappers
  import opened Json

  // Config-file keys whose value types are checked (avalanchego's flag names).
  const NetworkIdKey: string := "network-id"
  const DbDirKey: string := "db-dir"
  const LogsDirKey: string := "log-dir"
  const HttpPortKey: string := "http-port"
  const StakingPortKey: string := "staking-port"

  const CheckedKeys: set<string> := {NetworkIdKey, DbDirKey, LogsDirKey, HttpPortKey, StakingPortKey}

  /** The implementation-specific launch descriptor; its contents are never inspected. */
  datatype ImplSpecific = ImplSpecific(descriptor: string)

  /** A node's configuration. `implSpecific` is `None` when Go's interface value is nil;
      an empty `configFile` or `cChainConfigFile` means "not given".
      `flags` are the per-node flag overrides the network manager reads; the
      `Config` struct of network/node/node.go:13-35 has no such field, so it is
      taken from the `Flags` the manager's tests set on a node config
      (local/network_test.go:73, 171, 690). */
  datatype Config = Config(
    implSpecific: Option<ImplSpecific>,
    name: string,
    isBeacon: bool,
    stakingKey: string,
    stakingCert: string,
    configFile: string,
    cChainConfigFile: string,
    flags: map<string, Value>)

  /** The type a checked config-file field must have. */
  datatype Kind = StringKind | NumberKind

  predicate HasKind(v: Value, k: Kind) {
    match k
    case StringKind => v.Str?
    case NumberKind => v.Number?
  }

  datatype ValidationError =
    | ImplSpecificMissing
    | StakingKeyMissing
    | StakingCertMissing
    | ConfigUnmarshal
    | WrongType(key: string, wanted: Kind)
    | NetworkIdMismatch(found: int, genesisId: uint32)

  /** Decoding of a config file into a string-keyed map (Go's `json.Unmarshal`);
      `None` stands for an unmarshal error. */
  type Parser = string -> Option<Document>

  /** The parts of a config that must be given before the config file is looked at. */
  predicate HasRequiredParts(c: Config) {
    c.implSpecific.Some? && |c.stakingKey| > 0 && |c.stakingCert| > 0
  }

  /** Declarative acceptance of a decoded config file: every checked key that is
      present has its kind, and a present network id agrees with the expected one. */
  predicate WellTyped(doc: Document, expected: uint32) {
    && (NetworkIdKey in doc ==> doc[NetworkIdKey].Number? && ToUint32(doc[NetworkIdKey].n) == expected)
    && (DbDirKey in doc ==> doc[DbDirKey].Str?)
    && (LogsDirKey in doc ==> doc[LogsDirKey].Str?)
    && (HttpPortKey in doc ==> doc[HttpPortKey].Number?)
    && (StakingPortKey in doc ==> doc[StakingPortKey].Number?)
  }

  /** Acceptance of a config file as text: empty, or decodable and well typed. */
  predicate ConfigFileAcceptable(configFile: string, parse: Parser, expected: uint32) {
    |configFile| == 0 || (parse(configFile).Some? && WellTyped(parse(configFile).value, expected))
  }

  /** The field checks of a decoded config file, in the order the source performs them. */
  function CheckDocument(doc: Document, expected: uint32): (r: Outcome<ValidationError>)
    ensures r.Pass? <==> WellTyped(doc, expected)
    ensures r.Fail? ==> r.error.WrongType? || r.error.NetworkIdMismatch?
    ensures r.Fail? && r.error.WrongType? ==> r.error.key in CheckedKeys && r.error.key in doc
  {
    if NetworkIdKey in doc && !doc[NetworkIdKey].Number? then
      Fail(WrongType(NetworkIdKey, NumberKind))
    else if NetworkIdKey in doc && ToUint32(doc[NetworkIdKey].n) != expected then
      Fail(NetworkIdMismatch(doc[NetworkIdKey].n, expected))
    else if DbDirKey in doc && !doc[DbDirKey].Str? then
      Fail(WrongType(DbDirKey, StringKind))
    else if LogsDirKey in doc && !doc[LogsDirKey].Str? then
      Fail(WrongType(LogsDirKey, StringKind))
    else if HttpPortKey in doc && !doc[HttpPortKey].Number? then
      Fail(WrongType(HttpPortKey, NumberKind))
    else if StakingPortKey in doc && !doc[StakingPortKey].Number? then
      Fail(WrongType(StakingPortKey, NumberKind))
    else
      Pass
  }

  /** `validateConfigFile`: an empty file is accepted without decoding it. */
  function ValidateConfigFile(configFile: string, parse: Parser, expected: uint32): (r: Outcome<ValidationError>)
    ensures |configFile| == 0 ==> r == Pass
    ensures |configFile| > 0 && parse(configFile).None? ==> r == Fail(ConfigUnmarshal)
    ensures r.Pass? <==> ConfigFileAcceptable(configFile, parse, expected)
  {
    if |configFile| == 0 then
      Pass
    else
      match parse(configFile)
      case None => Fail(ConfigUnmarshal)
      case Some(doc) => CheckDocument(doc, expected)
  }

  /** `Config.Validate`: the implementation-specific config, then the staking key,
      then the staking cert, and only then the config file. */
  function Validate(c: Config, parse: Parser, expected: uint32): (r: Outcome<ValidationError>)
    ensures c.implSpecific.None? ==> r == Fail(ImplSpecificMissing)
    ensures c.implSpecific.Some? && |c.stakingKey| == 0 ==> r == Fail(StakingKeyMissing)
    ensures c.implSpecific.Some? && |c.stakingKey| > 0 && |c.stakingCert| == 0 ==> r == Fail(StakingCertMissing)
    ensures HasRequiredParts(c) && |c.configFile| == 0 ==> r == Pass
    ensures HasRequiredParts(c) && |c.configFile| > 0 && parse(c.configFile).None? ==> r == Fail(ConfigUnmarshal)
    ensures r.Pass? <==> HasRequiredParts(c) && ConfigFileAcceptable(c.configFile, parse, expected)
  {
    if c.implSpecific.None? then
      Fail(ImplSpecificMissing)
    else if |c.stakingKey| == 0 then
      Fail(StakingKeyMissing)
    else if |c.stakingCert| == 0 then
      Fail(StakingCertMissing)
    else
      ValidateConfigFile(c.configFile, parse, expected)
  }

  // ---------------------------------------------------------------------------
  // An independent, table-driven statement of the check order.

  datatype FieldCheck = FieldCheck(key: string, kind: Kind)

  /** The checked keys with their kinds, in the order they are checked. */
  const FieldChecks: seq<FieldCheck> := [
    FieldCheck(NetworkIdKey, NumberKind),
    FieldCheck(DbDirKey, StringKind),
    FieldCheck(LogsDirKey, StringKind),
    FieldCheck(HttpPortKey, NumberKind),
    FieldCheck(StakingPortKey, NumberKind)
  ]

  /** One row of the table: absent passes, the wrong kind fails, and the network
      id must in addition match. */
  function CheckField(doc: Document, fc: FieldCheck, expected: uint32): Outcome<ValidationError> {
    if fc.key !in doc then Pass
    else if !HasKind(doc[fc.key], fc.kind) then Fail(WrongType(fc.key, fc.kind))
    else if fc.key == NetworkIdKey && doc[fc.key].Number? && ToUint32(doc[fc.key].n) != expected then
      Fail(NetworkIdMismatch(doc[fc.key].n, expected))
    else Pass
  }

  /** The first failing row of `checks`, or `Pass`. */
  function FirstFailure(doc: Document, checks: seq<FieldCheck>, expected: uint32): Outcome<ValidationError> {
    if |checks| == 0 then Pass
    else if CheckField(doc, checks[0], expected).Fail? then CheckField(doc, checks[0], expected)
    else FirstFailure(doc, checks[1..], expected)
  }

  /** The source's if-chain reports exactly the first failing row of the table. */
  lemma CheckDocumentFollowsTable(doc: Document, expected: uint32)
    ensures CheckDocument(doc, expected) == FirstFailure(doc, FieldChecks, expected)
  {
    var t := FieldChecks;
    assert t[5..] == [];
    assert t[4..][1..] == t[5..] && t[3..][1..] == t[4..] && t[2..][1..] == t[3..] && t[1..][1..] == t[2..];
    assert FirstFailure(doc, t[4..], expected) == CheckField(doc, t[4], expected);
    assert FirstFailure(doc, t[3..], expected) ==
      if CheckField(doc, t[3], expected).Fail? then CheckField(doc, t[3], expected) else FirstFailure(doc, t[4..], expected);
    assert FirstFailure(doc, t[2..], expected) ==
      if CheckField(doc, t[2], expected).Fail? then CheckField(doc, t[2], expected) else FirstFailure(doc, t[3..], expected);
    assert FirstFailure(doc, t[1..], expected) ==
      if CheckField(doc, t[1], expected).Fail? then CheckField(doc, t[1], expected) else FirstFailure(doc, t[2..], expected);
  }

  /** None of the five keys is required: a document holding none of them validates. */
  lemma NoCheckedKeysValidates(doc: Document, expected: uint32)
    requires forall k :: k in CheckedKeys ==> k !in doc
    ensures CheckDocument(doc, expected) == Pass
  {
  }

  /** Adding or replacing a key that is not checked never changes the verdict. */
  lemma UnrelatedKeyIrrelevant(doc: Document, k: string, v: Value, expected: uint32)
    requires k !in CheckedKeys
    ensures CheckDocument(doc[k := v], expected) == CheckDocument(doc, expected)
  {
    assert forall c :: c in CheckedKeys ==> (c in doc[k := v] <==> c in doc) && (c in doc ==> doc[k := v][c] == doc[c]);
  }

  /** Validation reads only the impl-specific config, the staking pair and the
      config file: the C-Chain config file, the name, the beacon flag and the
      flags never influence it. */
  lemma ValidateIgnoresOtherFields(c: Config, d: Config, parse: Parser, expected: uint32)
    requires c.implSpecific == d.implSpecific && c.stakingKey == d.stakingKey
    requires c.stakingCert == d.stakingCert && c.configFile == d.configFile
    ensures Validate(c, parse, expected) == Validate(d, parse, expected)
  {
  }

  /** An empty config file is never handed to the decoder. */
  lemma EmptyConfigFileNotDecoded(c: Config, parse1: Parser, parse2: Parser, expected: uint32)
    requires |c.configFile| == 0
    ensures Validate(c, parse1, expected) == Validate(c, parse2, expected)
  {
  }

  /** The invalid shapes exercised at network creation, each rejected with its own error. */
  lemma InvalidShapesRejected(c: Config, parse: Parser, expected: uint32)
    requires HasRequiredParts(c) && |c.configFile| > 0 && parse(c.configFile).Some?
    ensures var doc := parse(c.configFile).value;
      && (NetworkIdKey in doc && doc[NetworkIdKey].Str? ==>
            Validate(c, parse, expected) == Fail(WrongType(NetworkIdKey, NumberKind)))
      && (NetworkIdKey in doc && doc[NetworkIdKey].Number? && ToUint32(doc[NetworkIdKey].n) != expected ==>
            Validate(c, parse, expected) == Fail(NetworkIdMismatch(doc[NetworkIdKey].n, expected)))
      && (NetworkIdKey !in doc && DbDirKey in doc && doc[DbDirKey].Number? ==>
            Validate(c, parse, expected) == Fail(WrongType(DbDirKey, StringKind)))
      && (NetworkIdKey !in doc && DbDirKey !in doc && LogsDirKey in doc && doc[LogsDirKey].Number? ==>
            Validate(c, parse, expected) == Fail(WrongType(LogsDirKey, StringKind)))
      && (NetworkIdKey !in doc && DbDirKey !in doc && LogsDirKey !in doc
          && HttpPortKey in doc && doc[HttpPortKey].Str? ==>
            Validate(c, parse, expected) == Fail(WrongType(HttpPortKey, NumberKind)))
      && (NetworkIdKey !in doc && DbDirKey !in doc && LogsDirKey !in doc && HttpPortKey !in doc
          && StakingPortKey in doc && doc[StakingPortKey].Str? ==>
            Validate(c, parse, expected) == Fail(WrongType(StakingPortKey, NumberKind)))
  {
  }
}
