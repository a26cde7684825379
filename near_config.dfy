/**
  * getConfig of src/index.js: the configuration a NEAR client connects
  * with, chosen by an environment tag. The caller's options are copied,
  * appTitle and contractName get defaults, and the fields of the selected
  * network are spread last, so they win over the caller's. An unknown tag
  * throws.
  *
  * Strings here are Dafny strings: the tags, property names and values
  * getConfig handles are compared, copied and concatenated but never split
  * into code units, so the UTF-16 view of the encoder is not needed.
  */
module NearConfig {
  import opened Wrappers

  /** A JavaScript value, as far as getConfig looks at it. An object is known only by its identity. */
  datatype Value = Undefined | Null | Bool(b: bool) | Number(n: int) | Str(s: string) | Object(ref: nat)

  /** A plain object: its own enumerable properties, by name. */
  type Fields = map<string, Value>

  /** Property access: a property the object does not have reads as undefined. */
  function Get(o: Fields, key: string): Value {
    if key in o then o[key] else Undefined
  }

  /** The values ToBoolean maps to false, among those modelled. */
  const Falsy: set<Value> := {Undefined, Null, Bool(false), Number(0), Str("")}

  /** ToBoolean, for the values modelled. */
  predicate Truthy(v: Value)
    ensures Truthy(v) <==> v !in Falsy
  {
    match v
    case Undefined => false
    case Null => false
    case Bool(b) => b
    case Number(n) => n != 0
    case Str(s) => s != ""
    case Object(_) => true
  }

  /** a || b */
  function Or(a: Value, b: Value): (r: Value)
    ensures r == a || r == b
    ensures Truthy(r) <==> Truthy(a) || Truthy(b)
    ensures Truthy(a) ==> r == a
  {
    if Truthy(a) then a else b
  }

  /** The options argument: `options = {}` when the caller leaves it out. */
  function Provided(options: Option<Fields>): (o: Fields)
    ensures options.Some? ==> o == options.value
    ensures options.None? ==> forall key :: Get(o, key) == Undefined
  {
    match options
    case None => map[]
    case Some(o) => o
  }

  /** The networks the switch distinguishes; several tags may select one. */
  datatype Network = Mainnet | Testnet | Betanet | Local | SharedTest | CiBetanet

  /** Every tag getConfig accepts. */
  const KnownEnvs: set<string> :=
    {"production", "mainnet", "development", "testnet", "betanet", "local", "test", "ci", "ci-betanet"}

  /** The case labels of the switch, grouped as they fall through. */
  function NetworkOf(env: string): (r: Option<Network>)
    ensures r.Some? <==> env in KnownEnvs
  {
    match env
    case "production" => Some(Mainnet)
    case "mainnet" => Some(Mainnet)
    case "development" => Some(Testnet)
    case "testnet" => Some(Testnet)
    case "betanet" => Some(Betanet)
    case "local" => Some(Local)
    case "test" => Some(SharedTest)
    case "ci" => Some(SharedTest)
    case "ci-betanet" => Some(CiBetanet)
    case _ => None
  }

  /** `${process.env.HOME}/.near/validator_key.json`, where an unset HOME prints as "undefined". */
  function ValidatorKeyPath(home: Option<string>): (path: string)
    ensures home.Some? ==> home.value <= path
    ensures home.None? ==> "undefined" <= path
    ensures |path| >= |KeyFile| && path[|path| - |KeyFile|..] == KeyFile
    ensures |path| == |if home.Some? then home.value else "undefined"| + |KeyFile|
  {
    (if home.Some? then home.value else "undefined") + KeyFile
  }

  const KeyFile := "/.near/validator_key.json"

  /** The fields each case of the switch spreads over the base record. */
  function NetworkFields(net: Network, home: Option<string>): (fields: Fields)
    ensures "networkId" in fields && "nodeUrl" in fields
    ensures "appTitle" !in fields && "contractName" !in fields
    ensures forall key :: key in fields ==> fields[key].Str? && fields[key].s != ""
  {
    match net
    case Mainnet =>
      map["networkId" := Str("mainnet"),
          "nodeUrl" := Str("https://rpc.mainnet.near.org"),
          "explorerUrl" := Str("https://explorer.near.org"),
          "walletUrl" := Str("https://wallet.near.org"),
          "helperUrl" := Str("https://helper.mainnet.near.org")]
    case Testnet =>
      map["networkId" := Str("default"),
          "nodeUrl" := Str("https://rpc.testnet.near.org"),
          "explorerUrl" := Str("https://explorer.testnet.near.org"),
          "walletUrl" := Str("https://wallet.testnet.near.org"),
          "helperUrl" := Str("https://helper.testnet.near.org")]
    case Betanet =>
      map["networkId" := Str("betanet"),
          "nodeUrl" := Str("https://rpc.betanet.near.org"),
          "explorerUrl" := Str("https://explorer.betanet.near.org"),
          "walletUrl" := Str("https://wallet.betanet.near.org"),
          "helperUrl" := Str("https://helper.betanet.near.org")]
    case Local =>
      map["networkId" := Str("local"),
          "nodeUrl" := Str("http://localhost:3030"),
          "keyPath" := Str(ValidatorKeyPath(home)),
          "walletUrl" := Str("http://localhost:4000/wallet")]
    case SharedTest =>
      map["networkId" := Str("shared-test"),
          "nodeUrl" := Str("https://rpc.ci-testnet.near.org"),
          "masterAccount" := Str("test.near")]
    case CiBetanet =>
      map["networkId" := Str("shared-test-staging"),
          "nodeUrl" := Str("https://rpc.ci-betanet.near.org"),
          "masterAccount" := Str("test.near")]
  }

  /** The base record: the caller's options, then appTitle and contractName, each defaulted when falsy. */
  function WithDefaults(options: Fields): (config: Fields)
    ensures config.Keys == options.Keys + {"appTitle", "contractName"}
    ensures Truthy(config["appTitle"]) && Truthy(config["contractName"])
    ensures forall key :: key in options && key != "appTitle" && key != "contractName" ==> config[key] == options[key]
  {
    options["appTitle" := Or(Get(options, "appTitle"), Str("NEAR"))]
           ["contractName" := Or(Get(options, "contractName"), Str("test.near"))]
  }

  /** word occurs in text. */
  predicate Mentions(text: string, word: string) {
    exists i :: 0 <= i <= |text| && word <= text[i..]
  }

  /** The message of the error thrown for an unknown tag; it names the tag. */
  function UnconfiguredMessage(env: string): (msg: string)
    ensures Mentions(msg, env)
  {
    var msg := "Unconfigured environment '" + env + "'. Can be configured in src/config.js.";
    assert env <= msg[26..];
    msg
  }

  /**
    * getConfig(env, options), with HOME as a parameter. A known tag gives the
    * merged record; any other tag is an error naming it. appTitle and
    * contractName are the caller's when truthy, and 'NEAR' and 'test.near'
    * otherwise.
    */
  function GetConfig(env: string, options: Option<Fields>, home: Option<string>): (r: Result<Fields, string>)
    ensures r.Ok? <==> env in KnownEnvs
    ensures r.Err? ==> Mentions(r.error, env)
    ensures r.Ok? ==>
      Get(r.value, "appTitle")
      == if Truthy(Get(Provided(options), "appTitle")) then Get(Provided(options), "appTitle") else Str("NEAR")
    ensures r.Ok? ==>
      Get(r.value, "contractName")
      == if Truthy(Get(Provided(options), "contractName")) then Get(Provided(options), "contractName") else Str("test.near")
  {
    var config := WithDefaults(Provided(options));
    match NetworkOf(env)
    case None => Err(UnconfiguredMessage(env))
    case Some(net) => Ok(config + NetworkFields(net, home))
  }

  /**
    * Which value wins the merge: a field of the selected network always; then
    * appTitle and contractName as defaulted; any other field of the caller's
    * is carried over unchanged; and no other field appears.
    */
  lemma MergePrecedence(env: string, options: Option<Fields>, home: Option<string>)
    requires env in KnownEnvs
    ensures var r, net, opts := GetConfig(env, options, home).value, NetworkFields(NetworkOf(env).value, home), Provided(options);
      && r.Keys == opts.Keys + {"appTitle", "contractName"} + net.Keys
      && (forall k :: k in net ==> r[k] == net[k])
      && (forall k :: k in opts && k !in net && k != "appTitle" && k != "contractName" ==> r[k] == opts[k])
  {
  }

  /** The configuration of a known tag: the base record with its network's fields spread over it. */
  lemma ConfigOf(env: string, net: Network, options: Option<Fields>, home: Option<string>)
    requires NetworkOf(env) == Some(net)
    ensures GetConfig(env, options, home) == Ok(WithDefaults(Provided(options)) + NetworkFields(net, home))
  {
  }

  /** The configuration depends on the tag only through the network it selects. */
  lemma SameNetworkSameConfig(env: string, alias: string, options: Option<Fields>, home: Option<string>)
    requires NetworkOf(env).Some? && NetworkOf(alias) == NetworkOf(env)
    ensures GetConfig(env, options, home) == GetConfig(alias, options, home)
  {
    ConfigOf(env, NetworkOf(env).value, options, home);
    ConfigOf(alias, NetworkOf(env).value, options, home);
  }

  /** The tags of one case group give identical configurations. */
  lemma MainnetAliases(options: Option<Fields>, home: Option<string>)
    ensures GetConfig("production", options, home) == GetConfig("mainnet", options, home)
  {
    assert NetworkOf("production") == Some(Mainnet);
    assert NetworkOf("mainnet") == Some(Mainnet);
    SameNetworkSameConfig("production", "mainnet", options, home);
  }

  lemma TestnetAliases(options: Option<Fields>, home: Option<string>)
    ensures GetConfig("development", options, home) == GetConfig("testnet", options, home)
  {
    assert NetworkOf("development") == Some(Testnet);
    assert NetworkOf("testnet") == Some(Testnet);
    SameNetworkSameConfig("development", "testnet", options, home);
  }

  lemma SharedTestAliases(options: Option<Fields>, home: Option<string>)
    ensures GetConfig("test", options, home) == GetConfig("ci", options, home)
  {
    assert NetworkOf("test") == Some(SharedTest);
    assert NetworkOf("ci") == Some(SharedTest);
    SameNetworkSameConfig("test", "ci", options, home);
  }

  /** The networkId and nodeUrl of a configuration. */
  function Endpoint(r: Result<Fields, string>): (Value, Value) {
    if r.Ok? then (Get(r.value, "networkId"), Get(r.value, "nodeUrl")) else (Undefined, Undefined)
  }

  /** A configuration's endpoint is its network's, whatever the caller passed. */
  lemma EndpointOf(env: string, net: Network, options: Option<Fields>, home: Option<string>)
    requires NetworkOf(env) == Some(net)
    ensures Endpoint(GetConfig(env, options, home))
      == (NetworkFields(net, home)["networkId"], NetworkFields(net, home)["nodeUrl"])
  {
    ConfigOf(env, net, options, home);
  }

  lemma MainnetEndpoint(options: Option<Fields>, home: Option<string>)
    ensures Endpoint(GetConfig("mainnet", options, home)) == (Str("mainnet"), Str("https://rpc.mainnet.near.org"))
  {
    assert NetworkOf("mainnet") == Some(Mainnet);
    EndpointOf("mainnet", Mainnet, options, home);
    var fields := NetworkFields(Mainnet, home);
    assert fields["networkId"] == Str("mainnet") && fields["nodeUrl"] == Str("https://rpc.mainnet.near.org");
  }

  lemma TestnetEndpoint(options: Option<Fields>, home: Option<string>)
    ensures Endpoint(GetConfig("testnet", options, home)) == (Str("default"), Str("https://rpc.testnet.near.org"))
  {
    assert NetworkOf("testnet") == Some(Testnet);
    EndpointOf("testnet", Testnet, options, home);
    var fields := NetworkFields(Testnet, home);
    assert fields["networkId"] == Str("default") && fields["nodeUrl"] == Str("https://rpc.testnet.near.org");
  }

  lemma BetanetEndpoint(options: Option<Fields>, home: Option<string>)
    ensures Endpoint(GetConfig("betanet", options, home)) == (Str("betanet"), Str("https://rpc.betanet.near.org"))
  {
    assert NetworkOf("betanet") == Some(Betanet);
    EndpointOf("betanet", Betanet, options, home);
    var fields := NetworkFields(Betanet, home);
    assert fields["networkId"] == Str("betanet") && fields["nodeUrl"] == Str("https://rpc.betanet.near.org");
  }

  lemma LocalEndpoint(options: Option<Fields>, home: Option<string>)
    ensures Endpoint(GetConfig("local", options, home)) == (Str("local"), Str("http://localhost:3030"))
  {
    assert NetworkOf("local") == Some(Local);
    EndpointOf("local", Local, options, home);
    var fields := NetworkFields(Local, home);
    assert fields["networkId"] == Str("local") && fields["nodeUrl"] == Str("http://localhost:3030");
  }

  lemma SharedTestEndpoint(options: Option<Fields>, home: Option<string>)
    ensures Endpoint(GetConfig("test", options, home)) == (Str("shared-test"), Str("https://rpc.ci-testnet.near.org"))
  {
    assert NetworkOf("test") == Some(SharedTest);
    EndpointOf("test", SharedTest, options, home);
    var fields := NetworkFields(SharedTest, home);
    assert fields["networkId"] == Str("shared-test") && fields["nodeUrl"] == Str("https://rpc.ci-testnet.near.org");
  }

  lemma CiBetanetEndpoint(options: Option<Fields>, home: Option<string>)
    ensures Endpoint(GetConfig("ci-betanet", options, home)) == (Str("shared-test-staging"), Str("https://rpc.ci-betanet.near.org"))
  {
    assert NetworkOf("ci-betanet") == Some(CiBetanet);
    EndpointOf("ci-betanet", CiBetanet, options, home);
    var fields := NetworkFields(CiBetanet, home);
    assert fields["networkId"] == Str("shared-test-staging") && fields["nodeUrl"] == Str("https://rpc.ci-betanet.near.org");
  }

  /** The local network names the validator key file under HOME, or under "undefined" when HOME is unset. */
  lemma LocalKeyPath(options: Option<Fields>, home: Option<string>)
    ensures Get(GetConfig("local", options, home).value, "keyPath") == Str(ValidatorKeyPath(home))
  {
    assert NetworkOf("local") == Some(Local);
    ConfigOf("local", Local, options, home);
  }
}
