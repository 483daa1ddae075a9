/** The balancer policy compiler: a configuration string, either a bare balancer
    identifier or a JSON document, becomes a balancer policy descriptor. */
module BalancerConfig {
  import opened Wrappers

  /** The selection strategies `createByType` knows (`disable` shares `SingleConn`). */
  datatype Strategy = RoundRobin | RandomChoice | SingleConn

  /** The locality preference layered over a strategy. */
  datatype Locality = AnyLocation | NearestDC | Locations(names: seq<string>)

  /** The policy descriptor (`balancerConfig.Config`). */
  datatype Config = Config(strategy: Strategy, locality: Locality, allowFallback: bool)

  /** The decoded JSON document; an absent field decodes to its zero value
      (`""`, `false`, an empty list). */
  datatype Doc = Doc(balancerType: string, prefer: string, fallback: bool, locations: seq<string>)

  datatype ConfigError =
    | UnknownType(balancerType: string)
    | Malformed
    | EmptyLocations(balancerType: string)

  /** An error observer; two handlers are told apart by their identity. */
  type HandlerId = nat

  /** The `FromConfig` options `WithParseErrorFallbackBalancer` and
      `WithParseErrorHandler`; either may carry a nil value (`None`). */
  datatype FromConfigOption =
    | WithParseErrorFallbackBalancer(balancer: Option<Config>)
    | WithParseErrorHandler(handler: Option<HandlerId>)

  /** `fromConfigOptionsHolder`. */
  datatype OptionsHolder = OptionsHolder(fallbackBalancer: Option<Config>, errorHandler: Option<HandlerId>)

  const BareIdentifiers: set<string> := {"disable", "single", "random_choice", "round_robin"}

  /** The three plain policies: every endpoint preferred, no fallback. */
  function Plain(s: Strategy): Config {
    Config(s, AnyLocation, false)
  }

  /** `Default()`: round robin without locality preference. */
  function Default(): Config {
    Plain(RoundRobin)
  }

  /** `PreferNearestDC` and `PreferNearestDCWithFallBack` over a base policy. */
  function PreferNearestDC(base: Config, fallback: bool): Config {
    Config(base.strategy, NearestDC, fallback)
  }

  /** `PreferLocations` and `PreferLocationsWithFallback` over a base policy. */
  function PreferLocations(base: Config, locations: seq<string>, fallback: bool): Config {
    Config(base.strategy, Locations(locations), fallback)
  }

  /** `createByType`. */
  function CreateByType(balancerType: string): (r: Result<Config, ConfigError>)
    ensures r.Ok? <==> balancerType in BareIdentifiers
    ensures r.Err? ==> r.error == UnknownType(balancerType)
    ensures r.Ok? ==> r.value.locality == AnyLocation && !r.value.allowFallback
    ensures balancerType == "disable" || balancerType == "single" ==> r == Ok(Plain(SingleConn))
    ensures balancerType == "random_choice" ==> r == Ok(Plain(RandomChoice))
    ensures balancerType == "round_robin" ==> r == Ok(Plain(RoundRobin))
  {
    match balancerType
    case "disable" => Ok(Plain(SingleConn))
    case "single" => Ok(Plain(SingleConn))
    case "random_choice" => Ok(Plain(RandomChoice))
    case "round_robin" => Ok(Plain(RoundRobin))
    case _ => Err(UnknownType(balancerType))
  }

  /** `CreateFromConfig`: `decoded` is what `json.Unmarshal` makes of `str`, with
      `None` for a decoding failure. A bare identifier is tried first. */
  function CreateFromConfig(str: string, decoded: Option<Doc>): (r: Result<Config, ConfigError>)
    ensures str in BareIdentifiers ==> r == CreateByType(str)
    ensures str !in BareIdentifiers && decoded.None? ==> r == Err(Malformed)
    ensures str !in BareIdentifiers && decoded.Some? && decoded.value.balancerType !in BareIdentifiers ==>
              r == Err(UnknownType(decoded.value.balancerType))
    ensures r.Ok? && str !in BareIdentifiers ==>
              r.value.strategy == CreateByType(decoded.value.balancerType).value.strategy
  {
    if CreateByType(str).Ok? then CreateByType(str)
    else if decoded.None? then Err(Malformed)
    else
      var doc := decoded.value;
      match CreateByType(doc.balancerType)
      case Err(e) => Err(e)
      case Ok(base) =>
        match doc.prefer
        case "local_dc" => Ok(PreferNearestDC(base, doc.fallback))
        case "nearest_dc" => Ok(PreferNearestDC(base, doc.fallback))
        case "locations" =>
          if |doc.locations| == 0 then Err(EmptyLocations(doc.balancerType))
          else Ok(PreferLocations(base, doc.locations, doc.fallback))
        case _ => Ok(base)
  }

  /** The holder after applying `opts` in order, nil options skipped: the last
      option of each kind wins. */
  function HolderOf(opts: seq<Option<FromConfigOption>>): OptionsHolder {
    if opts == [] then OptionsHolder(Some(Default()), None)
    else
      var h := HolderOf(opts[..|opts| - 1]);
      match opts[|opts| - 1]
      case None => h
      case Some(WithParseErrorFallbackBalancer(b)) => h.(fallbackBalancer := b)
      case Some(WithParseErrorHandler(eh)) => h.(errorHandler := eh)
  }

  /** `FromConfig`: never fails. On a compilation error it notifies the handler,
      if one is set, exactly once (`calls` lists the notifications in order)
      and returns the fallback balancer, which may be nil (`None`). */
  method FromConfig(config: string, decoded: Option<Doc>, opts: seq<Option<FromConfigOption>>)
    returns (balancer: Option<Config>, calls: seq<(HandlerId, ConfigError)>)
    ensures CreateFromConfig(config, decoded).Ok? ==>
              balancer == Some(CreateFromConfig(config, decoded).value) && calls == []
    ensures CreateFromConfig(config, decoded).Err? ==>
              && balancer == HolderOf(opts).fallbackBalancer
              && calls == (match HolderOf(opts).errorHandler
                           case None => []
                           case Some(h) => [(h, CreateFromConfig(config, decoded).error)])
  {
    var holder := OptionsHolder(Some(Default()), None);
    for i := 0 to |opts|
      invariant holder == HolderOf(opts[..i])
    {
      assert opts[..i + 1][..i] == opts[..i];
      match opts[i]
      case None =>
      case Some(WithParseErrorFallbackBalancer(b)) => holder := holder.(fallbackBalancer := b);
      case Some(WithParseErrorHandler(eh)) => holder := holder.(errorHandler := eh);
    }
    assert opts[..|opts|] == opts;

    calls := [];
    var compiled := CreateFromConfig(config, decoded);
    if compiled.Err? {
      if holder.errorHandler.Some? {
        calls := calls + [(holder.errorHandler.value, compiled.error)];
      }
      return holder.fallbackBalancer, calls;
    }
    balancer := Some(compiled.value);
  }

  // ---------------------------------------------------------------------------
  // Properties
  // ---------------------------------------------------------------------------

  /** A bare identifier never reaches the JSON decoder. */
  lemma BareIdentifierIgnoresDocument(str: string, d1: Option<Doc>, d2: Option<Doc>)
    requires str in BareIdentifiers
    ensures CreateFromConfig(str, d1) == CreateFromConfig(str, d2)
    ensures CreateFromConfig(str, d1).Ok? && CreateFromConfig(str, d1).value.locality == AnyLocation
  {
  }

  /** The deprecated `local_dc` is compiled exactly like `nearest_dc`, with the
      fallback flag choosing between the two nearest-datacenter policies. */
  lemma LocalDcIsNearestDc(str: string, d: Doc)
    requires str !in BareIdentifiers && d.balancerType in BareIdentifiers
    ensures CreateFromConfig(str, Some(d.(prefer := "local_dc")))
            == CreateFromConfig(str, Some(d.(prefer := "nearest_dc")))
            == Ok(Config(CreateByType(d.balancerType).value.strategy, NearestDC, d.fallback))
  {
  }

  /** `prefer = locations` needs a non-empty list, kept in order. */
  lemma LocationsNeedAList(str: string, d: Doc)
    requires str !in BareIdentifiers && d.balancerType in BareIdentifiers && d.prefer == "locations"
    ensures |d.locations| == 0 ==> CreateFromConfig(str, Some(d)) == Err(EmptyLocations(d.balancerType))
    ensures |d.locations| > 0 ==>
              CreateFromConfig(str, Some(d))
              == Ok(Config(CreateByType(d.balancerType).value.strategy, Locations(d.locations), d.fallback))
  {
  }

  /** Any other or absent preference gives the bare policy and ignores `fallback`. */
  lemma OtherPreferenceIgnoresFallback(str: string, d: Doc)
    requires str !in BareIdentifiers && d.balancerType in BareIdentifiers
    requires d.prefer !in {"local_dc", "nearest_dc", "locations"}
    ensures CreateFromConfig(str, Some(d)) == CreateByType(d.balancerType)
    ensures CreateFromConfig(str, Some(d)) == CreateFromConfig(str, Some(d.(fallback := !d.fallback)))
  {
  }

  /** A missing `type` decodes to `""`, which is an unknown balancer type. */
  lemma MissingTypeIsUnknown(str: string, d: Doc)
    requires str !in BareIdentifiers && d.balancerType == ""
    ensures CreateFromConfig(str, Some(d)) == Err(UnknownType(""))
  {
  }

  /** The compiled policy allows fallback only with a locality preference. */
  lemma {:induction false} FallbackOnlyWithPreference(str: string, decoded: Option<Doc>)
    requires CreateFromConfig(str, decoded).Ok?
    ensures CreateFromConfig(str, decoded).value.allowFallback ==>
              CreateFromConfig(str, decoded).value.locality != AnyLocation
    ensures CreateFromConfig(str, decoded).value.locality.Locations? ==>
              |CreateFromConfig(str, decoded).value.locality.names| > 0
  {
  }

  /** Nil options are skipped and a later option of the same kind overrides an
      earlier one. */
  lemma {:induction false} LaterFromConfigOptionWins(opts: seq<Option<FromConfigOption>>, o: FromConfigOption)
    ensures HolderOf(opts + [None]) == HolderOf(opts)
    ensures o.WithParseErrorFallbackBalancer? ==>
              HolderOf(opts + [Some(o)]) == HolderOf(opts).(fallbackBalancer := o.balancer)
    ensures o.WithParseErrorHandler? ==>
              HolderOf(opts + [Some(o)]) == HolderOf(opts).(errorHandler := o.handler)
  {
    assert (opts + [None])[..|opts|] == opts;
    assert (opts + [Some(o)])[..|opts|] == opts;
  }

  /** Without a fallback-balancer option the fallback is `Default()`; without a
      handler option nothing is notified. */
  lemma {:induction false} HolderDefaults(opts: seq<Option<FromConfigOption>>)
    ensures (forall i :: 0 <= i < |opts| ==> !(opts[i].Some? && opts[i].value.WithParseErrorFallbackBalancer?))
              ==> HolderOf(opts).fallbackBalancer == Some(Default())
    ensures (forall i :: 0 <= i < |opts| ==> !(opts[i].Some? && opts[i].value.WithParseErrorHandler?))
              ==> HolderOf(opts).errorHandler == None
  {
    if opts != [] {
      HolderDefaults(opts[..|opts| - 1]);
    }
  }

  /** Examples: a bare identifier, a locations document with fallback, an empty
      locations list, and a malformed document. */
  lemma Examples()
    ensures CreateFromConfig("disable", None) == Ok(Plain(SingleConn))
    ensures CreateFromConfig("{...}", Some(Doc("random_choice", "locations", true, ["AAA", "BBB"])))
            == Ok(Config(RandomChoice, Locations(["AAA", "BBB"]), true))
    ensures CreateFromConfig("{...}", Some(Doc("random_choice", "locations", true, [])))
            == Err(EmptyLocations("random_choice"))
    ensures CreateFromConfig("not a valid config{", None) == Err(Malformed)
  {
    assert "{...}" !in BareIdentifiers;
    assert "not a valid config{" !in BareIdentifiers;
  }
}
