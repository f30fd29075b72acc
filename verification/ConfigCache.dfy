/** The Konflux config: parsing of raw settings, and a cache that hands out deep copies. */
module ConfigCache {
  import opened Wrappers

  datatype Urls = Urls(
    bundler: string, cargo: string, gomod: string, npm: string, pip: string, pnpm: string, yarn: string)

  /** The settings as read from the config source. */
  datatype RawConfig = RawConfig(
    allowCacheProxy: string, httpProxy: string, noProxy: string,
    hermetoUrls: Urls, hermetoPackageRegistryProxyAllowed: string)

  // ---------- values ----------

  datatype CacheProxy = CacheProxy(allowed: bool, httpProxy: string, noProxy: string)

  datatype HermetoProxy = HermetoProxy(allowed: bool, urls: Urls)

  /** What a caller can see of a config object. */
  datatype Config = Config(cacheProxy: Option<CacheProxy>, hermetoProxy: Option<HermetoProxy>, raw: RawConfig)

  /** `strconv.ParseBool`. */
  function ParseBool(s: string): Option<bool> {
    if s in {"1", "t", "T", "TRUE", "true", "True"} then Some(true)
    else if s in {"0", "f", "F", "FALSE", "false", "False"} then Some(false)
    else None
  }

  lemma ParseBoolExamples()
    ensures forall s :: s in {"true", "True", "TRUE", "t", "T", "1"} ==> ParseBool(s) == Some(true)
    ensures forall s :: s in {"false", "False", "FALSE", "f", "F", "0"} ==> ParseBool(s) == Some(false)
    ensures ParseBool("") == ParseBool("yes") == ParseBool("tRUE") == None
  {
    assert |"yes"| == 3 && "tRUE"[1] == 'R' && "tRUE"[0] == 't';
  }

  /** The cache proxy is allowed unless it is forbidden or the setting is unreadable. */
  function ParsedCacheProxy(raw: RawConfig): CacheProxy {
    CacheProxy(raw.allowCacheProxy == "" || ParseBool(raw.allowCacheProxy) == Some(true), raw.httpProxy, raw.noProxy)
  }

  /** The registry proxies are forbidden unless they are allowed. */
  function ParsedHermetoProxy(raw: RawConfig): HermetoProxy {
    HermetoProxy(ParseBool(raw.hermetoPackageRegistryProxyAllowed) == Some(true), raw.hermetoUrls)
  }

  function Parsed(raw: RawConfig): Config {
    Config(Some(ParsedCacheProxy(raw)), Some(ParsedHermetoProxy(raw)), raw)
  }

  // ---------- objects ----------

  class CacheProxyConfig {
    var allowed: bool
    var httpProxy: string
    var noProxy: string

    constructor (allowed: bool, httpProxy: string, noProxy: string)
      ensures Value() == CacheProxy(allowed, httpProxy, noProxy)
    {
      this.allowed, this.httpProxy, this.noProxy := allowed, httpProxy, noProxy;
    }

    function Value(): CacheProxy
      reads this
    {
      CacheProxy(allowed, httpProxy, noProxy)
    }

    method DeepCopy() returns (r: CacheProxyConfig)
      ensures fresh(r) && r.Value() == Value()
    {
      r := new CacheProxyConfig(allowed, httpProxy, noProxy);
    }
  }

  class HermetoProxyConfig {
    var packageRegistryProxyAllowed: bool
    var bundlerProxy: string
    var cargoProxy: string
    var gomodProxy: string
    var npmProxy: string
    var pipProxy: string
    var pnpmProxy: string
    var yarnProxy: string

    constructor (allowed: bool, bundler: string, cargo: string, gomod: string, npm: string, pip: string,
                 pnpm: string, yarn: string)
      ensures Value() == HermetoProxy(allowed, Urls(bundler, cargo, gomod, npm, pip, pnpm, yarn))
    {
      packageRegistryProxyAllowed := allowed;
      bundlerProxy, cargoProxy, gomodProxy, npmProxy := bundler, cargo, gomod, npm;
      pipProxy, pnpmProxy, yarnProxy := pip, pnpm, yarn;
    }

    function Value(): HermetoProxy
      reads this
    {
      HermetoProxy(packageRegistryProxyAllowed,
                   Urls(bundlerProxy, cargoProxy, gomodProxy, npmProxy, pipProxy, pnpmProxy, yarnProxy))
    }

    method DeepCopy() returns (r: HermetoProxyConfig)
      ensures fresh(r) && r.Value() == Value()
    {
      r := new HermetoProxyConfig(packageRegistryProxyAllowed,
                                  bundlerProxy, cargoProxy, gomodProxy, npmProxy, pipProxy, pnpmProxy, yarnProxy);
    }
  }

  class KonfluxConfig {
    var cacheProxy: CacheProxyConfig?
    var hermetoProxy: HermetoProxyConfig?
    var rawConfig: RawConfig

    constructor (raw: RawConfig)
      ensures rawConfig == raw && cacheProxy == null && hermetoProxy == null
    {
      rawConfig, cacheProxy, hermetoProxy := raw, null, null;
    }

    /** The mutable objects a holder of this one can reach. */
    ghost function Reach(): set<object>
      reads this
    {
      {this} + (if cacheProxy != null then {cacheProxy} else {}) + (if hermetoProxy != null then {hermetoProxy} else {})
    }

    function Value(): Config
      reads this, cacheProxy, hermetoProxy
    {
      Config(if cacheProxy != null then Some(cacheProxy.Value()) else None,
             if hermetoProxy != null then Some(hermetoProxy.Value()) else None,
             rawConfig)
    }

    /** An equal config of which every mutable object is new. */
    method DeepCopy() returns (r: KonfluxConfig)
      ensures fresh(r.Reach()) && r.Value() == Value()
    {
      r := new KonfluxConfig(rawConfig);
      if cacheProxy != null {
        r.cacheProxy := cacheProxy.DeepCopy();
      }
      if hermetoProxy != null {
        r.hermetoProxy := hermetoProxy.DeepCopy();
      }
    }
  }

  /** `NewCacheProxyConfig`; a setting that cannot be parsed is reported, and reads as false. */
  method NewCacheProxyConfig(raw: RawConfig) returns (r: CacheProxyConfig, ok: bool)
    ensures fresh(r) && r.Value() == ParsedCacheProxy(raw)
    ensures ok <==> raw.allowCacheProxy == "" || ParseBool(raw.allowCacheProxy).Some?
    ensures if raw.allowCacheProxy == "" then r.allowed
            else if ok then r.allowed == ParseBool(raw.allowCacheProxy).value else !r.allowed
  {
    r := new CacheProxyConfig(false, raw.httpProxy, raw.noProxy);
    if raw.allowCacheProxy == "" {
      r.allowed := true;
      return r, true;
    }
    var enabled := ParseBool(raw.allowCacheProxy);
    r.allowed := enabled.GetOr(false);
    ok := enabled.Some?;
  }

  /** `NewHermetoProxyConfig`. */
  method NewHermetoProxyConfig(raw: RawConfig) returns (r: HermetoProxyConfig, ok: bool)
    ensures fresh(r) && r.Value() == ParsedHermetoProxy(raw)
    ensures ok <==> raw.hermetoPackageRegistryProxyAllowed == "" ||
                    ParseBool(raw.hermetoPackageRegistryProxyAllowed).Some?
    ensures var setting, allowed := raw.hermetoPackageRegistryProxyAllowed, r.packageRegistryProxyAllowed;
            if setting != "" && ok then allowed == ParseBool(setting).value else !allowed
  {
    var u := raw.hermetoUrls;
    r := new HermetoProxyConfig(false, u.bundler, u.cargo, u.gomod, u.npm, u.pip, u.pnpm, u.yarn);
    if raw.hermetoPackageRegistryProxyAllowed == "" {
      r.packageRegistryProxyAllowed := false;
      return r, true;
    }
    var allowed := ParseBool(raw.hermetoPackageRegistryProxyAllowed);
    r.packageRegistryProxyAllowed := allowed.GetOr(false);
    ok := allowed.Some?;
  }

  /** `newKonfluxConfig`: a part that cannot be parsed does not make the rest fail. */
  method NewKonfluxConfig(raw: RawConfig) returns (r: KonfluxConfig)
    ensures fresh(r.Reach()) && r.Value() == Parsed(raw)
    ensures r.cacheProxy != null && r.hermetoProxy != null && r.rawConfig == raw
    ensures r.cacheProxy.httpProxy == raw.httpProxy && r.cacheProxy.noProxy == raw.noProxy
    ensures var h, u := r.hermetoProxy, raw.hermetoUrls;
            && h.bundlerProxy == u.bundler && h.cargoProxy == u.cargo && h.gomodProxy == u.gomod
            && h.npmProxy == u.npm && h.pipProxy == u.pip && h.pnpmProxy == u.pnpm && h.yarnProxy == u.yarn
    ensures raw.allowCacheProxy == "" ==> r.cacheProxy.allowed
    ensures raw.hermetoPackageRegistryProxyAllowed == "" ==> !r.hermetoProxy.packageRegistryProxyAllowed
  {
    r := new KonfluxConfig(raw);
    var cacheProxy, _ := NewCacheProxyConfig(raw);
    r.cacheProxy := cacheProxy;
    var hermetoProxy, _ := NewHermetoProxyConfig(raw);
    r.hermetoProxy := hermetoProxy;
  }

  // ---------- the cache ----------

  /** One attempt to read the config source. */
  datatype Outcome = NoReader | ReadFailed | Data(raw: RawConfig)

  datatype ConfigError = ReaderError | ReadError

  /** The cache as an immutable value: what was read at the last fill, and how often the source was asked. */
  datatype State = State(filled: Option<RawConfig>, attempts: nat)

  function GetResult(source: nat -> Outcome, s: State): Result<Config, ConfigError> {
    match s.filled
    case Some(raw) => Success(Parsed(raw))
    case None =>
      match source(s.attempts)
      case NoReader => Failure(ReaderError)
      case ReadFailed => Failure(ReadError)
      case Data(raw) => Success(Parsed(raw))
  }

  function AfterGet(source: nat -> Outcome, s: State): State {
    if s.filled.Some? then s
    else State(match source(s.attempts) case Data(raw) => Some(raw) case _ => None, s.attempts + 1)
  }

  /** The global cache variable with the source behind it. */
  class Cache {
    var konfluxConfig: KonfluxConfig?
    var attempts: nat
    const source: nat -> Outcome

    constructor (source: nat -> Outcome)
      ensures Valid() && Owned() == {} && Abstract() == State(None, 0) && this.source == source
    {
      this.source, attempts, konfluxConfig := source, 0, null;
    }

    /** The mutable objects of the cached config. */
    ghost function Owned(): set<object>
      reads this, konfluxConfig
    {
      if konfluxConfig == null then {} else konfluxConfig.Reach()
    }

    /** The cached config is the parse of the raw settings kept in it. */
    ghost predicate Valid()
      reads this, konfluxConfig,
            if konfluxConfig != null then {konfluxConfig.cacheProxy, konfluxConfig.hermetoProxy} else {}
    {
      konfluxConfig != null ==> konfluxConfig.Value() == Parsed(konfluxConfig.rawConfig)
    }

    ghost function Abstract(): State
      reads this, konfluxConfig
    {
      State(if konfluxConfig == null then None else Some(konfluxConfig.rawConfig), attempts)
    }

    /** `ResetConfigCache`. */
    method ResetConfigCache()
      requires Valid()
      modifies this
      ensures Valid() && Owned() == {} && Abstract() == State(None, old(attempts))
    {
      konfluxConfig := null;
    }

    /** `getKonfluxConfig`: fills the cache if it is empty and calls itself, which happens at most
        once. The config handed out consists of new objects only. */
    method GetKonfluxConfig() returns (r: Result<KonfluxConfig, ConfigError>)
      requires Valid()
      modifies this
      ensures Valid() && Abstract() == AfterGet(source, old(Abstract()))
      ensures konfluxConfig == old(konfluxConfig) || fresh(Owned())
      ensures match GetResult(source, old(Abstract()))
              case Success(value) =>
                && r.Success? && fresh(r.value.Reach()) && r.value.Reach() !! Owned()
                && r.value.Value() == value
              case Failure(error) => r == Failure(error)
      ensures old(konfluxConfig) == null ==>
                && (r == Failure(ReaderError) <==> source(old(attempts)) == NoReader)
                && (r == Failure(ReadError) <==> source(old(attempts)) == ReadFailed)
      decreases konfluxConfig == null
    {
      if konfluxConfig != null {
        var c := konfluxConfig.DeepCopy();
        return Success(c);
      }
      var outcome := source(attempts);
      attempts := attempts + 1;
      match outcome {
        case NoReader => return Failure(ReaderError);
        case ReadFailed => return Failure(ReadError);
        case Data(raw) =>
          konfluxConfig := NewKonfluxConfig(raw);
          r := GetKonfluxConfig();
      }
    }
  }

  // ---------- whole sessions, with callers that change what they were given ----------

  /** What a caller may do to a config it was handed: overwrite a part, drop it, let two configs it
      holds share a part, or overwrite the raw settings. */
  datatype Mutation =
    | PutCacheProxy(value: CacheProxy)
    | DropCacheProxy
    | ShareCacheProxy(other: nat)
    | PutHermetoProxy(allowed: bool, urls: Urls)
    | DropHermetoProxy
    | ShareHermetoProxy(other: nat)
    | PutRaw(raw: RawConfig)

  datatype Op = Get | Reset | Mutate(target: nat, mutation: Mutation)

  type Seen = seq<Result<Config, ConfigError>>

  /** The immutable reference: the state after the operations. Mutations do nothing. */
  function StateAfter(source: nat -> Outcome, s: State, ops: seq<Op>): State {
    if ops == [] then s
    else
      var before := StateAfter(source, s, ops[..|ops| - 1]);
      match ops[|ops| - 1]
      case Get => AfterGet(source, before)
      case Reset => State(None, before.attempts)
      case Mutate(_, _) => before
  }

  /** The results of the gets among the operations. */
  function Replay(source: nat -> Outcome, s: State, ops: seq<Op>): Seen {
    if ops == [] then []
    else
      var seen := Replay(source, s, ops[..|ops| - 1]);
      if ops[|ops| - 1] == Get then seen + [GetResult(source, StateAfter(source, s, ops[..|ops| - 1]))] else seen
  }

  lemma ReplayStep(source: nat -> Outcome, s: State, ops: seq<Op>, i: nat)
    requires i < |ops|
    ensures StateAfter(source, s, ops[..i + 1])
            == match ops[i]
               case Get => AfterGet(source, StateAfter(source, s, ops[..i]))
               case Reset => State(None, StateAfter(source, s, ops[..i]).attempts)
               case Mutate(_, _) => StateAfter(source, s, ops[..i])
    ensures Replay(source, s, ops[..i + 1])
            == Replay(source, s, ops[..i])
               + if ops[i] == Get then [GetResult(source, StateAfter(source, s, ops[..i]))] else []
  {
    hide AfterGet, GetResult;
    assert ops[..i + 1][..i] == ops[..i];
  }

  /** Whatever callers can reach from the configs they were handed is among `pool`. */
  ghost predicate Held(handed: seq<KonfluxConfig>, pool: set<object>)
    reads handed
  {
    forall i :: 0 <= i < |handed| ==> handed[i].Reach() <= pool
  }

  /** A caller's mutation changes, and lets callers reach, only objects they could reach before. */
  method Apply(handed: seq<KonfluxConfig>, target: nat, m: Mutation, ghost pool: set<object>)
    requires target < |handed| && Held(handed, pool)
    modifies pool
    ensures Held(handed, pool)
  {
    var c := handed[target];
    assert c in pool;
    match m {
      case PutCacheProxy(v) =>
        if c.cacheProxy != null {
          c.cacheProxy.allowed, c.cacheProxy.httpProxy, c.cacheProxy.noProxy := v.allowed, v.httpProxy, v.noProxy;
        }
      case DropCacheProxy => c.cacheProxy := null;
      case ShareCacheProxy(other) =>
        if other < |handed| {
          assert handed[other].Reach() <= pool;
          c.cacheProxy := handed[other].cacheProxy;
        }
      case PutHermetoProxy(allowed, u) =>
        if c.hermetoProxy != null {
          var h := c.hermetoProxy;
          h.packageRegistryProxyAllowed := allowed;
          h.bundlerProxy, h.cargoProxy, h.gomodProxy, h.npmProxy := u.bundler, u.cargo, u.gomod, u.npm;
          h.pipProxy, h.pnpmProxy, h.yarnProxy := u.pip, u.pnpm, u.yarn;
        }
      case DropHermetoProxy => c.hermetoProxy := null;
      case ShareHermetoProxy(other) =>
        if other < |handed| {
          assert handed[other].Reach() <= pool;
          c.hermetoProxy := handed[other].hermetoProxy;
        }
      case PutRaw(raw) => c.rawConfig := raw;
    }
  }

  /** Any sequence of gets, resets and mutations of handed out configs shows exactly what the
      immutable reference shows, and callers never reach an object of the cache. */
  method Session(cache: Cache, ops: seq<Op>) returns (seen: Seen, handed: seq<KonfluxConfig>, ghost pool: set<object>)
    requires cache.Valid()
    modifies cache
    ensures cache.Valid() && cache.Abstract() == StateAfter(cache.source, old(cache.Abstract()), ops)
    ensures seen == Replay(cache.source, old(cache.Abstract()), ops)
    ensures Held(handed, pool) && fresh(pool) && pool !! cache.Owned()
  {
    hide StateAfter, Replay, Parsed, AfterGet, GetResult;
    seen, handed, pool := [], [], {};
    ReplayNothing(cache.source, cache.Abstract(), ops);
    for i := 0 to |ops|
      invariant cache.Valid() && cache.Abstract() == StateAfter(cache.source, old(cache.Abstract()), ops[..i])
      invariant seen == Replay(cache.source, old(cache.Abstract()), ops[..i])
      invariant Held(handed, pool) && fresh(pool) && pool !! cache.Owned() && cache !in pool
    {
      ReplayStep(cache.source, old(cache.Abstract()), ops, i);
      match ops[i] {
        case Get =>
          seen, handed, pool := GetAndRemember(cache, seen, handed, pool);
        case Reset =>
          cache.ResetConfigCache();
        case Mutate(target, m) =>
          if target < |handed| {
            Apply(handed, target, m, pool);
          }
      }
    }
    assert ops[..|ops|] == ops;
  }

  lemma ReplayNothing(source: nat -> Outcome, s: State, ops: seq<Op>)
    ensures StateAfter(source, s, ops[..0]) == s && Replay(source, s, ops[..0]) == []
  {
  }

  /** A get: the caller sees its value now and keeps the object, which shares nothing with the cache
      or with what was handed out before. */
  method GetAndRemember(cache: Cache, seen: Seen, handed: seq<KonfluxConfig>, ghost pool: set<object>)
    returns (seen': Seen, handed': seq<KonfluxConfig>, ghost pool': set<object>)
    requires cache.Valid() && Held(handed, pool) && pool !! cache.Owned() && cache !in pool
    modifies cache
    ensures cache.Valid() && cache.Abstract() == AfterGet(cache.source, old(cache.Abstract()))
    ensures seen' == seen + [GetResult(cache.source, old(cache.Abstract()))]
    ensures Held(handed', pool') && pool' !! cache.Owned() && pool <= pool' && fresh(pool' - pool) && cache !in pool'
    ensures handed' == handed || (|handed'| == |handed| + 1 && handed'[..|handed|] == handed
                                  && handed'[|handed|].Reach() !! pool)
  {
    hide Parsed, AfterGet, GetResult;
    var r := cache.GetKonfluxConfig();
    match r {
      case Success(c) =>
        handed' := handed + [c];
        pool' := pool + c.Reach();
        seen' := seen + [Success(c.Value())];
      case Failure(e) =>
        handed', pool' := handed, pool;
        seen' := seen + [Failure(e)];
    }
  }

  // ---------- what the reference guarantees ----------

  /** How many of the attempts `from..to` read the source successfully. */
  function Successes(source: nat -> Outcome, from: nat, to: nat): nat
    decreases to
  {
    if to <= from then 0 else Successes(source, from, to - 1) + if source(to - 1).Data? then 1 else 0
  }

  /** Between resets a filled cache never changes, and an empty one is filled by the only successful
      read, which is also the last attempt. */
  lemma {:induction false} BetweenResets(source: nat -> Outcome, s: State, ops: seq<Op>)
    requires Reset !in ops
    ensures var t := StateAfter(source, s, ops);
            if s.filled.Some? then t == s
            else
              && t.attempts >= s.attempts
              && Successes(source, s.attempts, t.attempts) == (if t.filled.Some? then 1 else 0)
              && (t.filled.Some? ==> t.attempts > s.attempts && source(t.attempts - 1) == Data(t.filled.value))
  {
    if ops != [] { BetweenResets(source, s, ops[..|ops| - 1]); }
  }

  /** In every session that starts with an empty cache, what is cached is what the last attempt read. */
  lemma {:induction false} FilledByLastAttempt(source: nat -> Outcome, ops: seq<Op>)
    ensures var t := StateAfter(source, State(None, 0), ops);
            t.filled.Some? ==> t.attempts > 0 && source(t.attempts - 1) == Data(t.filled.value)
  {
    if ops != [] { FilledByLastAttempt(source, ops[..|ops| - 1]); }
  }

  /** A get that succeeds shows the parse of what the last attempt read; it fails only if the cache is
      empty and its own attempt fails. */
  lemma GetShowsLastFill(source: nat -> Outcome, ops: seq<Op>)
    ensures var before := StateAfter(source, State(None, 0), ops);
            var after := AfterGet(source, before);
            match GetResult(source, before)
            case Success(value) =>
              after.attempts > 0 && source(after.attempts - 1).Data? && value == Parsed(source(after.attempts - 1).raw)
            case Failure(_) =>
              before.filled.None? && after == State(None, before.attempts + 1) && !source(before.attempts).Data?
  {
    hide Parsed, StateAfter;
    FilledByLastAttempt(source, ops);
  }

  /** Once a get has succeeded, every later get shows the same config until the next reset. */
  lemma SameUntilReset(source: nat -> Outcome, s: State, ops: seq<Op>)
    requires Reset !in ops && GetResult(source, s).Success?
    ensures GetResult(source, StateAfter(source, AfterGet(source, s), ops)) == GetResult(source, s)
  {
    hide Parsed, StateAfter;
    BetweenResets(source, AfterGet(source, s), ops);
  }
}
