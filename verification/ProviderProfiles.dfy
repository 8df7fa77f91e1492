/**
 * Provider profiles between the file, the resolved registry and the editor:
 * src/config/user-config.ts (resolveOpenrouterProfile, resolveModelProviders,
 * applyProviderKeyEnv, stripEnvProviderKeys) and src/config/provider-editor.ts.
 */
module ProviderProfiles {

  import opened ModelMapping
  import opened GatewayClient
  import opened Wrappers

  const NATIVE := "native"

  datatype Plan = Api | Coding

  datatype Preference = Preference(order: Option<seq<string>>, only: Option<seq<string>>, allowFallbacks: Option<bool>)

  /** A profile as it is stored and as the editor handles it; absent fields are absent. */
  datatype Stored =
    | NativeProfile
    | OpenRouter(
        apiKey: Option<string>, modelMap: Option<seq<Rule>>, perAgent: Option<map<Agent, string>>,
        preference: Option<Preference>, sessionAffinity: Option<bool>)
    | Zai(
        apiKey: Option<string>, modelMap: Option<seq<Rule>>, perAgent: Option<map<Agent, string>>,
        plan: Option<Plan>, model: Option<string>)

  /** The schema: a stored key is not empty. */
  predicate StoredOk(p: Stored) {
    p.NativeProfile? || p.apiKey != Some("")
  }

  datatype Resolved =
    | ResolvedNative
    | ResolvedOpenRouter(
        apiKey: string, modelMap: seq<Rule>, usesDefaultMap: bool, perAgent: map<Agent, string>,
        preference: Option<Preference>, sessionAffinity: bool)
    | ResolvedZai(
        apiKey: string, modelMap: seq<Rule>, usesDefaultMap: bool, perAgent: map<Agent, string>,
        plan: Plan, model: string)

  datatype Service = OpenRouterService | ZaiService

  const GLM_DEFAULT := "glm-5.3"
  const GLM_FLASH := "glm-5.3-flash"

  function ZaiDefaultMap(model: string): seq<Rule> {
    [Rule("*opus*", model), Rule("*sonnet*", GLM_FLASH), Rule("*haiku*", GLM_FLASH)]
  }

  function Get<T>(o: Option<T>, fallback: T): T {
    if o.Some? then o.value else fallback
  }

  function Resolve(p: Stored): Resolved {
    match p
    case NativeProfile => ResolvedNative
    case OpenRouter(key, rules, perAgent, preference, affinity) =>
      ResolvedOpenRouter(
        Get(key, ""), Get(rules, OPENROUTER_DEFAULT_MAP), rules.None?, Get(perAgent, map[]),
        preference, Get(affinity, true))
    case Zai(key, rules, perAgent, plan, model) =>
      ResolvedZai(
        Get(key, ""), Get(rules, ZaiDefaultMap(Get(model, GLM_DEFAULT))), rules.None?, Get(perAgent, map[]),
        Get(plan, Api), Get(model, GLM_DEFAULT))
  }

  /** resolvedProfileToInput: omitted maps stay omitted, explicit ones stay explicit, also when empty. */
  function ToInput(r: Resolved): Stored {
    match r
    case ResolvedNative => NativeProfile
    case ResolvedOpenRouter(key, rules, usesDefault, perAgent, preference, affinity) =>
      OpenRouter(
        if key == "" then None else Some(key), if usesDefault then None else Some(rules),
        if perAgent == map[] then None else Some(perAgent), preference, Some(affinity))
    case ResolvedZai(key, rules, usesDefault, perAgent, plan, model) =>
      Zai(
        if key == "" then None else Some(key), if usesDefault then None else Some(rules),
        if perAgent == map[] then None else Some(perAgent), Some(plan), Some(model))
  }

  /** Resolving what the editor was given gives back what it was made from. */
  lemma InputResolvesBack(p: Stored)
    requires StoredOk(p)
    ensures Resolve(ToInput(Resolve(p))) == Resolve(p)
    ensures p.NativeProfile? || (ToInput(Resolve(p)).apiKey == p.apiKey && ToInput(Resolve(p)).modelMap == p.modelMap)
  {
  }

  // ---------------------------------------------------------------------
  // Keys from the environment
  // ---------------------------------------------------------------------

  /** The services whose variable is set and not empty. */
  type Env = map<Service, string>

  predicate EnvOk(env: Env) {
    forall s :: s in env ==> env[s] != ""
  }

  function EnvKey(env: Env, r: Resolved): Option<string> {
    var service := if r.ResolvedOpenRouter? then OpenRouterService else ZaiService;
    if !r.ResolvedNative? && service in env then Some(env[service]) else None
  }

  function EnvKeyOf(env: Env, p: Stored): Option<string> {
    var service := if p.OpenRouter? then OpenRouterService else ZaiService;
    if !p.NativeProfile? && service in env then Some(env[service]) else None
  }

  function WithEnv(r: Resolved, env: Env): Resolved {
    var key := EnvKey(env, r);
    if key.None? then r
    else match r
      case ResolvedOpenRouter(_, rules, usesDefault, perAgent, preference, affinity) =>
        ResolvedOpenRouter(key.value, rules, usesDefault, perAgent, preference, affinity)
      case ResolvedZai(_, rules, usesDefault, perAgent, plan, model) =>
        ResolvedZai(key.value, rules, usesDefault, perAgent, plan, model)
      case ResolvedNative => r
  }

  function SetKey(p: Stored, key: Option<string>): Stored {
    match p
    case NativeProfile => p
    case OpenRouter(_, rules, perAgent, preference, affinity) => OpenRouter(key, rules, perAgent, preference, affinity)
    case Zai(_, rules, perAgent, plan, model) => Zai(key, rules, perAgent, plan, model)
  }

  predicate SameService(p: Stored, q: Stored) {
    (p.OpenRouter? && q.OpenRouter?) || (p.Zai? && q.Zai?)
  }

  /** One outgoing profile: a key equal to the variable's gives way to the one on disk, or to none. */
  function StripOne(p: Stored, onDisk: Option<Stored>, env: Env): Stored {
    var envKey := EnvKeyOf(env, p);
    if envKey.None? || p.apiKey != envKey then p
    else SetKey(p, if onDisk.Some? && SameService(onDisk.value, p) then onDisk.value.apiKey else None)
  }

  type Profiles = map<string, Stored>

  function Lookup(profiles: Profiles, name: string): Option<Stored> {
    if name in profiles then Some(profiles[name]) else None
  }

  function Renamed(renames: map<string, string>, name: string): string {
    if name in renames then renames[name] else name
  }

  function Strip(outgoing: Profiles, onDisk: Profiles, env: Env, renames: map<string, string>): Profiles {
    map name | name in outgoing :: StripOne(outgoing[name], Lookup(onDisk, Renamed(renames, name)), env)
  }

  /** stripEnvProviderKeys: the loop over the outgoing profiles. */
  method StripEnvProviderKeys(outgoing: Profiles, onDisk: Profiles, env: Env, renames: map<string, string>)
    returns (result: Profiles)
    ensures result == Strip(outgoing, onDisk, env, renames)
  {
    result := outgoing;
    var todo := outgoing.Keys;
    while todo != {}
      invariant result.Keys == outgoing.Keys && todo <= outgoing.Keys
      invariant forall name :: name in todo ==> result[name] == outgoing[name]
      invariant forall name :: name in result && name !in todo ==>
        result[name] == StripOne(outgoing[name], Lookup(onDisk, Renamed(renames, name)), env)
    {
      var name :| name in todo;
      var profile := result[name];
      var envKey := EnvKeyOf(env, profile);
      if envKey.Some? && profile.apiKey == envKey {
        var file := Lookup(onDisk, Renamed(renames, name));
        var fileKey := if file.Some? && SameService(file.value, profile) then file.value.apiKey else None;
        result := result[name := SetKey(profile, fileKey)];
      }
      todo := todo - {name};
    }
  }

  /** A variable's key is written only where it already was: for no edit does it reach the disk from the environment. */
  lemma EnvKeyIsNeverWritten(
    outgoing: Profiles, onDisk: Profiles, env: Env, renames: map<string, string>, name: string)
    requires name in outgoing && EnvKeyOf(env, outgoing[name]).Some?
    requires var p := Strip(outgoing, onDisk, env, renames)[name];
      !p.NativeProfile? && p.apiKey == EnvKeyOf(env, outgoing[name])
    ensures var file := Lookup(onDisk, Renamed(renames, name));
      file.Some? && SameService(file.value, outgoing[name]) && file.value.apiKey == EnvKeyOf(env, outgoing[name])
  {
  }

  /** A key the user typed is kept, unless it is the variable's. */
  lemma TypedKeyIsKept(outgoing: Profiles, onDisk: Profiles, env: Env, renames: map<string, string>, name: string)
    requires name in outgoing && !outgoing[name].NativeProfile?
    requires outgoing[name].apiKey != EnvKeyOf(env, outgoing[name])
    ensures Strip(outgoing, onDisk, env, renames)[name] == outgoing[name]
  {
  }

  // ---------------------------------------------------------------------
  // The round trip
  // ---------------------------------------------------------------------

  /** resolveModelProviders, without the default: "native" is always there. */
  function ResolveAll(profiles: Profiles): map<string, Resolved> {
    (map name | name in profiles :: Resolve(profiles[name]))[NATIVE := ResolvedNative]
  }

  /** applyProviderKeyEnv */
  function WithEnvAll(registry: map<string, Resolved>, env: Env): map<string, Resolved> {
    map name | name in registry :: WithEnv(registry[name], env)
  }

  /** currentProfiles with nothing pending. */
  function View(registry: map<string, Resolved>): Profiles {
    map name | name in registry && name != NATIVE :: ToInput(registry[name])
  }

  /** What saving the view unchanged writes. */
  function SavedView(profiles: Profiles, env: Env): Profiles {
    Strip(View(WithEnvAll(ResolveAll(profiles), env)), profiles, env, map[])
  }

  /** The same service, key and rules (or none of them), and the same meaning. */
  predicate SameProfile(p: Stored, q: Stored) {
    && (q.NativeProfile? <==> p.NativeProfile?)
    && (!p.NativeProfile? && !q.NativeProfile? ==> q.apiKey == p.apiKey && q.modelMap == p.modelMap)
    && Resolve(q) == Resolve(p)
  }

  function SavedOne(p: Stored, env: Env): Stored {
    StripOne(ToInput(WithEnv(Resolve(p), env)), Some(p), env)
  }

  lemma OneRoundTrip(p: Stored, env: Env)
    requires StoredOk(p) && EnvOk(env)
    ensures SameProfile(p, SavedOne(p, env))
  {
    if p.OpenRouter? { assert OpenRouterService in env ==> env[OpenRouterService] != ""; }
    if p.Zai? { assert ZaiService in env ==> env[ZaiService] != ""; }
  }

  lemma SavedEntries(profiles: Profiles, env: Env)
    requires NATIVE !in profiles
    ensures SavedView(profiles, env).Keys == profiles.Keys
    ensures forall name :: name in profiles ==> SavedView(profiles, env)[name] == SavedOne(profiles[name], env)
  {
    var registry := WithEnvAll(ResolveAll(profiles), env);
    var view := View(registry);
    assert view.Keys == profiles.Keys;
    forall name | name in profiles ensures view[name] == ToInput(WithEnv(Resolve(profiles[name]), env)) {
    }
  }

  lemma SameMeaning(profiles: Profiles, saved: Profiles)
    requires profiles.Keys == saved.Keys
    requires forall name :: name in profiles ==> Resolve(saved[name]) == Resolve(profiles[name])
    ensures ResolveAll(saved) == ResolveAll(profiles)
  {
  }

  /**
   * Load, lay the environment over, convert for the editor, save unchanged: every key on disk
   * stays what it was, an environment key is not written, and the registry is the same.
   */
  lemma SavingTheViewChangesNothing(profiles: Profiles, env: Env)
    requires NATIVE !in profiles && EnvOk(env) && forall name :: name in profiles ==> StoredOk(profiles[name])
    ensures SavedView(profiles, env).Keys == profiles.Keys
    ensures forall name :: name in profiles ==> SameProfile(profiles[name], SavedView(profiles, env)[name])
    ensures ResolveAll(SavedView(profiles, env)) == ResolveAll(profiles)
  {
    SavedEntries(profiles, env);
    var saved := SavedView(profiles, env);
    forall name | name in profiles ensures SameProfile(profiles[name], saved[name]) {
      OneRoundTrip(profiles[name], env);
    }
    SameMeaning(profiles, saved);
  }

  /** The keys are safe only on the way through `Strip`: without it an environment key would be written. */
  lemma WithoutStripTheKeyLeaks(env: Env)
    requires EnvOk(env) && OpenRouterService in env
    ensures var p := OpenRouter(None, None, None, None, None);
      ToInput(WithEnv(Resolve(p), env)).apiKey == Some(env[OpenRouterService])
  {
  }
}
