/**
 * The configuration editor's model-provider session, src/config/config-command.ts, and how
 * its pending changes reach the file, src/config/user-config.ts (deepMergeConfig,
 * saveUserConfig). Prompts are inputs. Whatever is edited in whatever order, the merged file
 * names only profiles that exist.
 */
module EditSession {

  import opened ProviderProfiles
  import opened Wrappers

  // ---------------------------------------------------------------------
  // deepMergeConfig
  // ---------------------------------------------------------------------

  datatype Leaf = Text(text: string) | Flag(b: bool) | Registry(profiles: Profiles) | Anything(n: int)

  /** A top-level entry: one level of a section's fields is visible to the merge. */
  datatype Entry = Scalar(leaf: Leaf) | Section(fields: map<string, Leaf>) | Undefined

  type Config = map<string, Entry>

  /** An absent change keeps, an empty section deletes, a section joins a section, anything else replaces. */
  function MergeEntry(was: Option<Entry>, change: Entry): Option<Entry> {
    if change.Undefined? then was
    else if change == Section(map[]) then None
    else if change.Section? && was.Some? && was.value.Section? then Some(Section(was.value.fields + change.fields))
    else Some(change)
  }

  function MergedEntry(existing: Config, changes: Config, key: string): Option<Entry> {
    if key in changes then MergeEntry(Find(existing, key), changes[key]) else Find(existing, key)
  }

  function DeepMerge(existing: Config, changes: Config): Config {
    map key | key in existing.Keys + changes.Keys && MergedEntry(existing, changes, key).Some?
      :: MergedEntry(existing, changes, key).value
  }

  lemma FindMerged(existing: Config, changes: Config, key: string)
    ensures Find(DeepMerge(existing, changes), key) == MergedEntry(existing, changes, key)
  {
  }

  /** The loop over the changes, with its set of keys to remove. */
  method DeepMergeConfig(existing: Config, changes: Config) returns (result: Config)
    ensures result == DeepMerge(existing, changes)
  {
    var doomed: set<string> := {};
    result := existing;
    var todo := changes.Keys;
    while todo != {}
      invariant todo <= changes.Keys && doomed <= changes.Keys - todo
      invariant forall key :: key in todo || key !in changes ==> Find(result, key) == Find(existing, key)
      invariant forall key :: key in changes && key !in todo ==>
        (if key in doomed then None else Find(result, key)) == MergedEntry(existing, changes, key)
    {
      var key :| key in todo;
      var value := changes[key];
      if value == Section(map[]) {
        doomed := doomed + {key};
      } else if value.Section? && key in result && result[key].Section? {
        result := result[key := Section(result[key].fields + value.fields)];
      } else if !value.Undefined? {
        result := result[key := value];
      }
      todo := todo - {key};
    }
    ghost var before := result;
    result := result - doomed;
    forall key ensures Find(result, key) == Find(DeepMerge(existing, changes), key) {
      FindMerged(existing, changes, key);
    }
    SameEntries(result, DeepMerge(existing, changes));
  }

  // ---------------------------------------------------------------------
  // What the schema demands of the two sections
  // ---------------------------------------------------------------------

  const PROVIDERS := "modelProviders"
  const HOST := "hostModelProfiles"
  const DEFAULT_FIELD := "default"
  const PROFILES_FIELD := "profiles"

  function Fields(e: Option<Entry>): map<string, Leaf> {
    if e.Some? && e.value.Section? then e.value.fields else map[]
  }

  function ProfilesIn(fields: map<string, Leaf>): Profiles {
    if PROFILES_FIELD in fields && fields[PROFILES_FIELD].Registry? then fields[PROFILES_FIELD].profiles else map[]
  }

  function DefaultIn(fields: map<string, Leaf>): Option<string> {
    if DEFAULT_FIELD in fields && fields[DEFAULT_FIELD].Text? then Some(fields[DEFAULT_FIELD].text) else None
  }

  function BindingsIn(fields: map<string, Leaf>): map<string, string> {
    map role | role in fields && fields[role].Text? :: fields[role].text
  }

  function ProfilesOf(c: Config): Profiles { ProfilesIn(Fields(Find(c, PROVIDERS))) }

  function DefaultOf(c: Config): Option<string> { DefaultIn(Fields(Find(c, PROVIDERS))) }

  function HostOf(c: Config): map<string, string> { BindingsIn(Fields(Find(c, HOST))) }

  predicate Known(names: set<string>, name: string) {
    name == NATIVE || name in names
  }

  /** The refinements: "native" is not defined, and every name that is used is. */
  predicate Refers(names: set<string>, default: Option<string>, host: map<string, string>) {
    && NATIVE !in names
    && (default.Some? ==> Known(names, default.value))
    && (forall role :: role in host ==> Known(names, host[role]))
  }

  predicate TextsOnly(fields: map<string, Leaf>) {
    forall role :: role in fields ==> fields[role].Text?
  }

  /** The parts of the schema that concern these sections. */
  predicate RegistryOk(c: Config) {
    && (PROVIDERS in c ==> c[PROVIDERS].Section?) && (HOST in c ==> c[HOST].Section? && TextsOnly(c[HOST].fields))
    && Refers(ProfilesOf(c).Keys, DefaultOf(c), HostOf(c))
  }

  // ---------------------------------------------------------------------
  // Pending changes
  // ---------------------------------------------------------------------

  /** pending.modelProviders is always the whole record. */
  datatype Registered = Registered(default: string, profiles: Profiles)

  function ProvidersEntry(r: Registered): Entry {
    Section(map[DEFAULT_FIELD := Text(r.default), PROFILES_FIELD := Registry(r.profiles)])
  }

  function HostEntry(host: map<string, string>): Entry {
    Section(map role | role in host :: Text(host[role]))
  }

  /** The pending UserConfig with its two optional members. */
  function Pending(providers: Option<Registered>, host: Option<map<string, string>>): Config {
    var c: Config := map[];
    var d := if providers.Some? then c[PROVIDERS := ProvidersEntry(providers.value)] else c;
    if host.Some? then d[HOST := HostEntry(host.value)] else d
  }

  lemma TwoSections()
    ensures PROVIDERS != HOST && DEFAULT_FIELD != PROFILES_FIELD
  {
    assert PROVIDERS[0] == 'm' && HOST[0] == 'h' && DEFAULT_FIELD[0] == 'd' && PROFILES_FIELD[0] == 'p';
  }

  lemma ProvidersMerged(existing: Config, providers: Option<Registered>, host: Option<map<string, string>>)
    requires PROVIDERS in existing ==> existing[PROVIDERS].Section?
    ensures var m := DeepMerge(existing, Pending(providers, host));
      && (providers.None? ==> Find(m, PROVIDERS) == Find(existing, PROVIDERS))
      && (providers.Some? ==>
            ProfilesOf(m) == providers.value.profiles && DefaultOf(m) == Some(providers.value.default)
            && PROVIDERS in m && m[PROVIDERS].Section?)
  {
    TwoSections();
    var pending := Pending(providers, host);
    FindMerged(existing, pending, PROVIDERS);
    if providers.Some? {
      var entry := ProvidersEntry(providers.value);
      assert DEFAULT_FIELD in entry.fields;
      assert pending[PROVIDERS] == entry;
    }
  }

  lemma HostMerged(existing: Config, providers: Option<Registered>, host: Option<map<string, string>>)
    requires HOST in existing ==> existing[HOST].Section? && TextsOnly(existing[HOST].fields)
    requires host.Some? ==> host.value != map[]
    ensures var m := DeepMerge(existing, Pending(providers, host));
      && (host.None? ==> Find(m, HOST) == Find(existing, HOST))
      && (host.Some? ==>
            HostOf(m) == HostOf(existing) + host.value && HOST in m && m[HOST].Section? && TextsOnly(m[HOST].fields))
  {
    TwoSections();
    var pending := Pending(providers, host);
    FindMerged(existing, pending, HOST);
    if host.Some? {
      var entry := HostEntry(host.value);
      var role :| role in host.value;
      assert role in entry.fields;
      assert pending[HOST] == entry;
    }
  }

  /** Nothing else in the file is touched. */
  lemma OtherKeysStay(existing: Config, providers: Option<Registered>, host: Option<map<string, string>>, key: string)
    requires key != PROVIDERS && key != HOST
    ensures Find(DeepMerge(existing, Pending(providers, host)), key) == Find(existing, key)
  {
    FindMerged(existing, Pending(providers, host), key);
  }

  /** With consistent references pending, the merged file has consistent references. */
  lemma MergedIsOk(existing: Config, providers: Option<Registered>, host: Option<map<string, string>>)
    requires RegistryOk(existing) && (host.Some? ==> host.value != map[])
    requires Refers(
      (if providers.Some? then providers.value.profiles else ProfilesOf(existing)).Keys,
      if providers.Some? then Some(providers.value.default) else DefaultOf(existing),
      if host.Some? then HostOf(existing) + host.value else HostOf(existing))
    ensures RegistryOk(DeepMerge(existing, Pending(providers, host)))
  {
    ProvidersMerged(existing, providers, host);
    HostMerged(existing, providers, host);
  }

  // ---------------------------------------------------------------------
  // Legacy values that a save rewrites
  // ---------------------------------------------------------------------

  const MODE := "preferredMode"
  const WORKLOAD := "dockerWorkload"
  const ENABLED := "enabled"
  const NETWORK := "networkAccess"
  const INGRESS := "imageIngress"

  /** The canonical network access of a stored request: an earlier name for it, or what enabling implies. */
  function NetworkAccess(fields: map<string, Leaf>): Option<Leaf> {
    if NETWORK in fields then Some(if fields[NETWORK] == Text("public") then Text("packages") else fields[NETWORK])
    else if Find(fields, INGRESS) == Some(Text("public-registry")) then Some(Text("images"))
    else if Find(fields, INGRESS) == Some(Text("preloaded-only")) then Some(Text("offline"))
    else if Find(fields, ENABLED) == Some(Flag(true)) then Some(Text("images"))
    else None
  }

  /** The schema's transform of dockerWorkload: two fields are left. */
  function CanonicalWorkload(fields: map<string, Leaf>): map<string, Leaf> {
    var access := NetworkAccess(fields);
    var base: map<string, Leaf> := if ENABLED in fields then map[ENABLED := fields[ENABLED]] else map[];
    if access.Some? then base[NETWORK := access.value] else base
  }

  /** What is written for an entry. */
  function Normalised(key: string, e: Option<Entry>): Option<Entry> {
    if key == MODE && e == Some(Scalar(Text("docker"))) then Some(Scalar(Text("container")))
    else if key == WORKLOAD && e.Some? && e.value.Section? then Some(Section(CanonicalWorkload(e.value.fields)))
    else e
  }

  lemma LegacyKeys()
    ensures ENABLED != NETWORK && NETWORK != INGRESS && ENABLED != INGRESS && MODE != WORKLOAD
    ensures PROVIDERS != MODE && PROVIDERS != WORKLOAD && HOST != MODE && HOST != WORKLOAD
  {
    assert ENABLED[0] == 'e' && NETWORK[0] == 'n' && INGRESS[0] == 'i' && MODE[0] == 'p' && WORKLOAD[0] == 'd';
    assert PROVIDERS[0] == 'm' && HOST[0] == 'h';
  }

  /** A second save rewrites nothing more. */
  lemma NormalisedIsSettled(key: string, e: Option<Entry>)
    ensures Normalised(key, Normalised(key, e)) == Normalised(key, e)
  {
    LegacyKeys();
    assert "container"[0] != "docker"[0] && "packages"[1] != "public"[1] && "images"[0] != "public"[0];
    if key == WORKLOAD && e.Some? && e.value.Section? {
      var once := CanonicalWorkload(e.value.fields);
      assert CanonicalWorkload(once) == once;
    }
  }

  // ---------------------------------------------------------------------
  // The session
  // ---------------------------------------------------------------------

  /** What String.prototype.trim takes off: ECMAScript's white space and line terminators. */
  predicate IsTrimmed(c: char) {
    || '\t' <= c <= '\r' || c == ' ' || c == '\U{00A0}' || c == '\U{1680}' || '\U{2000}' <= c <= '\U{200A}'
    || c == '\U{2028}' || c == '\U{2029}' || c == '\U{202F}' || c == '\U{205F}' || c == '\U{3000}' || c == '\U{FEFF}'
  }

  predicate Blank(name: string) {
    forall i :: 0 <= i < |name| ==> IsTrimmed(name[i])
  }

  /** The names that `in` finds in every JavaScript object. */
  const OBJECT_MEMBERS := {
    "constructor", "__defineGetter__", "__defineSetter__", "hasOwnProperty", "__lookupGetter__", "__lookupSetter__",
    "isPrototypeOf", "propertyIsEnumerable", "toString", "valueOf", "__proto__", "toLocaleString"
  }

  /** The validation of a new profile's name. */
  predicate NameAccepted(name: string, profiles: Profiles) {
    !Blank(name) && name != NATIVE && name !in profiles && name !in OBJECT_MEMBERS
  }

  /** A default that no longer names a profile gives way to "native". */
  function RepointDefaultAfterDelete(current: string, remaining: set<string>): (name: string)
    ensures Known(remaining, name)
    ensures Known(remaining, current) ==> name == current
    ensures !Known(remaining, current) ==> name == NATIVE
  {
    if current == NATIVE then current else if current in remaining then current else NATIVE
  }

  function NewProfile(service: Service, key: string): Stored {
    var apiKey := if key == "" then None else Some(key);
    match service
    case OpenRouterService => OpenRouter(apiKey, None, None, None, None)
    case ZaiService => Zai(apiKey, None, None, None, None)
  }

  lemma Rebind(base: map<string, string>, bindings: map<string, string>, role: string, choice: string)
    requires base.Keys <= bindings.Keys
    ensures base + bindings[role := choice] == bindings[role := choice] && bindings[role := choice] != map[]
  {
    assert role in bindings[role := choice];
  }

  /** One answered dialogue; a cancelled prompt is None. */
  datatype Edit =
    | Add(named: Option<string>, service: Option<Service>, key: Option<string>)
    | Default(choice: Option<string>)
    | Change(name: string, updated: Option<Stored>)
    | Delete(name: string, confirmed: bool)
    | Bind(role: Option<string>, choice: Option<string>)

  class Session {
    /** The file as loaded, and what loading made of it. */
    const existing: Config
    const resolvedProfiles: Profiles
    const resolvedDefault: string
    const resolvedHost: map<string, string>
    /** pending.modelProviders and pending.hostModelProfiles */
    var providers: Option<Registered>
    var host: Option<map<string, string>>

    function CurrentProfiles(): Profiles
      reads this
    {
      if providers.Some? then providers.value.profiles else resolvedProfiles
    }

    function CurrentDefault(): string
      reads this
    {
      if providers.Some? then providers.value.default else resolvedDefault
    }

    function Bindings(): map<string, string>
      reads this
    {
      if host.Some? then resolvedHost + host.value else resolvedHost
    }

    ghost predicate Loaded() {
      && RegistryOk(existing)
      && resolvedProfiles.Keys == ProfilesOf(existing).Keys
      && resolvedDefault == Get(DefaultOf(existing), NATIVE)
      && resolvedHost == HostOf(existing)
    }

    ghost predicate Valid()
      reads this
    {
      && Loaded() && (host.Some? ==> host.value != map[])
      && Refers(CurrentProfiles().Keys, Some(CurrentDefault()), Bindings())
    }

    /** A session over a valid file and the environment's keys. */
    constructor (existing: Config, env: Env)
      requires RegistryOk(existing)
      ensures Valid() && providers == None && host == None && this.existing == existing
      ensures resolvedProfiles == View(WithEnvAll(ResolveAll(ProfilesOf(existing)), env))
    {
      this.existing := existing;
      resolvedProfiles := View(WithEnvAll(ResolveAll(ProfilesOf(existing)), env));
      resolvedDefault := Get(DefaultOf(existing), NATIVE);
      resolvedHost := HostOf(existing);
      providers, host := None, None;
      new;
      assert resolvedProfiles.Keys == ProfilesOf(existing).Keys;
    }

    /** commitModelProviders: the whole record, always. */
    method Commit(profiles: Profiles, default: string)
      requires Valid() && NATIVE !in profiles && Known(profiles.Keys, default)
      requires forall role :: role in Bindings() ==> Known(profiles.Keys, Bindings()[role])
      modifies this`providers
      ensures Valid() && providers == Some(Registered(default, profiles))
    {
      providers := Some(Registered(default, profiles));
    }

    method AddProfile(name: string, service: Service, key: string) returns (added: bool)
      requires Valid()
      modifies this`providers
      ensures Valid() && (added <==> NameAccepted(name, old(CurrentProfiles())))
      ensures !added ==> providers == old(providers)
      ensures added ==> providers == Some(Registered(
        old(CurrentDefault()), old(CurrentProfiles())[name := NewProfile(service, key)]))
    {
      var profiles := CurrentProfiles();
      if !NameAccepted(name, profiles) { return false; }
      Commit(profiles[name := NewProfile(service, key)], CurrentDefault());
      return true;
    }

    /** The prompt offers "native" and the profiles; choosing the current one commits nothing. */
    method SetDefaultProfile(choice: string)
      requires Valid()
      modifies this`providers
      ensures Valid() && CurrentProfiles() == old(CurrentProfiles())
      ensures CurrentDefault() == if Known(old(CurrentProfiles()).Keys, choice) then choice else old(CurrentDefault())
    {
      var profiles := CurrentProfiles();
      if Known(profiles.Keys, choice) && choice != CurrentDefault() {
        Commit(profiles, choice);
      }
    }

    method ChangeProfile(name: string, updated: Option<Stored>)
      requires Valid()
      modifies this`providers
      ensures Valid() && CurrentDefault() == old(CurrentDefault())
      ensures CurrentProfiles() ==
        if name in old(CurrentProfiles()) && !old(CurrentProfiles())[name].NativeProfile? && updated.Some?
        then old(CurrentProfiles())[name := updated.value] else old(CurrentProfiles())
    {
      var profiles := CurrentProfiles();
      if name !in profiles || profiles[name].NativeProfile? || updated.None? { return; }
      ghost var keys := profiles[name := updated.value].Keys;
      assert keys == profiles.Keys;
      Commit(profiles[name := updated.value], CurrentDefault());
    }

    /** A profile that a host role uses is not deleted; the default never dangles. */
    method DeleteProfile(name: string, confirmed: bool) returns (deleted: bool)
      requires Valid()
      modifies this`providers
      ensures Valid() && (deleted ==> CurrentProfiles() == old(CurrentProfiles()) - {name})
      ensures deleted ==> CurrentDefault() == RepointDefaultAfterDelete(old(CurrentDefault()), CurrentProfiles().Keys)
      ensures !deleted ==> providers == old(providers)
      ensures deleted <==> (confirmed && name in old(CurrentProfiles())
        && !old(CurrentProfiles())[name].NativeProfile? && name !in old(Bindings()).Values)
    {
      var profiles := CurrentProfiles();
      if name !in profiles || profiles[name].NativeProfile? { return false; }
      var bindings := Bindings();
      if name in bindings.Values || !confirmed { return false; }
      var remaining := profiles - {name};
      forall role | role in bindings ensures Known(remaining.Keys, bindings[role]) {
        assert bindings[role] in bindings.Values;
      }
      Commit(remaining, RepointDefaultAfterDelete(CurrentDefault(), remaining.Keys));
      return true;
    }

    method BindHostRole(role: string, choice: string)
      requires Valid()
      modifies this`host
      ensures Valid()
      ensures Bindings() ==
        if Known(CurrentProfiles().Keys, choice) then old(Bindings())[role := choice] else old(Bindings())
    {
      if !Known(CurrentProfiles().Keys, choice) { return; }
      var bindings := Bindings();
      var next := bindings[role := choice];
      Rebind(resolvedHost, bindings, role, choice);
      host := Some(next);
    }

    method Apply(edit: Edit)
      requires Valid()
      modifies this
      ensures Valid()
    {
      match edit
      case Add(name, service, key) =>
        if name.Some? && service.Some? && key.Some? {
          var _ := AddProfile(name.value, service.value, key.value);
        }
      case Default(choice) =>
        if choice.Some? { SetDefaultProfile(choice.value); }
      case Change(name, updated) => ChangeProfile(name, updated);
      case Delete(name, confirmed) => var _ := DeleteProfile(name, confirmed);
      case Bind(role, choice) =>
        if role.Some? && choice.Some? { BindHostRole(role.value, choice.value); }
    }

    /** After any sequence of edits the merged file passes the schema's refinements. */
    method ApplyAll(edits: seq<Edit>)
      requires Valid()
      modifies this
      ensures Valid() && RegistryOk(DeepMerge(existing, Pending(providers, host)))
    {
      for i := 0 to |edits|
        invariant Valid()
      {
        Apply(edits[i]);
      }
      MergedIsOk(existing, providers, host);
    }

    /**
     * saveUserConfig: merge, take out the environment's keys, bring legacy values up to date, and write what
     * the schema accepts. `others` is its verdict on the other sections; the registry's refinements never refuse.
     */
    method Save(env: Env, others: Config -> bool) returns (written: Option<Config>)
      requires Valid()
      ensures var sent := Sent(existing, providers, host, env);
        RegistryOk(sent) && (written.Some? <==> others(sent))
      ensures written.Some? ==> Saves(existing, providers, host, env, written.value)
    {
      var merged := DeepMergeConfig(existing, Pending(providers, host));
      var stripped := StripEnvProviderKeys(ProfilesOf(merged), ProfilesOf(existing), env, map[]);
      var outgoing := WithMode(WithProfiles(merged, stripped));
      SentIsOk(existing, providers, host, env);
      if !others(outgoing) { return None; }
      return Some(WithWorkload(outgoing));
    }
  }

  /** What the schema is asked about. */
  function Sent(existing: Config, providers: Option<Registered>, host: Option<map<string, string>>, env: Env): Config {
    var merged := DeepMerge(existing, Pending(providers, host));
    WithMode(WithProfiles(merged, Strip(ProfilesOf(merged), ProfilesOf(existing), env, map[])))
  }

  /** The registry is the merged one without the environment's keys; every other key stays but for legacy values. */
  ghost predicate Saves(
    existing: Config, providers: Option<Registered>, host: Option<map<string, string>>, env: Env, written: Config)
  {
    var merged := DeepMerge(existing, Pending(providers, host));
    && RegistryOk(written)
    && ProfilesOf(written) == Strip(ProfilesOf(merged), ProfilesOf(existing), env, map[])
    && DefaultOf(written) == DefaultOf(merged) && HostOf(written) == HostOf(merged)
    && forall key :: key != PROVIDERS && key != HOST ==> Find(written, key) == Normalised(key, Find(existing, key))
  }

  lemma SentIsOk(existing: Config, providers: Option<Registered>, host: Option<map<string, string>>, env: Env)
    requires RegistryOk(existing) && (host.Some? ==> host.value != map[])
    requires Refers(
      (if providers.Some? then providers.value.profiles else ProfilesOf(existing)).Keys,
      if providers.Some? then Some(providers.value.default) else DefaultOf(existing),
      if host.Some? then HostOf(existing) + host.value else HostOf(existing))
    ensures RegistryOk(Sent(existing, providers, host, env))
    ensures Saves(existing, providers, host, env, WithWorkload(Sent(existing, providers, host, env)))
  {
    var merged := DeepMerge(existing, Pending(providers, host));
    var stripped := Strip(ProfilesOf(merged), ProfilesOf(existing), env, map[]);
    var plain := WithProfiles(merged, stripped);
    MergedIsOk(existing, providers, host);
    ProfilesReplaced(merged, stripped);
    LegacyRewritten(plain);
    forall key | key != PROVIDERS && key != HOST ensures Find(plain, key) == Find(existing, key) {
      OtherKeysStay(existing, providers, host, key);
    }
    SameRegistry(plain, WithMode(plain));
    SameRegistry(plain, WithWorkload(WithMode(plain)));
  }

  lemma SameRegistry(c: Config, d: Config)
    requires Find(c, PROVIDERS) == Find(d, PROVIDERS) && Find(c, HOST) == Find(d, HOST)
    ensures ProfilesOf(d) == ProfilesOf(c) && DefaultOf(d) == DefaultOf(c) && HostOf(d) == HostOf(c)
    ensures RegistryOk(c) <==> RegistryOk(d)
  {
    assert PROVIDERS in c <==> Find(c, PROVIDERS).Some?;
  }

  /** normalizeLegacyPreferredMode. */
  function WithMode(c: Config): Config {
    if Find(c, MODE) == Some(Scalar(Text("docker"))) then c[MODE := Scalar(Text("container"))] else c
  }

  /** The canonical block takes the place of the one that was read. */
  function WithWorkload(c: Config): Config {
    if WORKLOAD in c && c[WORKLOAD].Section? then c[WORKLOAD := Section(CanonicalWorkload(c[WORKLOAD].fields))] else c
  }

  lemma LegacyRewritten(c: Config)
    ensures var d := WithMode(c); Find(d, PROVIDERS) == Find(c, PROVIDERS) && Find(d, HOST) == Find(c, HOST)
    ensures var d := WithWorkload(WithMode(c));
      && Find(d, PROVIDERS) == Find(c, PROVIDERS) && Find(d, HOST) == Find(c, HOST)
      && forall key :: Find(d, key) == Normalised(key, Find(c, key))
  {
    LegacyKeys();
  }

  /** The profiles record of the outgoing object, changed in place if there is one. */
  function WithProfiles(c: Config, profiles: Profiles): Config {
    var fields := Fields(Find(c, PROVIDERS));
    if PROFILES_FIELD in fields && fields[PROFILES_FIELD].Registry?
    then c[PROVIDERS := Section(fields[PROFILES_FIELD := Registry(profiles)])]
    else c
  }

  lemma ProfilesReplaced(c: Config, profiles: Profiles)
    requires RegistryOk(c) && profiles.Keys == ProfilesOf(c).Keys
    ensures var d := WithProfiles(c, profiles);
      && RegistryOk(d) && ProfilesOf(d) == profiles && DefaultOf(d) == DefaultOf(c) && HostOf(d) == HostOf(c)
      && forall key :: key != PROVIDERS ==> Find(d, key) == Find(c, key)
  {
    TwoSections();
    var fields := Fields(Find(c, PROVIDERS));
    if !(PROFILES_FIELD in fields && fields[PROFILES_FIELD].Registry?) {
      assert profiles == map[];
    }
  }

  /**
   * Opening the editor and saving what it shows: the file's registry keeps its meaning and every
   * key on disk stays, with or without keys in the environment.
   */
  lemma SavingUnchangedKeepsTheRegistry(existing: Config, env: Env)
    requires RegistryOk(existing) && EnvOk(env)
    requires forall name :: name in ProfilesOf(existing) ==> StoredOk(ProfilesOf(existing)[name])
    ensures var shown := View(WithEnvAll(ResolveAll(ProfilesOf(existing)), env));
      var pending := Pending(Some(Registered(Get(DefaultOf(existing), NATIVE), shown)), None);
      var merged := DeepMerge(existing, pending);
      var saved := Strip(ProfilesOf(merged), ProfilesOf(existing), env, map[]);
      && ResolveAll(saved) == ResolveAll(ProfilesOf(existing))
      && Get(DefaultOf(merged), NATIVE) == Get(DefaultOf(existing), NATIVE)
      && saved.Keys == ProfilesOf(existing).Keys
      && forall name :: name in saved ==> SameProfile(ProfilesOf(existing)[name], saved[name])
  {
    var shown := View(WithEnvAll(ResolveAll(ProfilesOf(existing)), env));
    ProvidersMerged(existing, Some(Registered(Get(DefaultOf(existing), NATIVE), shown)), None);
    SavingTheViewChangesNothing(ProfilesOf(existing), env);
  }
}
