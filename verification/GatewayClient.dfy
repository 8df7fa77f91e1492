/**
 * Which model a request ends up with: src/config/provider-definitions.ts (resolveGatewayModel),
 * src/config/gateway-client.ts and the model step of src/docker/gateway-runtime.ts. Either the
 * client or the proxy owns the mapping; together they must map each request once.
 */
module GatewayClient {

  import opened ModelMapping
  import opened Wrappers

  // ---------------------------------------------------------------------
  // Model identifiers
  // ---------------------------------------------------------------------

  const KNOWN_PROVIDERS := {"anthropic", "google", "openai"}

  /** parseModelId(text).modelId: a known provider's prefix is dropped, and nothing may not follow it. */
  function ModelId(text: string): Result<string> {
    var n := IndexOf(text, ':');
    if n == |text| || text[..n] !in KNOWN_PROVIDERS then Ok(text)
    else if text[n + 1..] == "" then Err
    else Ok(text[n + 1..])
  }

  // ---------------------------------------------------------------------
  // Profiles and definitions
  // ---------------------------------------------------------------------

  datatype Agent = ClaudeCode | Goose | Codex

  datatype Protocol = Messages | Responses | Chat

  datatype Profile = Profile(modelMap: seq<Rule>, perAgent: map<Agent, string>, model: Option<string>)

  datatype Owner = Client | Proxy

  datatype Policy = Omit | ProfileDefault | Requested | RequestedOrDefault

  datatype Definition = Definition(
    owner: Owner, policies: Protocol -> Policy, aliasRequested: bool, defaultModel: Profile -> string)

  datatype Source = PerAgent | Map | AsRequested | Default

  datatype Selection = Selection(requested: string, selected: string, source: Source)

  /** A missing request and an empty one are treated alike. */
  predicate Asked(requested: string) { requested != "" }

  function Override(profile: Profile, agent: Option<Agent>): Option<string> {
    if agent.Some? && agent.value in profile.perAgent then Some(profile.perAgent[agent.value]) else None
  }

  function Or(a: Option<string>, b: string): string { if a.Some? then a.value else b }

  /** resolveGatewayModel, once the candidate is known. */
  function Select(
    profile: Profile, candidate: string, asked: bool, agent: Option<Agent>, fallback: Option<string>): Selection
  {
    var override := Override(profile, agent);
    var mapped := if override.Some? then None else Mapped(candidate, profile.modelMap);
    Selection(
      candidate,
      if override.Some? then override.value else Or(mapped, Or(fallback, candidate)),
      if override.Some? then PerAgent
      else if mapped.Some? then Map
      else if fallback.Some? || !asked then Default
      else AsRequested)
  }

  function ResolveGatewayModel(
    profile: Profile, definition: Definition, requested: string,
    agent: Option<Agent>, fallback: Option<string>, wireId: bool): Result<Selection>
  {
    if !Asked(requested) then
      Ok(Select(profile, definition.defaultModel(profile), false, agent, fallback))
    else if wireId then
      Ok(Select(profile, requested, true, agent, fallback))
    else match ModelId(requested)
      case Err => Err
      case Ok(id) => Ok(Select(profile, id, true, agent, fallback))
  }

  /** The selection a request means, before anything is sent. */
  function DirectSelection(
    profile: Profile, definition: Definition, protocol: Protocol, agent: Agent, requested: string): Result<Selection>
  {
    var fallback := definition.defaultModel(profile);
    var policy := definition.policies(protocol);
    ResolveGatewayModel(
      profile, definition, if policy.ProfileDefault? then fallback else requested, Some(agent),
      if policy.RequestedOrDefault? then Some(fallback) else None, false)
  }

  /** clientModel: the identifier the client is told to send, if any. */
  function ClientModel(
    profile: Profile, definition: Definition, protocol: Protocol, agent: Agent,
    requested: string): Result<Option<string>>
  {
    if definition.policies(protocol).Omit? then Ok(None)
    else match DirectSelection(profile, definition, protocol, agent, requested)
      case Err => Err
      case Ok(s) => Ok(Some(
        if definition.owner.Client? then s.selected
        else if s.source.Default? then definition.defaultModel(profile)
        else s.requested))
  }

  /** What the proxy sends on for an identifier it receives. */
  function ProxyModel(
    profile: Profile, definition: Definition, agent: Agent, received: string, auxiliary: set<string>): string
  {
    if definition.owner.Proxy? || received in auxiliary then
      var fallback := if definition.owner.Client? then Some(definition.defaultModel(profile)) else None;
      ResolveGatewayModel(profile, definition, received, Some(agent), fallback, true).value.selected
    else
      received
  }

  // ---------------------------------------------------------------------
  // Once end to end
  // ---------------------------------------------------------------------

  /** A rule maps this identifier to another one. */
  predicate Remaps(rules: seq<Rule>, id: string) {
    Mapped(id, rules).Some? && Mapped(id, rules).value != id
  }

  /**
   * The requests that fail, told before anything is resolved: under the policy with a fallback, an identifier
   * that neither an override nor a rule answers, while a rule maps the fallback itself elsewhere.
   */
  predicate FallsBackToRemapped(
    profile: Profile, definition: Definition, protocol: Protocol, agent: Agent, requested: string)
  {
    && definition.policies(protocol).RequestedOrDefault?
    && Asked(requested) && ModelId(requested).Ok?
    && agent !in profile.perAgent
    && Mapped(ModelId(requested).value, profile.modelMap).None?
    && Remaps(profile.modelMap, definition.defaultModel(profile))
  }

  /** An identifier that was parsed once is received as it is. */
  lemma ParsedIdIsKept(text: string)
    requires Asked(text)
    ensures ModelId(text).Ok? ==> Asked(ModelId(text).value)
  {
  }

  /**
   * Proxy-owned: what the client emits is resolved by the proxy to the model the original
   * request means, exactly unless the request falls back to a default that a rule maps elsewhere.
   */
  lemma ProxyMapsOnce(
    profile: Profile, definition: Definition, protocol: Protocol, agent: Agent, requested: string,
    auxiliary: set<string>)
    requires definition.owner.Proxy? && !definition.policies(protocol).Omit?
    ensures var direct := DirectSelection(profile, definition, protocol, agent, requested);
      var emitted := ClientModel(profile, definition, protocol, agent, requested);
      && (emitted.Err? <==> direct.Err?)
      && (direct.Ok? ==>
            && emitted.value.Some?
            && (ProxyModel(profile, definition, agent, emitted.value.value, auxiliary) == direct.value.selected
                <==> !FallsBackToRemapped(profile, definition, protocol, agent, requested)))
  {
    var fallback := definition.defaultModel(profile);
    var asked := if definition.policies(protocol).ProfileDefault? then fallback else requested;
    if Asked(asked) { ParsedIdIsKept(asked); }
  }

  /** An identifier that a client-owned gateway's proxy, resolving it again, leaves as it is. */
  predicate KeptWhenResolvedAgain(profile: Profile, definition: Definition, agent: Agent, id: string) {
    var fallback := definition.defaultModel(profile);
    var mapped := Mapped(if Asked(id) then id else fallback, profile.modelMap);
    if agent in profile.perAgent then id == profile.perAgent[agent]
    else if mapped.Some? then id == mapped.value
    else id == fallback
  }

  /** An auxiliary identifier is resolved again with the default as its fallback; any other is passed on. */
  lemma ClientOwnedProxyKeeps(
    profile: Profile, definition: Definition, agent: Agent, id: string, auxiliary: set<string>)
    requires definition.owner.Client?
    ensures ProxyModel(profile, definition, agent, id, auxiliary) == id
      <==> id in auxiliary ==> KeptWhenResolvedAgain(profile, definition, agent, id)
  {
  }

  /**
   * Client-owned: the emitted identifier is the selection. The proxy passes it on unless it is an auxiliary
   * identifier, which it resolves again: then it stays for an override, and otherwise only if the rules map
   * it to itself or, matching none, leave it to a default that it is.
   */
  lemma ClientMapsOnce(
    profile: Profile, definition: Definition, protocol: Protocol, agent: Agent, requested: string,
    auxiliary: set<string>)
    requires definition.owner.Client? && !definition.policies(protocol).Omit?
    ensures var direct := DirectSelection(profile, definition, protocol, agent, requested);
      var emitted := ClientModel(profile, definition, protocol, agent, requested);
      && (emitted.Err? <==> direct.Err?)
      && (direct.Ok? ==>
            && emitted.value == Some(direct.value.selected)
            && (ProxyModel(profile, definition, agent, emitted.value.value, auxiliary) == direct.value.selected
                <==> agent in profile.perAgent || direct.value.selected !in auxiliary
                     || KeptWhenResolvedAgain(profile, definition, agent, direct.value.selected)))
  {
    var direct := DirectSelection(profile, definition, protocol, agent, requested);
    if direct.Ok? {
      ClientOwnedProxyKeeps(profile, definition, agent, direct.value.selected, auxiliary);
    }
  }

  /** In terms of the selection: the fallback was taken, and a rule maps it elsewhere. */
  lemma FallsBackIffDefaultSource(
    profile: Profile, definition: Definition, protocol: Protocol, agent: Agent, requested: string)
    ensures var direct := DirectSelection(profile, definition, protocol, agent, requested);
      FallsBackToRemapped(profile, definition, protocol, agent, requested)
      <==> direct.Ok? && direct.value.source.Default? && Remaps(profile.modelMap, definition.defaultModel(profile))
  {
  }

  /** resolveGatewayCommandModel. */
  function CommandModel(profile: Profile, definition: Definition, requested: string, agent: Agent): Result<string> {
    if definition.owner.Proxy? then ModelId(requested)
    else match ResolveGatewayModel(profile, definition, requested, Some(agent), None, false)
      case Err => Err
      case Ok(s) => Ok(s.selected)
  }

  /** A command's model, too, is mapped once for a proxy-owned gateway. */
  lemma CommandMapsOnce(
    profile: Profile, definition: Definition, requested: string, agent: Agent, auxiliary: set<string>)
    requires definition.owner.Proxy?
    ensures var direct := ResolveGatewayModel(profile, definition, requested, Some(agent), None, false);
      var sent := CommandModel(profile, definition, requested, agent);
      && (sent.Err? <==> direct.Err?)
      && (sent.Ok? ==> ProxyModel(profile, definition, agent, sent.value, auxiliary) == direct.value.selected)
  {
    if Asked(requested) { ParsedIdIsKept(requested); }
  }

  lemma OneLetterGlob(c: char, d: char, model: string)
    requires c != '*'
    ensures Hits(Rule([c], model), [d]) <==> Fold(c) == Fold(d)
  {
    var glob := [c];
    var pattern := Atoms(glob);
    assert glob[1..] == "" && glob[0] == c;
    assert pattern == [Letter(c)] + Atoms(glob[1..]);
    assert pattern == [Letter(c)];
    assert pattern[1..] == [] && [d][1..] == "";
    assert Test(pattern, [d]) <==> Fold(d) == Fold(c) && Test(pattern[1..], [d][1..]);
  }

  /** Sending the selected identifier instead would map some requests twice. */
  lemma SelectedIdWouldMapTwice() returns (profile: Profile, once: Selection, twice: Selection)
    ensures once == Select(profile, "a", true, None, None)
    ensures twice == Select(profile, once.selected, true, None, None)
    ensures once.selected != twice.selected
  {
    var first, second := Rule("a", "b"), Rule("b", "c");
    profile := Profile([first, second], map[], None);
    OneLetterGlob('a', 'a', "b");
    OneLetterGlob('a', 'b', "b");
    OneLetterGlob('b', 'b', "c");
    FirstHitWins("a", profile.modelMap, 0);
    FirstHitWins("b", profile.modelMap, 1);
    once := Select(profile, "a", true, None, None);
    assert once.selected == "b";
    twice := Select(profile, "b", true, None, None);
    assert twice.selected == "c";
    assert "b"[0] != "c"[0];
  }

  // ---------------------------------------------------------------------
  // Claude's aliases
  // ---------------------------------------------------------------------

  datatype Tier = Sonnet | Opus | Haiku

  function TierModel(tier: Tier): string {
    match tier case Sonnet => "claude-sonnet" case Opus => "claude-opus" case Haiku => "claude-haiku"
  }

  function TierSelection(profile: Profile, tier: Tier): Selection {
    Select(profile, TierModel(tier), true, Some(ClaudeCode), None)
  }

  predicate HasAlias(profile: Profile, definition: Definition, tier: Tier) {
    var source := TierSelection(profile, tier).source;
    definition.aliasRequested || source.Map? || source.PerAgent?
  }

  /** What a tier's alias would be. */
  function AliasModel(profile: Profile, definition: Definition, tier: Tier): string {
    if definition.owner.Client? then TierSelection(profile, tier).selected else TierModel(tier)
  }

  method TierAlias(profile: Profile, definition: Definition, tier: Tier) returns (alias: Option<string>)
    ensures alias == if HasAlias(profile, definition, tier) then Some(AliasModel(profile, definition, tier)) else None
  {
    TierIdsAreBare(tier);
    var resolved := ResolveGatewayModel(profile, definition, TierModel(tier), Some(ClaudeCode), None, false);
    var selection := resolved.value;
    if definition.aliasRequested || selection.source.Map? || selection.source.PerAgent? {
      return Some(if definition.owner.Client? then selection.selected else selection.requested);
    }
    return None;
  }

  /** The loop of resolveMessagesClient. */
  method MessagesAliases(profile: Profile, definition: Definition) returns (aliases: map<Tier, string>)
    ensures forall tier :: tier in aliases <==> HasAlias(profile, definition, tier)
    ensures forall tier :: tier in aliases ==> aliases[tier] == AliasModel(profile, definition, tier)
  {
    aliases := map[];
    var tiers := [Sonnet, Opus, Haiku];
    for i := 0 to |tiers|
      invariant forall tier :: tier in aliases <==> tier in tiers[..i] && HasAlias(profile, definition, tier)
      invariant forall tier :: tier in aliases ==> aliases[tier] == AliasModel(profile, definition, tier)
    {
      var alias := TierAlias(profile, definition, tiers[i]);
      if alias.Some? { aliases := aliases[tiers[i] := alias.value]; }
      assert tiers[..i + 1] == tiers[..i] + [tiers[i]];
    }
    assert tiers[..|tiers|] == tiers;
    forall tier: Tier ensures tier in tiers {
      match tier
      case Sonnet => assert tiers[0] == tier;
      case Opus => assert tiers[1] == tier;
      case Haiku => assert tiers[2] == tier;
    }
  }

  lemma TierIdsAreBare(tier: Tier)
    ensures ModelId(TierModel(tier)) == Ok(TierModel(tier)) && Asked(TierModel(tier))
  {
    var text := TierModel(tier);
    assert forall i :: 0 <= i < |text| ==> text[i] != ':';
    assert IndexOf(text, ':') == |text|;
  }

  /**
   * An alias the client is given ends at the model its tier means: for a proxy-owned gateway always, for a
   * client-owned one exactly unless it is an auxiliary identifier that does not survive being resolved again.
   * A tier without an alias is not mapped.
   */
  lemma AliasesMapOnce(profile: Profile, definition: Definition, tier: Tier, auxiliary: set<string>)
    ensures var alias := AliasModel(profile, definition, tier);
      ProxyModel(profile, definition, ClaudeCode, alias, auxiliary) == TierSelection(profile, tier).selected
      <==> definition.owner.Proxy? || alias !in auxiliary
           || KeptWhenResolvedAgain(profile, definition, ClaudeCode, alias)
    ensures !HasAlias(profile, definition, tier) ==> TierSelection(profile, tier).selected == TierModel(tier)
  {
    TierIdsAreBare(tier);
    if definition.owner.Client? {
      ClientOwnedProxyKeeps(profile, definition, ClaudeCode, AliasModel(profile, definition, tier), auxiliary);
    }
  }

  // ---------------------------------------------------------------------
  // The built-in proxy-owned gateway
  // ---------------------------------------------------------------------

  const OPENROUTER_DEFAULT := "z-ai/glm-5.3"
  const OPENROUTER_FLASH := "z-ai/glm-5.3-flash"

  const OPENROUTER_DEFAULT_MAP :=
    [Rule("*opus*", OPENROUTER_DEFAULT), Rule("*sonnet*", OPENROUTER_FLASH), Rule("*haiku*", OPENROUTER_FLASH)]

  const OPENROUTER := Definition(
    Proxy,
    (p: Protocol) => match p case Messages => Omit case Responses => ProfileDefault case Chat => RequestedOrDefault,
    false,
    (p: Profile) => OPENROUTER_DEFAULT)

  predicate Lacks(name: string, c: char) {
    forall i :: 0 <= i < |name| ==> Fold(name[i]) != Fold(c)
  }

  /** A glob with a letter that the name lacks does not match it. */
  lemma MissesLetter(rule: Rule, name: string, c: char)
    requires c in rule.glob && c != '*' && Lacks(name, c)
    ensures !Hits(rule, name)
  {
    LetterInAtoms(rule.glob, c);
    if Hits(rule, name) { LetterIsNeeded(Atoms(rule.glob), name, c); }
  }

  lemma {:induction false} LetterInAtoms(glob: string, c: char)
    requires c in glob && c != '*'
    ensures Letter(c) in Atoms(glob)
  {
    if glob[0] != c { LetterInAtoms(glob[1..], c); }
  }

  lemma UnmappedByDefault(name: string, rules: seq<Rule>)
    requires |rules| == 3 && 'o' in rules[0].glob && 'o' in rules[1].glob && 'k' in rules[2].glob
    requires Lacks(name, 'o') && Lacks(name, 'k')
    ensures Mapped(name, rules) == None
  {
    MissesLetter(rules[0], name, 'o');
    MissesLetter(rules[1], name, 'o');
    MissesLetter(rules[2], name, 'k');
    NoHitNoModel(name, rules);
  }

  lemma DefaultMapLetters()
    ensures var rules := OPENROUTER_DEFAULT_MAP;
      |rules| == 3 && 'o' in rules[0].glob && 'o' in rules[1].glob && 'k' in rules[2].glob
    ensures Lacks(OPENROUTER_DEFAULT, 'o') && Lacks(OPENROUTER_DEFAULT, 'k')
  {
    var rules := OPENROUTER_DEFAULT_MAP;
    assert rules[0].glob[1] == 'o' && rules[1].glob[2] == 'o' && rules[2].glob[4] == 'k';
  }

  /** With its default map the built-in gateway never remaps its fallback, so it maps once for every request. */
  lemma DefaultMapMapsOnce(
    profile: Profile, definition: Definition, protocol: Protocol, agent: Agent, requested: string,
    auxiliary: set<string>)
    requires definition == OPENROUTER && profile.modelMap == OPENROUTER_DEFAULT_MAP && !protocol.Messages?
    ensures var direct := DirectSelection(profile, definition, protocol, agent, requested);
      var emitted := ClientModel(profile, definition, protocol, agent, requested);
      direct.Ok? ==> (emitted.Ok? && emitted.value.Some?
        && ProxyModel(profile, definition, agent, emitted.value.value, auxiliary) == direct.value.selected)
  {
    DefaultMapLetters();
    UnmappedByDefault(definition.defaultModel(profile), profile.modelMap);
    ProxyMapsOnce(profile, definition, protocol, agent, requested, auxiliary);
  }

  lemma {:induction false} RunTakesAll(rest: string)
    requires forall i :: 0 <= i < |rest| ==> !EndsLine(rest[i])
    ensures Test([Run], rest)
  {
    if rest != "" { RunTakesAll(rest[1..]); }
  }

  /** A prefix followed by a star matches every continuation on one line. */
  lemma {:induction false} PrefixHits(prefix: string, rest: string)
    requires '*' !in prefix && forall i :: 0 <= i < |rest| ==> !EndsLine(rest[i])
    ensures Test(Atoms(prefix + "*"), prefix + rest)
    decreases |prefix|
  {
    if prefix == "" {
      assert "" + "*" == "*" && "" + rest == rest && "*"[1..] == "";
      assert Atoms("*") == [Run] + Atoms("");
      assert Atoms("*") == [Run];
      RunTakesAll(rest);
    } else {
      PrefixHits(prefix[1..], rest);
      var glob, name := prefix + "*", prefix + rest;
      assert glob[1..] == prefix[1..] + "*" && name[1..] == prefix[1..] + rest;
      assert prefix[0] in prefix && Atoms(glob)[0] == Letter(prefix[0]) && Atoms(glob)[1..] == Atoms(glob[1..]);
    }
  }

  const VENDOR_MAP := [Rule("z-ai/" + "*", "x")]

  lemma VendorRuleHitsTheFallback()
    ensures Mapped(OPENROUTER_DEFAULT, VENDOR_MAP) == Some("x")
  {
    var prefix, rest := "z-ai/", "glm-5.3";
    PrefixHits(prefix, rest);
    assert prefix + rest == OPENROUTER_DEFAULT;
    FirstHitWins(OPENROUTER_DEFAULT, VENDOR_MAP, 0);
  }

  lemma VendorRuleMisses(name: string)
    requires Lacks(name, 'z')
    ensures Mapped(name, VENDOR_MAP).None?
  {
    assert VENDOR_MAP[0].glob[0] == 'z';
    MissesLetter(VENDOR_MAP[0], name, 'z');
    NoHitNoModel(name, VENDOR_MAP);
  }

  /**
   * The failure at the built-in gateway: with one rule for its own vendor, a chat request that no rule
   * matches falls back to the default model, which the proxy then maps to "x".
   */
  lemma VendorRuleRemapsTheFallback(requested: string, definition: Definition, agent: Agent)
    returns (profile: Profile, direct: Selection)
    requires definition == OPENROUTER && Asked(requested) && ':' !in requested && Lacks(requested, 'z')
    ensures profile == Profile(VENDOR_MAP, map[], None)
    ensures DirectSelection(profile, definition, Chat, agent, requested) == Ok(direct)
    ensures direct.selected == OPENROUTER_DEFAULT
    ensures ClientModel(profile, definition, Chat, agent, requested) == Ok(Some(OPENROUTER_DEFAULT))
    ensures ProxyModel(profile, definition, agent, OPENROUTER_DEFAULT, {}) == "x"
  {
    profile := Profile(VENDOR_MAP, map[], None);
    VendorRuleHitsTheFallback();
    VendorRuleMisses(requested);
    assert IndexOf(requested, ':') == |requested|;
    direct := Select(profile, requested, true, Some(agent), Some(OPENROUTER_DEFAULT));
  }
}
