/**
 * The text level of the OCI patcher, docker/build-trust-runtime/spec.go: decode,
 * patch, json.Marshal, and the two size bounds. The lexer and the marshaller
 * of Go's encoding/json are parameters; GoJson says what is relied on.
 */
module ConfigText {

  import opened GoJson
  import opened KeyedInjection
  import opened OciPatch
  import opened StrictJson
  import opened Wrappers

  // ---------------------------------------------------------------------
  // patchOCIConfig
  // ---------------------------------------------------------------------

  /** decodeQualifiedOCIConfig. */
  ghost function DecodedConfig(input: Bytes, bundlePath: string, lex: Lexer): Result<map<string, Value>> {
    if |input| == 0 || |input| > MAX_CONFIG_BYTES || !IsUtf8Text(input) || lex(input).None? then Err else
    var value := Decoded(lex(input).value);
    if value.Ok? && value.value.Object? && ValidEnvelope(value.value.fields, bundlePath)
    then Ok(value.value.fields)
    else Err
  }

  function EncodedConfig(spec: map<string, Value>, marshal: Marshaller): Result<Bytes> {
    if |marshal(Object(spec))| > MAX_CONFIG_BYTES then Err else Ok(marshal(Object(spec)) + NEWLINE)
  }

  ghost function PatchedText(input: Bytes, sources: seq<TrustSource>, bundlePath: string,
                             lex: Lexer, marshal: Marshaller): Result<Bytes>
  {
    var spec := DecodedConfig(input, bundlePath, lex);
    if spec.Err? then Err else
    var patched := Patched(spec.value, sources);
    if patched.Err? then Err else EncodedConfig(patched.value, marshal)
  }

  method PatchOCIConfig(input: Bytes, sources: seq<TrustSource>, bundlePath: string,
                        lex: Lexer, marshal: Marshaller) returns (r: Result<Bytes>)
    ensures r == PatchedText(input, sources, bundlePath, lex, marshal)
  {
    if |input| == 0 || |input| > MAX_CONFIG_BYTES { return Err; }
    if !IsUtf8Text(input) { return Err; }
    var tokens := lex(input);
    if tokens.None? { return Err; }
    var value := DecodeStrictJSON(tokens.value);
    if value.Err? || !value.value.Object? || !ValidEnvelope(value.value.fields, bundlePath) { return Err; }
    var patched := PatchQualified(value.value.fields, sources);
    if patched.Err? { return Err; }
    return EncodedConfig(patched.value, marshal);
  }

  predicate ShortSource(s: TrustSource) { |s.source| <= 4096 && |s.destination| <= 4096 }

  predicate ShortSources(sources: seq<TrustSource>) {
    forall i :: 0 <= i < |sources| ==> ShortSource(sources[i])
  }

  lemma TrustMountIsBounded(s: TrustSource, depth: nat)
    requires ShortSource(s) && depth <= 20
    ensures Bounded(TrustMount(s), depth)
  {
    MountValueIsBounded(s.destination, s.source, depth);
  }

  lemma MountValueIsBounded(destination: string, source: string, depth: nat)
    requires |destination| <= 4096 && |source| <= 4096 && depth <= 20
    ensures Bounded(MountValue(destination, "bind", source, BIND_OPTIONS), depth)
  {
    BindOptionsAreBounded(depth + 1);
    var f: map<string, Value> := map[];
    BoundedInsert(f, "destination", Str(destination), depth);
    f := f["destination" := Str(destination)];
    BoundedInsert(f, "type", Str("bind"), depth);
    f := f["type" := Str("bind")];
    BoundedInsert(f, "source", Str(source), depth);
    f := f["source" := Str(source)];
    BoundedInsert(f, "options", StringValues(BIND_OPTIONS), depth);
  }

  lemma BoundedInsert(fields: map<string, Value>, key: string, v: Value, depth: nat)
    requires Bounded(Object(fields), depth) && |fields| < MAX_OBJECT_FIELDS
    requires |key| <= MAX_STRING_BYTES && Bounded(v, depth + 1)
    ensures Bounded(Object(fields[key := v]), depth) && |fields[key := v]| <= |fields| + 1
  {
    assert fields[key := v].Keys == fields.Keys + {key};
    assert |fields[key := v]| == |fields[key := v].Keys|;
    if key !in fields.Keys {
      assert |fields.Keys + {key}| == |fields.Keys| + 1;
    } else {
      assert fields.Keys + {key} == fields.Keys;
    }
  }

  lemma BindOptionsAreBounded(depth: nat)
    requires depth <= 21
    ensures Bounded(StringValues(BIND_OPTIONS), depth)
  {
    BindOptionsAreValid();
    var o := StringValues(BIND_OPTIONS).items;
    assert forall i :: 0 <= i < |o| ==> o[i] in o;
  }

  /** Patching stays within the decoder's bounds. */
  lemma PatchStaysBounded(spec: map<string, Value>, sources: seq<TrustSource>, depth: nat)
    requires Bounded(Object(spec), depth) && depth <= 10 && Patched(spec, sources).Ok? && ShortSources(sources)
    ensures Bounded(Object(Patched(spec, sources).value), depth)
  {
    PatchedParts(spec, sources);
    BoundedRewrite(spec, PatchedEnv(EnvOf(spec)), MountsOf(spec), sources, depth);
  }

  predicate ShortStrings(xs: seq<Value>) {
    |xs| <= MAX_ARRAY_ITEMS && forall i :: 0 <= i < |xs| ==> xs[i].Str? && |xs[i].s| <= MAX_STRING_BYTES
  }

  lemma PatchedParts(spec: map<string, Value>, sources: seq<TrustSource>)
    requires Patched(spec, sources).Ok?
    ensures Patchable(spec) && ShortStrings(PatchedEnv(EnvOf(spec)))
    ensures |PatchedMounts(MountsOf(spec), sources)| <= MAX_MOUNTS
    ensures Patched(spec, sources).value
      == WithMounts(WithEnv(spec, PatchedEnv(EnvOf(spec))), PatchedMounts(MountsOf(spec), sources))
  {
    PatchedEnvironmentIsFixed(EnvOf(spec));
  }

  lemma BoundedRewrite(
    spec: map<string, Value>, env: seq<Value>, mounts: seq<Value>, sources: seq<TrustSource>, depth: nat)
    requires Bounded(Object(spec), depth) && depth <= 10 && Patchable(spec) && spec["mounts"].items == mounts
    requires ShortStrings(env) && |PatchedMounts(mounts, sources)| <= MAX_MOUNTS && ShortSources(sources)
    ensures Bounded(Object(WithMounts(WithEnv(spec, env), PatchedMounts(mounts, sources))), depth)
  {
    BoundedStrings(env, depth + 1 + 1);
    SpecMountsAreBounded(spec, mounts, sources, depth);
    BoundedLists(spec, env, PatchedMounts(mounts, sources), depth);
  }

  lemma BoundedStrings(xs: seq<Value>, depth: nat)
    requires ShortStrings(xs) && depth <= 20
    ensures Bounded(Array(xs), depth)
  {
  }

  lemma SpecMountsAreBounded(spec: map<string, Value>, mounts: seq<Value>, sources: seq<TrustSource>, depth: nat)
    requires Bounded(Object(spec), depth) && depth <= 10
    requires ArrayAt(spec, "mounts") && spec["mounts"].items == mounts
    requires |PatchedMounts(mounts, sources)| <= MAX_MOUNTS && ShortSources(sources)
    ensures Bounded(Array(PatchedMounts(mounts, sources)), depth + 1)
  {
    assert Bounded(spec["mounts"], depth + 1) by { BoundedAt(spec, "mounts", depth); }
    SomeMountsAreBounded(spec["mounts"], mounts, sources, depth + 1);
  }

  lemma SomeMountsAreBounded(v: Value, mounts: seq<Value>, sources: seq<TrustSource>, depth: nat)
    requires v.Array? && v.items == mounts && Bounded(v, depth) && depth <= 15
    requires |PatchedMounts(mounts, sources)| <= MAX_MOUNTS && ShortSources(sources)
    ensures Bounded(Array(PatchedMounts(mounts, sources)), depth)
  {
    ElementsAreBounded(v, depth);
    BoundedMounts(mounts, sources, depth);
  }

  lemma ElementsAreBounded(v: Value, depth: nat)
    requires v.Array? && Bounded(v, depth)
    ensures forall i :: 0 <= i < |v.items| ==> Bounded(v.items[i], depth + 1)
  {
  }

  lemma BoundedLists(spec: map<string, Value>, env: seq<Value>, mounts: seq<Value>, depth: nat)
    requires Bounded(Object(spec), depth) && Patchable(spec)
    requires Bounded(Array(env), depth + 1 + 1) && Bounded(Array(mounts), depth + 1)
    ensures Bounded(Object(WithMounts(WithEnv(spec, env), mounts)), depth)
  {
    BoundedProcess(spec, env, depth);
    BoundedUpdate(WithEnv(spec, env), "mounts", Array(mounts), depth);
  }

  lemma BoundedAt(fields: map<string, Value>, key: string, depth: nat)
    requires Bounded(Object(fields), depth) && key in fields
    ensures Bounded(fields[key], depth + 1)
  {
  }

  lemma BoundedProcess(spec: map<string, Value>, env: seq<Value>, depth: nat)
    requires Bounded(Object(spec), depth) && Patchable(spec) && Bounded(Array(env), depth + 1 + 1)
    ensures Bounded(Object(WithEnv(spec, env)), depth)
  {
    BoundedAt(spec, "process", depth);
    BoundedUpdate(spec["process"].fields, "env", Array(env), depth + 1);
    BoundedUpdate(spec, "process", Object(spec["process"].fields["env" := Array(env)]), depth);
  }

  lemma BoundedUpdate(fields: map<string, Value>, key: string, v: Value, depth: nat)
    requires Bounded(Object(fields), depth) && key in fields && Bounded(v, depth + 1)
    ensures Bounded(Object(fields[key := v]), depth)
  {
    assert fields[key := v].Keys == fields.Keys;
    assert |fields[key := v]| == |fields[key := v].Keys| == |fields.Keys|;
  }

  lemma BoundedMounts(mounts: seq<Value>, sources: seq<TrustSource>, depth: nat)
    requires (forall i :: 0 <= i < |mounts| ==> Bounded(mounts[i], depth + 1)) && depth <= 15
    requires |PatchedMounts(mounts, sources)| <= MAX_MOUNTS && ShortSources(sources)
    ensures Bounded(Array(PatchedMounts(mounts, sources)), depth)
  {
    var added := Missing(mounts, TrustMounts(sources));
    assert forall x :: x in added ==> Bounded(x, depth + 1) by {
      AddedMountsAreBounded(mounts, sources, depth + 1);
    }
    BoundedConcat(mounts, added, depth);
  }

  lemma AddedMountsAreBounded(mounts: seq<Value>, sources: seq<TrustSource>, depth: nat)
    requires ShortSources(sources) && depth <= 20
    ensures forall x :: x in Missing(mounts, TrustMounts(sources)) ==> Bounded(x, depth)
  {
    var wanted := TrustMounts(sources);
    MissingMembers(mounts, wanted);
    forall x | x in Missing(mounts, wanted) ensures Bounded(x, depth) {
      var k :| 0 <= k < |wanted| && wanted[k] == x;
      TrustMountIsBounded(sources[k], depth);
    }
  }

  lemma BoundedConcat(xs: seq<Value>, ys: seq<Value>, depth: nat)
    requires depth <= MAX_JSON_DEPTH && |xs| + |ys| <= MAX_ARRAY_ITEMS
    requires forall i :: 0 <= i < |xs| ==> Bounded(xs[i], depth + 1)
    requires forall y :: y in ys ==> Bounded(y, depth + 1)
    ensures Bounded(Array(xs + ys), depth)
  {
    forall i | 0 <= i < |xs + ys| ensures Bounded((xs + ys)[i], depth + 1) {
      if i < |xs| {
        assert Bounded(xs[i], depth + 1);
      } else {
        assert ys[i - |xs|] in ys;
        assert Bounded(ys[i - |xs|], depth + 1);
      }
    }
  }

  // ---------------------------------------------------------------------
  // Patching keeps values well formed
  // ---------------------------------------------------------------------

  predicate IsAscii(s: string) {
    forall i :: 0 <= i < |s| ==> s[i] < 128 as char
  }

  lemma AsciiIsUtf8(s: string)
    requires IsAscii(s)
    ensures IsUtf8(s)
  {
    AsciiTextIsUtf8(CodeOf(s));
  }

  lemma AsciiJoin(a: string, b: string)
    requires IsAscii(a) && IsAscii(b)
    ensures IsAscii(a + b)
  {
  }

  predicate Utf8Sources(sources: seq<TrustSource>) {
    forall i :: 0 <= i < |sources| ==> IsUtf8(sources[i].source) && IsUtf8(sources[i].destination)
  }

  lemma WellFormedUpdate(fields: map<string, Value>, key: string, v: Value)
    requires WellFormed(Object(fields)) && WellFormed(v) && IsUtf8(key)
    ensures WellFormed(Object(fields[key := v]))
  {
  }

  lemma WellFormedAt(fields: map<string, Value>, key: string)
    requires WellFormed(Object(fields)) && key in fields
    ensures WellFormed(fields[key]) && IsUtf8(key)
  {
  }

  lemma WellFormedStrings(xs: seq<string>)
    requires forall x :: x in xs ==> IsAscii(x)
    ensures WellFormed(StringValues(xs))
  {
    forall i | 0 <= i < |xs| ensures WellFormed(StringValues(xs).items[i]) {
      AsciiIsUtf8(xs[i]);
    }
  }

  lemma BindOptionsAreAscii(x: string)
    requires x in BIND_OPTIONS
    ensures IsAscii(x)
  {
  }

  lemma MountKeyIsAscii(key: string)
    requires key in {"destination", "type", "source", "options", "bind"}
    ensures IsAscii(key)
  {
  }

  lemma TrustMountIsWellFormed(s: TrustSource)
    requires IsUtf8(s.source) && IsUtf8(s.destination)
    ensures WellFormed(TrustMount(s))
  {
    forall x | x in BIND_OPTIONS ensures IsAscii(x) { BindOptionsAreAscii(x); }
    WellFormedStrings(BIND_OPTIONS);
    var bind := "bind";
    MountKeyIsAscii(bind);
    AsciiIsUtf8(bind);
    MountIsWellFormed(Str(s.destination), Str(bind), Str(s.source), StringValues(BIND_OPTIONS));
  }

  lemma MountIsWellFormed(destination: Value, mountType: Value, source: Value, options: Value)
    requires WellFormed(destination) && WellFormed(mountType) && WellFormed(source) && WellFormed(options)
    ensures WellFormed(Object(
      map["destination" := destination, "type" := mountType, "source" := source, "options" := options]))
  {
    var fields := map["destination" := destination, "type" := mountType, "source" := source, "options" := options];
    forall key | key in fields ensures IsUtf8(key) && WellFormed(fields[key]) {
      MountKeyIsAscii(key);
      AsciiIsUtf8(key);
    }
  }

  lemma NamesAreAscii(s: string)
    requires IsEnvName(s)
    ensures IsAscii(s)
  {
    forall i | 0 <= i < |s| ensures s[i] < 128 as char {
      assert IsAlpha(s[i]) || IsDigit(s[i]) || s[i] == '_';
    }
  }

  lemma InjectedValuesAreAscii()
    ensures IsAscii("/dev/ironcurtain/ca-cert.pem") && IsAscii(CA_BUNDLE) && IsAscii("/dev/ironcurtain/apt.conf")
    ensures IsAscii("false") && IsAscii("1")
  {
  }

  lemma InjectedIsAscii(i: nat)
    requires i < |INJECTED_ENVIRONMENT|
    ensures IsAscii(INJECTED_ENVIRONMENT[i].name) && IsAscii(INJECTED_ENVIRONMENT[i].value)
  {
    InjectedAreInjectable(i);
    NamesAreAscii(INJECTED_ENVIRONMENT[i].name);
    InjectedValuesAreAscii();
  }

  lemma InjectedTextIsUtf8(i: nat)
    requires i < |INJECTED_ENVIRONMENT|
    ensures IsUtf8(INJECTED_ENVIRONMENT[i].Text())
  {
    InjectedIsAscii(i);
    JoinedIsUtf8(INJECTED_ENVIRONMENT[i]);
  }

  lemma JoinedIsUtf8(a: Assignment)
    requires IsAscii(a.name) && IsAscii(a.value)
    ensures IsUtf8(a.Text())
  {
    AsciiJoin(a.name, "=");
    AsciiJoin(a.name + "=", a.value);
    AsciiIsUtf8(a.Text());
  }

  lemma WantedIsWellFormed(v: Value)
    requires v in WANTED_ENVIRONMENT
    ensures WellFormed(v)
  {
    WantedEnvironmentIsValid();
    var i :| 0 <= i < |WANTED_ENVIRONMENT| && WANTED_ENVIRONMENT[i] == v;
    InjectedTextIsUtf8(i);
  }

  lemma WellFormedList(present: seq<Value>, wanted: seq<Value>)
    requires WellFormed(Array(present)) && forall v :: v in wanted ==> WellFormed(v)
    ensures WellFormed(Array(present + Missing(present, wanted)))
  {
    MissingMembers(present, wanted);
    var all := present + Missing(present, wanted);
    forall i | 0 <= i < |all| ensures WellFormed(all[i]) {
      if i < |present| {
        assert WellFormed(Array(present).items[i]);
      } else {
        assert all[i] in Missing(present, wanted);
      }
    }
  }

  lemma PatchedListsAreWellFormed(spec: map<string, Value>, sources: seq<TrustSource>)
    requires WellFormed(Object(spec)) && Patchable(spec) && Utf8Sources(sources)
    ensures WellFormed(Array(PatchedEnv(EnvOf(spec)))) && WellFormed(Array(PatchedMounts(MountsOf(spec), sources)))
  {
    WellFormedAt(spec, "process");
    WellFormedAt(spec["process"].fields, "env");
    WellFormedAt(spec, "mounts");
    assert Array(EnvOf(spec)) == spec["process"].fields["env"] && Array(MountsOf(spec)) == spec["mounts"];
    forall v | v in WANTED_ENVIRONMENT ensures WellFormed(v) { WantedIsWellFormed(v); }
    WellFormedList(EnvOf(spec), WANTED_ENVIRONMENT);
    forall v | v in TrustMounts(sources) ensures WellFormed(v) {
      var k :| 0 <= k < |sources| && TrustMounts(sources)[k] == v;
      TrustMountIsWellFormed(sources[k]);
    }
    WellFormedList(MountsOf(spec), TrustMounts(sources));
  }

  lemma WellFormedRewrite(spec: map<string, Value>, env: seq<Value>, mounts: seq<Value>)
    requires WellFormed(Object(spec)) && Patchable(spec) && WellFormed(Array(env)) && WellFormed(Array(mounts))
    ensures WellFormed(Object(WithMounts(WithEnv(spec, env), mounts)))
  {
    WellFormedAt(spec, "process");
    WellFormedAt(spec["process"].fields, "env");
    WellFormedAt(spec, "mounts");
    WellFormedUpdate(spec["process"].fields, "env", Array(env));
    WellFormedUpdate(spec, "process", Object(spec["process"].fields["env" := Array(env)]));
    WellFormedUpdate(WithEnv(spec, env), "mounts", Array(mounts));
  }

  /** Patching a well-formed config with sources in UTF-8 leaves it well formed. */
  lemma PatchStaysWellFormed(spec: map<string, Value>, sources: seq<TrustSource>)
    requires WellFormed(Object(spec)) && Patched(spec, sources).Ok? && Utf8Sources(sources)
    ensures WellFormed(Object(Patched(spec, sources).value))
  {
    PatchedListsAreWellFormed(spec, sources);
    WellFormedRewrite(spec, PatchedEnv(EnvOf(spec)), PatchedMounts(MountsOf(spec), sources));
  }

  lemma ProductionRootsAreAscii()
    ensures IsAscii(TRUST_ROOT) && IsAscii(DEVICE_ROOT)
    ensures IsAscii("ca-cert.pem") && IsAscii("ca-bundle.pem") && IsAscii("apt.conf")
  {
  }

  /** The three production sources are in UTF-8. */
  lemma ProductionSourcesAreUtf8()
    ensures Utf8Sources(PRODUCTION_SOURCES)
  {
    ProductionRootsAreAscii();
    forall i | 0 <= i < |PRODUCTION_SOURCES|
      ensures IsUtf8(PRODUCTION_SOURCES[i].source) && IsUtf8(PRODUCTION_SOURCES[i].destination)
    {
      AsciiIsUtf8(PRODUCTION_SOURCES[i].source);
      AsciiIsUtf8(PRODUCTION_SOURCES[i].destination);
    }
  }

  // ---------------------------------------------------------------------
  // Patching twice
  // ---------------------------------------------------------------------

  /**
   * Patching a patched file: the output is reproduced byte for byte exactly when it
   * is within the size bound. The newline can put it one byte beyond, and then it is refused.
   */
  lemma PatchTextTwice(input: Bytes, sources: seq<TrustSource>, bundlePath: string,
                       lex: Lexer, marshal: Marshaller)
    requires LexesWell(lex) && ReadsBack(lex, marshal) && ValidSources(sources) && Utf8Sources(sources)
    requires PatchedText(input, sources, bundlePath, lex, marshal).Ok?
    ensures var out := PatchedText(input, sources, bundlePath, lex, marshal).value;
      && 0 < |out| <= MAX_CONFIG_BYTES + 1
      && (PatchedText(out, sources, bundlePath, lex, marshal) == Ok(out) <==> |out| <= MAX_CONFIG_BYTES)
      && (PatchedText(out, sources, bundlePath, lex, marshal) == Err <==> |out| == MAX_CONFIG_BYTES + 1)
  {
    var spec := DecodedConfig(input, bundlePath, lex).value;
    var patched := Patched(spec, sources).value;
    DecodedConfigIsSound(input, bundlePath, lex);
    assert ShortSources(sources);
    PatchStaysBounded(spec, sources, 0);
    PatchStaysWellFormed(spec, sources);
    PatchKeepsEnvelope(spec, sources, bundlePath);
    EncodedDecodes(patched, bundlePath, lex, marshal);
    PatchIsIdempotent(spec, sources);
  }

  lemma DecodedConfigIsSound(input: Bytes, bundlePath: string, lex: Lexer)
    requires DecodedConfig(input, bundlePath, lex).Ok? && LexesWell(lex)
    ensures var spec := DecodedConfig(input, bundlePath, lex).value;
      WellFormed(Object(spec)) && Bounded(Object(spec), 0) && ValidEnvelope(spec, bundlePath)
  {
    DecodedIsWellFormed(lex(input).value);
  }

  lemma EncodedDecodes(spec: map<string, Value>, bundlePath: string, lex: Lexer, marshal: Marshaller)
    requires ReadsBack(lex, marshal) && WellFormed(Object(spec)) && Bounded(Object(spec), 0)
    requires ValidEnvelope(spec, bundlePath)
    ensures var out := marshal(Object(spec)) + NEWLINE;
      DecodedConfig(out, bundlePath, lex) == if |out| <= MAX_CONFIG_BYTES then Ok(spec) else Err
  {
    MarshalThenDecode(Object(spec), lex, marshal);
  }
}
