/**
 * A config that the patcher of docker/build-trust-runtime/spec.go accepts, and the boundary case of its
 * size bound: an output that fills the bound gets a newline on top and is refused the next time.
 */
module BoundaryConfig {

  import opened ConfigText
  import opened GoJson
  import opened OciPatch
  import opened QualifiedConfig
  import opened StrictJson
  import opened Wrappers

  // ---------------------------------------------------------------------
  // A lexer and a marshaller with one short and one full text
  // ---------------------------------------------------------------------

  const SHORT_TEXT: Bytes := [0]

  function FullText(): (text: Bytes)
    ensures |text| == MAX_CONFIG_BYTES && IsAsciiText(text) && text[0] == 0
  {
    seq(MAX_CONFIG_BYTES, _ => 0)
  }

  /** The short text stands for `before`, the full one for `after`; all others are plain. */
  ghost function TunedLex(before: Value, after: Value, text: Bytes): Option<seq<Token>> {
    if text == SHORT_TEXT then Some(Write(Marshalled(before), []))
    else if text == FullText() + NEWLINE then Some(Write(Marshalled(after), []))
    else PlainLex(text)
  }

  ghost function TunedMarshal(after: Value, v: Value): Bytes {
    if v == after then FullText() else PlainMarshal(v)
  }

  lemma PlainTextStartsOtherwise(v: Value)
    ensures var text := PlainMarshal(v) + NEWLINE; text != [] && text[0] != 0
  {
    var ts := Write(Marshalled(v), []);
    WriteFirst(Marshalled(v), []);
    PlainTokenFirst(ts[0], PlainTokens(ts[1..], []));
  }

  lemma MarshalledReadsBack(v: Value)
    requires WellFormed(v) && Bounded(v, 0)
    ensures ReadBack(Some(Write(Marshalled(v), [])), v) && WellFormedTokens(Write(Marshalled(v), []))
  {
    MarshalledMeans(v);
    MarshalledBounds(v, 0);
    MarshalledIsWellFormed(v);
    WritesWellFormed(Marshalled(v), []);
    assert Writes(Marshalled(v), v);
  }

  lemma TunedPairIsSound(before: Value, after: Value) returns (input: Bytes, lex: Lexer, marshal: Marshaller)
    requires WellFormed(before) && Bounded(before, 0) && WellFormed(after) && Bounded(after, 0)
    ensures LexesWell(lex) && ReadsBack(lex, marshal)
    ensures |input| == 1 && IsUtf8Text(input) && lex(input) == Some(Write(Marshalled(before), []))
    ensures |marshal(after)| == MAX_CONFIG_BYTES
  {
    input := SHORT_TEXT;
    AsciiTextIsUtf8(input);
    lex, marshal := text => TunedLex(before, after, text), v => TunedMarshal(after, v);
    MarshalledReadsBack(before);
    MarshalledReadsBack(after);
    forall v | WellFormed(v) && Bounded(v, 0) ensures TextReadsBack(lex, marshal(v) + NEWLINE, v) {
      TunedReadsBack(before, after, v, lex);
    }
  }

  lemma TunedReadsBack(before: Value, after: Value, v: Value, lex: Lexer)
    requires WellFormed(v) && Bounded(v, 0) && forall text :: lex(text) == TunedLex(before, after, text)
    ensures TextReadsBack(lex, TunedMarshal(after, v) + NEWLINE, v)
  {
    var text := TunedMarshal(after, v) + NEWLINE;
    if v == after {
      assert |text| == MAX_CONFIG_BYTES + 1;
      MarshalledReadsBack(v);
      AsciiTextIsUtf8(text);
    } else {
      PlainTextStartsOtherwise(v);
      PlainReadsBack(v);
      assert (FullText() + NEWLINE)[0] == 0;
      assert lex(text) == PlainLex(text);
    }
  }

  lemma TextOfConfig(spec: map<string, Value>, bundlePath: string, input: Bytes, lex: Lexer)
    requires Bounded(Object(spec), 0) && ValidEnvelope(spec, bundlePath)
    requires 0 < |input| <= MAX_CONFIG_BYTES && IsUtf8Text(input)
    requires lex(input) == Some(Write(Marshalled(Object(spec)), []))
    ensures DecodedConfig(input, bundlePath, lex) == Ok(spec)
  {
    MarshalledMeans(Object(spec));
    MarshalledBounds(Object(spec), 0);
    WrittenDecodes(Marshalled(Object(spec)));
  }

  lemma FullOutputIsRefused(input: Bytes, spec: map<string, Value>, out: map<string, Value>,
                            sources: seq<TrustSource>, bundlePath: string, lex: Lexer, marshal: Marshaller)
    requires DecodedConfig(input, bundlePath, lex) == Ok(spec) && Patched(spec, sources) == Ok(out)
    requires |marshal(Object(out))| == MAX_CONFIG_BYTES
    ensures var patched := PatchedText(input, sources, bundlePath, lex, marshal);
      && patched.Ok? && |patched.value| == MAX_CONFIG_BYTES + 1
      && PatchedText(patched.value, sources, bundlePath, lex, marshal) == Err
  {
  }

  /** For every config that can be patched, texts as promised can make the output one byte too long. */
  lemma OutputCanExceedTheBound(spec: map<string, Value>, sources: seq<TrustSource>, bundlePath: string)
    returns (input: Bytes, lex: Lexer, marshal: Marshaller)
    requires WellFormed(Object(spec)) && Bounded(Object(spec), 0) && ValidEnvelope(spec, bundlePath)
    requires Patched(spec, sources).Ok? && ShortSources(sources) && Utf8Sources(sources)
    ensures LexesWell(lex) && ReadsBack(lex, marshal)
    ensures var patched := PatchedText(input, sources, bundlePath, lex, marshal);
      && patched.Ok? && |patched.value| == MAX_CONFIG_BYTES + 1
      && PatchedText(patched.value, sources, bundlePath, lex, marshal) == Err
  {
    var out := Patched(spec, sources).value;
    PatchStaysBounded(spec, sources, 0);
    PatchStaysWellFormed(spec, sources);
    input, lex, marshal := TunedPairIsSound(Object(spec), Object(out));
    TextOfConfig(spec, bundlePath, input, lex);
    FullOutputIsRefused(input, spec, out, sources, bundlePath, lex, marshal);
  }

  /** With the production sources: a text whose patched form is one byte too long and is refused. */
  lemma ProductionOutputCanExceedTheBound()
    returns (input: Bytes, bundlePath: string, lex: Lexer, marshal: Marshaller)
    ensures LexesWell(lex) && ReadsBack(lex, marshal)
    ensures var patched := PatchedText(input, PRODUCTION_SOURCES, bundlePath, lex, marshal);
      && patched.Ok? && |patched.value| == MAX_CONFIG_BYTES + 1
      && PatchedText(patched.value, PRODUCTION_SOURCES, bundlePath, lex, marshal) == Err
  {
    var spec;
    spec, bundlePath := SomeConfigIsAccepted();
    ProductionSourcesAreValid();
    ProductionSourcesAreUtf8();
    input, lex, marshal := OutputCanExceedTheBound(spec, PRODUCTION_SOURCES, bundlePath);
  }
}
