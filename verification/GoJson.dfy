/**
 * What docker/build-trust-runtime/spec.go relies on in Go's encoding/json: the tokens that
 * json.Decoder hands out are well formed, and reading what json.Marshal wrote gives the value back.
 */
module GoJson {

  import opened StrictJson
  import opened Wrappers
  import Utf8Tail

  type Lexer = Bytes -> Option<seq<Token>>
  type Marshaller = Value -> Bytes

  const NEWLINE: Bytes := [10]

  // ---------------------------------------------------------------------
  // json.Marshal: one document per value
  // ---------------------------------------------------------------------

  /** The keys of an object in the fixed order in which the marshaller lists them. */
  ghost function Listing(keys: set<string>): (names: seq<string>)
    ensures |names| == |keys| && (forall k :: k in names <==> k in keys)
    ensures forall i, j :: 0 <= i < j < |names| ==> names[i] != names[j]
  {
    if keys == {} then [] else
      var k :| k in keys;
      var rest := Listing(keys - {k});
      assert keys == {k} + (keys - {k});
      [k] + rest
  }

  ghost function Marshalled(v: Value): Doc
    decreases v
  {
    match v
    case Null => DNull
    case Bool(b) => DBool(b)
    case Number(text) => DNumber(text)
    case Str(s) => DString(s)
    case Array(items) => DArray(seq(|items|, i requires 0 <= i < |items| => Marshalled(items[i])))
    case Object(fields) =>
      var names := Listing(fields.Keys);
      DObject(seq(|names|, i requires 0 <= i < |names| =>
        assert names[i] in names; Member(names[i], Marshalled(fields[names[i]]))))
  }

  lemma {:induction false} MembersMeaningAt(members: seq<Member>, i: nat)
    requires DistinctNames(members) && i < |members|
    ensures members[i].key in MembersMeaning(members)
    ensures MembersMeaning(members)[members[i].key] == Meaning(members[i].doc)
    decreases |members|
  {
    var n := |members| - 1;
    if i < n {
      MembersMeaningAt(members[..n], i);
      assert members[n].key != members[i].key;
    }
  }

  /** Marshalling loses nothing. */
  lemma {:induction false} MarshalledMeans(v: Value)
    ensures Meaning(Marshalled(v)) == v
    decreases v
  {
    match v
    case Array(items) =>
      var out := Marshalled(v).items;
      forall i | 0 <= i < |items| ensures Meaning(out[i]) == items[i] {
        MarshalledMeans(items[i]);
      }
      assert Meaning(Marshalled(v)).items == items;
    case Object(fields) =>
      var members, names := Marshalled(v).members, Listing(fields.Keys);
      forall i | 0 <= i < |names|
        ensures names[i] in fields && members[i].key == names[i] && Meaning(members[i].doc) == fields[names[i]]
      {
        assert names[i] in names;
        MarshalledMeans(fields[names[i]]);
      }
      SameMap(members, names, fields);
    case _ =>
  }

  lemma SameMap(members: seq<Member>, names: seq<string>, fields: map<string, Value>)
    requires |members| == |names| && DistinctNames(members)
    requires forall k :: k in names <==> k in fields
    requires forall i :: 0 <= i < |names| ==>
      members[i].key == names[i] && names[i] in fields && Meaning(members[i].doc) == fields[names[i]]
    ensures MembersMeaning(members) == fields
  {
    forall i | 0 <= i < |names|
      ensures names[i] in MembersMeaning(members) && MembersMeaning(members)[names[i]] == fields[names[i]]
    {
      MembersMeaningAt(members, i);
    }
    forall k | k in MembersMeaning(members) ensures k in names {
      MembersMeaningKeys(members);
      var i :| 0 <= i < |members| && members[i].key == k;
      assert names[i] == k;
    }
    MapsAgree(MembersMeaning(members), fields, names);
  }

  lemma MapsAgree(m: map<string, Value>, fields: map<string, Value>, names: seq<string>)
    requires forall k :: k in m ==> k in names
    requires forall k :: k in fields ==> k in names
    requires forall i :: 0 <= i < |names| ==> names[i] in m && names[i] in fields && m[names[i]] == fields[names[i]]
    ensures m == fields
  {
  }

  /** The decoder's bounds, stated on values. */
  predicate Bounded(v: Value, depth: int)
    decreases v
  {
    depth <= MAX_JSON_DEPTH &&
    match v
    case Str(s) => |s| <= MAX_STRING_BYTES
    case Array(items) => |items| <= MAX_ARRAY_ITEMS && forall i :: 0 <= i < |items| ==> Bounded(items[i], depth + 1)
    case Object(fields) =>
      |fields| <= MAX_OBJECT_FIELDS
      && forall k :: k in fields ==> |k| <= MAX_STRING_BYTES && Bounded(fields[k], depth + 1)
    case _ => true
  }

  lemma {:induction false} MarshalledBounds(v: Value, depth: int)
    requires Bounded(v, depth)
    ensures WithinBounds(Marshalled(v), depth)
    decreases v
  {
    match v
    case Array(items) =>
      forall i | 0 <= i < |items| ensures WithinBounds(Marshalled(items[i]), depth + 1) {
        MarshalledBounds(items[i], depth + 1);
      }
    case Object(fields) =>
      var members, names := Marshalled(v).members, Listing(fields.Keys);
      assert |fields.Keys| == |fields|;
      forall i | 0 <= i < |names|
        ensures |members[i].key| <= MAX_STRING_BYTES && WithinBounds(members[i].doc, depth + 1)
      {
        assert names[i] in names;
        MarshalledBounds(fields[names[i]], depth + 1);
      }
    case _ =>
  }

  /** What the decoder accepts is bounded as a value. */
  lemma {:induction false} MeaningBounds(d: Doc, depth: int)
    requires WithinBounds(d, depth)
    ensures Bounded(Meaning(d), depth)
    decreases d
  {
    match d
    case DArray(items) =>
      forall i | 0 <= i < |items| ensures Bounded(Meaning(items[i]), depth + 1) {
        MeaningBounds(items[i], depth + 1);
      }
    case DObject(members) =>
      var m := MembersMeaning(members);
      MembersMeaningKeys(members);
      forall i | 0 <= i < |members| ensures Bounded(Meaning(members[i].doc), depth + 1) {
        MeaningBounds(members[i].doc, depth + 1);
      }
      forall k | k in m ensures |k| <= MAX_STRING_BYTES && Bounded(m[k], depth + 1) {
        var i :| 0 <= i < |members| && members[i].key == k;
        MembersMeaningAt(members, i);
      }
    case _ =>
  }

  // ---------------------------------------------------------------------
  // Well-formed tokens and values
  // ---------------------------------------------------------------------

  predicate IsByteString(s: string) {
    forall i :: 0 <= i < |s| ==> s[i] < 256 as char
  }

  function CodeOf(s: string): Bytes
    requires IsByteString(s)
  {
    seq(|s|, i requires 0 <= i < |s| => s[i] as int)
  }

  /** utf8.Valid (RFC 3629). */
  predicate IsUtf8Text(text: Bytes) {
    Utf8Tail.Decode(text).Some?
  }

  /** The string's bytes are valid UTF-8; Go replaces all others when it reads or writes a string. */
  predicate IsUtf8(s: string) {
    IsByteString(s) && IsUtf8Text(CodeOf(s))
  }

  function DigitsAt(s: string): (n: nat)
    ensures n <= |s|
  {
    if s != [] && IsDigit(s[0]) then 1 + DigitsAt(s[1..]) else 0
  }

  /** Nothing, or an exponent: section 6 of RFC 8259. */
  predicate IsExponent(s: string) {
    s == [] ||
    ((s[0] == 'e' || s[0] == 'E') &&
     var digits := if |s| > 1 && (s[1] == '+' || s[1] == '-') then s[2..] else s[1..];
     digits != [] && DigitsAt(digits) == |digits|)
  }

  predicate IsFractionAndExponent(s: string) {
    if s != [] && s[0] == '.' then DigitsAt(s[1..]) > 0 && IsExponent(s[1..][DigitsAt(s[1..])..]) else IsExponent(s)
  }

  /** A JSON number: section 6 of RFC 8259. json.Marshal refuses any other json.Number. */
  predicate IsNumber(text: string) {
    var s := if text != [] && text[0] == '-' then text[1..] else text;
    && DigitsAt(s) > 0 && (s[0] == '0' ==> DigitsAt(s) == 1)
    && IsFractionAndExponent(s[DigitsAt(s)..])
  }

  predicate WellFormedToken(t: Token) {
    match t
    case StringToken(s) => IsUtf8(s)
    case NumberToken(text) => IsNumber(text)
    case _ => true
  }

  predicate WellFormedTokens(ts: seq<Token>) {
    forall t :: t in ts ==> WellFormedToken(t)
  }

  predicate WellFormed(v: Value)
    decreases v
  {
    match v
    case Number(text) => IsNumber(text)
    case Str(s) => IsUtf8(s)
    case Array(items) => forall i :: 0 <= i < |items| ==> WellFormed(items[i])
    case Object(fields) => forall k :: k in fields ==> IsUtf8(k) && WellFormed(fields[k])
    case _ => true
  }

  // ---------------------------------------------------------------------
  // What encoding/json promises
  // ---------------------------------------------------------------------

  /** The lexer hands out well-formed tokens only. */
  ghost predicate LexesWell(lex: Lexer) {
    forall text {:trigger lex(text)} :: lex(text).Some? ==> WellFormedTokens(lex(text).value)
  }

  /** A bounded document for the value. */
  predicate Writes(d: Doc, v: Value) {
    WithinBounds(d, 0) && Meaning(d) == v
  }

  /**
   * What the marshaller writes for well-formed values within the bounds is UTF-8 and is read back, member
   * order aside.
   */
  ghost predicate ReadsBack(lex: Lexer, marshal: Marshaller) {
    forall v {:trigger marshal(v)} :: WellFormed(v) && Bounded(v, 0) ==> TextReadsBack(lex, marshal(v) + NEWLINE, v)
  }

  ghost predicate TextReadsBack(lex: Lexer, text: Bytes, v: Value) {
    IsUtf8Text(text) && ReadBack(lex(text), v)
  }

  ghost predicate ReadBack(tokens: Option<seq<Token>>, v: Value) {
    exists d :: Writes(d, v) && tokens == Some(Write(d, []))
  }

  // ---------------------------------------------------------------------
  // Decoding well-formed tokens
  // ---------------------------------------------------------------------

  lemma WellFormedRest(first: Token, rest: seq<Token>)
    ensures WellFormedTokens([first] + rest) <==> WellFormedToken(first) && WellFormedTokens(rest)
  {
    if WellFormedTokens([first] + rest) {
      assert ([first] + rest)[0] == first;
      forall t | t in rest ensures WellFormedToken(t) { assert t in [first] + rest; }
    }
  }

  lemma {:induction false} MeaningIsWellFormed(d: Doc, rest: seq<Token>)
    requires WellFormedTokens(Write(d, rest))
    ensures WellFormed(Meaning(d)) && WellFormedTokens(rest)
    decreases d
  {
    match d
    case DNull => WellFormedRest(NullToken, rest);
    case DBool(b) => WellFormedRest(BoolToken(b), rest);
    case DNumber(text) => WellFormedRest(NumberToken(text), rest);
    case DString(s) => WellFormedRest(StringToken(s), rest);
    case DArray(items) =>
      WellFormedRest(OpenArray, WriteItems(items, [CloseArray] + rest));
      ItemsAreWellFormed(items, [CloseArray] + rest);
      WellFormedRest(CloseArray, rest);
    case DObject(members) =>
      WellFormedRest(OpenObject, WriteMembers(members, [CloseObject] + rest));
      MembersAreWellFormed(members, [CloseObject] + rest);
      WellFormedRest(CloseObject, rest);
      WellFormedMeaning(members);
  }

  lemma {:induction false} ItemsAreWellFormed(items: seq<Doc>, rest: seq<Token>)
    requires WellFormedTokens(WriteItems(items, rest))
    ensures forall i :: 0 <= i < |items| ==> WellFormed(Meaning(items[i]))
    ensures WellFormedTokens(rest)
    decreases items
  {
    if items != [] {
      MeaningIsWellFormed(items[0], WriteItems(items[1..], rest));
      ItemsAreWellFormed(items[1..], rest);
      forall i | 0 <= i < |items| ensures WellFormed(Meaning(items[i])) {
        if i > 0 { assert items[i] == items[1..][i - 1]; }
      }
    }
  }

  predicate WellFormedMember(m: Member) {
    IsUtf8(m.key) && WellFormed(Meaning(m.doc))
  }

  lemma {:induction false} MembersAreWellFormed(members: seq<Member>, rest: seq<Token>)
    requires WellFormedTokens(WriteMembers(members, rest))
    ensures forall i :: 0 <= i < |members| ==> WellFormedMember(members[i])
    ensures WellFormedTokens(rest)
    decreases members
  {
    if members != [] {
      var others := WriteMembers(members[1..], rest);
      WellFormedRest(StringToken(members[0].key), Write(members[0].doc, others));
      MeaningIsWellFormed(members[0].doc, others);
      MembersAreWellFormed(members[1..], rest);
      forall i | 0 <= i < |members| ensures WellFormedMember(members[i]) {
        if i > 0 { assert members[i] == members[1..][i - 1]; }
      }
    }
  }

  lemma {:induction false} WellFormedMeaning(members: seq<Member>)
    requires forall i :: 0 <= i < |members| ==> WellFormedMember(members[i])
    ensures WellFormed(Object(MembersMeaning(members)))
  {
    if members != [] {
      var n := |members| - 1;
      WellFormedMeaning(members[..n]);
      assert WellFormedMember(members[n]);
    }
  }

  /** What the decoder returns is well formed and within its own bounds. */
  lemma DecodedIsWellFormed(tokens: seq<Token>)
    requires Decoded(tokens).Ok? && WellFormedTokens(tokens)
    ensures WellFormed(Decoded(tokens).value) && Bounded(Decoded(tokens).value, 0)
  {
    DecodedIffWritten(tokens, Decoded(tokens).value);
    var d :| IsTextOf(tokens, d) && Meaning(d) == Decoded(tokens).value;
    MeaningBounds(d, 0);
    MeaningIsWellFormed(d, []);
  }

  /** The decoder returns the value that was marshalled. */
  lemma MarshalThenDecode(v: Value, lex: Lexer, marshal: Marshaller)
    requires ReadsBack(lex, marshal) && WellFormed(v) && Bounded(v, 0)
    ensures var text := marshal(v) + NEWLINE;
      IsUtf8Text(text) && lex(text).Some? && Decoded(lex(text).value) == Ok(v)
  {
    assert TextReadsBack(lex, marshal(v) + NEWLINE, v);
    var d :| Writes(d, v) && lex(marshal(v) + NEWLINE) == Some(Write(d, []));
    WrittenDecodes(d);
  }

  // ---------------------------------------------------------------------
  // A pair that keeps both promises
  // ---------------------------------------------------------------------

  /** A number in unary, then `rest`. */
  function Unary(n: nat, rest: Bytes): Bytes {
    if n == 0 then [1] + rest else [2] + Unary(n - 1, rest)
  }

  function Letters(s: string, rest: Bytes): Bytes {
    if s == [] then [3] + rest else Unary(s[0] as int, Letters(s[1..], rest))
  }

  function PlainToken(t: Token, rest: Bytes): Bytes {
    match t
    case OpenObject => [11] + rest
    case CloseObject => [12] + rest
    case OpenArray => [13] + rest
    case CloseArray => [14] + rest
    case BoolToken(b) => [if b then 15 else 16] + rest
    case NullToken => [17] + rest
    case StringToken(s) => [18] + Letters(s, rest)
    case NumberToken(text) => [19] + Letters(text, rest)
  }

  function PlainTokens(ts: seq<Token>, rest: Bytes): Bytes {
    if ts == [] then rest else PlainToken(ts[0], PlainTokens(ts[1..], rest))
  }

  lemma {:induction false} UnaryCut(m: nat, n: nat, a: Bytes, b: Bytes)
    requires Unary(m, a) == Unary(n, b)
    ensures m == n && a == b
  {
    var x, y := Unary(m, a), Unary(n, b);
    assert (m == 0 <==> x[0] == 1) && (n == 0 <==> y[0] == 1);
    if m > 0 {
      assert x[1..] == Unary(m - 1, a) && y[1..] == Unary(n - 1, b);
      UnaryCut(m - 1, n - 1, a, b);
    } else {
      assert x[1..] == a && y[1..] == b;
    }
  }

  lemma LettersFirst(s: string, rest: Bytes)
    ensures Letters(s, rest) != [] && (s == [] <==> Letters(s, rest)[0] == 3)
  {
  }

  lemma {:induction false} LettersCut(s: string, t: string, a: Bytes, b: Bytes)
    requires Letters(s, a) == Letters(t, b)
    ensures s == t && a == b
  {
    LettersFirst(s, a);
    LettersFirst(t, b);
    if s == [] {
      assert Letters(s, a)[1..] == a && Letters(t, b)[1..] == b;
    } else {
      UnaryCut(s[0] as int, t[0] as int, Letters(s[1..], a), Letters(t[1..], b));
      LettersCut(s[1..], t[1..], a, b);
      assert s == [s[0]] + s[1..] && t == [t[0]] + t[1..];
    }
  }

  lemma PlainTokenCut(s: Token, t: Token, a: Bytes, b: Bytes)
    requires PlainToken(s, a) == PlainToken(t, b)
    ensures s == t && a == b
  {
    var x, y := PlainToken(s, a), PlainToken(t, b);
    assert x[0] == y[0] && x[1..] == y[1..];
    if s.StringToken? || s.NumberToken? {
      LettersCut(if s.StringToken? then s.s else s.text, if t.StringToken? then t.s else t.text, a, b);
    }
  }

  lemma PlainTokenFirst(t: Token, rest: Bytes)
    ensures PlainToken(t, rest) != [] && PlainToken(t, rest) != NEWLINE
  {
    assert PlainToken(t, rest)[0] != 10;
  }

  lemma {:induction false} PlainTokensCut(ss: seq<Token>, ts: seq<Token>)
    requires PlainTokens(ss, NEWLINE) == PlainTokens(ts, NEWLINE)
    ensures ss == ts
  {
    if ss == [] {
      if ts != [] { PlainTokenFirst(ts[0], PlainTokens(ts[1..], NEWLINE)); }
    } else if ts == [] {
      PlainTokenFirst(ss[0], PlainTokens(ss[1..], NEWLINE));
    } else {
      PlainTokenCut(ss[0], ts[0], PlainTokens(ss[1..], NEWLINE), PlainTokens(ts[1..], NEWLINE));
      PlainTokensCut(ss[1..], ts[1..]);
      assert ss == [ss[0]] + ss[1..] && ts == [ts[0]] + ts[1..];
    }
  }

  lemma {:induction false} UnaryJoins(n: nat, a: Bytes, b: Bytes)
    ensures Unary(n, a) + b == Unary(n, a + b)
  {
    if n > 0 { UnaryJoins(n - 1, a, b); }
  }

  lemma {:induction false} LettersJoin(s: string, a: Bytes, b: Bytes)
    ensures Letters(s, a) + b == Letters(s, a + b)
  {
    if s != [] {
      UnaryJoins(s[0] as int, Letters(s[1..], a), b);
      LettersJoin(s[1..], a, b);
    }
  }

  lemma PlainTokenJoins(t: Token, a: Bytes, b: Bytes)
    ensures PlainToken(t, a) + b == PlainToken(t, a + b)
  {
    if t.StringToken? { LettersJoin(t.s, a, b); }
    if t.NumberToken? { LettersJoin(t.text, a, b); }
  }

  lemma {:induction false} PlainTokensJoin(ts: seq<Token>, a: Bytes, b: Bytes)
    ensures PlainTokens(ts, a) + b == PlainTokens(ts, a + b)
  {
    if ts != [] {
      PlainTokenJoins(ts[0], PlainTokens(ts[1..], a), b);
      PlainTokensJoin(ts[1..], a, b);
    }
  }

  predicate IsAsciiText(text: Bytes) {
    forall i :: 0 <= i < |text| ==> text[i] < 128
  }

  lemma {:induction false} AsciiTextIsUtf8(text: Bytes)
    requires IsAsciiText(text)
    ensures IsUtf8Text(text)
    decreases |text|
  {
    if text != [] {
      AsciiTextIsUtf8(text[1..]);
      assert Utf8Tail.DecodeOne(text) == Some((text[0], 1));
    }
  }

  lemma {:induction false} UnaryIsAscii(n: nat, rest: Bytes)
    requires IsAsciiText(rest)
    ensures IsAsciiText(Unary(n, rest))
  {
    if n > 0 { UnaryIsAscii(n - 1, rest); }
  }

  lemma {:induction false} LettersAreAscii(s: string, rest: Bytes)
    requires IsAsciiText(rest)
    ensures IsAsciiText(Letters(s, rest))
  {
    if s != [] {
      LettersAreAscii(s[1..], rest);
      UnaryIsAscii(s[0] as int, Letters(s[1..], rest));
    }
  }

  lemma {:induction false} PlainTokensAreAscii(ts: seq<Token>, rest: Bytes)
    requires IsAsciiText(rest)
    ensures IsAsciiText(PlainTokens(ts, rest))
  {
    if ts != [] {
      var t := ts[0];
      PlainTokensAreAscii(ts[1..], rest);
      if t.StringToken? || t.NumberToken? {
        LettersAreAscii(if t.StringToken? then t.s else t.text, PlainTokens(ts[1..], rest));
      }
    }
  }

  ghost function PlainMarshal(v: Value): Bytes {
    PlainTokens(Write(Marshalled(v), []), [])
  }

  ghost predicate IsPlain(text: Bytes, ts: seq<Token>) {
    WellFormedTokens(ts) && text == PlainTokens(ts, NEWLINE)
  }

  ghost function PlainLex(text: Bytes): Option<seq<Token>> {
    if exists ts :: IsPlain(text, ts) then
      var ts :| IsPlain(text, ts);
      Some(ts)
    else None
  }

  lemma {:induction false} WritesWellFormed(d: Doc, rest: seq<Token>)
    requires WellFormedDoc(d) && WellFormedTokens(rest)
    ensures WellFormedTokens(Write(d, rest))
    decreases d
  {
    match d
    case DNull => WellFormedRest(NullToken, rest);
    case DBool(b) => WellFormedRest(BoolToken(b), rest);
    case DNumber(text) => WellFormedRest(NumberToken(text), rest);
    case DString(s) => WellFormedRest(StringToken(s), rest);
    case DArray(items) =>
      WellFormedRest(CloseArray, rest);
      WritesWellFormedItems(items, [CloseArray] + rest);
      WellFormedRest(OpenArray, WriteItems(items, [CloseArray] + rest));
    case DObject(members) =>
      WellFormedRest(CloseObject, rest);
      WritesWellFormedMembers(members, [CloseObject] + rest);
      WellFormedRest(OpenObject, WriteMembers(members, [CloseObject] + rest));
  }

  lemma {:induction false} WritesWellFormedItems(items: seq<Doc>, rest: seq<Token>)
    requires (forall i :: 0 <= i < |items| ==> WellFormedDoc(items[i])) && WellFormedTokens(rest)
    ensures WellFormedTokens(WriteItems(items, rest))
    decreases items
  {
    if items != [] {
      WritesWellFormedItems(items[1..], rest);
      WritesWellFormed(items[0], WriteItems(items[1..], rest));
    }
  }

  lemma {:induction false} WritesWellFormedMembers(members: seq<Member>, rest: seq<Token>)
    requires (forall i :: 0 <= i < |members| ==> IsUtf8(members[i].key) && WellFormedDoc(members[i].doc))
    requires WellFormedTokens(rest)
    ensures WellFormedTokens(WriteMembers(members, rest))
    decreases members
  {
    if members != [] {
      var others := WriteMembers(members[1..], rest);
      WritesWellFormedMembers(members[1..], rest);
      WritesWellFormed(members[0].doc, others);
      WellFormedRest(StringToken(members[0].key), Write(members[0].doc, others));
    }
  }

  predicate WellFormedDoc(d: Doc)
    decreases d
  {
    match d
    case DNumber(text) => IsNumber(text)
    case DString(s) => IsUtf8(s)
    case DArray(items) => forall i :: 0 <= i < |items| ==> WellFormedDoc(items[i])
    case DObject(members) =>
      forall i :: 0 <= i < |members| ==> IsUtf8(members[i].key) && WellFormedDoc(members[i].doc)
    case _ => true
  }

  lemma {:induction false} MarshalledIsWellFormed(v: Value)
    requires WellFormed(v)
    ensures WellFormedDoc(Marshalled(v))
    decreases v
  {
    match v
    case Array(items) =>
      forall i | 0 <= i < |items| ensures WellFormedDoc(Marshalled(items[i])) {
        MarshalledIsWellFormed(items[i]);
      }
    case Object(fields) =>
      var members, names := Marshalled(v).members, Listing(fields.Keys);
      forall i | 0 <= i < |names| ensures IsUtf8(members[i].key) && WellFormedDoc(members[i].doc) {
        assert names[i] in names;
        MarshalledIsWellFormed(fields[names[i]]);
      }
    case _ =>
  }

  lemma PlainReadsBack(v: Value)
    requires WellFormed(v) && Bounded(v, 0)
    ensures TextReadsBack(PlainLex, PlainMarshal(v) + NEWLINE, v)
  {
    var d := Marshalled(v);
    var ts := Write(d, []);
    MarshalledMeans(v);
    MarshalledBounds(v, 0);
    MarshalledIsWellFormed(v);
    WritesWellFormed(d, []);
    PlainTokensJoin(ts, [], NEWLINE);
    assert [] + NEWLINE == NEWLINE;
    var text := PlainMarshal(v) + NEWLINE;
    assert IsPlain(text, ts);
    PlainTokensCut(PlainLex(text).value, ts);
    assert Writes(d, v);
    PlainTokensAreAscii(ts, NEWLINE);
    AsciiTextIsUtf8(text);
  }

  /** The two promises can be kept together. */
  lemma PromisesCanBeKept() returns (lex: Lexer, marshal: Marshaller)
    ensures LexesWell(lex) && ReadsBack(lex, marshal)
  {
    lex, marshal := text => PlainLex(text), v => PlainMarshal(v);
    forall v | WellFormed(v) && Bounded(v, 0) ensures TextReadsBack(lex, marshal(v) + NEWLINE, v) {
      PlainReadsBack(v);
    }
  }
}
