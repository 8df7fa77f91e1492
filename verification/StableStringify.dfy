/**
 * The canonical serialiser behind every hash identity: src/hash.ts.
 *
 * JavaScript strings are sequences of UTF-16 code units, so text is modelled
 * unit by unit. An object is the sequence of its own entries in insertion
 * order, so that "equal up to key order" is something to be proved.
 */
module StableStringify {

  import opened Wrappers

  type Unit = u: int | 0 <= u < 0x1_0000
  type Text = seq<Unit>

  const QUOTE: Unit := 0x22
  const COMMA: Unit := 0x2C
  const COLON: Unit := 0x3A
  const LBRACKET: Unit := 0x5B
  const BACKSLASH: Unit := 0x5C
  const RBRACKET: Unit := 0x5D
  const LBRACE: Unit := 0x7B
  const RBRACE: Unit := 0x7D

  const NULL: Text := [0x6E, 0x75, 0x6C, 0x6C]
  const TRUE: Text := [0x74, 0x72, 0x75, 0x65]
  const FALSE: Text := [0x66, 0x61, 0x6C, 0x73, 0x65]

  predicate IsNumberUnit(u: Unit) {
    0x30 <= u <= 0x39 || u == 0x2B || u == 0x2D || u == 0x2E || u == 0x65
  }

  /** The shortest round-trip decimal of a finite double stands for the double. */
  type NumberText = t: Text
    | |t| > 0 && (0x30 <= t[0] <= 0x39 || t[0] == 0x2D) && (forall i :: 0 <= i < |t| ==> IsNumberUnit(t[i]))
    witness [0x30]

  datatype NonFiniteKind = NaN | PositiveInfinity | NegativeInfinity

  datatype Field = Field(key: Text, value: Json)

  /** `Undefined` also covers functions and symbols, which JSON.stringify drops in the same way. */
  datatype Json =
    | Undefined
    | Null
    | Bool(b: bool)
    | Number(text: NumberText)
    | NonFinite(kind: NonFiniteKind)
    | Str(s: Text)
    | Arr(items: seq<Json>)
    | Obj(fields: seq<Field>)

  // ---------------------------------------------------------------------
  // Objects as ordered entry lists
  // ---------------------------------------------------------------------

  predicate HasKey(fields: seq<Field>, key: Text) {
    exists i :: 0 <= i < |fields| && fields[i].key == key
  }

  function Get(fields: seq<Field>, key: Text): (v: Json)
    requires HasKey(fields, key)
    ensures Field(key, v) in fields
  {
    if fields[0].key == key then fields[0].value else Get(fields[1..], key)
  }

  function Keys(fields: seq<Field>): (ks: seq<Text>)
    ensures |ks| == |fields|
    ensures forall i :: 0 <= i < |ks| ==> ks[i] == fields[i].key
  {
    seq(|fields|, i requires 0 <= i < |fields| => fields[i].key)
  }

  predicate DistinctKeys(fields: seq<Field>) {
    forall i, j :: 0 <= i < j < |fields| ==> fields[i].key != fields[j].key
  }

  /** What every JavaScript value satisfies: the own keys of an object are distinct. */
  predicate Valid(v: Json) {
    match v
    case Arr(items) => forall i :: 0 <= i < |items| ==> Valid(items[i])
    case Obj(fields) => DistinctKeys(fields) && forall i :: 0 <= i < |fields| ==> Valid(fields[i].value)
    case _ => true
  }

  // ---------------------------------------------------------------------
  // Array.prototype.sort on strings: lexicographic by code unit
  // ---------------------------------------------------------------------

  predicate Before(a: Text, b: Text) {
    if b == [] then false
    else if a == [] then true
    else if a[0] != b[0] then a[0] < b[0]
    else Before(a[1..], b[1..])
  }

  function InsertKey(k: Text, ks: seq<Text>): seq<Text> {
    if ks == [] || Before(k, ks[0]) then [k] + ks else [ks[0]] + InsertKey(k, ks[1..])
  }

  function SortKeys(ks: seq<Text>): seq<Text> {
    if ks == [] then [] else InsertKey(ks[0], SortKeys(ks[1..]))
  }

  predicate Ascending(ks: seq<Text>) {
    forall i, j :: 0 <= i < j < |ks| ==> Before(ks[i], ks[j])
  }

  lemma {:induction false} BeforeTransitive(a: Text, b: Text, c: Text)
    requires Before(a, b) && Before(b, c)
    ensures Before(a, c)
  {
    if a != [] && a[0] == b[0] && b[0] == c[0] {
      BeforeTransitive(a[1..], b[1..], c[1..]);
    }
  }

  lemma {:induction false} BeforeTotal(a: Text, b: Text)
    ensures a == b || Before(a, b) || Before(b, a)
    ensures !(Before(a, b) && Before(b, a))
    ensures Before(a, b) ==> a != b
  {
    if a != [] && b != [] && a[0] == b[0] {
      BeforeTotal(a[1..], b[1..]);
      assert a == [a[0]] + a[1..] && b == [b[0]] + b[1..];
    }
  }

  lemma {:induction false} InsertKeySorts(k: Text, ks: seq<Text>)
    requires Ascending(ks) && k !in ks
    ensures Ascending(InsertKey(k, ks))
    ensures forall x :: x in InsertKey(k, ks) <==> x == k || x in ks
    decreases |ks|
  {
    if ks != [] && !Before(k, ks[0]) {
      BeforeTotal(k, ks[0]);
      InsertKeySorts(k, ks[1..]);
      var rest := InsertKey(k, ks[1..]);
      assert forall x :: x in ks <==> x == ks[0] || x in ks[1..];
      forall j | 0 <= j < |rest| ensures Before(ks[0], rest[j]) {
        assert rest[j] in rest;
      }
    } else if ks != [] {
      forall j | 0 <= j < |ks| ensures Before(k, ks[j]) {
        if j > 0 { BeforeTransitive(k, ks[0], ks[j]); }
      }
    }
  }

  lemma {:induction false} SortKeysSorts(ks: seq<Text>)
    requires forall i, j :: 0 <= i < j < |ks| ==> ks[i] != ks[j]
    ensures Ascending(SortKeys(ks))
    ensures forall x :: x in SortKeys(ks) <==> x in ks
    decreases |ks|
  {
    if ks != [] {
      SortKeysSorts(ks[1..]);
      assert forall x :: x in ks <==> x == ks[0] || x in ks[1..];
      InsertKeySorts(ks[0], SortKeys(ks[1..]));
    }
  }

  /** A set of keys has only one ascending listing. */
  lemma {:induction false} AscendingUnique(ks: seq<Text>, ls: seq<Text>)
    requires Ascending(ks) && Ascending(ls)
    requires forall x :: x in ks <==> x in ls
    ensures ks == ls
    decreases |ks|
  {
    if ls != [] {
      assert ls[0] in ks;
    }
    if ks != [] {
      assert ks[0] in ls;
      assert ls[0] in ks;
      HeadIsLeast(ks, ls[0]);
      HeadIsLeast(ls, ks[0]);
      BeforeTotal(ks[0], ls[0]);
      forall x ensures x in ks[1..] <==> x in ls[1..] {
        TailMembers(ks, x);
        TailMembers(ls, x);
      }
      AscendingUnique(ks[1..], ls[1..]);
      assert ks == [ks[0]] + ks[1..] && ls == [ls[0]] + ls[1..];
    }
  }

  lemma HeadIsLeast(ks: seq<Text>, x: Text)
    requires Ascending(ks) && x in ks
    ensures x == ks[0] || Before(ks[0], x)
  {
  }

  lemma TailMembers(ks: seq<Text>, x: Text)
    requires Ascending(ks) && ks != []
    ensures x in ks[1..] <==> x in ks && x != ks[0]
  {
    BeforeTotal(x, ks[0]);
  }

  // ---------------------------------------------------------------------
  // JSON.stringify of a string
  // ---------------------------------------------------------------------

  predicate IsHigh(u: Unit) { 0xD800 <= u <= 0xDBFF }

  predicate IsLow(u: Unit) { 0xDC00 <= u <= 0xDFFF }

  /** Lower-case hexadecimal digit. */
  function HexDigit(d: int): Unit
    requires 0 <= d < 16
  {
    if d < 10 then 0x30 + d else 0x61 + (d - 10)
  }

  function UnicodeEscape(u: Unit): Text {
    [BACKSLASH, 0x75, HexDigit(u / 0x1000), HexDigit(u / 0x100 % 16), HexDigit(u / 16 % 16), HexDigit(u % 16)]
  }

  /** One code unit that is not part of a surrogate pair. */
  function EscapeUnit(u: Unit): Text {
    if u == QUOTE || u == BACKSLASH then [BACKSLASH, u]
    else if u == 0x08 then [BACKSLASH, 0x62]
    else if u == 0x09 then [BACKSLASH, 0x74]
    else if u == 0x0A then [BACKSLASH, 0x6E]
    else if u == 0x0C then [BACKSLASH, 0x66]
    else if u == 0x0D then [BACKSLASH, 0x72]
    else if u < 0x20 || IsHigh(u) || IsLow(u) then UnicodeEscape(u)
    else [u]
  }

  predicate StartsWithPair(s: Text) {
    |s| >= 2 && IsHigh(s[0]) && IsLow(s[1])
  }

  function QuoteBody(s: Text): Text {
    if s == [] then []
    else if StartsWithPair(s) then s[..2] + QuoteBody(s[2..])
    else EscapeUnit(s[0]) + QuoteBody(s[1..])
  }

  function Quote(s: Text): Text {
    [QUOTE] + QuoteBody(s) + [QUOTE]
  }

  // ---------------------------------------------------------------------
  // stableStringify
  // ---------------------------------------------------------------------

  /** The characters written for a value: nothing at all for `Undefined`. */
  function Print(v: Json): Text
    decreases v
  {
    match v
    case Undefined => []
    case Null => NULL
    case NonFinite(_) => NULL
    case Bool(b) => if b then TRUE else FALSE
    case Number(text) => text
    case Str(s) => Quote(s)
    case Arr(items) => [LBRACKET] + PrintItems(items) + [RBRACKET]
    case Obj(fields) =>
      var keys := SortKeys(Keys(fields));
      [LBRACE] + PrintPairs(keys, fields) + [RBRACE]
  }

  function PrintItems(items: seq<Json>): Text
    decreases items
  {
    if items == [] then []
    else if |items| == 1 then Print(items[0])
    else Print(items[0]) + [COMMA] + PrintItems(items[1..])
  }

  function PrintPair(key: Text, fields: seq<Field>): Text
    decreases fields, 0, 0
  {
    Quote(key) + [COLON] + (if HasKey(fields, key) then Print(Get(fields, key)) else [])
  }

  function PrintPairs(keys: seq<Text>, fields: seq<Field>): Text
    decreases fields, 1, |keys|
  {
    if keys == [] then []
    else if |keys| == 1 then PrintPair(keys[0], fields)
    else PrintPair(keys[0], fields) + [COMMA] + PrintPairs(keys[1..], fields)
  }

  /** stableStringify itself answers undefined for undefined. */
  function Stringify(v: Json): Option<Text> {
    if v.Undefined? then None else Some(Print(v))
  }

  /** The text computeHash feeds to the digest. */
  function HashInput(v: Json): Text {
    match Stringify(v)
    case None => []
    case Some(text) => text
  }

  // ---------------------------------------------------------------------
  // What the serialisation is meant to forget, and what it may not forget
  // ---------------------------------------------------------------------

  /** Equality that ignores the order of object entries at every depth; sorting plays no part in it. */
  predicate SameUpToKeyOrder(v: Json, w: Json)
    decreases v
  {
    match v
    case Arr(items) =>
      w.Arr? && |w.items| == |items|
      && forall i :: 0 <= i < |items| ==> SameUpToKeyOrder(items[i], w.items[i])
    case Obj(fields) =>
      w.Obj?
      && (forall i :: 0 <= i < |w.fields| ==> HasKey(fields, w.fields[i].key))
      && (forall i :: 0 <= i < |fields| ==>
            HasKey(w.fields, fields[i].key)
            && SameUpToKeyOrder(fields[i].value, Get(w.fields, fields[i].key)))
    case _ => v == w
  }

  /** No NaN or infinity, and no one-element array holding undefined: JSON itself cannot tell these from null and []. */
  predicate Faithful(v: Json) {
    match v
    case NonFinite(_) => false
    case Arr(items) => items != [Undefined] && forall i :: 0 <= i < |items| ==> Faithful(items[i])
    case Obj(fields) => forall i :: 0 <= i < |fields| ==> Faithful(fields[i].value)
    case _ => true
  }

  // ---------------------------------------------------------------------
  // Self-delimiting pieces: a piece followed by a delimiter can be cut off in one way only
  // ---------------------------------------------------------------------

  /** What may follow a value: the end of the text, a comma, or a closing bracket. */
  predicate Delimited(t: Text) {
    t == [] || t[0] == COMMA || t[0] == RBRACKET || t[0] == RBRACE
  }

  lemma {:induction false} NumberCut(n: Text, m: Text, t: Text, u: Text)
    requires forall i :: 0 <= i < |n| ==> IsNumberUnit(n[i])
    requires forall i :: 0 <= i < |m| ==> IsNumberUnit(m[i])
    requires Delimited(t) && Delimited(u) && n + t == m + u
    ensures n == m && t == u
    decreases |n|
  {
    var x, y := n + t, m + u;
    assert n == [] ==> x == t;
    assert m == [] ==> y == u;
    assert n != [] ==> x[0] == n[0];
    assert m != [] ==> y[0] == m[0];
    if n != [] && m != [] {
      assert x[1..] == n[1..] + t && y[1..] == m[1..] + u;
      NumberCut(n[1..], m[1..], t, u);
      assert n == [n[0]] + n[1..] && m == [m[0]] + m[1..];
    }
  }

  lemma EscapeUnitCut(a: Unit, b: Unit, t: Text, u: Text)
    requires EscapeUnit(a) + t == EscapeUnit(b) + u
    ensures a == b && t == u
  {
    var x, y := EscapeUnit(a) + t, EscapeUnit(b) + u;
    assert x[0] == y[0];
    if x[0] == BACKSLASH {
      assert x[1] == y[1];
      if x[1] == 0x75 {
        assert x[2] == y[2] && x[3] == y[3] && x[4] == y[4] && x[5] == y[5];
        HexFour(a, b);
      }
    }
    assert a == b;
    assert t == x[|EscapeUnit(a)|..] && u == y[|EscapeUnit(b)|..];
  }

  lemma HexDigitInjective(a: int, b: int)
    requires 0 <= a < 16 && 0 <= b < 16 && HexDigit(a) == HexDigit(b)
    ensures a == b
  {
  }

  lemma HexSum(a: Unit)
    ensures a == 0x1000 * (a / 0x1000) + 0x100 * (a / 0x100 % 16) + 16 * (a / 16 % 16) + a % 16
  {
    assert a / 0x100 == a / 16 / 16;
    assert a / 0x1000 == a / 16 / 16 / 16;
  }

  lemma HexFour(a: Unit, b: Unit)
    requires HexDigit(a / 0x1000) == HexDigit(b / 0x1000)
    requires HexDigit(a / 0x100 % 16) == HexDigit(b / 0x100 % 16)
    requires HexDigit(a / 16 % 16) == HexDigit(b / 16 % 16)
    requires HexDigit(a % 16) == HexDigit(b % 16)
    ensures a == b
  {
    HexDigitInjective(a / 0x1000, b / 0x1000);
    HexDigitInjective(a / 0x100 % 16, b / 0x100 % 16);
    HexDigitInjective(a / 16 % 16, b / 16 % 16);
    HexDigitInjective(a % 16, b % 16);
    HexSum(a);
    HexSum(b);
  }

  /** A quoted body with its closing quote and whatever comes next. */
  function QuoteOnto(s: Text, t: Text): Text {
    if s == [] then [QUOTE] + t
    else if StartsWithPair(s) then [s[0], s[1]] + QuoteOnto(s[2..], t)
    else EscapeUnit(s[0]) + QuoteOnto(s[1..], t)
  }

  lemma SamePrefix(p: Text, t: Text, u: Text)
    requires p + t == p + u
    ensures t == u
  {
    assert t == (p + t)[|p|..] && u == (p + u)[|p|..];
  }

  lemma Bracketed(open: Unit, body: Text, close: Unit, t: Text)
    ensures [open] + body + [close] + t == [open] + (body + [close] + t)
  {
  }

  lemma Assoc(a: Text, b: Text, c: Text)
    ensures (a + b) + c == a + (b + c)
  {
  }

  lemma {:induction false} QuoteOntoIs(s: Text, t: Text)
    ensures QuoteOnto(s, t) == QuoteBody(s) + ([QUOTE] + t)
    decreases |s|
  {
    if s == [] {
    } else if StartsWithPair(s) {
      QuoteOntoIs(s[2..], t);
      assert s[..2] == [s[0], s[1]];
      Assoc(s[..2], QuoteBody(s[2..]), [QUOTE] + t);
    } else {
      QuoteOntoIs(s[1..], t);
      Assoc(EscapeUnit(s[0]), QuoteBody(s[1..]), [QUOTE] + t);
    }
  }

  /** Quoting is injective and self-delimiting, lone surrogates included. */
  lemma {:induction false} QuoteOntoCut(s: Text, r: Text, t: Text, u: Text)
    requires QuoteOnto(s, t) == QuoteOnto(r, u)
    ensures s == r && t == u
    decreases |s|
  {
    var x, y := QuoteOnto(s, t), QuoteOnto(r, u);
    assert x[0] == y[0];
    if s == [] || r == [] {
      assert s == [] && r == [];
      assert t == x[1..] && u == y[1..];
    } else if StartsWithPair(s) {
      assert StartsWithPair(r) && x[1] == y[1];
      assert x[2..] == QuoteOnto(s[2..], t) && y[2..] == QuoteOnto(r[2..], u);
      QuoteOntoCut(s[2..], r[2..], t, u);
      assert s == [s[0], s[1]] + s[2..] && r == [r[0], r[1]] + r[2..];
    } else {
      EscapeUnitCut(s[0], r[0], QuoteOnto(s[1..], t), QuoteOnto(r[1..], u));
      QuoteOntoCut(s[1..], r[1..], t, u);
      assert s == [s[0]] + s[1..] && r == [r[0]] + r[1..];
    }
  }

  lemma QuoteCut(s: Text, r: Text, t: Text, u: Text)
    requires Quote(s) + t == Quote(r) + u
    ensures s == r && t == u
  {
    QuoteIs(s, t);
    QuoteIs(r, u);
    SamePrefix([QUOTE], QuoteOnto(s, t), QuoteOnto(r, u));
    QuoteOntoCut(s, r, t, u);
  }

  lemma QuoteIs(s: Text, t: Text)
    ensures Quote(s) + t == [QUOTE] + QuoteOnto(s, t)
  {
    QuoteOntoIs(s, t);
    Assoc([QUOTE] + QuoteBody(s), [QUOTE], t);
    Assoc([QUOTE], QuoteBody(s), [QUOTE] + t);
  }

  /** The first unit of a printed value tells its kind, and is never a delimiter. */
  lemma PrintFirst(v: Json)
    requires !v.Undefined?
    ensures Print(v) != [] && !Delimited(Print(v))
    ensures v.Arr? <==> Print(v)[0] == LBRACKET
    ensures v.Obj? <==> Print(v)[0] == LBRACE
    ensures v.Str? <==> Print(v)[0] == QUOTE
    ensures v.Number? <==> IsNumberUnit(Print(v)[0])
    ensures v.Null? || v.NonFinite? <==> Print(v)[0] == NULL[0]
    ensures v == Bool(true) <==> Print(v)[0] == TRUE[0]
    ensures v == Bool(false) <==> Print(v)[0] == FALSE[0]
  {
  }

  // ---------------------------------------------------------------------
  // Main result
  // ---------------------------------------------------------------------

  /** The text of a faithful value determines it up to key order, and where it ends. */
  lemma {:induction false} PrintCut(v: Json, w: Json, t: Text, u: Text)
    requires Valid(v) && Valid(w) && Faithful(v) && Faithful(w)
    requires Delimited(t) && Delimited(u)
    requires Print(v) + t == Print(w) + u
    ensures SameUpToKeyOrder(v, w) && t == u
    decreases v, 0, 0
  {
    SameKind(v, w, t, u);
    match v
    case Number(text) => NumberCut(text, w.text, t, u);
    case Str(s) => QuoteCut(s, w.s, t, u);
    case Arr(items) => ArrayCut(items, w.items, t, u);
    case Obj(fields) => ObjectCut(fields, w.fields, t, u);
    case _ => SamePrefix(Print(v), t, u);
  }

  lemma {:induction false} ArrayCut(a: seq<Json>, b: seq<Json>, t: Text, u: Text)
    requires Valid(Arr(a)) && Valid(Arr(b)) && Faithful(Arr(a)) && Faithful(Arr(b))
    requires Print(Arr(a)) + t == Print(Arr(b)) + u
    ensures SameUpToKeyOrder(Arr(a), Arr(b)) && t == u
    decreases a, 2, 0
  {
    Bracketed(LBRACKET, PrintItems(a), RBRACKET, t);
    Bracketed(LBRACKET, PrintItems(b), RBRACKET, u);
    SamePrefix([LBRACKET], PrintItems(a) + [RBRACKET] + t, PrintItems(b) + [RBRACKET] + u);
    ItemsCut(a, b, t, u);
  }

  /** Equal texts are texts of the same kind of value. */
  lemma SameKind(v: Json, w: Json, t: Text, u: Text)
    requires Faithful(v) && Faithful(w) && Delimited(t) && Delimited(u)
    requires Print(v) + t == Print(w) + u
    ensures v.Arr? <==> w.Arr?
    ensures v.Obj? <==> w.Obj?
    ensures v.Str? <==> w.Str?
    ensures v.Number? <==> w.Number?
    ensures !v.Arr? && !v.Obj? && !v.Str? && !v.Number? ==> v == w
  {
    var x, y := Print(v) + t, Print(w) + u;
    if v.Undefined? { assert x == t; } else { PrintFirst(v); assert x[0] == Print(v)[0]; }
    if w.Undefined? { assert y == u; } else { PrintFirst(w); assert y[0] == Print(w)[0]; }
  }

  lemma {:induction false} ObjectCut(f: seq<Field>, g: seq<Field>, t: Text, u: Text)
    requires Valid(Obj(f)) && Valid(Obj(g)) && Faithful(Obj(f)) && Faithful(Obj(g))
    requires Print(Obj(f)) + t == Print(Obj(g)) + u
    ensures SameUpToKeyOrder(Obj(f), Obj(g)) && t == u
    decreases f, 1, 0
  {
    var ks, ls := SortKeys(Keys(f)), SortKeys(Keys(g));
    SortKeysSorts(Keys(f));
    SortKeysSorts(Keys(g));
    Bracketed(LBRACE, PrintPairs(ks, f), RBRACE, t);
    Bracketed(LBRACE, PrintPairs(ls, g), RBRACE, u);
    SamePrefix([LBRACE], PrintPairs(ks, f) + [RBRACE] + t, PrintPairs(ls, g) + [RBRACE] + u);
    KeysAreHad(ks, f);
    KeysAreHad(ls, g);
    PairsCut(ks, ls, f, g, t, u);
    SameObjects(f, g, ks);
  }

  lemma KeysAreHad(ks: seq<Text>, fields: seq<Field>)
    requires forall x :: x in ks <==> x in Keys(fields)
    ensures forall x :: x in ks <==> HasKey(fields, x)
  {
    forall x ensures x in Keys(fields) <==> HasKey(fields, x) {
      if HasKey(fields, x) {
        var i :| 0 <= i < |fields| && fields[i].key == x;
        assert Keys(fields)[i] == x;
      }
    }
  }

  lemma GetAt(fields: seq<Field>, i: nat)
    requires DistinctKeys(fields) && i < |fields|
    ensures HasKey(fields, fields[i].key) && Get(fields, fields[i].key) == fields[i].value
  {
    var f := Field(fields[i].key, Get(fields, fields[i].key));
    var j :| 0 <= j < |fields| && fields[j] == f;
  }

  lemma SameObjects(f: seq<Field>, g: seq<Field>, ks: seq<Text>)
    requires DistinctKeys(f) && DistinctKeys(g)
    requires forall x :: x in ks <==> HasKey(f, x)
    requires forall x :: x in ks <==> HasKey(g, x)
    requires forall x :: x in ks ==> SameUpToKeyOrder(Get(f, x), Get(g, x))
    ensures SameUpToKeyOrder(Obj(f), Obj(g))
  {
    forall i | 0 <= i < |f| ensures HasKey(g, f[i].key) && SameUpToKeyOrder(f[i].value, Get(g, f[i].key)) {
      GetAt(f, i);
      assert f[i].key in ks;
    }
    forall i | 0 <= i < |g| ensures HasKey(f, g[i].key) {
      GetAt(g, i);
      assert g[i].key in ks;
    }
  }

  /** What follows one item or pair: the closing bracket, or a comma and the rest. */
  function After(last: bool, close: Unit, rest: Text, t: Text): Text {
    if last then [close] + t else [COMMA] + rest
  }

  lemma ItemsOnto(a: seq<Json>, t: Text)
    requires a != []
    ensures PrintItems(a) + [RBRACKET] + t
         == Print(a[0]) + After(|a| == 1, RBRACKET, PrintItems(a[1..]) + [RBRACKET] + t, t)
  {
    Assoc(PrintItems(a), [RBRACKET], t);
    if |a| > 1 {
      Regroup(Print(a[0]), COMMA, PrintItems(a[1..]), [RBRACKET] + t);
      Assoc(PrintItems(a[1..]), [RBRACKET], t);
    }
  }

  lemma PairsOnto(ks: seq<Text>, f: seq<Field>, t: Text)
    requires ks != [] && HasKey(f, ks[0])
    ensures PrintPairs(ks, f) + [RBRACE] + t
         == Quote(ks[0]) + ([COLON] + (Print(Get(f, ks[0]))
            + After(|ks| == 1, RBRACE, PrintPairs(ks[1..], f) + [RBRACE] + t, t)))
  {
    var more := PrintPairs(ks[1..], f) + [RBRACE] + t;
    var rest := After(|ks| == 1, RBRACE, more, t);
    Assoc(PrintPairs(ks, f), [RBRACE], t);
    if |ks| > 1 {
      Regroup(PrintPair(ks[0], f), COMMA, PrintPairs(ks[1..], f), [RBRACE] + t);
      Assoc(PrintPairs(ks[1..], f), [RBRACE], t);
    }
    Regroup(Quote(ks[0]), COLON, Print(Get(f, ks[0])), rest);
  }

  lemma Regroup(a: Text, u: Unit, b: Text, rest: Text)
    ensures a + [u] + b + rest == a + ([u] + (b + rest))
  {
  }

  lemma AfterCut(p: bool, q: bool, close: Unit, rest: Text, more: Text, t: Text, u: Text)
    requires close != COMMA && After(p, close, rest, t) == After(q, close, more, u)
    ensures p == q && (p ==> t == u) && (!p ==> rest == more)
  {
    var x, y := After(p, close, rest, t), After(q, close, more, u);
    assert x[0] == y[0];
    assert x[1..] == (if p then t else rest) && y[1..] == (if q then u else more);
  }

  lemma {:induction false} ItemsCut(a: seq<Json>, b: seq<Json>, t: Text, u: Text)
    requires a != [Undefined] && b != [Undefined]
    requires forall i :: 0 <= i < |a| ==> Valid(a[i]) && Faithful(a[i])
    requires forall i :: 0 <= i < |b| ==> Valid(b[i]) && Faithful(b[i])
    requires PrintItems(a) + [RBRACKET] + t == PrintItems(b) + [RBRACKET] + u
    ensures |a| == |b| && t == u
    ensures forall i :: 0 <= i < |a| ==> SameUpToKeyOrder(a[i], b[i])
    decreases a, 1, 0
  {
    var x, y := PrintItems(a) + [RBRACKET] + t, PrintItems(b) + [RBRACKET] + u;
    assert x[0] == y[0];
    if a == [] || b == [] {
      NonemptyItemsFirst(a);
      NonemptyItemsFirst(b);
      assert a == [] && b == [];
      assert t == x[1..] && u == y[1..];
    } else {
      NonemptyItemsCut(a, b, t, u);
    }
  }

  lemma NonemptyItemsFirst(a: seq<Json>)
    requires a != [Undefined]
    ensures a != [] ==> PrintItems(a) != [] && PrintItems(a)[0] != RBRACKET
  {
    if a != [] && !a[0].Undefined? { PrintFirst(a[0]); }
  }

  lemma {:induction false} NonemptyItemsCut(a: seq<Json>, b: seq<Json>, t: Text, u: Text)
    requires a != [] && b != []
    requires forall i :: 0 <= i < |a| ==> Valid(a[i]) && Faithful(a[i])
    requires forall i :: 0 <= i < |b| ==> Valid(b[i]) && Faithful(b[i])
    requires PrintItems(a) + [RBRACKET] + t == PrintItems(b) + [RBRACKET] + u
    ensures |a| == |b| && t == u
    ensures forall i :: 0 <= i < |a| ==> SameUpToKeyOrder(a[i], b[i])
    decreases a, 0, 0
  {
    var restA, restB := PrintItems(a[1..]) + [RBRACKET] + t, PrintItems(b[1..]) + [RBRACKET] + u;
    ItemsOnto(a, t);
    ItemsOnto(b, u);
    PrintCut(a[0], b[0], After(|a| == 1, RBRACKET, restA, t), After(|b| == 1, RBRACKET, restB, u));
    AfterCut(|a| == 1, |b| == 1, RBRACKET, restA, restB, t, u);
    if |a| > 1 {
      NonemptyItemsCut(a[1..], b[1..], t, u);
      forall i | 0 <= i < |a| ensures SameUpToKeyOrder(a[i], b[i]) {
        if i > 0 { assert a[i] == a[1..][i - 1] && b[i] == b[1..][i - 1]; }
      }
    }
  }

  lemma {:induction false} PairsCut(ks: seq<Text>, ls: seq<Text>, f: seq<Field>, g: seq<Field>, t: Text, u: Text)
    requires forall x :: x in ks ==> HasKey(f, x)
    requires forall x :: x in ls ==> HasKey(g, x)
    requires forall i :: 0 <= i < |f| ==> Valid(f[i].value) && Faithful(f[i].value)
    requires forall i :: 0 <= i < |g| ==> Valid(g[i].value) && Faithful(g[i].value)
    requires PrintPairs(ks, f) + [RBRACE] + t == PrintPairs(ls, g) + [RBRACE] + u
    ensures ks == ls && t == u
    ensures forall x :: x in ks ==> SameUpToKeyOrder(Get(f, x), Get(g, x))
    decreases f, 0, |ks|
  {
    if ks == [] || ls == [] {
      var x, y := PrintPairs(ks, f) + [RBRACE] + t, PrintPairs(ls, g) + [RBRACE] + u;
      assert x[0] == y[0];
      assert ks == [] && ls == [];
      assert t == x[1..] && u == y[1..];
    } else {
      FirstPairCut(ks, ls, f, g, t, u);
      if |ks| > 1 {
        PairsCut(ks[1..], ls[1..], f, g, t, u);
      }
      assert ks == [ks[0]] + ks[1..] && ls == [ls[0]] + ls[1..];
    }
  }

  lemma {:induction false} FirstPairCut(ks: seq<Text>, ls: seq<Text>, f: seq<Field>, g: seq<Field>, t: Text, u: Text)
    requires ks != [] && ls != [] && HasKey(f, ks[0]) && HasKey(g, ls[0])
    requires forall i :: 0 <= i < |f| ==> Valid(f[i].value) && Faithful(f[i].value)
    requires forall i :: 0 <= i < |g| ==> Valid(g[i].value) && Faithful(g[i].value)
    requires PrintPairs(ks, f) + [RBRACE] + t == PrintPairs(ls, g) + [RBRACE] + u
    ensures ks[0] == ls[0] && (|ks| == 1 <==> |ls| == 1)
    ensures SameUpToKeyOrder(Get(f, ks[0]), Get(g, ls[0]))
    ensures |ks| == 1 ==> t == u
    ensures |ks| > 1 ==> PrintPairs(ks[1..], f) + [RBRACE] + t == PrintPairs(ls[1..], g) + [RBRACE] + u
    decreases f, 0, 0
  {
    var restK, restL := PrintPairs(ks[1..], f) + [RBRACE] + t, PrintPairs(ls[1..], g) + [RBRACE] + u;
    var v, w := Get(f, ks[0]), Get(g, ls[0]);
    var afterK, afterL := After(|ks| == 1, RBRACE, restK, t), After(|ls| == 1, RBRACE, restL, u);
    PairsOnto(ks, f, t);
    PairsOnto(ls, g, u);
    var x, y := [COLON] + (Print(v) + afterK), [COLON] + (Print(w) + afterL);
    QuoteCut(ks[0], ls[0], x, y);
    assert x[1..] == Print(v) + afterK && y[1..] == Print(w) + afterL;
    assert Field(ks[0], v) in f && Field(ls[0], w) in g;
    PrintCut(v, w, afterK, afterL);
    AfterCut(|ks| == 1, |ls| == 1, RBRACE, restK, restL, t, u);
  }

  /** Values that differ only in key order print alike. */
  lemma {:induction false} SamePrintsAlike(v: Json, w: Json)
    requires Valid(v) && Valid(w) && SameUpToKeyOrder(v, w)
    ensures Print(v) == Print(w)
    decreases v, 0, 0
  {
    match v
    case Arr(items) => SameItemsPrintAlike(items, w.items);
    case Obj(f) =>
      var g := w.fields;
      var ks, ls := SortKeys(Keys(f)), SortKeys(Keys(g));
      SortKeysSorts(Keys(f));
      SortKeysSorts(Keys(g));
      KeysAreHad(ks, f);
      KeysAreHad(ls, g);
      forall x ensures x in ks <==> x in ls {
        if x in ks {
          var i :| 0 <= i < |f| && f[i].key == x;
        }
        if x in ls {
          var i :| 0 <= i < |g| && g[i].key == x;
        }
      }
      AscendingUnique(ks, ls);
      SamePairsPrintAlike(ks, f, g);
    case _ =>
  }

  lemma {:induction false} SameItemsPrintAlike(a: seq<Json>, b: seq<Json>)
    requires |a| == |b|
    requires forall i :: 0 <= i < |a| ==> Valid(a[i]) && Valid(b[i]) && SameUpToKeyOrder(a[i], b[i])
    ensures PrintItems(a) == PrintItems(b)
    decreases a, 0, 0
  {
    if a != [] {
      SamePrintsAlike(a[0], b[0]);
      SameItemsPrintAlike(a[1..], b[1..]);
    }
  }

  lemma {:induction false} SamePairsPrintAlike(ks: seq<Text>, f: seq<Field>, g: seq<Field>)
    requires Valid(Obj(f)) && Valid(Obj(g)) && SameUpToKeyOrder(Obj(f), Obj(g))
    requires forall x :: x in ks ==> HasKey(f, x) && HasKey(g, x)
    ensures PrintPairs(ks, f) == PrintPairs(ks, g)
    decreases f, 0, |ks|
  {
    if ks != [] {
      assert HasKey(f, ks[0]);
      var i :| 0 <= i < |f| && f[i].key == ks[0];
      GetAt(f, i);
      var value := Get(g, ks[0]);
      var j :| 0 <= j < |g| && g[j] == Field(ks[0], value);
      SamePrintsAlike(f[i].value, value);
      SamePairsPrintAlike(ks[1..], f, g);
    }
  }

  /**
   * The hash input separates everything except key order: for faithful values
   * it is equal exactly when the values are equal up to key order.
   */
  lemma HashInputSeparates(v: Json, w: Json)
    requires Valid(v) && Valid(w) && Faithful(v) && Faithful(w)
    ensures HashInput(v) == HashInput(w) <==> SameUpToKeyOrder(v, w)
  {
    if HashInput(v) == HashInput(w) {
      assert Print(v) + [] == Print(v) && Print(w) + [] == Print(w);
      PrintCut(v, w, [], []);
    }
    if SameUpToKeyOrder(v, w) {
      SamePrintsAlike(v, w);
    }
  }

  // ---------------------------------------------------------------------
  // All values: exactly what is lost
  // ---------------------------------------------------------------------

  /** NaN and infinities become null and [undefined] becomes [], at every depth. */
  function Repair(v: Json): (r: Json)
    ensures r.Undefined? <==> v.Undefined?
    decreases v
  {
    match v
    case NonFinite(_) => Null
    case Arr(items) =>
      if items == [Undefined] then Arr([])
      else Arr(seq(|items|, i requires 0 <= i < |items| => Repair(items[i])))
    case Obj(fields) =>
      Obj(seq(|fields|, i requires 0 <= i < |fields| => Field(fields[i].key, Repair(fields[i].value))))
    case _ => v
  }

  lemma {:induction false} RepairIsFaithful(v: Json)
    requires Valid(v)
    ensures RepairHolds(v)
    decreases v
  {
    match v
    case Arr(items) =>
      if items == [Undefined] {
        assert PrintItems(items) == Print(items[0]) == [];
      } else {
        forall i | 0 <= i < |items| ensures RepairHolds(items[i]) {
          RepairIsFaithful(items[i]);
        }
        RepairedArray(items);
      }
    case Obj(f) =>
      forall i | 0 <= i < |f| ensures RepairHolds(f[i].value) {
        RepairIsFaithful(f[i].value);
      }
      RepairedObject(f);
    case _ =>
  }

  predicate RepairHolds(v: Json) {
    Valid(Repair(v)) && Faithful(Repair(v)) && Print(Repair(v)) == Print(v)
    && (SameUpToKeyOrder(v, Repair(v)) <==> Faithful(v))
  }

  lemma {:induction false} RepairedArray(items: seq<Json>)
    requires items != [Undefined] && forall i :: 0 <= i < |items| ==> RepairHolds(items[i])
    ensures RepairHolds(Arr(items))
  {
    var out := Repair(Arr(items)).items;
    assert forall i :: 0 <= i < |items| ==> out[i] == Repair(items[i]);
    assert |items| == 1 ==> items == [items[0]];
    AlikeItems(items, out);
  }

  lemma {:induction false} RepairedObject(f: seq<Field>)
    requires DistinctKeys(f) && forall i :: 0 <= i < |f| ==> RepairHolds(f[i].value)
    ensures RepairHolds(Obj(f))
  {
    var g := Repair(Obj(f)).fields;
    assert forall i :: 0 <= i < |f| ==> g[i] == Field(f[i].key, Repair(f[i].value));
    assert Keys(f) == Keys(g);
    AlikePairs(SortKeys(Keys(f)), f, g);
    SameFieldwise(f, g);
  }

  lemma SameFieldwise(f: seq<Field>, g: seq<Field>)
    requires |f| == |g| && DistinctKeys(f) && DistinctKeys(g)
    requires forall i :: 0 <= i < |f| ==> f[i].key == g[i].key
    ensures SameUpToKeyOrder(Obj(f), Obj(g))
       <==> forall i :: 0 <= i < |f| ==> SameUpToKeyOrder(f[i].value, g[i].value)
  {
    forall i | 0 <= i < |f|
      ensures HasKey(f, g[i].key)
      ensures HasKey(g, f[i].key) && Get(g, f[i].key) == g[i].value
    {
      GetAt(f, i);
      GetAt(g, i);
    }
  }

  lemma {:induction false} AlikeItems(a: seq<Json>, b: seq<Json>)
    requires |a| == |b| && forall i :: 0 <= i < |a| ==> Print(a[i]) == Print(b[i])
    ensures PrintItems(a) == PrintItems(b)
    decreases |a|
  {
    if a != [] { AlikeItems(a[1..], b[1..]); }
  }

  lemma {:induction false} AlikePairs(ks: seq<Text>, f: seq<Field>, g: seq<Field>)
    requires |f| == |g| && DistinctKeys(f) && DistinctKeys(g)
    requires forall i :: 0 <= i < |f| ==> f[i].key == g[i].key && Print(f[i].value) == Print(g[i].value)
    ensures PrintPairs(ks, f) == PrintPairs(ks, g)
    decreases |ks|
  {
    if ks != [] {
      if HasKey(f, ks[0]) {
        var i :| 0 <= i < |f| && f[i].key == ks[0];
        GetAt(f, i);
        GetAt(g, i);
      } else {
        assert !HasKey(g, ks[0]);
      }
      AlikePairs(ks[1..], f, g);
    }
  }

  /** For every value: equal hash inputs mean equal up to key order after the two losses of JSON, and nothing more. */
  lemma HashInputForgetsExactly(v: Json, w: Json)
    requires Valid(v) && Valid(w)
    ensures HashInput(v) == HashInput(w) <==> SameUpToKeyOrder(Repair(v), Repair(w))
  {
    RepairIsFaithful(v);
    RepairIsFaithful(w);
    HashInputSeparates(Repair(v), Repair(w));
  }

  /** A value that is not faithful shares its hash input with a different value. */
  lemma UnfaithfulCollides(v: Json)
    requires Valid(v) && !Faithful(v)
    ensures exists w :: Valid(w) && HashInput(w) == HashInput(v) && !SameUpToKeyOrder(v, w)
  {
    RepairIsFaithful(v);
    var w := Repair(v);
    assert Valid(w) && HashInput(w) == HashInput(v) && !SameUpToKeyOrder(v, w);
  }
}
