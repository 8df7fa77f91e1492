/**
 * The bounded strict JSON decoder of docker/build-trust-runtime/spec.go, over
 * the tokens that Go's json.Decoder hands out. Go strings are byte strings:
 * each char of a model string stands for one byte.
 */
module StrictJson {

  import opened Wrappers

  const MAX_JSON_DEPTH := 64
  const MAX_OBJECT_FIELDS := 4096
  const MAX_ARRAY_ITEMS := 8192
  const MAX_STRING_BYTES := 0x40000

  datatype Token =
    | OpenObject | CloseObject | OpenArray | CloseArray
    | StringToken(s: string) | NumberToken(text: string) | BoolToken(b: bool) | NullToken

  /** What the decoder returns: Go's map[string]any, []any and scalars. Numbers keep their text (UseNumber). */
  datatype Value =
    | Null
    | Bool(b: bool)
    | Number(text: string)
    | Str(s: string)
    | Array(items: seq<Value>)
    | Object(fields: map<string, Value>)

  // ---------------------------------------------------------------------
  // Reference grammar: documents with their member order, and their token streams
  // ---------------------------------------------------------------------

  datatype Member = Member(key: string, doc: Doc)

  datatype Doc =
    | DNull
    | DBool(b: bool)
    | DNumber(text: string)
    | DString(s: string)
    | DArray(items: seq<Doc>)
    | DObject(members: seq<Member>)

  /** The tokens of document `d` followed by `rest`. */
  function Write(d: Doc, rest: seq<Token>): seq<Token>
    decreases d
  {
    match d
    case DNull => [NullToken] + rest
    case DBool(b) => [BoolToken(b)] + rest
    case DNumber(text) => [NumberToken(text)] + rest
    case DString(s) => [StringToken(s)] + rest
    case DArray(items) => [OpenArray] + WriteItems(items, [CloseArray] + rest)
    case DObject(members) => [OpenObject] + WriteMembers(members, [CloseObject] + rest)
  }

  function WriteItems(items: seq<Doc>, rest: seq<Token>): seq<Token>
    decreases items
  {
    if items == [] then rest else Write(items[0], WriteItems(items[1..], rest))
  }

  function WriteMembers(members: seq<Member>, rest: seq<Token>): seq<Token>
    decreases members
  {
    if members == [] then rest
    else [StringToken(members[0].key)] + Write(members[0].doc, WriteMembers(members[1..], rest))
  }

  /** The value a document denotes. */
  function Meaning(d: Doc): Value
    decreases d
  {
    match d
    case DNull => Null
    case DBool(b) => Bool(b)
    case DNumber(text) => Number(text)
    case DString(s) => Str(s)
    case DArray(items) => Array(seq(|items|, i requires 0 <= i < |items| => Meaning(items[i])))
    case DObject(members) => Object(MembersMeaning(members))
  }

  function MembersMeaning(members: seq<Member>): map<string, Value>
    decreases members
  {
    if members == [] then map[]
    else
      var last := members[|members| - 1];
      MembersMeaning(members[..|members| - 1])[last.key := Meaning(last.doc)]
  }

  predicate DistinctNames(members: seq<Member>) {
    forall i, j :: 0 <= i < j < |members| ==> members[i].key != members[j].key
  }

  /** Within the decoder's bounds when met at nesting depth `depth`; names are unique (RFC 8259, section 4). */
  predicate WithinBounds(d: Doc, depth: int)
    decreases d
  {
    depth <= MAX_JSON_DEPTH &&
    match d
    case DString(s) => |s| <= MAX_STRING_BYTES
    case DArray(items) =>
      |items| <= MAX_ARRAY_ITEMS && forall i :: 0 <= i < |items| ==> WithinBounds(items[i], depth + 1)
    case DObject(members) =>
      |members| <= MAX_OBJECT_FIELDS && DistinctNames(members)
      && forall i :: 0 <= i < |members| ==>
           |members[i].key| <= MAX_STRING_BYTES && WithinBounds(members[i].doc, depth + 1)
    case _ => true
  }

  // ---------------------------------------------------------------------
  // Unique readability
  // ---------------------------------------------------------------------

  predicate IsClose(t: Token) { t == CloseArray || t == CloseObject }

  /** No token at all, or a closing bracket: json.Decoder.More is false. */
  predicate AtEnd(ts: seq<Token>) { ts == [] || IsClose(ts[0]) }

  lemma WriteFirst(d: Doc, rest: seq<Token>)
    ensures !AtEnd(Write(d, rest))
    ensures |Write(d, rest)| > |rest|
  {
    match d
    case DArray(items) => WriteItemsLonger(items, [CloseArray] + rest);
    case DObject(members) => WriteMembersLonger(members, [CloseObject] + rest);
    case _ =>
  }

  lemma {:induction false} WriteItemsLonger(items: seq<Doc>, rest: seq<Token>)
    ensures |WriteItems(items, rest)| >= |rest|
    decreases items
  {
    if items != [] {
      WriteItemsLonger(items[1..], rest);
      WriteFirst(items[0], WriteItems(items[1..], rest));
    }
  }

  lemma {:induction false} WriteMembersLonger(members: seq<Member>, rest: seq<Token>)
    ensures |WriteMembers(members, rest)| >= |rest|
    decreases members
  {
    if members != [] {
      WriteMembersLonger(members[1..], rest);
      WriteFirst(members[0].doc, WriteMembers(members[1..], rest));
    }
  }

  /** A token stream starts with at most one document. */
  lemma {:induction false} WriteCut(d: Doc, e: Doc, t: seq<Token>, u: seq<Token>)
    requires Write(d, t) == Write(e, u)
    ensures d == e && t == u
    decreases d, 0
  {
    var x, y := Write(d, t), Write(e, u);
    assert x[0] == y[0];
    match d
    case DArray(items) =>
      assert x[1..] == WriteItems(items, [CloseArray] + t);
      assert y[1..] == WriteItems(e.items, [CloseArray] + u);
      WriteItemsCut(items, e.items, [CloseArray] + t, [CloseArray] + u);
      assert ([CloseArray] + t)[1..] == t && ([CloseArray] + u)[1..] == u;
    case DObject(members) =>
      assert x[1..] == WriteMembers(members, [CloseObject] + t);
      assert y[1..] == WriteMembers(e.members, [CloseObject] + u);
      WriteMembersCut(members, e.members, [CloseObject] + t, [CloseObject] + u);
      assert ([CloseObject] + t)[1..] == t && ([CloseObject] + u)[1..] == u;
    case _ =>
      assert x[1..] == t && y[1..] == u;
  }

  lemma {:induction false} WriteItemsCut(a: seq<Doc>, b: seq<Doc>, t: seq<Token>, u: seq<Token>)
    requires AtEnd(t) && AtEnd(u) && WriteItems(a, t) == WriteItems(b, u)
    ensures a == b && t == u
    decreases a, 0
  {
    if a != [] { WriteFirst(a[0], WriteItems(a[1..], t)); }
    if b != [] { WriteFirst(b[0], WriteItems(b[1..], u)); }
    if a != [] && b != [] {
      WriteCut(a[0], b[0], WriteItems(a[1..], t), WriteItems(b[1..], u));
      WriteItemsCut(a[1..], b[1..], t, u);
      assert a == [a[0]] + a[1..] && b == [b[0]] + b[1..];
    }
  }

  lemma {:induction false} WriteMembersCut(a: seq<Member>, b: seq<Member>, t: seq<Token>, u: seq<Token>)
    requires AtEnd(t) && AtEnd(u) && WriteMembers(a, t) == WriteMembers(b, u)
    ensures a == b && t == u
    decreases a, 0
  {
    var x, y := WriteMembers(a, t), WriteMembers(b, u);
    if a != [] && b != [] {
      assert x[0] == y[0];
      assert x[1..] == Write(a[0].doc, WriteMembers(a[1..], t));
      assert y[1..] == Write(b[0].doc, WriteMembers(b[1..], u));
      WriteCut(a[0].doc, b[0].doc, WriteMembers(a[1..], t), WriteMembers(b[1..], u));
      WriteMembersCut(a[1..], b[1..], t, u);
      assert a == [a[0]] + a[1..] && b == [b[0]] + b[1..];
    }
  }

  // ---------------------------------------------------------------------
  // Loop steps
  // ---------------------------------------------------------------------

  lemma {:induction false} WriteItemsSnoc(done: seq<Doc>, next: Doc, rest: seq<Token>)
    ensures WriteItems(done + [next], rest) == WriteItems(done, Write(next, rest))
    decreases |done|
  {
    if done == [] {
      assert done + [next] == [next];
    } else {
      assert (done + [next])[1..] == done[1..] + [next];
      WriteItemsSnoc(done[1..], next, rest);
    }
  }

  lemma {:induction false} WriteMembersSnoc(done: seq<Member>, next: Member, rest: seq<Token>)
    ensures WriteMembers(done + [next], rest) == WriteMembers(done, [StringToken(next.key)] + Write(next.doc, rest))
    decreases |done|
  {
    if done == [] {
      assert done + [next] == [next];
    } else {
      assert (done + [next])[1..] == done[1..] + [next];
      WriteMembersSnoc(done[1..], next, rest);
    }
  }

  /** Whatever whole list a stream holds, the items read so far are its beginning. */
  lemma {:induction false} ItemsReadSoFar(done: seq<Doc>, all: seq<Doc>, rest: seq<Token>, tail: seq<Token>)
    requires AtEnd(tail) && WriteItems(done, rest) == WriteItems(all, tail)
    ensures |done| <= |all| && rest == WriteItems(all[|done|..], tail)
    decreases |done|
  {
    if done != [] {
      WriteFirst(done[0], WriteItems(done[1..], rest));
      assert all != [];
      WriteCut(done[0], all[0], WriteItems(done[1..], rest), WriteItems(all[1..], tail));
      ItemsReadSoFar(done[1..], all[1..], rest, tail);
      assert all[1..][|done| - 1..] == all[|done|..];
    }
  }

  lemma {:induction false} MembersReadSoFar(done: seq<Member>, all: seq<Member>, rest: seq<Token>, tail: seq<Token>)
    requires AtEnd(tail) && WriteMembers(done, rest) == WriteMembers(all, tail)
    ensures |done| <= |all| && done == all[..|done|] && rest == WriteMembers(all[|done|..], tail)
    decreases |done|
  {
    if done != [] {
      var x, y := WriteMembers(done, rest), WriteMembers(all, tail);
      assert x[0] == y[0] == StringToken(done[0].key);
      assert all != [];
      assert x[1..] == Write(done[0].doc, WriteMembers(done[1..], rest));
      assert y[1..] == Write(all[0].doc, WriteMembers(all[1..], tail));
      WriteCut(done[0].doc, all[0].doc, WriteMembers(done[1..], rest), WriteMembers(all[1..], tail));
      MembersReadSoFar(done[1..], all[1..], rest, tail);
      assert all[1..][|done| - 1..] == all[|done|..];
      assert done == [done[0]] + done[1..];
      assert all[..|done|] == [all[0]] + all[1..][..|done| - 1];
    }
  }

  lemma {:induction false} MembersMeaningKeys(members: seq<Member>)
    ensures forall k :: k in MembersMeaning(members) <==> exists i :: 0 <= i < |members| && members[i].key == k
    ensures DistinctNames(members) ==> |MembersMeaning(members)| == |members|
    decreases |members|
  {
    if members != [] {
      var n := |members| - 1;
      var front := members[..n];
      MembersMeaningKeys(front);
      assert forall i :: 0 <= i < n ==> front[i] == members[i];
      assert DistinctNames(members) ==> members[n].key !in MembersMeaning(front);
    }
  }

  lemma AddMember(done: seq<Member>, next: Member, rest: seq<Token>)
    requires DistinctNames(done) && next.key !in MembersMeaning(done)
    ensures WriteMembers(done + [next], rest) == WriteMembers(done, [StringToken(next.key)] + Write(next.doc, rest))
    ensures MembersMeaning(done + [next]) == MembersMeaning(done)[next.key := Meaning(next.doc)]
    ensures DistinctNames(done + [next])
  {
    WriteMembersSnoc(done, next, rest);
    var longer := done + [next];
    assert longer[..|longer| - 1] == done;
    MembersMeaningKeys(done);
  }

  /** What `stream` would have to look like for a bounded document to start it. */
  ghost predicate Starts(stream: seq<Token>, depth: int) {
    exists d, rest :: WithinBounds(d, depth) && stream == Write(d, rest)
  }

  class Decoder {
    const tokens: seq<Token>
    var pos: nat

    ghost predicate Valid()
      reads this
    {
      pos <= |tokens|
    }

    ghost function Rest(): seq<Token>
      reads this
      requires Valid()
    {
      tokens[pos..]
    }

    constructor (tokens: seq<Token>)
      ensures Valid() && this.tokens == tokens && Rest() == tokens
    {
      this.tokens := tokens;
      pos := 0;
    }

    /** json.Decoder.Token; Err at the end of the input. */
    method Next() returns (r: Result<Token>)
      requires Valid()
      modifies this
      ensures Valid()
      ensures old(Rest()) == [] ==> r.Err? && Rest() == []
      ensures old(Rest()) != [] ==> r == Ok(old(Rest())[0]) && Rest() == old(Rest())[1..]
      ensures pos >= old(pos)
    {
      if pos == |tokens| { return Err; }
      r := Ok(tokens[pos]);
      pos := pos + 1;
    }

    /** json.Decoder.More. */
    predicate More()
      reads this
      requires Valid()
      ensures More() <==> !AtEnd(Rest())
    {
      pos < |tokens| && !IsClose(tokens[pos])
    }

    /**
     * Accepts exactly when some bounded document starts the remaining tokens,
     * and then consumes that document and returns its value.
     */
    method DecodeValue(depth: nat) returns (r: Result<Value>, ghost doc: Doc)
      requires Valid()
      modifies this
      ensures Valid() && pos >= old(pos)
      ensures r.Ok? ==> WithinBounds(doc, depth) && old(Rest()) == Write(doc, Rest()) && r.value == Meaning(doc)
      ensures r.Err? ==> !Starts(old(Rest()), depth)
      decreases |tokens| - pos, 0
    {
      doc := DNull;
      if depth > MAX_JSON_DEPTH { return Err, doc; }
      var start := Next();
      if start.Err? {
        forall d, rest ensures !AtEnd(Write(d, rest)) { WriteFirst(d, rest); }
        return Err, doc;
      }
      match start.value
      case NullToken => r, doc := Ok(Null), DNull;
      case BoolToken(b) => r, doc := Ok(Bool(b)), DBool(b);
      case NumberToken(text) => r, doc := Ok(Number(text)), DNumber(text);
      case StringToken(s) =>
        if |s| > MAX_STRING_BYTES { return Err, doc; }
        r, doc := Ok(Str(s)), DString(s);
      case OpenObject => r, doc := DecodeMembers(depth);
      case OpenArray => r, doc := DecodeItems(depth);
      case _ =>
        forall d, rest ensures !AtEnd(Write(d, rest)) { WriteFirst(d, rest); }
        return Err, doc;
    }

    /** The `[` case, after its opening token. */
    method DecodeItems(depth: nat) returns (r: Result<Value>, ghost doc: Doc)
      requires Valid() && depth <= MAX_JSON_DEPTH
      modifies this
      ensures Valid() && pos >= old(pos)
      ensures r.Ok? ==> WithinBounds(doc, depth) && r.value == Meaning(doc)
      ensures r.Ok? ==> [OpenArray] + old(Rest()) == Write(doc, Rest())
      ensures r.Err? ==> !Starts([OpenArray] + old(Rest()), depth)
      decreases |tokens| - pos, 1
    {
      var values: seq<Value> := [];
      ghost var docs: seq<Doc> := [];
      doc := DNull;
      while More()
        invariant Valid() && pos >= old(pos)
        invariant old(Rest()) == WriteItems(docs, Rest())
        invariant |docs| == |values| <= MAX_ARRAY_ITEMS
        invariant forall i :: 0 <= i < |docs| ==> WithinBounds(docs[i], depth + 1) && values[i] == Meaning(docs[i])
        decreases |tokens| - pos
      {
        ghost var before := Rest();
        if |values| >= MAX_ARRAY_ITEMS {
          NoArray(old(Rest()), docs, before, depth);
          return Err, doc;
        }
        var child, childDoc := DecodeValue(depth + 1);
        if child.Err? {
          NoArray(old(Rest()), docs, before, depth);
          return Err, doc;
        }
        WriteFirst(childDoc, Rest());
        WriteItemsSnoc(docs, childDoc, Rest());
        values, docs := values + [child.value], docs + [childDoc];
      }
      ghost var before := Rest();
      var close := Next();
      if close != Ok(CloseArray) {
        NoArray(old(Rest()), docs, before, depth);
        return Err, doc;
      }
      r, doc := Ok(Array(values)), DArray(docs);
      assert before == [CloseArray] + Rest();
    }

    /** The name of one more member: a string within the bound that is not taken, if there is room. */
    method NextName(fields: map<string, Value>) returns (name: Result<string>)
      requires Valid() && More()
      modifies this
      ensures Valid() && pos >= old(pos)
      ensures name.Ok? ==> |fields| < MAX_OBJECT_FIELDS && |name.value| <= MAX_STRING_BYTES && name.value !in fields
      ensures name.Ok? ==> pos > old(pos) && old(Rest()) == [StringToken(name.value)] + Rest()
      ensures name.Err? ==> var token := old(Rest())[0];
        || |fields| >= MAX_OBJECT_FIELDS || !token.StringToken?
        || |token.s| > MAX_STRING_BYTES || token.s in fields
    {
      if |fields| >= MAX_OBJECT_FIELDS { return Err; }
      var token := Next();
      if token.Err? || !token.value.StringToken? || |token.value.s| > MAX_STRING_BYTES { return Err; }
      if token.value.s in fields { return Err; }
      return Ok(token.value.s);
    }

    /** The `{` case, after its opening token. */
    method DecodeMembers(depth: nat) returns (r: Result<Value>, ghost doc: Doc)
      requires Valid() && depth <= MAX_JSON_DEPTH
      modifies this
      ensures Valid() && pos >= old(pos)
      ensures r.Ok? ==> WithinBounds(doc, depth) && r.value == Meaning(doc)
      ensures r.Ok? ==> [OpenObject] + old(Rest()) == Write(doc, Rest())
      ensures r.Err? ==> !Starts([OpenObject] + old(Rest()), depth)
      decreases |tokens| - pos, 1
    {
      var fields: map<string, Value> := map[];
      ghost var members: seq<Member> := [];
      doc := DNull;
      while More()
        invariant Valid() && pos >= old(pos)
        invariant old(Rest()) == WriteMembers(members, Rest())
        invariant fields == MembersMeaning(members) && DistinctNames(members) && |members| <= MAX_OBJECT_FIELDS
        invariant forall i :: 0 <= i < |members| ==>
          |members[i].key| <= MAX_STRING_BYTES && WithinBounds(members[i].doc, depth + 1)
        decreases |tokens| - pos
      {
        ghost var before := Rest();
        MembersMeaningKeys(members);
        var name := NextName(fields);
        if name.Err? {
          NoObject(old(Rest()), members, before, depth);
          return Err, doc;
        }
        var key := name.value;
        var child, childDoc := DecodeValue(depth + 1);
        if child.Err? {
          NoObject(old(Rest()), members, before, depth);
          return Err, doc;
        }
        AddMember(members, Member(key, childDoc), Rest());
        fields, members := fields[key := child.value], members + [Member(key, childDoc)];
      }
      ghost var before := Rest();
      var close := Next();
      if close != Ok(CloseObject) {
        NoObject(old(Rest()), members, before, depth);
        return Err, doc;
      }
      r, doc := Ok(Object(fields)), DObject(members);
      assert before == [CloseObject] + Rest();
    }
  }

  /** Where a bounded array must go on when its first items are `docs`. */
  lemma ArrayGoesOn(stream: seq<Token>, docs: seq<Doc>, rest: seq<Token>, depth: nat)
    requires stream == WriteItems(docs, rest) && Starts([OpenArray] + stream, depth)
    ensures AtEnd(rest) ==> rest != [] && rest[0] == CloseArray
    ensures !AtEnd(rest) ==> |docs| < MAX_ARRAY_ITEMS && Starts(rest, depth + 1)
  {
    var d, tail :| WithinBounds(d, depth) && [OpenArray] + stream == Write(d, tail);
    assert Write(d, tail)[0] == OpenArray;
    var all, end := d.items, [CloseArray] + tail;
    assert stream == Write(d, tail)[1..] == WriteItems(all, end);
    ItemsReadSoFar(docs, all, rest, end);
    if |docs| < |all| {
      var next := all[|docs|];
      assert WithinBounds(next, depth + 1);
      WriteFirst(next, WriteItems(all[|docs|..][1..], end));
    }
  }

  /** Where a bounded object must go on when its first members are `members`. */
  lemma ObjectGoesOn(stream: seq<Token>, members: seq<Member>, rest: seq<Token>, depth: nat)
    requires stream == WriteMembers(members, rest) && Starts([OpenObject] + stream, depth)
    ensures AtEnd(rest) ==> rest != [] && rest[0] == CloseObject
    ensures !AtEnd(rest) ==>
      && |members| < MAX_OBJECT_FIELDS
      && rest[0].StringToken? && |rest[0].s| <= MAX_STRING_BYTES && rest[0].s !in MembersMeaning(members)
      && Starts(rest[1..], depth + 1)
  {
    var d, tail :| WithinBounds(d, depth) && [OpenObject] + stream == Write(d, tail);
    assert Write(d, tail)[0] == OpenObject;
    var all, end := d.members, [CloseObject] + tail;
    assert stream == Write(d, tail)[1..] == WriteMembers(all, end);
    MembersReadSoFar(members, all, rest, end);
    if |members| < |all| {
      var next := all[|members|];
      assert WithinBounds(next.doc, depth + 1);
      assert rest[1..] == Write(next.doc, WriteMembers(all[|members|..][1..], end));
      MembersMeaningKeys(members);
      assert next.key !in MembersMeaning(members);
    }
  }

  /** Each way the array loop gives up rules out every bounded array at this place. */
  lemma NoArray(stream: seq<Token>, docs: seq<Doc>, rest: seq<Token>, depth: nat)
    requires stream == WriteItems(docs, rest)
    requires
      || (!AtEnd(rest) && (|docs| >= MAX_ARRAY_ITEMS || !Starts(rest, depth + 1)))
      || (AtEnd(rest) && (rest == [] || rest[0] != CloseArray))
    ensures !Starts([OpenArray] + stream, depth)
  {
    if Starts([OpenArray] + stream, depth) { ArrayGoesOn(stream, docs, rest, depth); }
  }

  /** Each way the object loop gives up rules out every bounded object at this place. */
  lemma NoObject(stream: seq<Token>, members: seq<Member>, rest: seq<Token>, depth: nat)
    requires stream == WriteMembers(members, rest)
    requires
      || (!AtEnd(rest) && (
            || |members| >= MAX_OBJECT_FIELDS
            || !rest[0].StringToken?
            || |rest[0].s| > MAX_STRING_BYTES
            || rest[0].s in MembersMeaning(members)
            || !Starts(rest[1..], depth + 1)))
      || (AtEnd(rest) && (rest == [] || rest[0] != CloseObject))
    ensures !Starts([OpenObject] + stream, depth)
  {
    if Starts([OpenObject] + stream, depth) { ObjectGoesOn(stream, members, rest, depth); }
  }

  // ---------------------------------------------------------------------
  // decodeStrictJSON
  // ---------------------------------------------------------------------

  ghost predicate IsTextOf(tokens: seq<Token>, d: Doc) {
    WithinBounds(d, 0) && tokens == Write(d, [])
  }

  /** The value of the one bounded document that `tokens` is, if there is one. */
  ghost function Decoded(tokens: seq<Token>): Result<Value> {
    if exists d :: IsTextOf(tokens, d) then
      var d :| IsTextOf(tokens, d);
      Ok(Meaning(d))
    else Err
  }

  /** Decoding undoes writing, and refuses everything that is not the writing of a bounded document. */
  lemma DecodedIffWritten(tokens: seq<Token>, v: Value)
    ensures Decoded(tokens) == Ok(v) <==> exists d :: IsTextOf(tokens, d) && Meaning(d) == v
  {
    forall d, e | IsTextOf(tokens, d) && IsTextOf(tokens, e) ensures d == e {
      WriteCut(d, e, [], []);
    }
  }

  /** The round trip on its own. */
  lemma WrittenDecodes(d: Doc)
    requires WithinBounds(d, 0)
    ensures Decoded(Write(d, [])) == Ok(Meaning(d))
  {
    assert IsTextOf(Write(d, []), d);
    DecodedIffWritten(Write(d, []), Meaning(d));
  }

  lemma TrailingToken(tokens: seq<Token>, doc: Doc, rest: seq<Token>)
    requires tokens == Write(doc, rest) && rest != []
    ensures Decoded(tokens) == Err
  {
    forall d ensures !IsTextOf(tokens, d) {
      if IsTextOf(tokens, d) { WriteCut(d, doc, [], rest); }
    }
  }

  lemma NothingStarts(tokens: seq<Token>)
    requires !Starts(tokens, 0)
    ensures Decoded(tokens) == Err
  {
    assert forall d :: IsTextOf(tokens, d) ==> Starts(tokens, 0);
  }

  method DecodeStrictJSON(input: seq<Token>) returns (r: Result<Value>)
    ensures r == Decoded(input)
  {
    var decoder := new Decoder(input);
    var value, doc := decoder.DecodeValue(0);
    if value.Err? {
      NothingStarts(input);
      return Err;
    }
    ghost var rest := decoder.Rest();
    var trailing := decoder.Next();
    if trailing.Ok? {
      TrailingToken(input, doc, rest);
      return Err;
    }
    WrittenDecodes(doc);
    return value;
  }
}
