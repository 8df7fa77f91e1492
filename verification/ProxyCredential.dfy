/**
 * Which configured credential the relay takes, validateProxyAuthorization in
 * docker/nested-relay/main.go, and what becomes of it in the head. Go's
 * base64.StdEncoding (RFC 4648, section 4) passes over CR and LF and ignores the spare bits
 * before the padding.
 */
module ProxyCredential {

  import opened ProxyHead
  import opened Wrappers

  const PAD: Byte := 0x3D

  // ---------------------------------------------------------------------
  // Base 64
  // ---------------------------------------------------------------------

  type Sextet = v: int | 0 <= v < 64

  function Letter(v: Sextet): Byte {
    if v < 26 then 0x41 + v else if v < 52 then 0x61 + v - 26 else if v < 62 then 0x30 + v - 52
    else if v == 62 then 0x2B else 0x2F
  }

  predicate IsLetter(b: Byte) {
    0x41 <= b <= 0x5A || 0x61 <= b <= 0x7A || 0x30 <= b <= 0x39 || b == 0x2B || b == 0x2F
  }

  function ValueOf(b: Byte): Sextet
    requires IsLetter(b)
  {
    if 0x41 <= b <= 0x5A then b - 0x41 else if 0x61 <= b <= 0x7A then b - 0x61 + 26
    else if 0x30 <= b <= 0x39 then b - 0x30 + 52 else if b == 0x2B then 62 else 63
  }

  function First(a: Sextet, b: Sextet): Byte { a * 4 + b / 16 }

  function Second(b: Sextet, c: Sextet): Byte { b % 16 * 16 + c / 4 }

  function Third(c: Sextet, d: Sextet): Byte { c % 4 * 64 + d }

  /** Groups of four letters; the last may be padded, and its spare bits are not looked at. */
  function DecodeLetters(s: Bytes): Option<Bytes>
    decreases |s|
  {
    if s == [] then Some([])
    else if |s| < 4 || !IsLetter(s[0]) || !IsLetter(s[1]) then None
    else
      var a, b := ValueOf(s[0]), ValueOf(s[1]);
      if s == [s[0], s[1], PAD, PAD] then Some([First(a, b)])
      else if !IsLetter(s[2]) then None
      else
        var c := ValueOf(s[2]);
        if s == [s[0], s[1], s[2], PAD] then Some([First(a, b), Second(b, c)])
        else if !IsLetter(s[3]) then None
        else
          var rest := DecodeLetters(s[4..]);
          if rest.None? then None
          else Some([First(a, b), Second(b, c), Third(c, ValueOf(s[3]))] + rest.value)
  }

  predicate BreaksLine(b: Byte) { b == CR || b == LF }

  function WithoutBreaks(s: Bytes): Bytes {
    if s == [] then [] else (if BreaksLine(s[0]) then [] else [s[0]]) + WithoutBreaks(s[1..])
  }

  function Decode(s: Bytes): Option<Bytes> {
    DecodeLetters(WithoutBreaks(s))
  }

  /** The letters of one group; what is missing in the last group counts as 0. */
  function Group(a: Byte, b: Byte, c: Byte): (letters: Bytes)
    ensures |letters| == 4
  {
    [Letter(a / 4), Letter(a % 4 * 16 + b / 16), Letter(b % 16 * 4 + c / 64), Letter(c % 64)]
  }

  function Encode(data: Bytes): Bytes {
    if data == [] then []
    else if |data| == 1 then Group(data[0], 0, 0)[..2] + [PAD, PAD]
    else if |data| == 2 then Group(data[0], data[1], 0)[..3] + [PAD]
    else Group(data[0], data[1], data[2]) + Encode(data[3..])
  }

  lemma LetterValue(v: Sextet)
    ensures IsLetter(Letter(v)) && ValueOf(Letter(v)) == v && !BreaksLine(Letter(v)) && Letter(v) != PAD
  {
  }

  lemma GroupRestored(a: Byte, b: Byte, c: Byte)
    ensures First(a / 4, a % 4 * 16 + b / 16) == a
    ensures Second(a % 4 * 16 + b / 16, b % 16 * 4 + c / 64) == b
    ensures Third(b % 16 * 4 + c / 64, c % 64) == c
  {
  }

  lemma WholeGroupDecodes(a: Sextet, b: Sextet, c: Sextet, d: Sextet, rest: Bytes)
    ensures var decoded := DecodeLetters(rest);
      DecodeLetters([Letter(a), Letter(b), Letter(c), Letter(d)] + rest) ==
        if decoded.None? then None else Some([First(a, b), Second(b, c), Third(c, d)] + decoded.value)
  {
    LetterValue(a);
    LetterValue(b);
    LetterValue(c);
    LetterValue(d);
    var s := [Letter(a), Letter(b), Letter(c), Letter(d)] + rest;
    assert s[4..] == rest && s[2] != PAD && s[3] != PAD;
  }

  lemma PaddedGroupsDecode(a: Sextet, b: Sextet, c: Sextet)
    ensures DecodeLetters([Letter(a), Letter(b), PAD, PAD]) == Some([First(a, b)])
    ensures DecodeLetters([Letter(a), Letter(b), Letter(c), PAD]) == Some([First(a, b), Second(b, c)])
  {
    LetterValue(a);
    LetterValue(b);
    LetterValue(c);
    var one, two := [Letter(a), Letter(b), PAD, PAD], [Letter(a), Letter(b), Letter(c), PAD];
    assert two != [two[0], two[1], PAD, PAD];
  }

  lemma GroupSextets(a: Byte, b: Byte, c: Byte) returns (p: Sextet, q: Sextet, r: Sextet, t: Sextet)
    ensures Group(a, b, c) == [Letter(p), Letter(q), Letter(r), Letter(t)]
    ensures First(p, q) == a && Second(q, r) == b && Third(r, t) == c
  {
    p, q, r, t := a / 4, a % 4 * 16 + b / 16, b % 16 * 4 + c / 64, c % 64;
    GroupRestored(a, b, c);
  }

  lemma GroupDecodes(a: Byte, b: Byte, c: Byte, rest: Bytes, decoded: Bytes)
    requires DecodeLetters(rest) == Some(decoded)
    ensures DecodeLetters(Group(a, b, c) + rest) == Some([a, b, c] + decoded)
  {
    var p, q, r, t := GroupSextets(a, b, c);
    WholeGroupDecodes(p, q, r, t, rest);
  }

  lemma LastGroupDecodes(a: Byte, b: Byte)
    ensures DecodeLetters(Group(a, b, 0)[..3] + [PAD]) == Some([a, b])
    ensures DecodeLetters(Group(a, b, 0)[..2] + [PAD, PAD]) == Some([a])
  {
    var p, q, r, t := GroupSextets(a, b, 0);
    PaddedGroupsDecode(p, q, r);
    assert Group(a, b, 0)[..3] + [PAD] == [Letter(p), Letter(q), Letter(r), PAD];
    assert Group(a, b, 0)[..2] + [PAD, PAD] == [Letter(p), Letter(q), PAD, PAD];
  }

  lemma {:induction false} DecodeLettersEncoded(data: Bytes)
    ensures DecodeLetters(Encode(data)) == Some(data)
  {
    if |data| >= 3 {
      DecodeLettersEncoded(data[3..]);
      GroupDecodes(data[0], data[1], data[2], Encode(data[3..]), data[3..]);
      assert data == [data[0], data[1], data[2]] + data[3..];
    } else if |data| == 2 {
      LastGroupDecodes(data[0], data[1]);
      assert data == [data[0], data[1]];
    } else if |data| == 1 {
      LastGroupDecodes(data[0], 0);
      assert data == [data[0]];
    }
  }

  /** Letters and padding only. */
  predicate Spelled(s: Bytes) {
    forall i :: 0 <= i < |s| ==> IsLetter(s[i]) || s[i] == PAD
  }

  lemma {:induction false} EncodedIsSpelled(data: Bytes)
    ensures Spelled(Encode(data))
  {
    if |data| >= 3 {
      EncodedIsSpelled(data[3..]);
    }
  }

  lemma {:induction false} SpelledHasNoBreaks(s: Bytes)
    requires Spelled(s)
    ensures WithoutBreaks(s) == s
  {
    if s != [] {
      SpelledHasNoBreaks(s[1..]);
      assert s == [s[0]] + s[1..];
    }
  }

  /** Decoding undoes encoding. */
  lemma DecodeEncoded(data: Bytes)
    ensures Decode(Encode(data)) == Some(data)
  {
    EncodedIsSpelled(data);
    SpelledHasNoBreaks(Encode(data));
    DecodeLettersEncoded(data);
  }

  lemma {:induction false} DecodedIsSpelled(s: Bytes)
    requires DecodeLetters(s).Some?
    ensures Spelled(s)
    decreases |s|
  {
    if s != [] && s != [s[0], s[1], PAD, PAD] && s != [s[0], s[1], s[2], PAD] {
      DecodedIsSpelled(s[4..]);
      forall i | 0 <= i < |s| ensures IsLetter(s[i]) || s[i] == PAD {
        if i >= 4 { assert s[i] == s[4..][i - 4]; }
      }
    }
  }

  lemma {:induction false} SpelledButForBreaks(s: Bytes)
    requires Spelled(WithoutBreaks(s))
    ensures forall i :: 0 <= i < |s| ==> IsLetter(s[i]) || s[i] == PAD || BreaksLine(s[i])
  {
    if s != [] {
      var rest := WithoutBreaks(s[1..]);
      assert Spelled(rest) by {
        forall i | 0 <= i < |rest| ensures IsLetter(rest[i]) || rest[i] == PAD {
          assert rest[i] == WithoutBreaks(s)[i + |WithoutBreaks(s)| - |rest|];
        }
      }
      SpelledButForBreaks(s[1..]);
      if !BreaksLine(s[0]) { assert WithoutBreaks(s)[0] == s[0]; }
    }
  }

  lemma {:induction false} BreaksDropOut(s: Bytes, b: Byte, t: Bytes)
    requires BreaksLine(b)
    ensures WithoutBreaks(s + [b] + t) == WithoutBreaks(s + t)
    decreases |s|
  {
    if s == [] {
      assert s + [b] + t == [b] + t && s + t == t && ([b] + t)[1..] == t;
    } else {
      BreaksDropOut(s[1..], b, t);
      assert (s + [b] + t)[1..] == s[1..] + [b] + t && (s + t)[1..] == s[1..] + t;
    }
  }

  // ---------------------------------------------------------------------
  // validateProxyAuthorization
  // ---------------------------------------------------------------------

  /** "Basic " */
  const BASIC: Bytes := [0x42, 0x61, 0x73, 0x69, 0x63, 0x20]

  /** "ironcurtain:" */
  const USER: Bytes := [0x69, 0x72, 0x6F, 0x6E, 0x63, 0x75, 0x72, 0x74, 0x61, 0x69, 0x6E, 0x3A]

  const TOKEN_LENGTH := 43

  predicate IsBundleByte(b: Byte) {
    0x61 <= b <= 0x7A || 0x41 <= b <= 0x5A || 0x30 <= b <= 0x39 || b == 0x5F || b == 0x2D
  }

  predicate IsBundleToken(token: Bytes) {
    |token| == TOKEN_LENGTH && forall i :: 0 <= i < |token| ==> IsBundleByte(token[i])
  }

  /** True stands for a nil error. */
  method ValidateProxyAuthorization(value: Bytes) returns (ok: bool)
    ensures ok <==> Accepted(value)
  {
    if !(BASIC <= value) { return false; }
    var decoded := Decode(value[|BASIC|..]);
    if decoded.None? || !(USER <= decoded.value) || |decoded.value| != |USER| + TOKEN_LENGTH { return false; }
    var token := decoded.value[|USER|..];
    assert decoded.value == USER + token;
    for i := 0 to |token|
      invariant forall k :: 0 <= k < i ==> IsBundleByte(token[k])
    {
      if !IsBundleByte(token[i]) {
        assert !IsBundleToken(token);
        AcceptedToken(value, token);
        return false;
      }
    }
    AcceptedToken(value, token);
    return true;
  }

  /** A Basic credential of the bundle's user with some bundle token. */
  ghost predicate Accepted(value: Bytes) {
    BASIC <= value && exists token :: IsBundleToken(token) && Decode(value[|BASIC|..]) == Some(USER + token)
  }

  lemma AcceptedToken(value: Bytes, token: Bytes)
    requires BASIC <= value && Decode(value[|BASIC|..]) == Some(USER + token)
    ensures Accepted(value) <==> IsBundleToken(token)
  {
    if other :| IsBundleToken(other) && Decode(value[|BASIC|..]) == Some(USER + other) {
      assert (USER + other)[|USER|..] == other && (USER + token)[|USER|..] == token;
    }
  }

  /** The credential as it is issued. */
  function Issued(token: Bytes): Bytes {
    BASIC + Encode(USER + token)
  }

  /** Every issued credential is accepted, and is one line. */
  lemma IssuedIsAccepted(token: Bytes)
    requires IsBundleToken(token)
    ensures Accepted(Issued(token)) && OneLine(Issued(token))
  {
    var text := Encode(USER + token);
    DecodeEncoded(USER + token);
    EncodedIsSpelled(USER + token);
    assert Issued(token)[|BASIC|..] == text;
    assert CR !in BASIC && LF !in BASIC;
    forall b | b in text ensures b != CR && b != LF { }
  }

  lemma AcceptedBytes(value: Bytes)
    requires Accepted(value)
    ensures forall i :: 0 <= i < |value| ==> (0x20 <= value[i] < 0x7F && value[i] != COLON) || BreaksLine(value[i])
  {
    var text := value[|BASIC|..];
    DecodedIsSpelled(WithoutBreaks(text));
    SpelledButForBreaks(text);
    forall i | 0 <= i < |value|
      ensures (0x20 <= value[i] < 0x7F && value[i] != COLON) || BreaksLine(value[i])
    {
      if i < |BASIC| { assert value[i] == BASIC[i]; } else { assert value[i] == text[i - |BASIC|]; }
    }
  }

  predicate OneLine(s: Bytes) { CR !in s && LF !in s }

  /** An accepted credential is a field value exactly if it has no line break in it. */
  lemma AcceptedIsFieldValueIffOneLine(value: Bytes)
    requires Accepted(value)
    ensures ValidFieldValue(value) <==> OneLine(value)
  {
    AcceptedPartIsFieldValueIffOneLine(value, value);
  }

  lemma AcceptedPartIsFieldValueIffOneLine(value: Bytes, part: Bytes)
    requires Accepted(value) && part <= value
    ensures ValidFieldValue(part) <==> OneLine(part)
  {
    AcceptedBytes(value);
    assert forall i :: 0 <= i < |part| ==> part[i] == value[i];
    if CR in part {
      var i :| 0 <= i < |part| && part[i] == CR;
    }
    if LF in part {
      var i :| 0 <= i < |part| && part[i] == LF;
    }
  }

  /** A line break anywhere after "Basic " does not keep a credential from being accepted. */
  lemma LineBreakStaysAccepted(value: Bytes, i: nat, b: Byte)
    requires Accepted(value) && |BASIC| <= i <= |value| && BreaksLine(b)
    ensures var broken := value[..i] + [b] + value[i..]; Accepted(broken) && !ValidFieldValue(broken)
  {
    var broken := value[..i] + [b] + value[i..];
    var head, tail := value[|BASIC|..i], value[i..];
    assert value[|BASIC|..] == head + tail;
    assert broken[|BASIC|..] == head + [b] + tail;
    assert broken[..|BASIC|] == value[..|BASIC|] == BASIC;
    BreaksDropOut(head, b, tail);
    assert broken[i] == b;
  }

  /**
   * Of the credentials the validator accepts, those with a line break, and only those, make a head that
   * does not read as intended, to its end and with the credential as its last field.
   */
  lemma AcceptedCredentialReadsIffOneLine(lines: seq<Bytes>, authorization: Bytes)
    requires ValidLines(lines) && Accepted(authorization)
    ensures (exists read :: ReadsAsOneCredential(SentHead(lines, authorization), read)) <==> OneLine(authorization)
  {
    OneCredentialIffValidValue(lines, authorization);
    AcceptedIsFieldValueIffOneLine(authorization);
  }

  /** A further field brings its colon with it. */
  lemma SpelledFieldHasColon(authorization: Bytes, value: Bytes, more: seq<Bytes>, rest: Bytes)
    requires more != [] && HarmlessFields(more) && Spells(authorization, value, more, rest)
    ensures COLON in authorization
  {
    var line := more[0];
    var n, t := IndexOf(line, COLON), authorization + (CRLF + CRLF);
    var after := WriteLines(more[1..], CRLF + rest);
    assert t == value + (CRLF + (line + (CRLF + after)));
    assert t[|value| + 2 + n] == COLON;
    assert CRLF[0] != COLON && CRLF[1] != COLON;
  }

  /** No accepted credential has a colon, so none can spell a further field. */
  lemma NoFurtherField(authorization: Bytes, value: Bytes, more: seq<Bytes>, rest: Bytes)
    requires Accepted(authorization) && HarmlessFields(more) && Spells(authorization, value, more, rest)
    ensures more == []
  {
    AcceptedBytes(authorization);
    if more != [] { SpelledFieldHasColon(authorization, value, more, rest); }
  }

  /** The first line break is at the end, or closes a line before a blank one. */
  ghost predicate BreaksAtBlank(authorization: Bytes) {
    exists value, w :: BreaksThere(authorization, value, w)
  }

  predicate BreaksThere(authorization: Bytes, value: Bytes, w: Bytes) {
    OneLine(value) && authorization == value + CRLF + w && (w == [] || CRLF <= w)
  }

  lemma ValueThenBlankIff(authorization: Bytes)
    requires Accepted(authorization)
    ensures IsValueThenBlank(authorization) <==> OneLine(authorization) || BreaksAtBlank(authorization)
  {
    AcceptedIsFieldValueIffOneLine(authorization);
    if value, w :| IsCutAtBlank(authorization, value, w) {
      AcceptedPartIsFieldValueIffOneLine(authorization, value);
      assert BreaksThere(authorization, value, w);
    }
    if value, w :| BreaksThere(authorization, value, w) {
      AcceptedPartIsFieldValueIffOneLine(authorization, value);
      assert IsCutAtBlank(authorization, value, w);
    }
  }

  /**
   * With an accepted credential the sent head can be read with exactly one proxy credential, anywhere and
   * with anything behind the blank line, exactly if the credential is one line or its first line break comes
   * at its end or before a blank line.
   */
  lemma AcceptedCredentialIsOneIff(lines: seq<Bytes>, authorization: Bytes)
    requires ValidLines(lines) && Accepted(authorization)
    ensures (exists read, rest :: ReadsWithOneCredential(SentHead(lines, authorization), read, rest))
      <==> OneLine(authorization) || BreaksAtBlank(authorization)
  {
    var sent := SentHead(lines, authorization);
    CredentialLastIffValueThenBlank(lines, authorization);
    ValueThenBlankIff(authorization);
    if read, rest :| ReadsWithOneCredential(sent, read, rest) {
      var at :| OnlyCredentialAt(read, at);
      var value, more := ReadFieldsAreSpelled(lines, authorization, read, rest, at);
      NoFurtherField(authorization, value, more, rest);
      assert ReadsWithCredentialLast(sent, read, rest);
    }
    if read, rest :| ReadsWithCredentialLast(sent, read, rest) {
      assert ReadsWithOneCredential(sent, read, rest);
    }
  }

  /** An issued credential always reads as intended. */
  lemma IssuedCredentialReads(lines: seq<Bytes>, token: Bytes)
    requires ValidLines(lines) && IsBundleToken(token)
    ensures exists read :: ReadsAsOneCredential(SentHead(lines, Issued(token)), read)
  {
    IssuedIsAccepted(token);
    AcceptedCredentialReadsIffOneLine(lines, Issued(token));
  }

  /** With a line end behind it, it is accepted and read as one credential, but something is left over. */
  lemma IssuedWithLineEnd(lines: seq<Bytes>, token: Bytes)
    requires ValidLines(lines) && IsBundleToken(token)
    ensures var sent := SentHead(lines, Issued(token) + CRLF);
      && Accepted(Issued(token) + CRLF)
      && (exists read, rest :: ReadsWithOneCredential(sent, read, rest))
      && !(exists read :: ReadsAsOneCredential(sent, read))
  {
    var text := Issued(token);
    IssuedIsAccepted(token);
    LineBreakStaysAccepted(text, |text|, LF);
    assert text[..|text|] + [LF] + text[|text|..] == text + [LF];
    LineBreakStaysAccepted(text + [LF], |text|, CR);
    assert (text + [LF])[..|text|] + [CR] + (text + [LF])[|text|..] == text + CRLF;
    assert BreaksThere(text + CRLF, text, []) by { assert text + CRLF + [] == text + CRLF; }
    AcceptedCredentialIsOneIff(lines, text + CRLF);
    assert (text + CRLF)[|text|] == CR;
    AcceptedCredentialReadsIffOneLine(lines, text + CRLF);
  }
}
