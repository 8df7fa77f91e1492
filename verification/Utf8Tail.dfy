/**
 * The bounded evidence buffer, scripts/smoke-nested-apple-tui.ts:15-24: append text, keep at
 * most so many bytes of its UTF-8 form (RFC 3629) and never cut a code point.
 */
module Utf8Tail {

  import opened Wrappers

  /** A Unicode scalar value: section 3 of RFC 3629 excludes the surrogates. */
  type Scalar = c: int | 0 <= c < 0xD800 || 0xE000 <= c < 0x11_0000

  type Text = seq<Scalar>

  // ---------------------------------------------------------------------
  // UTF-8
  // ---------------------------------------------------------------------

  function Continuation(c: int): Byte {
    0x80 + c % 64
  }

  function EncodeOne(c: Scalar): (bytes: Bytes)
    ensures 1 <= |bytes| <= 4
  {
    if c < 0x80 then [c]
    else if c < 0x800 then [0xC0 + c / 64, Continuation(c)]
    else if c < 0x1_0000 then [0xE0 + c / 64 / 64, Continuation(c / 64), Continuation(c)]
    else [0xF0 + c / 64 / 64 / 64, Continuation(c / 64 / 64), Continuation(c / 64), Continuation(c)]
  }

  function Encode(text: Text): Bytes {
    if text == [] then [] else EncodeOne(text[0]) + Encode(text[1..])
  }

  /** (byte & 0xc0) === 0x80 */
  predicate IsContinuation(b: Byte) {
    b / 64 == 2
  }

  predicate Continues(bytes: Bytes, n: nat) {
    |bytes| >= n && forall i :: 1 <= i < n ==> IsContinuation(bytes[i])
  }

  /** The six bits a continuation byte carries. */
  function Six(b: int): int { b % 64 }

  /** A code point in `n` bytes, not longer than needed and not a surrogate. */
  function Checked(c: int, least: int, n: nat): Option<(Scalar, nat)> {
    if least <= c && (0 <= c < 0xD800 || 0xE000 <= c < 0x11_0000) then
      var scalar: Scalar := c;
      Some((scalar, n))
    else None
  }

  /** The code point that starts a byte sequence, and how many bytes it takes. */
  function DecodeOne(bytes: Bytes): (r: Option<(Scalar, nat)>)
    ensures r.Some? ==> 1 <= r.value.1 <= |bytes|
  {
    if bytes == [] then None
    else
      var lead: int := bytes[0];
      if lead < 0x80 then Some((lead, 1))
      else if 0xC0 <= lead < 0xE0 && Continues(bytes, 2) then
        Checked((lead - 0xC0) * 64 + Six(bytes[1]), 0x80, 2)
      else if 0xE0 <= lead < 0xF0 && Continues(bytes, 3) then
        Checked((lead - 0xE0) * 4096 + Six(bytes[1]) * 64 + Six(bytes[2]), 0x800, 3)
      else if 0xF0 <= lead < 0xF8 && Continues(bytes, 4) then
        Checked((lead - 0xF0) * 26_2144 + Six(bytes[1]) * 4096 + Six(bytes[2]) * 64 + Six(bytes[3]), 0x1_0000, 4)
      else None
  }

  function Decode(bytes: Bytes): Option<Text>
    decreases |bytes|
  {
    if bytes == [] then Some([])
    else
      var first := DecodeOne(bytes);
      if first.None? then None
      else
        var rest := Decode(bytes[first.value.1..]);
        if rest.None? then None else Some([first.value.0] + rest.value)
  }

  lemma SixOfContinuation(c: int)
    ensures Six(Continuation(c)) == c % 64 && IsContinuation(Continuation(c))
  {
  }

  lemma DecodeOneEncoded(c: Scalar, rest: Bytes)
    ensures DecodeOne(EncodeOne(c) + rest) == Some((c, |EncodeOne(c)|))
  {
    SixOfContinuation(c);
    SixOfContinuation(c / 64);
    SixOfContinuation(c / 64 / 64);
    var bytes := EncodeOne(c) + rest;
    if c < 0x80 {
    } else if c < 0x800 {
      assert bytes[1] == Continuation(c) && Continues(bytes, 2);
    } else if c < 0x1_0000 {
      assert bytes[1] == Continuation(c / 64) && bytes[2] == Continuation(c) && Continues(bytes, 3);
    } else {
      assert bytes[1] == Continuation(c / 64 / 64) && bytes[2] == Continuation(c / 64) && bytes[3] == Continuation(c);
      assert Continues(bytes, 4);
    }
  }

  lemma {:induction false} DecodeEncoded(text: Text)
    ensures Decode(Encode(text)) == Some(text)
  {
    if text != [] {
      var head, tail := EncodeOne(text[0]), Encode(text[1..]);
      DecodeOneEncoded(text[0], tail);
      DecodeEncoded(text[1..]);
      assert (head + tail)[|head|..] == tail;
      assert text == [text[0]] + text[1..];
    }
  }

  lemma Regroup(a: Bytes, b: Bytes, c: Bytes)
    ensures a + b + c == a + (b + c)
  {
  }

  lemma {:induction false} EncodeJoins(a: Text, b: Text)
    ensures Encode(a + b) == Encode(a) + Encode(b)
  {
    if a == [] {
      assert a + b == b;
    } else {
      EncodeJoins(a[1..], b);
      assert (a + b)[1..] == a[1..] + b;
      Regroup(EncodeOne(a[0]), Encode(a[1..]), Encode(b));
    }
  }

  // ---------------------------------------------------------------------
  // The longest tail that fits
  // ---------------------------------------------------------------------

  /** The longest run of code points at the end of `text` whose UTF-8 form fits in `max` bytes. */
  function Tail(text: Text, max: nat): (r: Text)
    ensures |Encode(r)| <= max
  {
    if |Encode(text)| <= max then text else Tail(text[1..], max)
  }

  /** Where the tail starts: on the first byte at or after the cut that starts a code point. */
  lemma {:induction false} TailStartsAtBoundary(text: Text, max: nat, cut: nat)
    requires |Encode(text)| == max + cut
    ensures var bytes := Encode(text); var start := |bytes| - |Encode(Tail(text, max))|;
      && cut <= start <= |bytes| && start <= cut + 3
      && (forall p :: cut <= p < start ==> IsContinuation(bytes[p]))
      && (start < |bytes| && cut > 0 ==> !IsContinuation(bytes[start]))
      && bytes[start..] == Encode(Tail(text, max))
  {
    if cut > 0 {
      var head, rest := EncodeOne(text[0]), Encode(text[1..]);
      var bytes := head + rest;
      if |head| < cut {
        TailStartsAtBoundary(text[1..], max, cut - |head|);
        var start := |rest| - |Encode(Tail(text[1..], max))|;
        assert forall p :: cut <= p < start + |head| ==> bytes[p] == rest[p - |head|];
        assert bytes[start + |head|..] == rest[start..];
      } else {
        assert Tail(text[1..], max) == text[1..];
        assert bytes[|head|..] == rest;
        HeadContinues(text[0]);
        if rest != [] { FirstByteLeads(text[1..]); }
      }
    }
  }

  lemma HeadContinues(c: Scalar)
    ensures forall p :: 1 <= p < |EncodeOne(c)| ==> IsContinuation(EncodeOne(c)[p])
    ensures !IsContinuation(EncodeOne(c)[0])
  {
  }

  lemma FirstByteLeads(text: Text)
    requires Encode(text) != []
    ensures !IsContinuation(Encode(text)[0])
  {
    HeadContinues(text[0]);
  }

  /** From its boundary on, the encoded text decodes to the tail. */
  lemma TailDecodes(text: Text, max: nat, bytes: Bytes) returns (boundary: nat)
    requires bytes == Encode(text) && |bytes| > max
    ensures |bytes| - max <= boundary <= |bytes|
    ensures forall p :: |bytes| - max <= p < boundary ==> IsContinuation(bytes[p])
    ensures boundary < |bytes| ==> !IsContinuation(bytes[boundary])
    ensures Decode(bytes[boundary..]) == Some(Tail(text, max))
  {
    TailStartsAtBoundary(text, max, |bytes| - max);
    boundary := |bytes| - |Encode(Tail(text, max))|;
    DecodeEncoded(Tail(text, max));
  }

  method AppendBoundedOutput(previous: Text, chunk: Text, max: nat) returns (output: Text)
    ensures output == Tail(previous + chunk, max)
  {
    var text := previous + chunk;
    var combined := Encode(text);
    if |combined| <= max {
      DecodeEncoded(text);
      return Decode(combined).value;
    }
    ghost var boundary := TailDecodes(text, max, combined);
    var start := SkipContinuations(combined, |combined| - max, boundary);
    return Decode(combined[start..]).value;
  }

  /** The loop that moves the start forward to a byte that is no continuation. */
  method SkipContinuations(bytes: Bytes, cut: nat, ghost boundary: nat) returns (start: nat)
    requires cut <= boundary <= |bytes|
    requires forall p :: cut <= p < boundary ==> IsContinuation(bytes[p])
    requires boundary < |bytes| ==> !IsContinuation(bytes[boundary])
    ensures start == boundary
  {
    start := cut;
    while start < |bytes| && IsContinuation(bytes[start])
      invariant cut <= start <= boundary
    {
      start := start + 1;
    }
  }

  // ---------------------------------------------------------------------
  // Streams
  // ---------------------------------------------------------------------

  function Joined(chunks: seq<Text>): Text {
    if chunks == [] then [] else Joined(chunks[..|chunks| - 1]) + chunks[|chunks| - 1]
  }

  /** Cutting the front off early loses nothing that a later cut would keep. */
  lemma {:induction false} TailForgetsTheFront(a: Text, b: Text, max: nat)
    ensures Tail(Tail(a, max) + b, max) == Tail(a + b, max)
  {
    if |Encode(a)| > max {
      EncodeJoins(a, b);
      assert (a + b)[1..] == a[1..] + b;
      TailForgetsTheFront(a[1..], b, max);
    }
  }

  /** The buffer after a whole stream, chunk by chunk, is the tail of the stream. */
  method AppendAll(chunks: seq<Text>, max: nat) returns (output: Text)
    ensures output == Tail(Joined(chunks), max)
  {
    output := [];
    for i := 0 to |chunks|
      invariant output == Tail(Joined(chunks[..i]), max)
    {
      ghost var before := Joined(chunks[..i]);
      TailForgetsTheFront(before, chunks[i], max);
      assert chunks[..i + 1][..i] == chunks[..i];
      output := AppendBoundedOutput(output, chunks[i], max);
    }
    assert chunks[..|chunks|] == chunks;
  }

  /** The tail is made of whole code points at the end of the stream, and its bytes are the stream's last. */
  lemma {:induction false} TailIsSuffix(text: Text, max: nat)
    ensures var r := Tail(text, max);
      && |r| <= |text| && text[|text| - |r|..] == r
      && |Encode(r)| <= |Encode(text)| && Encode(text)[|Encode(text)| - |Encode(r)|..] == Encode(r)
  {
    if |Encode(text)| > max {
      var r := Tail(text[1..], max);
      TailIsSuffix(text[1..], max);
      assert text == [text[0]] + text[1..];
      SuffixOfMore([text[0]], text[1..], r);
      SuffixOfMore(EncodeOne(text[0]), Encode(text[1..]), Encode(r));
    }
  }

  lemma SuffixOfMore<T>(front: seq<T>, back: seq<T>, r: seq<T>)
    requires |r| <= |back| && back[|back| - |r|..] == r
    ensures var all := front + back; |r| <= |all| && all[|all| - |r|..] == r
  {
  }

  /** Everything is kept while it fits; after that at least all but three of the allowed bytes are. */
  lemma {:induction false} TailKeepsEnough(text: Text, max: nat)
    ensures |Encode(text)| <= max ==> Tail(text, max) == text
    ensures |Encode(text)| > max ==> |Encode(Tail(text, max))| >= max - 3
  {
    if |Encode(text)| > max { TailStartsAtBoundary(text, max, |Encode(text)| - max); }
  }

  /** No longer run of code points at the end of the stream would fit. */
  lemma {:induction false} TailIsLongest(text: Text, max: nat, n: nat)
    requires n <= |text| && |Encode(text[n..])| <= max
    ensures |Tail(text, max)| >= |text| - n
    decreases |text|
  {
    assert text[0..] == text;
    if |Encode(text)| > max {
      assert text[n..] == text[1..][n - 1..];
      TailIsLongest(text[1..], max, n - 1);
    }
  }
}
