/**
 * The header injection and the byte bound of the fixed relay:
 * injectProxyAuthorization and boundedWriter in docker/nested-relay/main.go.
 */
module ProxyHead {

  import opened Wrappers

  const MAX_PROXY_HEADER_BYTES := 0x1_0000

  const CR: Byte := 0x0D
  const LF: Byte := 0x0A
  const SPACE: Byte := 0x20
  const COLON: Byte := 0x3A
  const CRLF: Bytes := [CR, LF]

  // ---------------------------------------------------------------------
  // Grammar of one line (RFC 9110 sections 5.6.2 and 5.5, RFC 9112 sections 3 and 5)
  // ---------------------------------------------------------------------

  predicate IsTokenByte(b: Byte) {
    0x30 <= b <= 0x39 || 0x41 <= b <= 0x5A || 0x61 <= b <= 0x7A
    || b == 0x21 || 0x23 <= b <= 0x27 || b == 0x2A || b == 0x2B || b == 0x2D || b == 0x2E
    || 0x5E <= b <= 0x60 || b == 0x7C || b == 0x7E
  }

  predicate ValidToken(s: Bytes) {
    s != [] && forall i :: 0 <= i < |s| ==> IsTokenByte(s[i])
  }

  predicate ValidFieldValue(s: Bytes) {
    forall i :: 0 <= i < |s| ==> (s[i] >= 0x20 || s[i] == 0x09) && s[i] != 0x7F
  }

  function Split(s: Bytes, b: Byte): (parts: seq<Bytes>)
    ensures parts != []
    decreases |s|
  {
    var n := IndexOf(s, b);
    if n == |s| then [s] else [s[..n]] + Split(s[n + 1..], b)
  }

  const HTTP_1_0: Bytes := [0x48, 0x54, 0x54, 0x50, 0x2F, 0x31, 0x2E, 0x30]
  const HTTP_1_1: Bytes := [0x48, 0x54, 0x54, 0x50, 0x2F, 0x31, 0x2E, 0x31]

  /** "proxy-authorization" */
  const PROXY_AUTHORIZATION_FOLDED: Bytes := [
    0x70, 0x72, 0x6F, 0x78, 0x79, 0x2D, 0x61, 0x75, 0x74, 0x68, 0x6F, 0x72, 0x69, 0x7A, 0x61, 0x74, 0x69, 0x6F, 0x6E
  ]

  /** "Proxy-Authorization" */
  const PROXY_AUTHORIZATION: Bytes := [
    0x50, 0x72, 0x6F, 0x78, 0x79, 0x2D, 0x41, 0x75, 0x74, 0x68, 0x6F, 0x72, 0x69, 0x7A, 0x61, 0x74, 0x69, 0x6F, 0x6E
  ]

  function FoldByte(b: Byte): Byte { if 0x41 <= b <= 0x5A then b + 0x20 else b }

  function Fold(s: Bytes): (r: Bytes)
    ensures |r| == |s|
  {
    seq(|s|, i requires 0 <= i < |s| => FoldByte(s[i]))
  }

  predicate ValidRequestLine(line: Bytes) {
    var parts := Split(line, SPACE);
    |parts| == 3 && ValidToken(parts[0]) && parts[1] != [] && (parts[2] == HTTP_1_1 || parts[2] == HTTP_1_0)
  }

  function FieldName(line: Bytes): Bytes { line[..IndexOf(line, COLON)] }

  predicate ValidField(line: Bytes) {
    var n := IndexOf(line, COLON);
    0 < n < |line| && ValidToken(line[..n]) && ValidFieldValue(line[n + 1..])
  }

  predicate IsProxyAuthorization(line: Bytes) {
    Fold(FieldName(line)) == PROXY_AUTHORIZATION_FOLDED
  }

  // ---------------------------------------------------------------------
  // Reference grammar of a whole head
  // ---------------------------------------------------------------------

  /** The lines, each closed by CRLF, followed by `rest`. */
  function WriteLines(lines: seq<Bytes>, rest: Bytes): Bytes {
    if lines == [] then rest else lines[0] + (CRLF + WriteLines(lines[1..], rest))
  }

  /** A head with these lines followed by `rest`. */
  function WriteHead(lines: seq<Bytes>, rest: Bytes): Bytes {
    WriteLines(lines, CRLF + rest)
  }

  /** Line `i` of a request head that names no proxy credential of its own. */
  predicate ValidLine(line: Bytes, i: nat) {
    LF !in line && if i == 0 then ValidRequestLine(line) else ValidField(line) && !IsProxyAuthorization(line)
  }

  predicate ValidLines(lines: seq<Bytes>) {
    lines != [] && forall i :: 0 <= i < |lines| ==> ValidLine(lines[i], i)
  }

  /** `stream` starts with the head made of `lines`, within the size limit, and goes on with `rest`. */
  ghost predicate StartsWithHead(stream: Bytes, lines: seq<Bytes>, rest: Bytes) {
    ValidLines(lines) && stream == WriteHead(lines, rest) && |WriteHead(lines, [])| <= MAX_PROXY_HEADER_BYTES
  }

  ghost predicate Admissible(stream: Bytes) {
    exists lines, rest :: StartsWithHead(stream, lines, rest)
  }

  // ---------------------------------------------------------------------
  // Unique readability
  // ---------------------------------------------------------------------

  lemma LineCut(a: Bytes, b: Bytes, t: Bytes, u: Bytes)
    requires LF !in a && LF !in b && a + (CRLF + t) == b + (CRLF + u)
    ensures a == b && t == u
  {
    var x, y := a + (CRLF + t), b + (CRLF + u);
    LineEnd(a, t);
    LineEnd(b, u);
    assert a == x[..|a|] && b == y[..|b|];
    assert t == x[|a| + 2..] && u == y[|b| + 2..];
  }

  /** Where the first line feed is. */
  lemma LineEnd(a: Bytes, t: Bytes)
    requires LF !in a
    ensures IndexOf(a + (CRLF + t), LF) == |a| + 1
  {
    var x := a + (CRLF + t);
    var n := IndexOf(x, LF);
    assert x[|a|] == CR && x[|a| + 1] == LF;
    forall i | 0 <= i < |a| ensures x[i] != LF {
      assert x[i] == a[i] && a[i] in a;
    }
  }

  lemma ValidLineIsNotBlank(line: Bytes, i: nat)
    requires ValidLine(line, i)
    ensures line != []
  {
  }

  lemma {:induction false} LinesReadSoFar(done: seq<Bytes>, all: seq<Bytes>, t: Bytes, rest: Bytes)
    requires forall i :: 0 <= i < |done| ==> LF !in done[i] && done[i] != []
    requires forall i :: 0 <= i < |all| ==> LF !in all[i] && all[i] != []
    requires WriteLines(done, t) == WriteHead(all, rest)
    ensures |done| <= |all| && done == all[..|done|] && t == WriteHead(all[|done|..], rest)
    decreases |done|
  {
    if done != [] {
      if all == [] {
        BlankCut(done[0], WriteLines(done[1..], t), rest);
      } else {
        LineCut(done[0], all[0], WriteLines(done[1..], t), WriteHead(all[1..], rest));
        LinesReadSoFar(done[1..], all[1..], t, rest);
        PrefixStep(done, all);
      }
    }
  }

  lemma PrefixStep(done: seq<Bytes>, all: seq<Bytes>)
    requires 0 < |done| <= |all| && done[0] == all[0] && done[1..] == all[1..][..|done| - 1]
    ensures done == all[..|done|] && all[1..][|done| - 1..] == all[|done|..]
  {
    assert done == [done[0]] + done[1..];
    assert all[..|done|] == [all[0]] + all[1..][..|done| - 1];
  }

  lemma BlankCut(a: Bytes, t: Bytes, u: Bytes)
    requires LF !in a && a + (CRLF + t) == CRLF + u
    ensures a == []
  {
    var x := a + (CRLF + t);
    assert x == [] + (CRLF + u);
    LineCut(a, [], t, u);
  }

  lemma {:induction false} WriteLinesSnoc(done: seq<Bytes>, line: Bytes, rest: Bytes)
    ensures WriteLines(done + [line], rest) == WriteLines(done, line + (CRLF + rest))
    decreases |done|
  {
    if done == [] {
      assert done + [line] == [line];
      assert [line][1..] == [];
    } else {
      assert (done + [line])[1..] == done[1..] + [line];
      WriteLinesSnoc(done[1..], line, rest);
    }
  }

  lemma {:induction false} WriteLinesSplits(lines: seq<Bytes>, rest: Bytes)
    ensures WriteLines(lines, rest) == WriteLines(lines, []) + rest
    decreases |lines|
  {
    if lines != [] {
      WriteLinesSplits(lines[1..], rest);
      var others := WriteLines(lines[1..], []);
      assert lines[0] + (CRLF + (others + rest)) == lines[0] + (CRLF + others) + rest;
    }
  }

  /** At most one head starts a stream. */
  lemma HeadIsUnique(stream: Bytes, a: seq<Bytes>, b: seq<Bytes>, t: Bytes, u: Bytes)
    requires StartsWithHead(stream, a, t) && StartsWithHead(stream, b, u)
    ensures a == b && t == u
  {
    LinesAreProper(a);
    LinesAreProper(b);
    LinesReadSoFar(a, b, CRLF + t, u);
    LinesReadSoFar(b, a, CRLF + u, t);
    assert a == b;
    assert b[|a|..] == [];
    assert CRLF + t == CRLF + u;
    assert t == (CRLF + t)[2..] && u == (CRLF + u)[2..];
  }

  lemma LinesAreProper(lines: seq<Bytes>)
    requires ValidLines(lines)
    ensures forall i :: 0 <= i < |lines| ==> LF !in lines[i] && lines[i] != []
  {
    forall i | 0 <= i < |lines| ensures lines[i] != [] {
      ValidLineIsNotBlank(lines[i], i);
    }
  }

  /** `t` starts with a proper line number `i`, blank or not, of at most `room` bytes. */
  predicate GoesOn(t: Bytes, i: nat, room: int) {
    var n := IndexOf(t, LF);
    0 < n < |t| && t[n - 1] == CR && n + 1 <= room && if n == 1 then i > 0 else ValidLine(t[..n - 1], i)
  }

  /**
   * Where an admissible stream must go on after its first lines: one more line that
   * ends in CRLF, fits in what is left of the limit, and is blank only as the last one.
   */
  lemma HeadGoesOn(stream: Bytes, done: seq<Bytes>, t: Bytes)
    requires Admissible(stream) && stream == WriteLines(done, t)
    requires forall i :: 0 <= i < |done| ==> ValidLine(done[i], i)
    ensures GoesOn(t, |done|, MAX_PROXY_HEADER_BYTES - |WriteLines(done, [])|)
  {
    var all, rest :| StartsWithHead(stream, all, rest);
    LinesAreProper(all);
    forall i | 0 <= i < |done| ensures LF !in done[i] && done[i] != [] {
      ValidLineIsNotBlank(done[i], i);
    }
    LinesReadSoFar(done, all, t, rest);
    SizeSoFar(all, |done|);
    if |done| < |all| {
      var line, more := all[|done|], WriteHead(all[|done|..][1..], rest);
      LineEnd(line, more);
      assert t == line + (CRLF + more);
      assert t[..|line|] == line;
    } else {
      assert all[|done|..] == [];
      assert t == [] + (CRLF + rest);
      LineEnd([], rest);
    }
  }

  lemma {:induction false} SizeSoFar(all: seq<Bytes>, n: nat)
    requires n <= |all|
    ensures |WriteLines(all[..n], [])| + (if n < |all| then |all[n]| + 4 else 2) <= |WriteHead(all, [])|
    decreases n
  {
    if n == 0 {
      if all != [] { WriteLinesSplits(all[1..], CRLF + []); }
    } else {
      SizeSoFar(all[1..], n - 1);
      assert all[..n][1..] == all[1..][..n - 1];
    }
  }

  // ---------------------------------------------------------------------
  // bufio.Reader of the header size over a chunked connection
  // ---------------------------------------------------------------------

  function Joined(chunks: seq<Bytes>): Bytes {
    if chunks == [] then [] else chunks[0] + Joined(chunks[1..])
  }

  datatype Outcome = Line | BufferFull | Ended

  class Reader {
    var buffer: Bytes
    /** What the connection will still deliver, one read at a time. */
    var pending: seq<Bytes>

    ghost predicate Valid()
      reads this
    {
      |buffer| <= MAX_PROXY_HEADER_BYTES && forall i :: 0 <= i < |pending| ==> pending[i] != []
    }

    ghost function Stream(): Bytes
      reads this
    {
      buffer + Joined(pending)
    }

    constructor (chunks: seq<Bytes>)
      requires forall i :: 0 <= i < |chunks| ==> chunks[i] != []
      ensures Valid() && buffer == [] && pending == chunks && Stream() == Joined(chunks)
    {
      buffer, pending := [], chunks;
    }

    /** One read of the connection into the free part of the buffer. */
    method Fill()
      requires Valid() && pending != [] && |buffer| < MAX_PROXY_HEADER_BYTES
      modifies this
      ensures Valid() && Stream() == old(Stream())
      ensures |buffer| > |old(buffer)| && buffer[..|old(buffer)|] == old(buffer)
    {
      var chunk := pending[0];
      var room := MAX_PROXY_HEADER_BYTES - |buffer|;
      ghost var later := Joined(pending[1..]);
      if |chunk| <= room {
        assert buffer + (chunk + later) == buffer + chunk + later;
        buffer, pending := buffer + chunk, pending[1..];
      } else {
        assert chunk == chunk[..room] + chunk[room..];
        assert buffer + (chunk + later) == buffer + chunk[..room] + (chunk[room..] + later);
        ghost var before := pending;
        buffer, pending := buffer + chunk[..room], [chunk[room..]] + pending[1..];
        assert pending[1..] == before[1..];
      }
    }

    /** What a copy from this reader writes, one write at a time: the buffer first. */
    ghost function Chunks(): seq<Bytes>
      reads this
    {
      (if buffer == [] then [] else [buffer]) + pending
    }

    /** The next part of the stream, while there is one. */
    method Take() returns (chunk: Bytes)
      requires Valid() && (buffer != [] || pending != [])
      modifies this
      ensures Valid() && old(Chunks()) == [chunk] + Chunks()
    {
      if buffer != [] {
        chunk, buffer := buffer, [];
        assert [] + pending == pending;
      } else {
        chunk, pending := pending[0], pending[1..];
      }
    }

    /** ReadSlice('\n'). The answer depends on the stream alone, not on how it is chunked. */
    method ReadSlice() returns (line: Bytes, outcome: Outcome)
      requires Valid()
      modifies this
      ensures Valid()
      ensures var s := old(Stream());
        var n := IndexOf(s, LF);
        && outcome == (if n < |s| && n < MAX_PROXY_HEADER_BYTES then Line
                       else if |s| >= MAX_PROXY_HEADER_BYTES then BufferFull else Ended)
        && (outcome == Line ==> line == s[..n + 1] && Stream() == s[n + 1..])
    {
      ghost var s := Stream();
      while true
        invariant Valid() && Stream() == s
        decreases MAX_PROXY_HEADER_BYTES - |buffer|
      {
        var n := IndexOf(buffer, LF);
        if n < |buffer| {
          FirstInPrefix(s, buffer, Joined(pending), LF);
          CutInPrefix(s, buffer, Joined(pending), n + 1);
          line, buffer := buffer[..n + 1], buffer[n + 1..];
          return line, Line;
        }
        NotInPrefix(s, buffer, Joined(pending), LF);
        if |buffer| >= MAX_PROXY_HEADER_BYTES {
          line, buffer := buffer, [];
          return line, BufferFull;
        }
        if pending == [] {
          line, buffer := buffer, [];
          return line, Ended;
        }
        Fill();
      }
    }
  }

  lemma FirstInPrefix(s: Bytes, a: Bytes, b: Bytes, x: Byte)
    requires s == a + b && IndexOf(a, x) < |a|
    ensures IndexOf(s, x) == IndexOf(a, x)
  {
    var n := IndexOf(a, x);
    assert s[n] == x && forall i :: 0 <= i < n ==> s[i] == a[i];
  }

  lemma CutInPrefix(s: Bytes, a: Bytes, b: Bytes, k: nat)
    requires s == a + b && k <= |a|
    ensures s[..k] == a[..k] && s[k..] == a[k..] + b
  {
  }

  lemma NotInPrefix(s: Bytes, a: Bytes, b: Bytes, x: Byte)
    requires s == a + b && IndexOf(a, x) == |a|
    ensures IndexOf(s, x) >= |a|
  {
    forall i | 0 <= i < |a| ensures s[i] != x {
      assert s[i] == a[i];
    }
  }

  // ---------------------------------------------------------------------
  // injectProxyAuthorization
  // ---------------------------------------------------------------------

  /** The upstream connection: what it has taken so far. */
  class Upstream {
    var sent: Bytes

    constructor ()
      ensures sent == []
    {
      sent := [];
    }

    /** A write of which the connection takes `accepted` bytes; taking fewer than all is an error. */
    method Write(contents: Bytes, accepted: nat) returns (written: nat)
      modifies this
      ensures written == (if accepted < |contents| then accepted else |contents|)
      ensures sent == old(sent) + contents[..written]
    {
      written := if accepted < |contents| then accepted else |contents|;
      sent := sent + contents[..written];
    }
  }

  function InjectedLine(authorization: Bytes): Bytes {
    PROXY_AUTHORIZATION + [COLON, SPACE] + authorization
  }

  /** What is sent for a head with these lines. */
  function SentHead(lines: seq<Bytes>, authorization: Bytes): Bytes {
    WriteHead(lines + [InjectedLine(authorization)], [])
  }

  datatype Injection = Injected | Rejected | WriteFailed

  method Send(upstream: Upstream, contents: Bytes, accepted: nat) returns (result: Injection)
    modifies upstream
    ensures result == if accepted < |contents| then WriteFailed else Injected
    ensures upstream.sent == old(upstream.sent) + if result == Injected then contents else contents[..accepted]
  {
    var written := upstream.Write(contents, accepted);
    assert contents[..|contents|] == contents;
    return if written < |contents| then WriteFailed else Injected;
  }

  /** One round of the loop: read a line and check it. */
  method NextHeaderLine(reader: Reader, firstLine: bool, headerLength: nat, ghost i: nat)
    returns (ok: bool, lineBytes: Bytes)
    requires reader.Valid() && headerLength <= MAX_PROXY_HEADER_BYTES && (firstLine <==> i == 0)
    modifies reader
    ensures reader.Valid()
    ensures ok <==> GoesOn(old(reader.Stream()), i, MAX_PROXY_HEADER_BYTES - headerLength)
    ensures ok ==> 2 <= |lineBytes| <= MAX_PROXY_HEADER_BYTES - headerLength
    ensures ok ==> var field := lineBytes[..|lineBytes| - 2];
      && (field == [] || ValidLine(field, i)) && (field == [] ==> i > 0)
      && lineBytes == field + (CRLF + []) && old(reader.Stream()) == field + (CRLF + reader.Stream())
  {
    ghost var t := reader.Stream();
    var outcome;
    lineBytes, outcome := reader.ReadSlice();
    if outcome != Line { return false, []; }
    var n := |lineBytes|;
    if n < 2 || lineBytes[n - 2] != CR { return false, []; }
    var field := lineBytes[..n - 2];
    assert field == t[..n - 2];
    if firstLine {
      if !ValidRequestLine(field) { return false, []; }
    } else if n != 2 {
      if !ValidField(field) || IsProxyAuthorization(field) { return false, []; }
    }
    if headerLength + n > MAX_PROXY_HEADER_BYTES { return false, []; }
    LineOf(lineBytes, field, reader.Stream());
    assert t == lineBytes + reader.Stream();
    return true, lineBytes;
  }

  /**
   * Succeeds exactly on an admissible stream. Then the bytes sent plus the bytes left
   * are the input with one line put in just before the blank line. A rejected head
   * sends nothing.
   */
  method InjectProxyAuthorization(reader: Reader, upstream: Upstream, authorization: Bytes, accepted: nat)
    returns (result: Injection, ghost lines: seq<Bytes>)
    requires reader.Valid()
    modifies reader, upstream
    ensures reader.Valid()
    ensures result == Rejected <==> !Admissible(old(reader.Stream()))
    ensures result == Rejected ==> upstream.sent == old(upstream.sent)
    ensures result != Rejected ==> StartsWithHead(old(reader.Stream()), lines, reader.Stream())
    ensures result == Injected ==> upstream.sent == old(upstream.sent) + SentHead(lines, authorization)
    ensures result == WriteFailed <==>
      Admissible(old(reader.Stream())) && accepted < |SentHead(lines, authorization)|
    ensures result == WriteFailed ==> upstream.sent == old(upstream.sent) + SentHead(lines, authorization)[..accepted]
  {
    ghost var s := reader.Stream();
    lines := [];
    var header: Bytes := [];
    var firstLine := true;
    // The limit is checked before the header grows past it, so the loop only leaves by returning.
    while true
      invariant reader.Valid() && upstream.sent == old(upstream.sent)
      invariant s == WriteLines(lines, reader.Stream()) && header == WriteLines(lines, [])
      invariant forall i :: 0 <= i < |lines| ==> ValidLine(lines[i], i)
      invariant firstLine <==> lines == []
      invariant |header| <= MAX_PROXY_HEADER_BYTES
      decreases |reader.Stream()|
    {
      if Admissible(s) { HeadGoesOn(s, lines, reader.Stream()); }
      var ok, lineBytes := NextHeaderLine(reader, firstLine, |header|, |lines|);
      if !ok { return Rejected, lines; }
      ghost var field := lineBytes[..|lineBytes| - 2];
      if |lineBytes| == 2 {
        BlankLine(s, lines, reader.Stream());
        HeadText(lines, InjectedLine(authorization));
        result := Send(upstream, header + InjectedLine(authorization) + CRLF + CRLF, accepted);
        return;
      }
      NextLine(s, lines, field, lineBytes, reader.Stream());
      firstLine := false;
      header := header + lineBytes;
      lines := lines + [field];
    }
  }

  lemma LineOf(lineBytes: Bytes, field: Bytes, u: Bytes)
    requires |lineBytes| >= 2 && field == lineBytes[..|lineBytes| - 2]
    requires lineBytes[|lineBytes| - 2] == CR && lineBytes[|lineBytes| - 1] == LF
    ensures lineBytes == field + (CRLF + []) && lineBytes + u == field + (CRLF + u)
  {
    assert CRLF + [] == CRLF;
    assert lineBytes == field + CRLF;
    assert (field + CRLF) + u == field + (CRLF + u);
  }

  lemma NextLine(s: Bytes, lines: seq<Bytes>, field: Bytes, lineBytes: Bytes, u: Bytes)
    requires s == WriteLines(lines, field + (CRLF + u)) && lineBytes == field + (CRLF + [])
    ensures s == WriteLines(lines + [field], u)
    ensures WriteLines(lines, []) + lineBytes == WriteLines(lines + [field], [])
  {
    WriteLinesSnoc(lines, field, u);
    WriteLinesSnoc(lines, field, []);
    WriteLinesSplits(lines, lineBytes);
  }

  lemma BlankLine(s: Bytes, lines: seq<Bytes>, rest: Bytes)
    requires ValidLines(lines) && s == WriteLines(lines, [] + (CRLF + rest))
    requires |WriteLines(lines, [])| + 2 <= MAX_PROXY_HEADER_BYTES
    ensures StartsWithHead(s, lines, rest)
  {
    assert [] + (CRLF + rest) == CRLF + rest;
    WriteLinesSplits(lines, CRLF + []);
  }

  lemma HeadText(lines: seq<Bytes>, line: Bytes)
    ensures WriteHead(lines + [line], []) == WriteLines(lines, []) + line + CRLF + CRLF
  {
    WriteLinesSnoc(lines, line, CRLF + []);
    WriteLinesSplits(lines, line + (CRLF + (CRLF + [])));
  }

  // ---------------------------------------------------------------------
  // What the injection achieves
  // ---------------------------------------------------------------------

  /** Conservation: what was sent and what is left are the input with one line put in before the blank line. */
  lemma InjectionOnlyInserts(stream: Bytes, lines: seq<Bytes>, rest: Bytes, authorization: Bytes)
    requires StartsWithHead(stream, lines, rest)
    ensures var head, line := WriteLines(lines, []), InjectedLine(authorization);
      && stream == head + (CRLF + rest)
      && WriteHead(lines + [line], []) + rest == head + ((line + CRLF) + (CRLF + rest))
  {
    var head, line := WriteLines(lines, []), InjectedLine(authorization);
    WriteLinesSplits(lines, CRLF + rest);
    HeadText(lines, line);
    assert head + line + CRLF + CRLF + rest == head + ((line + CRLF) + (CRLF + rest));
  }

  lemma InjectedLineIsCredential(authorization: Bytes)
    requires ValidFieldValue(authorization)
    ensures ValidField(InjectedLine(authorization)) && IsProxyAuthorization(InjectedLine(authorization))
    ensures LF !in InjectedLine(authorization) && InjectedLine(authorization) != []
  {
    var line := InjectedLine(authorization);
    var n := IndexOf(line, COLON);
    assert line[19] == COLON;
    assert forall i :: 0 <= i < 19 ==> line[i] == PROXY_AUTHORIZATION[i];
    assert n == 19;
    assert line[..19] == PROXY_AUTHORIZATION;
    assert line[20..] == [SPACE] + authorization;
    FoldedName();
  }

  lemma FoldedName()
    ensures Fold(PROXY_AUTHORIZATION) == PROXY_AUTHORIZATION_FOLDED && ValidToken(PROXY_AUTHORIZATION)
  {
  }

  /**
   * However the receiver cuts the sent bytes into lines, it finds the original lines and
   * the credential as the last field; it is the only credential field.
   */
  lemma SentHeadHasOneCredential(lines: seq<Bytes>, authorization: Bytes, read: seq<Bytes>, rest: Bytes)
    requires ValidLines(lines) && ValidFieldValue(authorization)
    requires forall i :: 0 <= i < |read| ==> LF !in read[i] && read[i] != []
    requires WriteHead(read, rest) == SentHead(lines, authorization)
    ensures read == lines + [InjectedLine(authorization)] && rest == []
    ensures forall i :: 1 <= i < |read| ==> ValidField(read[i]) && (IsProxyAuthorization(read[i]) <==> i == |read| - 1)
  {
    var sent := lines + [InjectedLine(authorization)];
    InjectedLineIsCredential(authorization);
    LinesAreProper(lines);
    assert forall i :: 0 <= i < |sent| ==> LF !in sent[i] && sent[i] != [];
    LinesReadSoFar(read, sent, CRLF + rest, []);
    LinesReadSoFar(sent, read, CRLF + [], rest);
    assert read == sent;
    assert read[|sent|..] == [];
    assert CRLF + [] == CRLF + rest;
    assert |CRLF + rest| == |rest| + 2;
  }

  /** A receiver finds these lines up to the blank one and `rest` behind it; all fields are valid. */
  predicate ReadsAs(sent: Bytes, read: seq<Bytes>, rest: Bytes) {
    && (forall i :: 0 <= i < |read| ==> LF !in read[i] && read[i] != [])
    && sent == WriteHead(read, rest)
    && (forall i :: 1 <= i < |read| ==> ValidField(read[i]))
  }

  /** The field at `at` is a proxy credential and no other field is one. */
  predicate OnlyCredentialAt(read: seq<Bytes>, at: nat) {
    1 <= at < |read| && forall i :: 1 <= i < |read| ==> (IsProxyAuthorization(read[i]) <==> i == at)
  }

  /** One credential, anywhere. */
  ghost predicate ReadsWithOneCredential(sent: Bytes, read: seq<Bytes>, rest: Bytes) {
    ReadsAs(sent, read, rest) && exists at :: OnlyCredentialAt(read, at)
  }

  /** One credential, as the last field. */
  predicate ReadsWithCredentialLast(sent: Bytes, read: seq<Bytes>, rest: Bytes) {
    ReadsAs(sent, read, rest) && |read| > 0 && OnlyCredentialAt(read, |read| - 1)
  }

  /** As intended: one credential, as the last field, and nothing behind the blank line. */
  predicate ReadsAsOneCredential(sent: Bytes, read: seq<Bytes>) {
    ReadsWithCredentialLast(sent, read, [])
  }

  /** The first line of what follows the original lines starts with the credential's name. */
  lemma CredentialNameIsRead(authorization: Bytes, x: Bytes, r: Bytes, t: Bytes)
    requires t == InjectedLine(authorization) + (CRLF + CRLF) && t == x + (CRLF + r) && LF !in x
    ensures |x| >= 20 && IsProxyAuthorization(x)
  {
    var line := InjectedLine(authorization);
    assert forall i :: 0 <= i < 20 ==> t[i] == line[i];
    assert line[19] == COLON && forall i :: 0 <= i < 19 ==> line[i] == PROXY_AUTHORIZATION[i];
    assert t[|x|] == CR && t[|x| + 1] == LF;
    FoldedName();
    assert |x| >= 20;
    assert forall i :: 0 <= i < |x| ==> x[i] == t[i];
    assert IndexOf(x, COLON) == 19;
    assert x[..19] == PROXY_AUTHORIZATION;
  }

  lemma {:induction false} WriteLinesJoin(a: seq<Bytes>, b: seq<Bytes>, rest: Bytes)
    ensures WriteLines(a + b, rest) == WriteLines(a, WriteLines(b, rest))
    decreases |a|
  {
    if a == [] {
      assert a + b == b;
    } else {
      assert (a + b)[1..] == a[1..] + b;
      WriteLinesJoin(a[1..], b, rest);
    }
  }

  /** The credential, closed by a blank line, is `value`, then these fields, a blank line and `rest`. */
  predicate Spells(authorization: Bytes, value: Bytes, more: seq<Bytes>, rest: Bytes) {
    authorization + (CRLF + CRLF) == value + (CRLF + WriteHead(more, rest))
  }

  lemma SentHeadIs(lines: seq<Bytes>, authorization: Bytes)
    ensures SentHead(lines, authorization) == WriteLines(lines, InjectedLine(authorization) + (CRLF + CRLF))
  {
    WriteLinesSnoc(lines, InjectedLine(authorization), CRLF + []);
    assert CRLF + [] == CRLF;
  }

  lemma InjectedLineSplits(authorization: Bytes, t: Bytes)
    ensures InjectedLine(authorization) + t == InjectedLine([]) + (authorization + t)
  {
  }

  /** What a credential spells is read in its place. */
  lemma SpelledIsRead(lines: seq<Bytes>, authorization: Bytes, value: Bytes, more: seq<Bytes>, rest: Bytes)
    requires Spells(authorization, value, more, rest)
    ensures SentHead(lines, authorization) == WriteHead(lines + [InjectedLine(value)] + more, rest)
  {
    var line, after := InjectedLine(value), WriteHead(more, rest);
    SentHeadIs(lines, authorization);
    InjectedLineSplits(authorization, CRLF + CRLF);
    InjectedLineSplits(value, CRLF + after);
    WriteLinesSnoc(lines, line, after);
    WriteLinesJoin(lines + [line], more, CRLF + rest);
  }

  /** And a receiver finds nothing else: the original lines, then what the credential spells. */
  lemma ReadIsSpelled(lines: seq<Bytes>, authorization: Bytes, read: seq<Bytes>, rest: Bytes)
    returns (value: Bytes, more: seq<Bytes>)
    requires ValidLines(lines) && ReadsAs(SentHead(lines, authorization), read, rest)
    ensures read == lines + [InjectedLine(value)] + more && Spells(authorization, value, more, rest)
    ensures IsProxyAuthorization(InjectedLine(value))
  {
    var n, t := |lines|, InjectedLine(authorization) + (CRLF + CRLF);
    SentHeadIs(lines, authorization);
    LinesAreProper(lines);
    LinesReadSoFar(lines, read, t, rest);
    var tail := read[n..];
    assert t == WriteHead(tail, rest);
    assert t[0] != CR;
    var after := WriteHead(tail[1..], rest);
    assert t == tail[0] + (CRLF + after);
    CredentialNameIsRead(authorization, tail[0], after, t);
    value := CutCredential(authorization, tail[0], after, t);
    more := tail[1..];
    assert read == lines + tail;
    assert tail == [tail[0]] + tail[1..];
  }

  lemma CutCredential(authorization: Bytes, x: Bytes, after: Bytes, t: Bytes) returns (value: Bytes)
    requires t == InjectedLine(authorization) + (CRLF + CRLF) && t == x + (CRLF + after) && |x| >= 20
    ensures x == InjectedLine(value) && authorization + (CRLF + CRLF) == value + (CRLF + after)
  {
    assert t[20] == SPACE && t[|x|] == CR;
    var prefix := InjectedLine([]);
    InjectedLineSplits(authorization, CRLF + CRLF);
    value := x[21..];
    assert |prefix| == 21;
    assert x[..21] == t[..21] == prefix;
    assert x == prefix + value;
    InjectedLineSplits(value, CRLF + after);
    InjectedLineSplits(value, []);
    assert value + [] == value && InjectedLine(value) + [] == InjectedLine(value);
    assert t[21..] == authorization + (CRLF + CRLF);
    assert t[21..] == value + (CRLF + after);
  }

  predicate HarmlessFields(fields: seq<Bytes>) {
    forall i :: 0 <= i < |fields| ==>
      LF !in fields[i] && fields[i] != [] && ValidField(fields[i]) && !IsProxyAuthorization(fields[i])
  }

  /** A valid field value, then nothing but valid fields, none of them a credential, up to a blank line. */
  ghost predicate SpellsOneCredential(authorization: Bytes) {
    exists value, more, rest ::
      ValidFieldValue(value) && HarmlessFields(more) && Spells(authorization, value, more, rest)
  }

  lemma SpelledFieldsRead(lines: seq<Bytes>, authorization: Bytes, value: Bytes, more: seq<Bytes>, rest: Bytes)
    requires ValidLines(lines) && ValidFieldValue(value) && HarmlessFields(more)
    requires Spells(authorization, value, more, rest)
    ensures var read := lines + [InjectedLine(value)] + more;
      ReadsAs(SentHead(lines, authorization), read, rest) && OnlyCredentialAt(read, |lines|)
  {
    var read := lines + [InjectedLine(value)] + more;
    LinesAreProper(lines);
    InjectedLineIsCredential(value);
    SpelledIsRead(lines, authorization, value, more, rest);
    forall i | 0 <= i < |read|
      ensures LF !in read[i] && read[i] != []
      ensures i >= 1 ==> ValidField(read[i]) && (IsProxyAuthorization(read[i]) <==> i == |lines|)
    {
      if i < |lines| {
        assert read[i] == lines[i] && ValidLine(lines[i], i);
      } else if i > |lines| {
        assert read[i] == more[i - |lines| - 1];
      }
    }
  }

  lemma ReadFieldsAreSpelled(lines: seq<Bytes>, authorization: Bytes, read: seq<Bytes>, rest: Bytes, at: nat)
    returns (value: Bytes, more: seq<Bytes>)
    requires ValidLines(lines) && ReadsAs(SentHead(lines, authorization), read, rest) && OnlyCredentialAt(read, at)
    ensures ValidFieldValue(value) && HarmlessFields(more) && Spells(authorization, value, more, rest)
    ensures read == lines + [InjectedLine(value)] + more && at == |lines|
  {
    value, more := ReadIsSpelled(lines, authorization, read, rest);
    assert read[|lines|] == InjectedLine(value);
    ValueOfCredential(value);
    forall i | 0 <= i < |more|
      ensures LF !in more[i] && more[i] != [] && ValidField(more[i]) && !IsProxyAuthorization(more[i])
    {
      assert more[i] == read[|lines| + 1 + i];
    }
  }

  /** The sent head can be read with exactly one proxy credential exactly when the credential spells one. */
  lemma OneCredentialIffSpelled(lines: seq<Bytes>, authorization: Bytes)
    requires ValidLines(lines)
    ensures (exists read, rest :: ReadsWithOneCredential(SentHead(lines, authorization), read, rest))
      <==> SpellsOneCredential(authorization)
  {
    var sent := SentHead(lines, authorization);
    if SpellsOneCredential(authorization) {
      var value, more, rest :|
        ValidFieldValue(value) && HarmlessFields(more) && Spells(authorization, value, more, rest);
      SpelledFieldsRead(lines, authorization, value, more, rest);
      assert ReadsWithOneCredential(sent, lines + [InjectedLine(value)] + more, rest);
    }
    if read, rest :| ReadsWithOneCredential(sent, read, rest) {
      var at :| OnlyCredentialAt(read, at);
      var value, more := ReadFieldsAreSpelled(lines, authorization, read, rest, at);
    }
  }

  /** A valid field value alone, or followed by a line end and either nothing or a blank line. */
  ghost predicate IsValueThenBlank(authorization: Bytes) {
    ValidFieldValue(authorization) || exists value, w :: IsCutAtBlank(authorization, value, w)
  }

  predicate IsCutAtBlank(authorization: Bytes, value: Bytes, w: Bytes) {
    ValidFieldValue(value) && authorization == value + CRLF + w && (w == [] || CRLF <= w)
  }

  lemma SpelledWithoutFields(authorization: Bytes, value: Bytes, rest: Bytes)
    requires Spells(authorization, value, [], rest)
    ensures authorization == value || exists w :: authorization == value + CRLF + w && (w == [] || CRLF <= w)
    ensures authorization == value <==> rest == []
  {
    var t := authorization + (CRLF + CRLF);
    var n := |value|;
    assert t == value + (CRLF + (CRLF + rest));
    assert t[n] == CR && t[n + 1] == LF && t[n + 2] == CR && t[n + 3] == LF;
    assert |authorization| == n + |rest|;
    assert value == t[..n] == authorization[..n];
    if rest != [] {
      var k := |authorization|;
      assert t[k] == CR && t[k + 1] == LF && t[k + 2] == CR;
      assert k != n + 1 && k != n + 3;
      var w := authorization[n + 2..];
      assert authorization[n..n + 2] == CRLF;
      assert authorization == value + CRLF + w;
      if w != [] { assert w[..2] == CRLF; }
    }
  }

  lemma BlankIsSpelled(authorization: Bytes, value: Bytes, w: Bytes)
    requires authorization == value + CRLF + w && (w == [] || CRLF <= w)
    ensures exists rest :: Spells(authorization, value, [], rest)
  {
    if w == [] {
      assert Spells(authorization, value, [], CRLF);
    } else {
      var rest := w[2..] + (CRLF + CRLF);
      assert w == CRLF + w[2..];
      assert Spells(authorization, value, [], rest);
    }
  }

  /** The credential can be read as the last field exactly when it is a value, a blank line behind it or not. */
  lemma CredentialLastIffValueThenBlank(lines: seq<Bytes>, authorization: Bytes)
    requires ValidLines(lines)
    ensures (exists read, rest :: ReadsWithCredentialLast(SentHead(lines, authorization), read, rest))
      <==> IsValueThenBlank(authorization)
  {
    var sent := SentHead(lines, authorization);
    if ValidFieldValue(authorization) {
      assert Spells(authorization, authorization, [], []);
      SpelledLastReads(lines, authorization, authorization, []);
    }
    if value, w :| IsCutAtBlank(authorization, value, w) {
      BlankIsSpelled(authorization, value, w);
      var rest :| Spells(authorization, value, [], rest);
      SpelledLastReads(lines, authorization, value, rest);
    }
    if read, rest :| ReadsWithCredentialLast(sent, read, rest) {
      var value, more := ReadFieldsAreSpelled(lines, authorization, read, rest, |read| - 1);
      assert more == [];
      SpelledWithoutFields(authorization, value, rest);
      if authorization != value {
        var w :| authorization == value + CRLF + w && (w == [] || CRLF <= w);
        assert IsCutAtBlank(authorization, value, w);
      }
    }
  }

  lemma SpelledLastReads(lines: seq<Bytes>, authorization: Bytes, value: Bytes, rest: Bytes)
    requires ValidLines(lines) && ValidFieldValue(value) && Spells(authorization, value, [], rest)
    ensures ReadsWithCredentialLast(SentHead(lines, authorization), lines + [InjectedLine(value)], rest)
  {
    SpelledFieldsRead(lines, authorization, value, [], rest);
    assert lines + [InjectedLine(value)] + [] == lines + [InjectedLine(value)];
  }

  /**
   * The injected head reads as intended, to its end, with the credential as its last field, exactly when
   * the credential is a valid field value.
   */
  lemma OneCredentialIffValidValue(lines: seq<Bytes>, authorization: Bytes)
    requires ValidLines(lines)
    ensures (exists read :: ReadsAsOneCredential(SentHead(lines, authorization), read))
      <==> ValidFieldValue(authorization)
  {
    if ValidFieldValue(authorization) {
      assert Spells(authorization, authorization, [], []);
      SpelledLastReads(lines, authorization, authorization, []);
      assert ReadsAsOneCredential(SentHead(lines, authorization), lines + [InjectedLine(authorization)]);
    }
    if read :| ReadsAsOneCredential(SentHead(lines, authorization), read) {
      var value, more := ReadFieldsAreSpelled(lines, authorization, read, [], |read| - 1);
      assert more == [];
      SpelledWithoutFields(authorization, value, []);
    }
  }

  lemma ValueOfCredential(authorization: Bytes)
    requires ValidField(InjectedLine(authorization))
    ensures ValidFieldValue(authorization)
  {
    var line := InjectedLine(authorization);
    assert line[19] == COLON;
    assert forall i :: 0 <= i < 19 ==> line[i] == PROXY_AUTHORIZATION[i];
    FoldedName();
    assert IndexOf(line, COLON) == 19;
    assert line[20..] == [SPACE] + authorization;
    forall i | 0 <= i < |authorization|
      ensures (authorization[i] >= 0x20 || authorization[i] == 0x09) && authorization[i] != 0x7F
    {
      assert line[20..][i + 1] == authorization[i];
    }
  }

  // ---------------------------------------------------------------------
  // boundedWriter and the copy through it
  // ---------------------------------------------------------------------

  datatype WriteError = Fine | ByteLimit | Failed

  class BoundedWriter {
    const destination: Upstream
    var remaining: int

    constructor (destination: Upstream, maxBytes: nat)
      ensures this.destination == destination && remaining == maxBytes
    {
      this.destination := destination;
      remaining := maxBytes;
    }

    /** Never lets more than `remaining` bytes through, and says so when it had to cut. */
    method Write(contents: Bytes, accepted: nat) returns (written: nat, error: WriteError)
      modifies this, destination
      ensures written <= |contents| && remaining == old(remaining) - written
      ensures destination.sent == old(destination.sent) + contents[..written]
      ensures old(remaining) >= 0 ==> remaining >= 0
      ensures error == Fine <==> old(remaining) > 0 && |contents| <= old(remaining) && accepted >= |contents|
      ensures error == Fine ==> written == |contents|
      ensures error == ByteLimit ==> remaining <= 0 && (old(remaining) > 0 ==> |contents| > old(remaining))
      ensures error == Failed ==> written == accepted < |contents|
    {
      if remaining <= 0 {
        assert contents[..0] == [];
        return 0, ByteLimit;
      }
      if |contents| > remaining {
        var cut := contents[..remaining];
        written := destination.Write(cut, accepted);
        assert cut[..written] == contents[..written];
        remaining := remaining - written;
        return written, if written < |cut| then Failed else ByteLimit;
      }
      written := destination.Write(contents, accepted);
      remaining := remaining - written;
      return written, if written < |contents| then Failed else Fine;
    }
  }

  /** `after` is `before` with a prefix of `offered` of at most `limit` bytes. */
  ghost predicate PassedPrefix(before: Bytes, after: Bytes, offered: Bytes, limit: nat) {
    exists n :: 0 <= n <= |offered| && n <= limit && after == before + offered[..n]
  }

  lemma ChunksMakeTheStream(reader: Reader)
    ensures Joined(reader.Chunks()) == reader.Stream()
  {
    if reader.buffer == [] {
      assert reader.Chunks() == reader.pending;
    } else {
      assert reader.Chunks()[1..] == reader.pending;
    }
  }

  lemma PassOn(start: Bytes, all: Bytes, passed: nat, chunk: Bytes, later: Bytes, written: nat)
    requires passed <= |all| && all[passed..] == chunk + later && written <= |chunk|
    ensures passed + written <= |all| && start + all[..passed] + chunk[..written] == start + all[..passed + written]
    ensures written == |chunk| ==> all[passed + written..] == later
  {
    assert |all| == passed + |chunk| + |later|;
    assert chunk[..written] == all[passed..][..written] == all[passed..passed + written];
    assert all[..passed] + all[passed..passed + written] == all[..passed + written];
    if written == |chunk| { assert all[passed + written..] == all[passed..][written..]; }
  }

  /**
   * io.Copy through a bounded writer, draining the reader; the k-th write gets `accepts(k)` bytes taken.
   * What passes is a prefix of the stream of at most `maxBytes`; unless the destination fails it is the
   * longest such prefix, and the limit is reported exactly when something was left out.
   */
  method CopyReader(destination: Upstream, maxBytes: nat, reader: Reader, accepts: nat -> nat)
    returns (error: WriteError, ghost passed: nat)
    requires reader.Valid()
    modifies destination, reader
    ensures reader.Valid() && passed <= Least(|old(reader.Stream())|, maxBytes)
    ensures destination.sent == old(destination.sent) + old(reader.Stream())[..passed]
    ensures error != Failed ==>
      && passed == Least(|old(reader.Stream())|, maxBytes)
      && (error == ByteLimit <==> |old(reader.Stream())| > maxBytes)
    ensures error == Fine ==> reader.Stream() == []
    ensures (forall i :: 0 <= i < |old(reader.Chunks())| ==> accepts(i) >= |old(reader.Chunks())[i]|) ==>
      error != Failed
  {
    var writer := new BoundedWriter(destination, maxBytes);
    ghost var start, all, chunks := destination.sent, reader.Stream(), reader.Chunks();
    ChunksMakeTheStream(reader);
    passed := 0;
    var i: nat := 0;
    while reader.buffer != [] || reader.pending != []
      invariant writer.destination == destination && fresh(writer) && reader.Valid()
      invariant passed <= |all| && writer.remaining == maxBytes - passed >= 0
      invariant i <= |chunks| && reader.Chunks() == chunks[i..] && all[passed..] == Joined(chunks[i..])
      invariant destination.sent == start + all[..passed]
      decreases |chunks| - i
    {
      var chunk := reader.Take();
      assert chunks[i..] == [chunk] + reader.Chunks();
      assert chunk == chunks[i] && chunks[i..][1..] == chunks[i + 1..];
      var written, stopped := writer.Write(chunk, accepts(i));
      PassOn(start, all, passed, chunk, Joined(chunks[i + 1..]), written);
      passed := passed + written;
      if stopped != Fine {
        return stopped, passed;
      }
      i := i + 1;
    }
    assert reader.Chunks() == [];
    return Fine, passed;
  }

  /**
   * The copy from a connection without a buffer. What passes is a prefix of what was offered, at
   * most `maxBytes` long; while the destination takes everything it is the longest such prefix,
   * and the limit is reported exactly when something was left out.
   */
  method CopyBounded(destination: Upstream, maxBytes: nat, chunks: seq<Bytes>, accepts: seq<nat>)
    returns (error: WriteError)
    requires |accepts| == |chunks| && forall i :: 0 <= i < |chunks| ==> chunks[i] != []
    modifies destination
    ensures PassedPrefix(old(destination.sent), destination.sent, Joined(chunks), maxBytes)
    ensures (forall i :: 0 <= i < |chunks| ==> accepts[i] >= |chunks[i]|) ==>
      && destination.sent == old(destination.sent) + Joined(chunks)[..Least(|Joined(chunks)|, maxBytes)]
      && error == (if |Joined(chunks)| > maxBytes then ByteLimit else Fine)
  {
    var connection := new Reader(chunks);
    assert [] + chunks == chunks;
    ghost var passed;
    var takes := (k: nat) => if k < |accepts| then accepts[k] else 0;
    error, passed := CopyReader(destination, maxBytes, connection, takes);
    assert PassedPrefix(old(destination.sent), destination.sent, Joined(chunks), maxBytes);
  }

  // ---------------------------------------------------------------------
  // The whole upstream direction
  // ---------------------------------------------------------------------

  /** The head with the credential, then so many bytes of what comes after the original head. */
  ghost predicate Forwarded(
    stream: Bytes, sent: Bytes, authorization: Bytes, lines: seq<Bytes>, rest: Bytes, passed: nat)
  {
    && StartsWithHead(stream, lines, rest) && passed <= |rest|
    && sent == SentHead(lines, authorization) + rest[..passed]
  }

  /**
   * handle, upstream: inject, then copy on from the same reader. Upstream gets nothing of an inadmissible
   * stream; of an admissible one it gets the head with the credential put in and the longest prefix of the
   * rest of at most `maxBytes`, unless it fails itself.
   */
  method ForwardUp(
    reader: Reader, upstream: Upstream, authorization: Bytes, maxBytes: nat, accepted: nat, accepts: nat -> nat)
    returns (result: Injection, error: WriteError, ghost lines: seq<Bytes>, ghost rest: Bytes, ghost passed: nat)
    requires reader.Valid() && upstream.sent == []
    modifies reader, upstream
    ensures result == Rejected <==> !Admissible(old(reader.Stream()))
    ensures result == Rejected ==> upstream.sent == []
    ensures result == WriteFailed ==>
      StartsWithHead(old(reader.Stream()), lines, rest) && upstream.sent < SentHead(lines, authorization)
    ensures result == Injected ==>
      && Forwarded(old(reader.Stream()), upstream.sent, authorization, lines, rest, passed) && passed <= maxBytes
      && (error != Failed ==> passed == Least(|rest|, maxBytes) && (error == ByteLimit <==> |rest| > maxBytes))
  {
    result, lines := InjectProxyAuthorization(reader, upstream, authorization, accepted);
    error, rest, passed := Fine, reader.Stream(), 0;
    assert [] + SentHead(lines, authorization) == SentHead(lines, authorization);
    if result == Injected {
      error, passed := CopyReader(upstream, maxBytes, reader, accepts);
    } else if result == WriteFailed {
      assert [] + SentHead(lines, authorization)[..accepted] == SentHead(lines, authorization)[..accepted];
    }
  }

  /** Seen as one stream: with the whole rest passed, the input with one line put in before the blank one. */
  lemma ForwardedOnlyInserts(
    stream: Bytes, sent: Bytes, authorization: Bytes, lines: seq<Bytes>, rest: Bytes, passed: nat)
    requires Forwarded(stream, sent, authorization, lines, rest, passed)
    ensures var head, line := WriteLines(lines, []), InjectedLine(authorization);
      && stream == head + (CRLF + rest)
      && sent == head + ((line + CRLF) + (CRLF + rest[..passed]))
  {
    WriteLinesSplits(lines, CRLF + rest);
    StartsWithShorterRest(stream, lines, rest, passed);
    InjectionOnlyInserts(WriteHead(lines, rest[..passed]), lines, rest[..passed], authorization);
  }

  lemma StartsWithShorterRest(stream: Bytes, lines: seq<Bytes>, rest: Bytes, passed: nat)
    requires StartsWithHead(stream, lines, rest) && passed <= |rest|
    ensures StartsWithHead(WriteHead(lines, rest[..passed]), lines, rest[..passed])
  {
  }
}
