/**
 * Ordered glob rules from model names to models, src/config/model-mapping.ts. A glob becomes
 * the text of a case-insensitive regular expression; expressions are cached by glob.
 */
module ModelMapping {

  import opened Wrappers

  // ---------------------------------------------------------------------
  // The expression's text
  // ---------------------------------------------------------------------

  const BACKSLASH: char := '\\'

  predicate IsMeta(c: char) {
    c in ".+?^${}()|[]\\"
  }

  /** glob.replace(REGEX_METACHARS, '\\$&') */
  function Escape(glob: string): string {
    if glob == "" then ""
    else if IsMeta(glob[0]) then [BACKSLASH, glob[0]] + Escape(glob[1..])
    else [glob[0]] + Escape(glob[1..])
  }

  /** .replace(/\*\/g, '.*') */
  function StarsToRuns(text: string): string {
    if text == "" then ""
    else if text[0] == '*' then ['.', '*'] + StarsToRuns(text[1..])
    else [text[0]] + StarsToRuns(text[1..])
  }

  /** One atom of the expressions built here: a character, or `.*`. */
  datatype Atom = Letter(c: char) | Run

  /** Read an expression of this small kind; anything else that is special is refused. */
  function ReadPattern(text: string): Option<seq<Atom>> {
    if text == "" then Some([])
    else if text[0] == BACKSLASH then
      if |text| < 2 || !IsMeta(text[1]) then None else Prepend(Letter(text[1]), ReadPattern(text[2..]))
    else if text[0] == '.' then
      if |text| < 2 || text[1] != '*' then None else Prepend(Run, ReadPattern(text[2..]))
    else if IsMeta(text[0]) || text[0] == '*' then None
    else Prepend(Letter(text[0]), ReadPattern(text[1..]))
  }

  function Prepend(a: Atom, rest: Option<seq<Atom>>): Option<seq<Atom>> {
    if rest.None? then None else Some([a] + rest.value)
  }

  function Atoms(glob: string): seq<Atom> {
    if glob == "" then [] else [if glob[0] == '*' then Run else Letter(glob[0])] + Atoms(glob[1..])
  }

  lemma StarsStep(c: char, rest: string)
    ensures StarsToRuns([c] + rest) == (if c == '*' then ['.', '*'] else [c]) + StarsToRuns(rest)
  {
    assert ([c] + rest)[1..] == rest;
  }

  lemma ReadEscaped(c: char, rest: string)
    requires IsMeta(c)
    ensures ReadPattern([BACKSLASH, c] + rest) == Prepend(Letter(c), ReadPattern(rest))
  {
    assert ([BACKSLASH, c] + rest)[2..] == rest;
  }

  lemma ReadPlain(c: char, rest: string)
    requires !IsMeta(c) && c != '*'
    ensures ReadPattern([c] + rest) == Prepend(Letter(c), ReadPattern(rest))
  {
    assert ([c] + rest)[1..] == rest;
  }

  lemma ReadRun(rest: string)
    ensures ReadPattern(['.', '*'] + rest) == Prepend(Run, ReadPattern(rest))
  {
    assert (['.', '*'] + rest)[2..] == rest;
  }

  /** The text built from a glob reads back as that glob: every special character stands for itself. */
  lemma {:induction false} PatternTextMeansGlob(glob: string)
    ensures ReadPattern(StarsToRuns(Escape(glob))) == Some(Atoms(glob))
  {
    if glob != "" {
      var c, rest := glob[0], Escape(glob[1..]);
      var tail := StarsToRuns(rest);
      PatternTextMeansGlob(glob[1..]);
      StarsStep(c, rest);
      if IsMeta(c) {
        assert [BACKSLASH, c] + rest == [BACKSLASH] + ([c] + rest);
        StarsStep(BACKSLASH, [c] + rest);
        assert [BACKSLASH] + ([c] + tail) == [BACKSLASH, c] + tail;
        ReadEscaped(c, tail);
      } else if c == '*' {
        ReadRun(tail);
      } else {
        ReadPlain(c, tail);
      }
    }
  }

  // ---------------------------------------------------------------------
  // Matching
  // ---------------------------------------------------------------------

  /** Case folding, for the letters of ASCII. */
  function Fold(c: char): char {
    if 'a' <= c <= 'z' then c - 32 as char else c
  }

  /** What `.` does not match. */
  predicate EndsLine(c: char) {
    c == '\n' || c == '\r' || c == '\U{2028}' || c == '\U{2029}'
  }

  /** RegExp.test of the whole text, with backtracking over what a run takes. */
  predicate Test(pattern: seq<Atom>, s: string)
    decreases |pattern| + |s|
  {
    if pattern == [] then s == ""
    else match pattern[0]
      case Letter(c) => s != "" && Fold(s[0]) == Fold(c) && Test(pattern[1..], s[1..])
      case Run => Test(pattern[1..], s) || (s != "" && !EndsLine(s[0]) && Test(pattern, s[1..]))
  }

  function Join(pieces: seq<string>): string {
    if pieces == [] then "" else pieces[0] + Join(pieces[1..])
  }

  predicate Takes(a: Atom, piece: string) {
    match a
    case Letter(c) => |piece| == 1 && Fold(piece[0]) == Fold(c)
    case Run => forall i :: 0 <= i < |piece| ==> !EndsLine(piece[i])
  }

  /** `pieces` cuts `s` so that each atom takes its piece. */
  predicate Cuts(pattern: seq<Atom>, s: string, pieces: seq<string>) {
    |pieces| == |pattern| && Join(pieces) == s && forall i :: 0 <= i < |pattern| ==> Takes(pattern[i], pieces[i])
  }

  /** A text matches exactly when it can be cut into one piece for each atom. */
  lemma TestIffCut(pattern: seq<Atom>, s: string)
    ensures Test(pattern, s) <==> exists pieces :: Cuts(pattern, s, pieces)
  {
    if Test(pattern, s) {
      var pieces := TestCuts(pattern, s);
    }
    if pieces :| Cuts(pattern, s, pieces) {
      CutTests(pattern, s, pieces);
    }
  }

  lemma {:induction false} TestCuts(pattern: seq<Atom>, s: string) returns (pieces: seq<string>)
    requires Test(pattern, s)
    ensures Cuts(pattern, s, pieces)
    decreases |pattern| + |s|
  {
    if pattern == [] {
      pieces := [];
    } else if pattern[0].Letter? {
      var rest := TestCuts(pattern[1..], s[1..]);
      pieces := [[s[0]]] + rest;
      assert [s[0]] + s[1..] == s;
    } else if Test(pattern[1..], s) {
      var rest := TestCuts(pattern[1..], s);
      pieces := [""] + rest;
    } else {
      var rest := TestCuts(pattern, s[1..]);
      pieces := [[s[0]] + rest[0]] + rest[1..];
      assert [s[0]] + rest[0] + Join(rest[1..]) == [s[0]] + s[1..] == s;
    }
  }

  lemma {:induction false} CutTests(pattern: seq<Atom>, s: string, pieces: seq<string>)
    requires Cuts(pattern, s, pieces)
    ensures Test(pattern, s)
    decreases |pattern| + |s|
  {
    if pattern != [] {
      assert Takes(pattern[0], pieces[0]);
      if pattern[0].Letter? || pieces[0] == "" {
        assert s[|pieces[0]|..] == Join(pieces[1..]);
        assert Cuts(pattern[1..], s[|pieces[0]|..], pieces[1..]);
        CutTests(pattern[1..], s[|pieces[0]|..], pieces[1..]);
      } else {
        var shorter := [pieces[0][1..]] + pieces[1..];
        assert Join(shorter) == pieces[0][1..] + Join(pieces[1..]) == s[1..];
        assert Cuts(pattern, s[1..], shorter);
        CutTests(pattern, s[1..], shorter);
      }
    }
  }

  /** A letter of the glob must occur in what it matches. */
  lemma {:induction false} LetterIsNeeded(pattern: seq<Atom>, s: string, c: char)
    requires Test(pattern, s) && Letter(c) in pattern
    ensures exists i :: 0 <= i < |s| && Fold(s[i]) == Fold(c)
    decreases |pattern| + |s|
  {
    if pattern[0] == Letter(c) {
      assert Fold(s[0]) == Fold(c);
    } else if pattern[0].Letter? || Test(pattern[1..], s) {
      var t := if pattern[0].Letter? then s[1..] else s;
      LetterIsNeeded(pattern[1..], t, c);
      var i :| 0 <= i < |t| && Fold(t[i]) == Fold(c);
      assert Fold(s[i + |s| - |t|]) == Fold(c);
    } else {
      LetterIsNeeded(pattern, s[1..], c);
      var i :| 0 <= i < |s[1..]| && Fold(s[1..][i]) == Fold(c);
      assert Fold(s[i + 1]) == Fold(c);
    }
  }

  // ---------------------------------------------------------------------
  // Rules
  // ---------------------------------------------------------------------

  datatype Rule = Rule(glob: string, model: string)

  predicate Hits(rule: Rule, name: string) {
    Test(Atoms(rule.glob), name)
  }

  /** The model of the first rule whose glob matches. */
  function Mapped(name: string, rules: seq<Rule>): Option<string> {
    if rules == [] then None
    else if Hits(rules[0], name) then Some(rules[0].model)
    else Mapped(name, rules[1..])
  }

  lemma {:induction false} FirstHitWins(name: string, rules: seq<Rule>, i: nat)
    requires i < |rules| && Hits(rules[i], name)
    requires forall k :: 0 <= k < i ==> !Hits(rules[k], name)
    ensures Mapped(name, rules) == Some(rules[i].model)
    decreases i
  {
    if i > 0 { FirstHitWins(name, rules[1..], i - 1); }
  }

  lemma {:induction false} NoHitNoModel(name: string, rules: seq<Rule>)
    requires forall k :: 0 <= k < |rules| ==> !Hits(rules[k], name)
    ensures Mapped(name, rules) == None
  {
    if rules != [] { NoHitNoModel(name, rules[1..]); }
  }

  /** The module's cache of expressions. */
  class Globs {
    var cache: map<string, seq<Atom>>

    ghost predicate Valid()
      reads this
    {
      forall glob :: glob in cache ==> cache[glob] == Atoms(glob)
    }

    constructor ()
      ensures Valid()
    {
      cache := map[];
    }

    /** new RegExp of the text, or the one made before; the cache never changes the answer. */
    method GlobToRegExp(glob: string) returns (pattern: seq<Atom>)
      requires Valid()
      modifies this
      ensures Valid() && pattern == Atoms(glob)
    {
      if glob in cache { return cache[glob]; }
      PatternTextMeansGlob(glob);
      pattern := ReadPattern(StarsToRuns(Escape(glob))).value;
      cache := cache[glob := pattern];
    }

    method ResolveMappedModel(name: string, rules: seq<Rule>) returns (model: Option<string>)
      requires Valid()
      modifies this
      ensures Valid() && model == Mapped(name, rules)
    {
      for i := 0 to |rules|
        invariant Valid() && forall k :: 0 <= k < i ==> !Hits(rules[k], name)
      {
        var pattern := GlobToRegExp(rules[i].glob);
        if Test(pattern, name) {
          FirstHitWins(name, rules, i);
          return Some(rules[i].model);
        }
      }
      NoHitNoModel(name, rules);
      return None;
    }
  }
}
