/**
 * Kendall's tau between two orderings, scripts/memory-corpus/diagnose-lib.ts:248-282: two
 * nested loops count agreeing and disagreeing pairs.
 */
module KendallTau {

  import opened Wrappers

  type Id = string

  // ---------------------------------------------------------------------
  // What the loops compute, for any two orderings
  // ---------------------------------------------------------------------

  /** orderA.filter((id) => setB.has(id)) */
  function Common(a: seq<Id>, b: seq<Id>): seq<Id> {
    if a == [] then []
    else
      var n := |a| - 1;
      Common(a[..n], b) + (if a[n] in b then [a[n]] else [])
  }

  /** The last position of an identifier, as the later map entry replaces an earlier one. */
  function LastIndex(b: seq<Id>, x: Id): (i: nat)
    requires x in b
    ensures i < |b| && b[i] == x && forall k :: i < k < |b| ==> b[k] != x
  {
    var n := |b| - 1;
    if b[n] == x then n else LastIndex(b[..n], x)
  }

  lemma {:induction false} CommonIsInBoth(a: seq<Id>, b: seq<Id>)
    ensures forall x :: x in Common(a, b) <==> x in a && x in b
  {
    if a != [] {
      var n := |a| - 1;
      CommonIsInBoth(a[..n], b);
      assert a == a[..n] + [a[n]];
    }
  }

  predicate Disagree(c: seq<Id>, b: seq<Id>, i: nat, j: nat)
    requires i < |c| && j < |c| && c[i] in b && c[j] in b
  {
    LastIndex(b, c[i]) >= LastIndex(b, c[j])
  }

  /** The pairs of positions that the two orderings place differently. */
  function Discordant(c: seq<Id>, b: seq<Id>): set<(nat, nat)>
    requires forall x :: x in c ==> x in b
  {
    set j: nat, i: nat | j < |c| && i < j && Disagree(c, b, i, j) :: (i, j)
  }

  function Pairs(n: nat): nat { n * (n - 1) / 2 }

  /** The statistic; with fewer than two shared identifiers it is 1. */
  function Tau(a: seq<Id>, b: seq<Id>): real {
    CommonIsInBoth(a, b);
    var c := Common(a, b);
    if |c| < 2 then 1.0
    else
      MorePairsThanNone(|c|);
      Ratio(Pairs(|c|) - 2 * |Discordant(c, b)|, Pairs(|c|))
  }

  function Ratio(numerator: int, denominator: nat): real
    requires denominator > 0
  {
    numerator as real / denominator as real
  }

  lemma MorePairsThanNone(n: nat)
    ensures n >= 2 ==> Pairs(n) > 0
  {
    if n >= 2 { assert n * (n - 1) >= 2 * (n - 1); }
  }

  /** Positions (i, j) reached before the loops stand at (row, column). */
  predicate Passed(i: nat, j: nat, row: nat, column: nat) {
    i < j && (i < row || (i == row && j < column))
  }

  function PassedPairs(n: nat, row: nat, column: nat): set<(nat, nat)> {
    set j: nat, i: nat | j < n && i < j && Passed(i, j, row, column) :: (i, j)
  }

  function DiscordantPassed(c: seq<Id>, b: seq<Id>, row: nat, column: nat): set<(nat, nat)>
    requires forall x :: x in c ==> x in b
  {
    set j: nat, i: nat | j < |c| && i < j && Passed(i, j, row, column) && Disagree(c, b, i, j) :: (i, j)
  }

  method RankMap(b: seq<Id>) returns (rank: map<Id, nat>)
    ensures forall x :: x in rank <==> x in b
    ensures forall x :: x in b ==> rank[x] == LastIndex(b, x)
  {
    rank := map[];
    for i := 0 to |b|
      invariant forall x :: x in rank <==> x in b[..i]
      invariant forall x :: x in rank ==> rank[x] < i && b[rank[x]] == x && forall k :: rank[x] < k < i ==> b[k] != x
    {
      rank := rank[b[i] := i];
      assert b[..i + 1] == b[..i] + [b[i]];
    }
    assert b[..|b|] == b;
    forall x | x in b ensures rank[x] == LastIndex(b, x) {
      var r, l := rank[x], LastIndex(b, x);
      assert !(r < l) && !(l < r);
    }
  }

  method FilterCommon(a: seq<Id>, b: seq<Id>) returns (c: seq<Id>)
    ensures c == Common(a, b)
  {
    c := [];
    for i := 0 to |a|
      invariant c == Common(a[..i], b)
    {
      assert a[..i + 1][..i] == a[..i];
      if a[i] in b { c := c + [a[i]]; }
    }
    assert a[..|a|] == a;
  }

  /** The counting loops. */
  method CountPairs(c: seq<Id>, b: seq<Id>, rank: map<Id, nat>) returns (concordant: int, discordant: int)
    requires forall x :: x in c ==> x in b
    requires forall x :: x in b ==> x in rank && rank[x] == LastIndex(b, x)
    ensures discordant == |Discordant(c, b)|
    ensures concordant + discordant == Pairs(|c|)
  {
    concordant, discordant := 0, 0;
    for i := 0 to |c|
      invariant discordant == |DiscordantPassed(c, b, i, 0)|
      invariant concordant + discordant == |PassedPairs(|c|, i, 0)|
    {
      RowStarts(c, b, i);
      for j := i + 1 to |c|
        invariant discordant == |DiscordantPassed(c, b, i, j)|
        invariant concordant + discordant == |PassedPairs(|c|, i, j)|
      {
        assert c[i] in c && c[j] in c;
        PairPasses(c, b, i, j);
        if rank[c[i]] < rank[c[j]] { concordant := concordant + 1; } else { discordant := discordant + 1; }
      }
      RowEnds(c, b, i);
    }
    AllPass(c, b);
  }

  lemma RowStarts(c: seq<Id>, b: seq<Id>, i: nat)
    requires forall x :: x in c ==> x in b
    ensures DiscordantPassed(c, b, i, i + 1) == DiscordantPassed(c, b, i, 0)
    ensures PassedPairs(|c|, i, i + 1) == PassedPairs(|c|, i, 0)
  {
  }

  lemma RowEnds(c: seq<Id>, b: seq<Id>, i: nat)
    requires forall x :: x in c ==> x in b
    requires i < |c|
    ensures DiscordantPassed(c, b, i + 1, 0) == DiscordantPassed(c, b, i, |c|)
    ensures PassedPairs(|c|, i + 1, 0) == PassedPairs(|c|, i, |c|)
  {
  }

  lemma OneMorePair(n: nat, i: nat, j: nat)
    requires i < j < n
    ensures PassedPairs(n, i, j + 1) == PassedPairs(n, i, j) + {(i, j)}
  {
  }

  lemma OneMoreDiscordant(c: seq<Id>, b: seq<Id>, i: nat, j: nat)
    requires forall x :: x in c ==> x in b
    requires i < j < |c|
    ensures DiscordantPassed(c, b, i, j + 1) ==
      DiscordantPassed(c, b, i, j) + (if Disagree(c, b, i, j) then {(i, j)} else {})
  {
    forall p | p in DiscordantPassed(c, b, i, j + 1) && p != (i, j) ensures p in DiscordantPassed(c, b, i, j) {
      assert Passed(p.0, p.1, i, j);
    }
  }

  lemma PairPasses(c: seq<Id>, b: seq<Id>, i: nat, j: nat)
    requires forall x :: x in c ==> x in b
    requires i < j < |c|
    ensures |PassedPairs(|c|, i, j + 1)| == |PassedPairs(|c|, i, j)| + 1
    ensures |DiscordantPassed(c, b, i, j + 1)|
      == |DiscordantPassed(c, b, i, j)| + (if Disagree(c, b, i, j) then 1 else 0)
  {
    OneMorePair(|c|, i, j);
    OneMoreDiscordant(c, b, i, j);
    assert (i, j) !in PassedPairs(|c|, i, j) && (i, j) !in DiscordantPassed(c, b, i, j);
  }

  lemma AllPass(c: seq<Id>, b: seq<Id>)
    requires forall x :: x in c ==> x in b
    ensures DiscordantPassed(c, b, |c|, 0) == Discordant(c, b)
    ensures |PassedPairs(|c|, |c|, 0)| == Pairs(|c|)
  {
    AllPairsCount(|c|);
    assert PassedPairs(|c|, |c|, 0) == AllPairs(|c|);
  }

  function AllPairs(n: nat): set<(nat, nat)> {
    set j: nat, i: nat | j < n && i < j :: (i, j)
  }

  lemma {:induction false} AllPairsCount(n: nat)
    ensures |AllPairs(n)| == Pairs(n)
  {
    if n > 0 {
      AllPairsCount(n - 1);
      ColumnCount(n - 1, n - 1);
      assert AllPairs(n) == AllPairs(n - 1) + Column(n - 1, n - 1);
      assert Pairs(n) == Pairs(n - 1) + (n - 1) by {
        assert n * (n - 1) == (n - 1) * (n - 2) + 2 * (n - 1);
      }
    }
  }

  function Column(j: nat, height: nat): set<(nat, nat)> {
    set i: nat | i < height :: (i, j)
  }

  lemma {:induction false} ColumnCount(j: nat, height: nat)
    ensures |Column(j, height)| == height
  {
    if height > 0 {
      ColumnCount(j, height - 1);
      assert Column(j, height) == Column(j, height - 1) + {(height - 1, j)};
    }
  }

  /** kendallTau, for any two orderings. */
  method KendallTau(a: seq<Id>, b: seq<Id>) returns (tau: real)
    ensures tau == Tau(a, b)
  {
    var c := FilterCommon(a, b);
    var rank := RankMap(b);
    CommonIsInBoth(a, b);
    if |c| < 2 { return 1.0; }
    var concordant, discordant := CountPairs(c, b, rank);
    MorePairsThanNone(|c|);
    return Ratio(concordant - discordant, Pairs(|c|));
  }

  // ---------------------------------------------------------------------
  // What it means for orderings without repeats
  // ---------------------------------------------------------------------

  predicate Before(s: seq<Id>, x: Id, y: Id) {
    exists i, j :: 0 <= i < j < |s| && s[i] == x && s[j] == y
  }

  /** The shared pairs that one ordering places one way and the other the other way. */
  function Inversions(a: seq<Id>, b: seq<Id>): set<(Id, Id)> {
    set x, y | x in a && y in a && Before(a, x, y) && Before(b, y, x) :: (x, y)
  }

  lemma BeforeSnoc(s: seq<Id>, x: Id, y: Id)
    requires s != []
    ensures var n := |s| - 1; Before(s, x, y) <==> Before(s[..n], x, y) || (x in s[..n] && y == s[n])
  {
    var n := |s| - 1;
    if i, j :| 0 <= i < j < |s| && s[i] == x && s[j] == y {
      assert s[..n][i] == x;
      if j < n { assert s[..n][j] == y; }
    }
    if i, j :| 0 <= i < j < n && s[..n][i] == x && s[..n][j] == y {
      assert s[i] == x && s[j] == y;
    }
    if x in s[..n] {
      var i :| 0 <= i < n && s[..n][i] == x;
      assert s[i] == x;
    }
  }

  /** Filtering keeps the order. */
  lemma {:induction false} CommonKeepsOrder(a: seq<Id>, b: seq<Id>, x: Id, y: Id)
    ensures Before(Common(a, b), x, y) <==> Before(a, x, y) && x in b && y in b
  {
    if a != [] {
      var n := |a| - 1;
      var front := Common(a[..n], b);
      CommonKeepsOrder(a[..n], b, x, y);
      CommonIsInBoth(a[..n], b);
      BeforeSnoc(a, x, y);
      if a[n] in b {
        var c := front + [a[n]];
        BeforeSnoc(c, x, y);
        assert c[..|c| - 1] == front && c[|c| - 1] == a[n];
      } else {
        assert Common(a, b) == front;
      }
    }
  }

  lemma {:induction false} CommonIsDistinct(a: seq<Id>, b: seq<Id>)
    requires Distinct(a)
    ensures Distinct(Common(a, b))
  {
    if a != [] {
      var n := |a| - 1;
      CommonIsDistinct(a[..n], b);
      CommonIsInBoth(a[..n], b);
    }
  }

  /** Without repeats, a later last position means a later place. */
  lemma OrderByLastIndex(b: seq<Id>, x: Id, y: Id)
    requires Distinct(b) && x in b && y in b
    ensures Before(b, x, y) <==> LastIndex(b, x) < LastIndex(b, y)
  {
    if i, j :| 0 <= i < j < |b| && b[i] == x && b[j] == y {
      assert i == LastIndex(b, x) && j == LastIndex(b, y);
    }
  }

  lemma {:induction false} SameSize<S, T>(s: set<S>, t: set<T>, f: S -> T)
    requires forall x :: x in s ==> f(x) in t
    requires forall x, y :: x in s && y in s && f(x) == f(y) ==> x == y
    requires forall z :: z in t ==> exists x :: x in s && f(x) == z
    ensures |s| == |t|
    decreases |s|
  {
    if s == {} {
      assert t == {};
    } else {
      var x :| x in s;
      forall z | z in t - {f(x)} ensures exists y :: y in s - {x} && f(y) == z {
        var y :| y in s && f(y) == z;
        assert y in s - {x};
      }
      SameSize(s - {x}, t - {f(x)}, f);
      assert t == (t - {f(x)}) + {f(x)};
    }
  }

  function PairAt(c: seq<Id>, p: (nat, nat)): (Id, Id) {
    if p.0 < |c| && p.1 < |c| then (c[p.0], c[p.1]) else ("", "")
  }

  lemma PairsAreDistinct(c: seq<Id>, p: (nat, nat), q: (nat, nat))
    requires Distinct(c) && p.0 < |c| && p.1 < |c| && q.0 < |c| && q.1 < |c| && PairAt(c, p) == PairAt(c, q)
    ensures p == q
  {
    assert !(p.0 < q.0) && !(q.0 < p.0) && !(p.1 < q.1) && !(q.1 < p.1);
  }

  /** The discordant positions are the inversions. */
  lemma DiscordantAreInversions(a: seq<Id>, b: seq<Id>)
    requires Distinct(a) && Distinct(b)
    ensures (forall x :: x in Common(a, b) ==> x in b)
    ensures |Discordant(Common(a, b), b)| == |Inversions(a, b)|
  {
    CommonIsInBoth(a, b);
    CommonIsDistinct(a, b);
    var c := Common(a, b);
    var pairs, inversions := Discordant(c, b), Inversions(a, b);
    var f := (p: (nat, nat)) => PairAt(c, p);
    forall p | p in pairs ensures f(p) in inversions {
      DiscordantIsInverted(a, b, p.0, p.1);
    }
    forall p, q | p in pairs && q in pairs && f(p) == f(q) ensures p == q {
      PairsAreDistinct(c, p, q);
    }
    forall z | z in inversions ensures exists p :: p in pairs && f(p) == z {
      var i, j := InvertedIsDiscordant(a, b, z.0, z.1);
      assert (i, j) in pairs && f((i, j)) == z;
    }
    SameSize(pairs, inversions, f);
  }

  lemma DiscordantIsInverted(a: seq<Id>, b: seq<Id>, i: nat, j: nat)
    requires Distinct(a) && Distinct(b) && i < j < |Common(a, b)|
    requires var c := Common(a, b); c[i] in b && c[j] in b && Disagree(c, b, i, j)
    ensures (Common(a, b)[i], Common(a, b)[j]) in Inversions(a, b)
  {
    var c := Common(a, b);
    var x, y := c[i], c[j];
    CommonIsDistinct(a, b);
    CommonKeepsOrder(a, b, x, y);
    OrderByLastIndex(b, y, x);
    assert Before(c, x, y);
  }

  lemma InvertedIsDiscordant(a: seq<Id>, b: seq<Id>, x: Id, y: Id) returns (i: nat, j: nat)
    requires Distinct(a) && Distinct(b) && (x, y) in Inversions(a, b)
    ensures var c := Common(a, b);
      i < j < |c| && c[i] == x && c[j] == y && x in b && y in b && Disagree(c, b, i, j)
  {
    var c := Common(a, b);
    assert x in b && y in b;
    CommonKeepsOrder(a, b, x, y);
    i, j :| 0 <= i < j < |c| && c[i] == x && c[j] == y;
    OrderByLastIndex(b, y, x);
  }

  /** The numerator: pairs less twice the inversions, between minus the pairs and the pairs. */
  lemma TauCountsInversions(a: seq<Id>, b: seq<Id>)
    requires Distinct(a) && Distinct(b) && |Common(a, b)| >= 2
    ensures var pairs := Pairs(|Common(a, b)|); var numerator: int := pairs - 2 * |Inversions(a, b)|;
      pairs > 0 && Tau(a, b) == Ratio(numerator, pairs) && 0 - pairs <= numerator <= pairs
  {
    var c := Common(a, b);
    DiscordantAreInversions(a, b);
    MorePairsThanNone(|c|);
    AllPairsCount(|c|);
    Fewer(Discordant(c, b), AllPairs(|c|));
  }

  lemma Fewer<T>(s: set<T>, t: set<T>)
    requires s <= t
    ensures |s| <= |t|
  {
    assert t == s + (t - s);
  }

  lemma SameCommonSize(a: seq<Id>, b: seq<Id>)
    requires Distinct(a) && Distinct(b)
    ensures |Common(a, b)| == |Common(b, a)|
  {
    CommonIsInBoth(a, b);
    CommonIsInBoth(b, a);
    CommonIsDistinct(a, b);
    CommonIsDistinct(b, a);
    DistinctSize(Common(a, b));
    DistinctSize(Common(b, a));
    assert Ids(Common(a, b)) == Ids(Common(b, a));
  }

  function Ids(s: seq<Id>): set<Id> {
    set x | x in s
  }

  lemma {:induction false} DistinctSize(s: seq<Id>)
    requires Distinct(s)
    ensures |Ids(s)| == |s|
  {
    if s != [] {
      var n := |s| - 1;
      DistinctSize(s[..n]);
      assert Ids(s) == Ids(s[..n]) + {s[n]};
    }
  }

  /** The statistic does not depend on which ordering comes first. */
  lemma TauIsSymmetric(a: seq<Id>, b: seq<Id>)
    requires Distinct(a) && Distinct(b)
    ensures Tau(a, b) == Tau(b, a)
  {
    SameCommonSize(a, b);
    if |Common(a, b)| >= 2 {
      TauCountsInversions(a, b);
      TauCountsInversions(b, a);
      InversionsAreMutual(a, b);
    }
  }

  lemma InversionsAreMutual(a: seq<Id>, b: seq<Id>)
    ensures |Inversions(a, b)| == |Inversions(b, a)|
  {
    var swap := (p: (Id, Id)) => (p.1, p.0);
    forall z | z in Inversions(b, a) ensures exists p :: p in Inversions(a, b) && swap(p) == z {
      assert (z.1, z.0) in Inversions(a, b) && swap((z.1, z.0)) == z;
    }
    SameSize(Inversions(a, b), Inversions(b, a), swap);
  }

  /** It is 1 exactly when the shared identifiers come in the same order. */
  lemma TauIsOneIffSameOrder(a: seq<Id>, b: seq<Id>)
    requires Distinct(a) && Distinct(b)
    ensures Tau(a, b) == 1.0 <==> Common(a, b) == Common(b, a)
  {
    SameCommonSize(a, b);
    if |Common(a, b)| < 2 {
      CommonIsInBoth(a, b);
      CommonIsInBoth(b, a);
      AtMostOneAlike(Common(a, b), Common(b, a));
    } else {
      OneIffNoInversions(a, b);
      NoInversionsIffSameOrder(a, b);
    }
  }

  lemma OneIffNoInversions(a: seq<Id>, b: seq<Id>)
    requires Distinct(a) && Distinct(b) && |Common(a, b)| >= 2
    ensures Tau(a, b) == 1.0 <==> |Inversions(a, b)| == 0
  {
    TauCountsInversions(a, b);
    RatioIsOne(|Inversions(a, b)|, Pairs(|Common(a, b)|));
  }

  lemma NoInversionsIffSameOrder(a: seq<Id>, b: seq<Id>)
    requires Distinct(a) && Distinct(b)
    ensures |Inversions(a, b)| == 0 <==> Common(a, b) == Common(b, a)
  {
    if Common(a, b) == Common(b, a) { SameOrderNoInversions(a, b); }
    if Inversions(a, b) == {} { NoInversionsSameOrder(a, b); }
  }

  lemma RatioIsOne(inversions: nat, pairs: nat)
    requires pairs > 0
    ensures Ratio(pairs - 2 * inversions, pairs) == 1.0 <==> inversions == 0
  {
    var r := Ratio(pairs - 2 * inversions, pairs);
    assert r * pairs as real == (pairs - 2 * inversions) as real;
  }

  lemma AtMostOneAlike(s: seq<Id>, t: seq<Id>)
    requires |s| == |t| < 2 && forall x :: x in s <==> x in t
    ensures s == t
  {
    if |s| == 1 { assert s[0] in t; }
  }

  lemma SameOrderNoInversions(a: seq<Id>, b: seq<Id>)
    requires Distinct(a) && Distinct(b) && Common(a, b) == Common(b, a)
    ensures Inversions(a, b) == {}
  {
    forall x, y | (x, y) in Inversions(a, b) ensures false {
      CommonKeepsOrder(a, b, x, y);
      CommonKeepsOrder(b, a, y, x);
      CommonIsDistinct(a, b);
    }
  }

  lemma NoInversionsSameOrder(a: seq<Id>, b: seq<Id>)
    requires Distinct(a) && Distinct(b) && Inversions(a, b) == {}
    ensures Common(a, b) == Common(b, a)
  {
    var s, t := Common(a, b), Common(b, a);
    CommonIsInBoth(a, b);
    CommonIsInBoth(b, a);
    CommonIsDistinct(a, b);
    CommonIsDistinct(b, a);
    forall x, y | Before(s, x, y) ensures !Before(t, y, x) {
      CommonKeepsOrder(a, b, x, y);
      CommonKeepsOrder(b, a, y, x);
      assert (x, y) !in Inversions(a, b);
    }
    SameCommonSize(a, b);
    SameOrderSameList(s, t);
  }

  predicate SameMembers(s: seq<Id>, t: seq<Id>) {
    (forall x :: x in s ==> x in t) && (forall x :: x in t ==> x in s)
  }

  ghost predicate Compatible(s: seq<Id>, t: seq<Id>) {
    forall x, y {:trigger Before(s, x, y)} {:trigger Before(t, y, x)} :: Before(s, x, y) ==> !Before(t, y, x)
  }

  lemma FrontsAgree(s: seq<Id>, t: seq<Id>, m: nat, n: nat)
    requires m == |s| - 1 && n == |t| - 1 && Distinct(s) && Distinct(t) && s[m] == t[n]
    requires SameMembers(s, t) && Compatible(s, t)
    ensures SameMembers(s[..m], t[..n]) && Compatible(s[..m], t[..n])
  {
    FrontHasTheRest(s);
    FrontHasTheRest(t);
    forall x | x in s[..m] ensures x in t[..n] {
      assert x in s && x != s[m];
    }
    forall x | x in t[..n] ensures x in s[..m] {
      assert x in t && x != t[n];
    }
    forall x, y | Before(s[..m], x, y) ensures !Before(t[..n], y, x) {
      BeforeSnoc(s, x, y);
      BeforeSnoc(t, y, x);
    }
  }

  lemma {:induction false} SameOrderSameList(s: seq<Id>, t: seq<Id>)
    requires |s| == |t| && Distinct(s) && Distinct(t) && SameMembers(s, t) && Compatible(s, t)
    ensures s == t
    decreases |s|
  {
    if s != [] {
      var m, n := |s| - 1, |t| - 1;
      LastAgrees(s, t);
      FrontsAgree(s, t, m, n);
      SameOrderSameList(s[..m], t[..n]);
      assert s == s[..m] + [s[m]] && t == t[..n] + [t[n]];
    }
  }

  lemma FrontHasTheRest(s: seq<Id>)
    requires s != [] && Distinct(s)
    ensures forall x :: x in s[..|s| - 1] <==> x in s && x != s[|s| - 1]
  {
    var n := |s| - 1;
    assert s == s[..n] + [s[n]];
  }

  /** Different last elements would stand in opposite orders. */
  lemma LastsStandApart(s: seq<Id>, t: seq<Id>)
    requires s != [] && t != [] && SameMembers(s, t) && s[|s| - 1] != t[|t| - 1]
    ensures Before(s, t[|t| - 1], s[|s| - 1]) && Before(t, s[|s| - 1], t[|t| - 1])
  {
    var m, n := |s| - 1, |t| - 1;
    assert s[m] in t && t[n] in s;
    var i :| 0 <= i < |s| && s[i] == t[n];
    var j :| 0 <= j < |t| && t[j] == s[m];
  }

  lemma LastAgrees(s: seq<Id>, t: seq<Id>)
    requires s != [] && t != [] && SameMembers(s, t) && Compatible(s, t)
    ensures s[|s| - 1] == t[|t| - 1]
  {
    if s[|s| - 1] != t[|t| - 1] { LastsStandApart(s, t); }
  }

  lemma {:induction false} RepeatStaysCommon(a: seq<Id>, x: Id, i: nat, j: nat)
    requires i < j < |a| && a[i] == x && a[j] == x
    ensures |Common(a, [x])| >= 2
    decreases |a|
  {
    var n := |a| - 1;
    if j < n {
      RepeatStaysCommon(a[..n], x, i, j);
    } else {
      CommonIsInBoth(a[..n], [x]);
      assert a[..n][i] == x;
      assert x in Common(a[..n], [x]);
    }
  }

  /** Against a single identifier every pair of its copies counts as discordant. */
  lemma AllCopiesDisagree(c: seq<Id>, x: Id)
    requires forall y :: y in c ==> y in [x]
    ensures Discordant(c, [x]) == AllPairs(|c|)
  {
    var one := [x];
    forall i: nat, j: nat | i < j < |c| ensures Disagree(c, one, i, j) {
      assert c[i] in c && c[j] in c;
      assert LastIndex(one, c[i]) == 0 == LastIndex(one, c[j]);
    }
  }

  lemma MinusOne(n: int, d: nat)
    requires d > 0 && n + d == 0
    ensures Ratio(n, d) == -1.0
  {
    var r := Ratio(n, d);
    assert r * d as real == n as real;
    assert (r + 1.0) * d as real == 0.0;
  }

  /** An ordering that repeats x, against x alone: -1 in one direction and 1 in the other. */
  lemma RepeatBreaksSymmetry(a: seq<Id>, x: Id, i: nat, j: nat)
    requires i < j < |a| && a[i] == x && a[j] == x
    ensures Tau(a, [x]) == -1.0 && Tau([x], a) == 1.0
  {
    var one := [x];
    var c := Common(a, one);
    RepeatStaysCommon(a, x, i, j);
    CommonIsInBoth(a, one);
    AllCopiesDisagree(c, x);
    AllPairsCount(|c|);
    MorePairsThanNone(|c|);
    MinusOne(Pairs(|c|) - 2 * |Discordant(c, one)|, Pairs(|c|));
    assert one[..0] == [] && |Common(one, a)| < 2;
  }

  /** Exactly the orderings without repeats are symmetric against every ordering without repeats. */
  lemma SymmetricIffDistinct(a: seq<Id>)
    ensures Distinct(a) <==> forall b | Distinct(b) :: Tau(a, b) == Tau(b, a)
  {
    if Distinct(a) {
      forall b | Distinct(b) ensures Tau(a, b) == Tau(b, a) {
        TauIsSymmetric(a, b);
      }
    } else {
      var i, j :| 0 <= i < j < |a| && a[i] == a[j];
      RepeatBreaksSymmetry(a, a[i], i, j);
      var one := [a[i]];
      assert Distinct(one) && Tau(a, one) != Tau(one, a);
    }
  }
}
