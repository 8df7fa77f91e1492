/**
 * Sampling across recency buckets, scripts/memory-corpus/diagnose-lib.ts:452-514: rows are
 * grouped, each group is shuffled in place, every group gives its share, and the rest fills up.
 */
module StratifiedSample {

  import opened Wrappers

  datatype Row = Row(id: string, bucket: string)

  type Groups = map<string, seq<Row>>

  // ---------------------------------------------------------------------
  // Shuffling in place
  // ---------------------------------------------------------------------

  /** Exchanging two elements permutes. */
  lemma SwapPermutes(before: seq<Row>, after: seq<Row>, i: nat, j: nat)
    requires i < |before| && j < |before|
    requires after == before[i := before[j]][j := before[i]]
    ensures multiset(after) == multiset(before)
  {
  }

  /** From the back, each element changes places with a random one not behind it. */
  method ShuffleInPlace(a: array<Row>)
    modifies a
    ensures multiset(a[..]) == multiset(old(a[..]))
  {
    var i := a.Length - 1;
    while i > 0
      invariant i < a.Length
      invariant multiset(a[..]) == multiset(old(a[..]))
    {
      var j :| 0 <= j <= i;
      ghost var before := a[..];
      a[i], a[j] := a[j], a[i];
      SwapPermutes(before, a[..], i, j);
      i := i - 1;
    }
  }

  method Shuffled(rows: seq<Row>) returns (mixed: seq<Row>)
    ensures multiset(mixed) == multiset(rows) && |mixed| == |rows|
  {
    var a := new Row[|rows|](i requires 0 <= i < |rows| => rows[i]);
    assert a[..] == rows;
    ShuffleInPlace(a);
    mixed := a[..];
    assert |multiset(mixed)| == |mixed| && |multiset(rows)| == |rows|;
  }

  // ---------------------------------------------------------------------
  // Groups
  // ---------------------------------------------------------------------

  function Gathered(order: seq<string>, groups: Groups): seq<Row> {
    if order == [] then []
    else
      var last := order[|order| - 1];
      Gathered(order[..|order| - 1], groups) + (if last in groups then groups[last] else [])
  }

  lemma {:induction false} GatheredWithout(order: seq<string>, groups: Groups, key: string, list: seq<Row>)
    requires key !in order
    ensures Gathered(order, groups[key := list]) == Gathered(order, groups)
  {
    if order != [] { GatheredWithout(order[..|order| - 1], groups, key, list); }
  }

  /** One more row in a group is one more row in all. */
  lemma {:induction false} GatheredPlus(order: seq<string>, groups: Groups, key: string, row: Row)
    requires Distinct(order) && key in order && key in groups
    ensures multiset(Gathered(order, groups[key := groups[key] + [row]])) ==
      multiset(Gathered(order, groups)) + multiset{row}
  {
    var n := |order| - 1;
    var next := groups[key := groups[key] + [row]];
    if order[n] == key {
      GatheredWithout(order[..n], groups, key, groups[key] + [row]);
    } else {
      GatheredPlus(order[..n], groups, key, row);
    }
  }

  predicate AllIn(list: seq<Row>, key: string) {
    forall i :: 0 <= i < |list| ==> list[i].bucket == key
  }

  /** `order` lists the groups' keys once each, and each group has rows of its own bucket only. */
  ghost predicate Keyed(order: seq<string>, groups: Groups) {
    && Distinct(order) && (forall k :: k in order <==> k in groups)
    && (forall k :: k in groups ==> groups[k] != [] && AllIn(groups[k], k))
  }

  ghost predicate Groupwise(order: seq<string>, groups: Groups, rows: seq<Row>) {
    Keyed(order, groups) && multiset(Gathered(order, groups)) == multiset(rows)
  }

  method GroupRows(rows: seq<Row>) returns (order: seq<string>, groups: Groups)
    ensures Groupwise(order, groups, rows)
  {
    order, groups := [], map[];
    ghost var seen: seq<Row> := [];
    NoGroups(order, groups, seen);
    for i := 0 to |rows|
      invariant seen == rows[..i] && Groupwise(order, groups, seen)
    {
      order, groups, seen := PutRow(order, groups, rows[i], seen);
    }
    assert seen == rows;
  }

  lemma NoGroups(order: seq<string>, groups: Groups, rows: seq<Row>)
    requires order == [] && groups == map[] && rows == []
    ensures Groupwise(order, groups, rows)
  {
  }

  /** byBucket.get(key) ?? [], push, set. */
  method PutRow(order: seq<string>, groups: Groups, row: Row, ghost rows: seq<Row>)
    returns (keys: seq<string>, next: Groups, ghost more: seq<Row>)
    requires Groupwise(order, groups, rows)
    ensures Groupwise(keys, next, more) && more == rows + [row]
  {
    more := rows + [row];
    if row.bucket !in groups {
      ghost var k, g := NewGroup(order, groups, row);
      keys, next := order + [row.bucket], groups[row.bucket := [row]];
    } else {
      ghost var g := LargerGroup(order, groups, row);
      keys, next := order, groups[row.bucket := groups[row.bucket] + [row]];
    }
  }

  lemma LargerGroup(order: seq<string>, groups: Groups, row: Row) returns (next: Groups)
    requires Keyed(order, groups) && row.bucket in groups
    ensures next == groups[row.bucket := groups[row.bucket] + [row]]
    ensures Keyed(order, next) && multiset(Gathered(order, next)) == multiset(Gathered(order, groups)) + multiset{row}
  {
    next := groups[row.bucket := groups[row.bucket] + [row]];
    GatheredPlus(order, groups, row.bucket, row);
  }

  lemma NewGroup(order: seq<string>, groups: Groups, row: Row) returns (longer: seq<string>, next: Groups)
    requires Keyed(order, groups) && row.bucket !in groups
    ensures longer == order + [row.bucket] && next == groups[row.bucket := [row]]
    ensures Keyed(longer, next) && multiset(Gathered(longer, next)) == multiset(Gathered(order, groups)) + multiset{row}
  {
    longer, next := order + [row.bucket], groups[row.bucket := [row]];
    NewGroupKeyed(order, groups, row);
    NewGroupGathered(order, groups, row);
  }

  lemma NewGroupKeyed(order: seq<string>, groups: Groups, row: Row)
    requires Keyed(order, groups) && row.bucket !in groups
    ensures Keyed(order + [row.bucket], groups[row.bucket := [row]])
  {
    var next := groups[row.bucket := [row]];
    forall k | k in next ensures next[k] != [] && AllIn(next[k], k) {
      if k != row.bucket { assert next[k] == groups[k]; }
    }
  }

  lemma NewGroupGathered(order: seq<string>, groups: Groups, row: Row)
    requires row.bucket !in order
    ensures Gathered(order + [row.bucket], groups[row.bucket := [row]]) == Gathered(order, groups) + [row]
  {
    var longer := order + [row.bucket];
    GatheredWithout(order, groups, row.bucket, [row]);
    assert longer[..|longer| - 1] == order;
  }

  // ---------------------------------------------------------------------
  // The sample
  // ---------------------------------------------------------------------

  function InBucket(rows: seq<Row>, key: string): nat {
    if rows == [] then 0 else InBucket(rows[..|rows| - 1], key) + (if rows[|rows| - 1].bucket == key then 1 else 0)
  }

  lemma {:induction false} InBucketJoins(a: seq<Row>, b: seq<Row>, key: string)
    ensures InBucket(a + b, key) == InBucket(a, key) + InBucket(b, key)
  {
    if b == [] {
      assert a + b == a;
    } else {
      var n := |b| - 1;
      InBucketJoins(a, b[..n], key);
      assert (a + b)[..|a + b| - 1] == a + b[..n];
    }
  }

  lemma {:induction false} AllInCount(list: seq<Row>, key: string)
    requires AllIn(list, key)
    ensures InBucket(list, key) == |list|
  {
    if list != [] { AllInCount(list[..|list| - 1], key); }
  }

  lemma ShuffleKeepsBucket(list: seq<Row>, mixed: seq<Row>, key: string)
    requires multiset(mixed) == multiset(list) && AllIn(list, key)
    ensures AllIn(mixed, key)
  {
    forall i | 0 <= i < |mixed| ensures mixed[i].bucket == key {
      assert mixed[i] in multiset(mixed);
    }
  }

  /** Each of these groups has given its share, or all it has. */
  ghost predicate Shares(selected: seq<Row>, order: seq<string>, groups: Groups, per: nat) {
    forall k :: k in order && k in groups ==> InBucket(selected, k) >= Least(per, |groups[k]|)
  }

  /** After the groups in `done`: what is selected, what is left over. */
  ghost predicate Passed(selected: seq<Row>, leftover: seq<Row>, done: seq<string>, groups: Groups, per: nat) {
    && multiset(selected) + multiset(leftover) == multiset(Gathered(done, groups))
    && |selected| <= |done| * per && Shares(selected, done, groups, per)
  }

  /** Shuffle every group, and take up to `per` rows from each. */
  method FirstPass(order: seq<string>, groups: Groups, per: nat) returns (selected: seq<Row>, leftover: seq<Row>)
    requires Keyed(order, groups)
    ensures Passed(selected, leftover, order, groups, per)
  {
    selected, leftover := [], [];
    ghost var done: seq<string> := [];
    for i := 0 to |order|
      invariant done == order[..i] && Passed(selected, leftover, done, groups, per)
    {
      assert order[i] in order;
      selected, leftover := TakeShare(selected, leftover, groups, per, order[i], done);
      done := done + [order[i]];
    }
    assert done == order;
  }

  method TakeShare(
    selected: seq<Row>, leftover: seq<Row>, groups: Groups, per: nat, key: string, ghost done: seq<string>)
    returns (more: seq<Row>, rest: seq<Row>)
    requires Passed(selected, leftover, done, groups, per) && key in groups && AllIn(groups[key], key)
    ensures Passed(more, rest, done + [key], groups, per)
  {
    var list := Shuffled(groups[key]);
    ShuffleKeepsBucket(groups[key], list, key);
    var take := Least(per, |list|);
    ghost var m, r := ShareMoves(selected, leftover, list, take, groups, per, key, done);
    more, rest := selected + list[..take], leftover + list[take..];
  }

  lemma ShareMoves(
    selected: seq<Row>, leftover: seq<Row>, list: seq<Row>, take: nat, groups: Groups, per: nat, key: string,
    done: seq<string>)
    returns (more: seq<Row>, rest: seq<Row>)
    requires Passed(selected, leftover, done, groups, per) && key in groups
    requires multiset(list) == multiset(groups[key]) && |list| == |groups[key]| && AllIn(list, key)
    requires take == Least(per, |list|)
    ensures more == selected + list[..take] && rest == leftover + list[take..]
    ensures Passed(more, rest, done + [key], groups, per)
  {
    more, rest := selected + list[..take], leftover + list[take..];
    ShareTaken(selected, list[..take], done, groups, per, key);
    RestKept(selected, leftover, list, take, done, groups, key);
    OneMore(|done|, per);
  }

  lemma OneMore(n: nat, per: nat)
    ensures (n + 1) * per == n * per + per
  {
  }

  lemma RestKept(
    selected: seq<Row>, leftover: seq<Row>, list: seq<Row>, take: nat, done: seq<string>, groups: Groups, key: string)
    requires multiset(selected) + multiset(leftover) == multiset(Gathered(done, groups))
    requires key in groups && multiset(list) == multiset(groups[key]) && take <= |list|
    ensures multiset(selected + list[..take]) + multiset(leftover + list[take..])
      == multiset(Gathered(done + [key], groups))
  {
    var longer := done + [key];
    assert longer[..|longer| - 1] == done;
    assert Gathered(longer, groups) == Gathered(done, groups) + groups[key];
    assert list == list[..take] + list[take..];
  }

  lemma ShareTaken(selected: seq<Row>, share: seq<Row>, done: seq<string>, groups: Groups, per: nat, key: string)
    requires Shares(selected, done, groups, per) && key in groups && AllIn(share, key)
    requires |share| == Least(per, |groups[key]|)
    ensures Shares(selected + share, done + [key], groups, per)
  {
    forall k | k in done + [key] && k in groups ensures InBucket(selected + share, k) >= Least(per, |groups[k]|) {
      InBucketJoins(selected, share, k);
      if k == key { AllInCount(share, key); }
    }
  }

  function Ids(rows: seq<Row>): seq<string> {
    seq(|rows|, i requires 0 <= i < |rows| => rows[i].id)
  }

  /**
   * The rows behind the sample: exactly as many rows as asked for, or all there are, each row at most as
   * often as it occurs; and with no more groups than rows wanted, every group is represented by
   * its even share or by all it has.
   */
  method SampleRows(rows: seq<Row>, total: int)
    returns (picked: seq<Row>, ghost order: seq<string>, ghost groups: Groups)
    ensures multiset(picked) <= multiset(rows)
    ensures |picked| == if total <= 0 then 0 else Least(total, |rows|)
    ensures total > 0 ==> Groupwise(order, groups, rows)
    ensures total > 0 && 0 < |order| <= Least(total, |rows|) ==>
      Shares(picked, order, groups, Least(total, |rows|) / |order|)
  {
    picked, order, groups := [], [], map[];
    if total <= 0 || rows == [] {
      return;
    }
    var keys, lists := GroupRows(rows);
    order, groups := keys, lists;
    SomeGroup(keys, lists, rows);
    var cap := Least(total, |rows|);
    var per := if cap / |keys| >= 1 then cap / |keys| else 1;
    var selected, leftover := FirstPass(keys, lists, per);
    leftover := Shuffled(leftover);
    ghost var first := selected;
    var n := 0;
    SizesAdd(selected, leftover, rows);
    while n < |leftover| && |selected| < cap
      invariant n <= |leftover| && selected == first + leftover[..n]
      invariant n > 0 ==> |selected| <= cap
    {
      assert leftover[..n + 1] == leftover[..n] + [leftover[n]];
      selected := selected + [leftover[n]];
      n := n + 1;
    }
    assert |selected| >= cap;
    var kept := selected[..cap];
    KeptFromRows(first, leftover, n, cap, rows);
    if |keys| <= cap {
      EvenShare(cap, |keys|);
      SharesKept(first, kept, keys, lists, per);
    }
    picked := kept;
  }

  /** These identifiers are those of rows picked from `rows`. */
  ghost predicate DrawnFrom(ids: seq<string>, rows: seq<Row>) {
    exists picked: seq<Row> :: multiset(picked) <= multiset(rows) && ids == Ids(picked)
  }

  method Sample(rows: seq<Row>, total: int) returns (ids: seq<string>)
    ensures DrawnFrom(ids, rows)
    ensures |ids| == if total <= 0 then 0 else Least(total, |rows|)
  {
    var picked, _, _ := SampleRows(rows, total);
    ids := Ids(picked);
  }

  lemma SomeGroup(order: seq<string>, groups: Groups, rows: seq<Row>)
    requires Groupwise(order, groups, rows) && rows != []
    ensures order != []
  {
    assert |multiset(Gathered(order, groups))| == |multiset(rows)|;
    assert |Gathered(order, groups)| == |rows|;
  }

  lemma SizesAdd(a: seq<Row>, b: seq<Row>, rows: seq<Row>)
    requires multiset(a) + multiset(b) == multiset(rows)
    ensures |a| + |b| == |rows|
  {
    assert |multiset(a)| + |multiset(b)| == |multiset(rows)|;
  }

  lemma KeptFromRows(first: seq<Row>, leftover: seq<Row>, n: nat, cap: nat, rows: seq<Row>)
    requires n <= |leftover| && cap <= |first| + n && multiset(first) + multiset(leftover) == multiset(rows)
    ensures multiset((first + leftover[..n])[..cap]) <= multiset(rows)
  {
    var selected := first + leftover[..n];
    assert leftover == leftover[..n] + leftover[n..];
    assert selected == selected[..cap] + selected[cap..];
    assert multiset(selected) + multiset(leftover[n..]) == multiset(rows);
  }

  lemma EvenShare(cap: nat, groups: nat)
    requires 0 < groups <= cap
    ensures cap / groups >= 1 && groups * (cap / groups) <= cap
  {
  }

  lemma SharesKept(first: seq<Row>, kept: seq<Row>, order: seq<string>, groups: Groups, per: nat)
    requires first <= kept && Shares(first, order, groups, per)
    ensures Shares(kept, order, groups, per)
  {
    forall k | k in order && k in groups ensures InBucket(kept, k) >= Least(per, |groups[k]|) {
      assert kept == first + kept[|first|..];
      InBucketJoins(first, kept[|first|..], k);
    }
  }
}
