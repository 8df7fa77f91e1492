/**
 * Adding required entries to a list whose entries are identified by a key:
 * the shape shared by injectEnvironment and injectMounts in
 * docker/build-trust-runtime/spec.go.
 */
module KeyedInjection {

  predicate DistinctBy<T>(key: T -> string, xs: seq<T>) {
    forall i, j :: 0 <= i < j < |xs| ==> key(xs[i]) != key(xs[j])
  }

  /** No two different entries share a key. */
  predicate KeyDetermines<T(==,!new)>(key: T -> string, xs: seq<T>) {
    forall i, j :: 0 <= i < |xs| && 0 <= j < |xs| && key(xs[i]) == key(xs[j]) ==> xs[i] == xs[j]
  }

  /** The wanted entries that are still to be appended, in their order. */
  function Missing<T(==,!new)>(present: seq<T>, wanted: seq<T>): seq<T>
    decreases |wanted|
  {
    if wanted == [] then []
    else if wanted[0] in present then Missing(present, wanted[1..])
    else [wanted[0]] + Missing(present + [wanted[0]], wanted[1..])
  }

  /** Only membership in `present` matters. */
  lemma {:induction false} MissingByMembership<T(!new)>(a: seq<T>, b: seq<T>, wanted: seq<T>)
    requires forall x :: x in a <==> x in b
    ensures Missing(a, wanted) == Missing(b, wanted)
    decreases |wanted|
  {
    if wanted == [] {
    } else if wanted[0] in a {
      MissingByMembership(a, b, wanted[1..]);
    } else {
      forall x ensures x in a + [wanted[0]] <==> x in b + [wanted[0]] { }
      MissingByMembership(a + [wanted[0]], b + [wanted[0]], wanted[1..]);
    }
  }

  /** The result holds the old entries, every wanted one, and nothing else. */
  lemma {:induction false} MissingMembers<T(!new)>(present: seq<T>, wanted: seq<T>)
    ensures forall x :: x in Missing(present, wanted) <==> x in wanted && x !in present
    decreases |wanted|
  {
    if wanted != [] {
      var next := if wanted[0] in present then present else present + [wanted[0]];
      MissingMembers(next, wanted[1..]);
      forall x ensures x in wanted <==> x == wanted[0] || x in wanted[1..] {
        assert wanted == [wanted[0]] + wanted[1..];
      }
    }
  }

  /** Appending the missing entries keeps keys unique. */
  lemma {:induction false} MissingKeepsDistinct<T(!new)>(key: T -> string, present: seq<T>, wanted: seq<T>)
    requires DistinctBy(key, present) && KeyDetermines(key, present + wanted)
    ensures DistinctBy(key, present + Missing(present, wanted))
    decreases |wanted|
  {
    if wanted == [] {
      assert present + [] == present;
    } else {
      var w := wanted[0];
      if w in present {
        SubDetermines(key, present + wanted[1..], present + wanted);
        MissingKeepsDistinct(key, present, wanted[1..]);
      } else {
        var next := present + [w];
        NewKey(key, present, w, wanted);
        assert next + wanted[1..] == present + wanted by { assert wanted == [w] + wanted[1..]; }
        MissingKeepsDistinct(key, next, wanted[1..]);
        Assoc(present, [w], Missing(next, wanted[1..]));
      }
    }
  }

  lemma Assoc<T>(a: seq<T>, b: seq<T>, c: seq<T>)
    ensures (a + b) + c == a + (b + c)
  {
  }

  lemma NewKey<T(!new)>(key: T -> string, present: seq<T>, w: T, wanted: seq<T>)
    requires DistinctBy(key, present) && KeyDetermines(key, present + wanted)
    requires wanted != [] && wanted[0] == w && w !in present
    ensures DistinctBy(key, present + [w])
  {
    var all := present + wanted;
    assert all[|present|] == w;
    forall i | 0 <= i < |present| ensures key(present[i]) != key(w) {
      assert all[i] == present[i];
      assert present[i] in present;
    }
  }

  lemma SubDetermines<T(!new)>(key: T -> string, xs: seq<T>, all: seq<T>)
    requires KeyDetermines(key, all) && forall x :: x in xs ==> x in all
    ensures KeyDetermines(key, xs)
  {
    forall i, j | 0 <= i < |xs| && 0 <= j < |xs| && key(xs[i]) == key(xs[j]) ensures xs[i] == xs[j] {
      assert xs[i] in all && xs[j] in all;
    }
  }

  lemma {:induction false} NothingMissing<T(!new)>(present: seq<T>, wanted: seq<T>)
    requires forall x :: x in wanted ==> x in present
    ensures Missing(present, wanted) == []
    decreases |wanted|
  {
    if wanted != [] {
      assert wanted[0] in wanted;
      NothingMissing(present, wanted[1..]);
    }
  }

  /** Once appended, nothing is missing any more, and no conflict has appeared. */
  lemma MissingIsIdempotent<T(!new)>(key: T -> string, present: seq<T>, wanted: seq<T>)
    requires KeyDetermines(key, present + wanted)
    ensures Missing(present + Missing(present, wanted), wanted) == []
    ensures KeyDetermines(key, present + Missing(present, wanted) + wanted)
  {
    MissingMembers(present, wanted);
    var added := Missing(present, wanted);
    var after := present + added;
    forall x ensures x in after <==> x in present || x in added { }
    NothingMissing(after, wanted);
    forall x | x in after + wanted ensures x in present + wanted {
      assert x in after || x in wanted;
    }
    SubDetermines(key, after + wanted, present + wanted);
  }

  /** A differing entry under a wanted key is a conflict. */
  lemma ConflictSeen<T(!new)>(key: T -> string, x: T, w: T, present: seq<T>, wanted: seq<T>)
    requires key(x) == key(w) && x != w && w in wanted && (x in present || x in wanted)
    ensures !KeyDetermines(key, present + wanted)
  {
    var all := present + wanted;
    assert x in all && w in all;
    var i :| 0 <= i < |all| && all[i] == x;
    var j :| 0 <= j < |all| && all[j] == w;
    assert key(all[i]) == key(all[j]) && all[i] != all[j];
  }

  // ---------------------------------------------------------------------
  // The scan: a map records the keys seen so far
  // ---------------------------------------------------------------------

  /** `seen` holds exactly the keys of `xs`, each with what `val` extracts from its entry. */
  ghost predicate Records<T, V>(key: T -> string, val: T -> V, seen: map<string, V>, xs: seq<T>) {
    (forall i :: 0 <= i < |xs| ==> key(xs[i]) in seen && seen[key(xs[i])] == val(xs[i]))
    && (forall n :: n in seen.Keys ==> KeyUsed(key, xs, n))
  }

  ghost predicate KeyUsed<T>(key: T -> string, xs: seq<T>, n: string) {
    exists i :: 0 <= i < |xs| && key(xs[i]) == n
  }

  lemma RecordsAppend<T, V>(key: T -> string, val: T -> V, seen: map<string, V>, xs: seq<T>, x: T)
    requires Records(key, val, seen, xs) && DistinctBy(key, xs) && key(x) !in seen
    ensures Records(key, val, seen[key(x) := val(x)], xs + [x]) && DistinctBy(key, xs + [x])
  {
    var more := xs + [x];
    forall n | n in seen[key(x) := val(x)].Keys ensures KeyUsed(key, more, n) {
      if n == key(x) {
        assert more[|xs|] == x;
      } else {
        assert KeyUsed(key, xs, n);
        var i :| 0 <= i < |xs| && key(xs[i]) == n;
        assert more[i] == xs[i];
      }
    }
  }

  lemma RecordsAppendPrefix<T, V>(key: T -> string, val: T -> V, seen: map<string, V>, xs: seq<T>, i: nat)
    requires i < |xs| && Records(key, val, seen, xs[..i]) && DistinctBy(key, xs[..i]) && key(xs[i]) !in seen
    ensures Records(key, val, seen[key(xs[i]) := val(xs[i])], xs[..i + 1]) && DistinctBy(key, xs[..i + 1])
  {
    RecordsAppend(key, val, seen, xs[..i], xs[i]);
    assert xs[..i + 1] == xs[..i] + [xs[i]];
  }

  lemma RepeatedKey<T, V>(key: T -> string, val: T -> V, seen: map<string, V>, xs: seq<T>, i: nat)
    requires i < |xs| && Records(key, val, seen, xs[..i]) && key(xs[i]) in seen
    ensures !DistinctBy(key, xs)
  {
    assert KeyUsed(key, xs[..i], key(xs[i]));
    var k :| 0 <= k < |xs[..i]| && key(xs[..i][k]) == key(xs[i]);
    assert key(xs[k]) == key(xs[i]);
  }

  // ---------------------------------------------------------------------
  // The appending loop
  // ---------------------------------------------------------------------

  /** After the first `j` wanted entries, `current` is on its way from `original` to the final list. */
  ghost predicate Underway<T(!new)>(key: T -> string, current: seq<T>, original: seq<T>, wanted: seq<T>, j: nat)
    requires j <= |wanted|
  {
    DistinctBy(key, current)
    && current + Missing(current, wanted[j..]) == original + Missing(original, wanted)
    && (forall x :: x in current ==> x in original || x in wanted)
    && (forall x :: x in original || x in wanted[..j] ==> x in current)
  }

  lemma UnderwayStart<T(!new)>(key: T -> string, original: seq<T>, wanted: seq<T>)
    requires DistinctBy(key, original)
    ensures Underway(key, original, original, wanted, 0)
  {
    assert wanted[0..] == wanted;
  }

  lemma UnderwaySkip<T(!new)>(key: T -> string, current: seq<T>, original: seq<T>, wanted: seq<T>, j: nat)
    requires j < |wanted| && Underway(key, current, original, wanted, j) && wanted[j] in current
    ensures Underway(key, current, original, wanted, j + 1)
  {
    assert wanted[j..][1..] == wanted[j + 1..];
    assert wanted[..j + 1] == wanted[..j] + [wanted[j]];
  }

  lemma UnderwayAppend<T(!new)>(key: T -> string, current: seq<T>, original: seq<T>, wanted: seq<T>, j: nat)
    requires j < |wanted| && Underway(key, current, original, wanted, j) && wanted[j] !in current
    requires DistinctBy(key, current + [wanted[j]])
    ensures Underway(key, current + [wanted[j]], original, wanted, j + 1)
    ensures |current| < |original + Missing(original, wanted)|
  {
    var w := wanted[j];
    assert wanted[j..][1..] == wanted[j + 1..];
    assert wanted[..j + 1] == wanted[..j] + [w];
    Assoc(current, [w], Missing(current + [w], wanted[j + 1..]));
  }

  /** A wanted entry whose key is taken: it is there already, or it is a conflict. */
  lemma StepTaken<T(!new), V>(
    key: T -> string, val: T -> V, seen: map<string, V>, current: seq<T>, original: seq<T>, wanted: seq<T>, j: nat)
    requires j < |wanted| && Underway(key, current, original, wanted, j) && Records(key, val, seen, current)
    requires forall i ::
      0 <= i < |current| && key(current[i]) == key(wanted[j]) && val(current[i]) == val(wanted[j]) ==>
        current[i] == wanted[j]
    requires key(wanted[j]) in seen
    ensures seen[key(wanted[j])] == val(wanted[j]) ==> Underway(key, current, original, wanted, j + 1)
    ensures seen[key(wanted[j])] != val(wanted[j]) ==> !KeyDetermines(key, original + wanted)
  {
    var w := wanted[j];
    assert w in wanted && KeyUsed(key, current, key(w));
    var k :| 0 <= k < |current| && key(current[k]) == key(w);
    assert current[k] in current;
    if seen[key(w)] == val(w) {
      UnderwaySkip(key, current, original, wanted, j);
    } else {
      ConflictSeen(key, current[k], w, original, wanted);
    }
  }

  /** A wanted entry whose key is free is appended. */
  lemma StepFree<T(!new), V>(
    key: T -> string, val: T -> V, seen: map<string, V>, current: seq<T>, original: seq<T>, wanted: seq<T>, j: nat)
    requires j < |wanted| && Underway(key, current, original, wanted, j) && Records(key, val, seen, current)
    requires key(wanted[j]) !in seen
    ensures Records(key, val, seen[key(wanted[j]) := val(wanted[j])], current + [wanted[j]])
    ensures Underway(key, current + [wanted[j]], original, wanted, j + 1)
    ensures |current| < |original + Missing(original, wanted)|
  {
    RecordsAppend(key, val, seen, current, wanted[j]);
    UnderwayAppend(key, current, original, wanted, j);
  }

  /** At the end the list is complete, and its uniqueness shows that there was no conflict to begin with. */
  lemma UnderwayEnd<T(!new)>(key: T -> string, current: seq<T>, original: seq<T>, wanted: seq<T>)
    requires Underway(key, current, original, wanted, |wanted|)
    ensures current == original + Missing(original, wanted)
    ensures KeyDetermines(key, original + wanted)
  {
    assert wanted[|wanted|..] == [] && wanted[..|wanted|] == wanted;
    assert KeyDetermines(key, current);
    forall x | x in original + wanted ensures x in current {
      assert x in original || x in wanted;
    }
    SubDetermines(key, original + wanted, current);
  }
}
