/** Optional values and results that may be an error, and small notions that several modules share. */
module Wrappers {

  datatype Option<+T> = None | Some(value: T)

  datatype Result<+T> = Ok(value: T) | Err

  predicate Distinct<T(==)>(xs: seq<T>) {
    forall i, j :: 0 <= i < j < |xs| ==> xs[i] != xs[j]
  }

  type Byte = b: int | 0 <= b < 256
  type Bytes = seq<Byte>

  predicate IsDigit(c: char) { '0' <= c <= '9' }

  function Least(a: nat, b: nat): nat { if a < b then a else b }

  /** The index of the first `x`, or the length. */
  function IndexOf<T(==)>(s: seq<T>, x: T): (n: nat)
    ensures n <= |s| && (forall i :: 0 <= i < n ==> s[i] != x) && (n < |s| ==> s[n] == x)
  {
    if s == [] || s[0] == x then 0 else 1 + IndexOf(s[1..], x)
  }

  function Find<K, V>(m: map<K, V>, key: K): Option<V> {
    if key in m then Some(m[key]) else None
  }

  /** Maps that answer every lookup alike are equal. */
  lemma SameEntries<K(!new), V>(c: map<K, V>, d: map<K, V>)
    requires forall key :: Find(c, key) == Find(d, key)
    ensures c == d
  {
    forall key ensures key in c <==> key in d {
      assert Find(c, key) == Find(d, key);
    }
    forall key | key in c ensures c[key] == d[key] {
      assert Find(c, key) == Find(d, key);
    }
  }
}
