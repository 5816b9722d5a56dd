/** Small generic building blocks shared by the table model: optional values,
    results with an error, order-preserving filtering of a table and
    "no two rows share a key" (the shape of every UNIQUE / PRIMARY KEY column). */
module Common {

  datatype Option<+T> = None | Some(value: T)

  datatype Result<+T, +E> = Ok(value: T) | Err(error: E)

  /** The rows of `s` that satisfy `keep`, in their original order
      (a `WHERE` clause over a table). */
  function Filter<T(!new)>(s: seq<T>, keep: T -> bool): (r: seq<T>)
    ensures |r| <= |s|
    ensures forall x :: x in r <==> x in s && keep(x)
    decreases |s|
  {
    if s == [] then []
    else
      var init := Filter(s[..|s| - 1], keep);
      if keep(s[|s| - 1]) then init + [s[|s| - 1]] else init
  }

  /** No two rows of `s` carry the same `key`. */
  predicate DistinctBy<T, K(==)>(s: seq<T>, key: T -> K) {
    forall i, j :: 0 <= i < j < |s| ==> key(s[i]) != key(s[j])
  }

  /** Filtering one more row of a prefix appends it exactly when it is kept. */
  lemma FilterStep<T(!new)>(s: seq<T>, keep: T -> bool, i: nat)
    requires i < |s|
    ensures Filter(s[..i + 1], keep) == if keep(s[i]) then Filter(s[..i], keep) + [s[i]] else Filter(s[..i], keep)
  {
    assert s[..i + 1][..i] == s[..i];
  }

  /** Dropping rows never creates a clash on a unique key. */
  lemma {:induction false} FilterKeepsDistinct<T(!new), K>(s: seq<T>, keep: T -> bool, key: T -> K)
    requires DistinctBy(s, key)
    ensures DistinctBy(Filter(s, keep), key)
    decreases |s|
  {
    if s != [] {
      var init := s[..|s| - 1];
      var last := s[|s| - 1];
      assert DistinctBy(init, key) by {
        forall i, j | 0 <= i < j < |init| ensures key(init[i]) != key(init[j]) {
          assert init[i] == s[i] && init[j] == s[j];
        }
      }
      FilterKeepsDistinct(init, keep, key);
      var r := Filter(init, keep);
      if keep(last) {
        forall i | 0 <= i < |r| ensures key(r[i]) != key(last) {
          assert r[i] in init;
          var k :| 0 <= k < |init| && init[k] == r[i];
          assert s[k] == r[i];
        }
        var r' := r + [last];
        forall i, j | 0 <= i < j < |r'| ensures key(r'[i]) != key(r'[j]) {
          if j < |r| {
            assert r'[i] == r[i] && r'[j] == r[j];
          } else {
            assert r'[i] == r[i] && r'[j] == last;
          }
        }
      }
    }
  }

  /** A table splits into the rows a condition keeps and the rows its
      negation keeps: deleting "all rows where p" leaves `|s| - |Filter(s, p)|` rows. */
  lemma {:induction false} FilterSplit<T(!new)>(s: seq<T>, p: T -> bool, q: T -> bool)
    requires forall x :: q(x) == !p(x)
    ensures |Filter(s, p)| + |Filter(s, q)| == |s|
    decreases |s|
  {
    if s != [] {
      FilterSplit(s[..|s| - 1], p, q);
    }
  }

  /** Filtering keeps every kept row as often as it occurs and drops every other row. */
  lemma {:induction false} FilterMultiset<T(!new)>(s: seq<T>, keep: T -> bool, x: T)
    ensures multiset(Filter(s, keep))[x] == if keep(x) then multiset(s)[x] else 0
    decreases |s|
  {
    if s != [] {
      var init := s[..|s| - 1];
      var last := s[|s| - 1];
      FilterMultiset(init, keep, x);
      assert s == init + [last];
    }
  }

  /** Appending a row whose key is new keeps the key unique. */
  lemma AppendKeepsDistinct<T, K>(s: seq<T>, x: T, key: T -> K)
    requires DistinctBy(s, key)
    requires forall i :: 0 <= i < |s| ==> key(s[i]) != key(x)
    ensures DistinctBy(s + [x], key)
  {
    var s' := s + [x];
    forall i, j | 0 <= i < j < |s'| ensures key(s'[i]) != key(s'[j]) {
      assert s'[i] == s[i];
      if j < |s| { assert s'[j] == s[j]; }
    }
  }

  /** Under a unique key, the key identifies the row. */
  lemma DistinctKeyIdentifies<T, K>(s: seq<T>, key: T -> K, x: T, y: T)
    requires DistinctBy(s, key)
    requires x in s && y in s && key(x) == key(y)
    ensures x == y
  {
    var i :| 0 <= i < |s| && s[i] == x;
    var j :| 0 <= j < |s| && s[j] == y;
  }
}
