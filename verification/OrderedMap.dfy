/**
 JavaScript's `Map`: entries keep the order in which their keys were first set;
 setting an existing key keeps its place, deleting and setting again moves it last.
 */
module OrderedMap {
  import opened Options

  type Entries<K, V> = seq<(K, V)>

  function Get<K(==), V>(m: Entries<K, V>, k: K): Option<V> {
    if m == [] then None else if m[0].0 == k then Some(m[0].1) else Get(m[1..], k)
  }

  function Set<K(==), V>(m: Entries<K, V>, k: K, v: V): Entries<K, V> {
    if m == [] then [(k, v)]
    else if m[0].0 == k then [(k, v)] + m[1..]
    else [m[0]] + Set(m[1..], k, v)
  }

  function Delete<K(==), V>(m: Entries<K, V>, k: K): Entries<K, V> {
    if m == [] then [] else if m[0].0 == k then m[1..] else [m[0]] + Delete(m[1..], k)
  }

  /** `new Map(pairs)`: of two pairs with one key the later value wins. */
  function FromPairs<K(==), V>(pairs: seq<(K, V)>): Entries<K, V> {
    if pairs == [] then []
    else
      var last := pairs[|pairs| - 1];
      Set(FromPairs(pairs[..|pairs| - 1]), last.0, last.1)
  }

  function Values<K, V>(m: Entries<K, V>): (r: seq<V>)
    ensures |r| == |m|
    ensures forall i :: 0 <= i < |m| ==> r[i] == m[i].1
  {
    if m == [] then [] else [m[0].1] + Values(m[1..])
  }

  lemma {:induction false} SetFreshAppends<K, V>(m: Entries<K, V>, k: K, v: V)
    requires forall i :: 0 <= i < |m| ==> m[i].0 != k
    ensures Set(m, k, v) == m + [(k, v)]
  {
    if m != [] {
      SetFreshAppends(m[1..], k, v);
    }
  }

  ghost predicate Unique<K, V>(m: Entries<K, V>) {
    forall i, j :: 0 <= i < j < |m| ==> m[i].0 != m[j].0
  }

  lemma {:induction false} GetFinds<K, V>(m: Entries<K, V>, k: K)
    ensures Get(m, k).Some? <==> exists i :: 0 <= i < |m| && m[i].0 == k
    ensures Get(m, k).Some? ==> (k, Get(m, k).value) in m
  {
    if m != [] {
      GetFinds(m[1..], k);
      assert m == [m[0]] + m[1..];
      if m[0].0 != k && Get(m, k).Some? {
        var i :| 0 <= i < |m[1..]| && m[1..][i].0 == k;
        assert m[i + 1].0 == k;
      }
    }
  }

  lemma {:induction false} GetAt<K, V>(m: Entries<K, V>, i: nat)
    requires Unique(m) && i < |m|
    ensures Get(m, m[i].0) == Some(m[i].1)
  {
    if i > 0 {
      GetAt(m[1..], i - 1);
    }
  }

  /** Deleting removes the key and nothing else. */
  lemma {:induction false} DeleteMeans<K(!new), V>(m: Entries<K, V>, k: K)
    requires Unique(m)
    ensures Unique(Delete(m, k)) && forall i :: 0 <= i < |Delete(m, k)| ==> Delete(m, k)[i].0 != k
    ensures forall i :: 0 <= i < |Delete(m, k)| ==> Delete(m, k)[i] in m
    ensures forall j :: Get(Delete(m, k), j) == if j == k then None else Get(m, j)
    ensures |Delete(m, k)| == |m| - if Get(m, k).Some? then 1 else 0
  {
    if m != [] {
      DeleteMeans(m[1..], k);
      assert m == [m[0]] + m[1..];
      if m[0].0 == k {
        forall i | 0 <= i < |m[1..]| ensures m[1..][i].0 != k {
          assert m[i + 1].0 != m[0].0;
        }
        GetFinds(m[1..], k);
      } else {
        var rest := Delete(m[1..], k);
        forall i | 0 <= i < |rest| ensures rest[i].0 != m[0].0 {
          assert rest[i] in m[1..];
          var j :| 0 <= j < |m[1..]| && m[1..][j] == rest[i];
          assert m[j + 1].0 != m[0].0;
        }
      }
    }
  }

  /** Setting changes the value of one key and keeps every other. */
  lemma {:induction false} SetMeans<K(!new), V>(m: Entries<K, V>, k: K, v: V)
    requires Unique(m)
    ensures Unique(Set(m, k, v))
    ensures forall j :: Get(Set(m, k, v), j) == if j == k then Some(v) else Get(m, j)
    ensures forall i :: 0 <= i < |Set(m, k, v)| ==> Set(m, k, v)[i].0 == k || Set(m, k, v)[i] in m
    ensures |Set(m, k, v)| == |m| + if Get(m, k).Some? then 0 else 1
  {
    if m != [] {
      SetMeans(m[1..], k, v);
      assert m == [m[0]] + m[1..];
      if m[0].0 != k {
        var rest := Set(m[1..], k, v);
        forall i | 0 <= i < |rest| ensures rest[i].0 != m[0].0 {
          if rest[i].0 != k {
            var j :| 0 <= j < |m[1..]| && m[1..][j] == rest[i];
            assert m[j + 1].0 != m[0].0;
          }
        }
      }
    }
  }

  /** A key that is there keeps its place. */
  lemma {:induction false} SetInPlace<K, V>(m: Entries<K, V>, k: K, v: V)
    requires Unique(m) && Get(m, k).Some?
    ensures |Set(m, k, v)| == |m|
    ensures forall i :: 0 <= i < |m| ==> Set(m, k, v)[i] == if m[i].0 == k then (k, v) else m[i]
  {
    if m[0].0 == k {
      forall i | 0 < i < |m| ensures m[i].0 != k {
        assert m[0].0 != m[i].0;
      }
    } else {
      SetInPlace(m[1..], k, v);
    }
  }

  /** The keys stand in ascending order of their rank. */
  ghost predicate InOrder<K(!new), V>(m: Entries<K, V>, rank: K -> int) {
    forall i, j :: 0 <= i < j < |m| ==> rank(m[i].0) < rank(m[j].0)
  }

  lemma {:induction false} DeletedAreThere<K, V>(m: Entries<K, V>, k: K)
    ensures forall i :: 0 <= i < |Delete(m, k)| ==> Delete(m, k)[i] in m
  {
    if m != [] {
      DeletedAreThere(m[1..], k);
      assert m == [m[0]] + m[1..];
    }
  }

  /** Deleting leaves the others in their order. */
  lemma {:induction false} DeleteInOrder<K(!new), V>(m: Entries<K, V>, k: K, rank: K -> int)
    requires InOrder(m, rank)
    ensures InOrder(Delete(m, k), rank)
  {
    if m != [] {
      DeleteInOrder(m[1..], k, rank);
      DeletedAreThere(m[1..], k);
      var rest := Delete(m[1..], k);
      forall i | 0 <= i < |rest| ensures rank(m[0].0) < rank(rest[i].0) {
        var j :| 0 <= j < |m[1..]| && m[1..][j] == rest[i];
        assert m[j + 1] == rest[i];
      }
    }
  }
}
