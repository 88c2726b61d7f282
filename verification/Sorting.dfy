/**
 The two sorts the program relies on: the ascending keys of a Python mapping,
 and a stable sort by a numeric key (the order `Array.prototype.sort` promises).
 */
module Sorting {

  ghost predicate Ascending(s: seq<int>) {
    forall i, j :: 0 <= i < j < |s| ==> s[i] < s[j]
  }

  predicate IsLeast(s: set<int>, m: int) {
    m in s && forall k :: k in s ==> m <= k
  }

  lemma Inhabited(s: set<int>) returns (x: int)
    requires s != {}
    ensures x in s
  {
    assert (forall k :: k !in s) ==> s == {};
    x :| x in s;
  }

  lemma {:induction false} Least(s: set<int>) returns (m: int)
    requires s != {}
    ensures IsLeast(s, m)
  {
    var x := Inhabited(s);
    m := x;
    if s - {x} != {} {
      var rest := Least(s - {x});
      assert forall k :: k in s ==> k == x || k in s - {x};
      m := if rest < x then rest else x;
    } else {
      assert forall k :: k in s ==> k == x || k in s - {x};
    }
  }

  lemma LeastExists(s: set<int>)
    requires s != {}
    ensures exists m :: IsLeast(s, m)
  {
    var m := Least(s);
  }

  lemma PrependLeast(s: set<int>, m: int, rest: seq<int>)
    requires IsLeast(s, m) && |rest| == |s - {m}| && Ascending(rest)
    requires forall i :: 0 <= i < |rest| ==> rest[i] in s - {m}
    requires forall x :: x in s - {m} ==> x in rest
    ensures |[m] + rest| == |s| && Ascending([m] + rest)
    ensures forall i :: 0 <= i < |[m] + rest| ==> ([m] + rest)[i] in s
    ensures forall x :: x in s ==> x in [m] + rest
  {
    forall i | 0 <= i < |rest| ensures m < rest[i] {
      assert rest[i] in s - {m};
    }
    forall x | x in s ensures x in [m] + rest {
      assert x == m || x in s - {m};
    }
  }

  /** The elements of `s` in ascending order. */
  function SortedKeys(s: set<int>): (r: seq<int>)
    ensures |r| == |s|
    ensures forall i :: 0 <= i < |r| ==> r[i] in s
    ensures forall x :: x in s ==> x in r
    ensures Ascending(r)
  {
    if s == {} then []
    else
      LeastExists(s);
      var m :| m in s && IsLeast(s, m);
      var rest := SortedKeys(s - {m});
      PrependLeast(s, m, rest);
      [m] + rest
  }

  /** There is only one ascending listing of a set. */
  lemma {:induction false} AscendingIsUnique(a: seq<int>, b: seq<int>)
    requires Ascending(a) && Ascending(b)
    requires forall x :: x in a <==> x in b
    ensures a == b
  {
    if a == [] {
      assert forall i :: 0 <= i < |b| ==> b[i] in b;
    } else {
      assert a[0] in b && b != [] && b[0] in a;
      assert a[0] == b[0];
      forall x ensures x in a[1..] <==> x in b[1..] {
        assert x in a[1..] <==> x in a && x != a[0];
        assert x in b[1..] <==> x in b && x != b[0];
      }
      AscendingIsUnique(a[1..], b[1..]);
    }
  }

  ghost predicate SortedBy<T>(s: seq<T>, key: T -> real) {
    forall i, j :: 0 <= i < j < |s| ==> key(s[i]) <= key(s[j])
  }

  ghost predicate DistinctKeys<T>(s: seq<T>, key: T -> real) {
    forall i, j :: 0 <= i < j < |s| ==> key(s[i]) != key(s[j])
  }

  /** Places `x` after every element whose key is not larger. */
  function Insert<T>(s: seq<T>, x: T, key: T -> real): (r: seq<T>)
    ensures |r| == |s| + 1
    ensures multiset(r) == multiset(s) + multiset{x}
  {
    if s == [] then [x]
    else if key(s[|s| - 1]) <= key(x) then s + [x]
    else
      assert s == s[..|s| - 1] + [s[|s| - 1]];
      Insert(s[..|s| - 1], x, key) + [s[|s| - 1]]
  }

  function StableSort<T>(s: seq<T>, key: T -> real): (r: seq<T>)
    ensures |r| == |s|
    ensures multiset(r) == multiset(s)
  {
    if s == [] then []
    else
      assert s == s[..|s| - 1] + [s[|s| - 1]];
      Insert(StableSort(s[..|s| - 1], key), s[|s| - 1], key)
  }

  lemma {:induction false} InsertSorted<T>(s: seq<T>, x: T, key: T -> real)
    requires SortedBy(s, key)
    ensures SortedBy(Insert(s, x, key), key)
  {
    if s != [] && !(key(s[|s| - 1]) <= key(x)) {
      var last := s[|s| - 1];
      var rest := Insert(s[..|s| - 1], x, key);
      InsertSorted(s[..|s| - 1], x, key);
      forall i | 0 <= i < |rest| ensures key(rest[i]) <= key(last) {
        assert rest[i] in multiset(rest);
        assert rest[i] in multiset(s[..|s| - 1]) || rest[i] == x;
      }
    }
  }

  lemma {:induction false} StableSortSorted<T>(s: seq<T>, key: T -> real)
    ensures SortedBy(StableSort(s, key), key)
  {
    if s != [] {
      StableSortSorted(s[..|s| - 1], key);
      InsertSorted(StableSort(s[..|s| - 1], key), s[|s| - 1], key);
    }
  }

  lemma SortedFront<T>(s: seq<T>, key: T -> real)
    requires SortedBy(s, key) && s != []
    ensures SortedBy(s[..|s| - 1], key)
    ensures |s| > 1 ==> key(s[|s| - 2]) <= key(s[|s| - 1])
  {
  }

  lemma InsertLast<T>(s: seq<T>, x: T, key: T -> real)
    requires s == [] || key(s[|s| - 1]) <= key(x)
    ensures Insert(s, x, key) == s + [x]
  {
  }

  /** A sorted sequence is left exactly as it is: the sort is stable. */
  lemma {:induction false} SortedIsFixed<T>(s: seq<T>, key: T -> real)
    requires SortedBy(s, key)
    ensures StableSort(s, key) == s
  {
    hide Insert, SortedBy;
    if s != [] {
      var front, last := s[..|s| - 1], s[|s| - 1];
      SortedFront(s, key);
      SortedIsFixed(front, key);
      InsertLast(front, last, key);
      assert s == front + [last];
    }
  }

  lemma StrictFromDistinct<T>(s: seq<T>, key: T -> real)
    requires SortedBy(s, key) && DistinctKeys(s, key)
    ensures forall i, j :: 0 <= i < j < |s| ==> key(s[i]) < key(s[j])
  {
  }

  /** With distinct keys the result depends only on which elements there are. */
  lemma {:induction false} SortedPermutationsAgree<T>(a: seq<T>, b: seq<T>, key: T -> real)
    requires multiset(a) == multiset(b)
    requires forall i, j :: 0 <= i < j < |a| ==> key(a[i]) < key(a[j])
    requires SortedBy(b, key)
    ensures a == b
  {
    assert |a| == |b| by { assert |multiset(a)| == |a| && |multiset(b)| == |b|; }
    if a != [] {
      HeadsAgree(a, b, key);
      TailsAgree(a, b);
      SortedPermutationsAgree(a[1..], b[1..], key);
      assert a == [a[0]] + a[1..] && b == [b[0]] + b[1..];
    }
  }

  lemma TailsAgree<T>(a: seq<T>, b: seq<T>)
    requires a != [] && b != [] && a[0] == b[0] && multiset(a) == multiset(b)
    ensures multiset(a[1..]) == multiset(b[1..])
  {
    assert a == [a[0]] + a[1..] && b == [b[0]] + b[1..];
    assert multiset(a[1..]) == multiset(a) - multiset{a[0]};
    assert multiset(b[1..]) == multiset(b) - multiset{b[0]};
  }

  lemma HeadsAgree<T>(a: seq<T>, b: seq<T>, key: T -> real)
    requires a != [] && b != [] && multiset(a) == multiset(b)
    requires forall i, j :: 0 <= i < j < |a| ==> key(a[i]) < key(a[j])
    requires SortedBy(b, key)
    ensures a[0] == b[0]
  {
    assert a[0] in multiset(b) && b[0] in multiset(a);
    var p :| 0 <= p < |b| && b[p] == a[0];
    var q :| 0 <= q < |a| && a[q] == b[0];
    assert key(b[0]) <= key(b[p]);
  }

  lemma DistinctTransfers<T>(a: seq<T>, b: seq<T>, key: T -> real)
    requires multiset(a) == multiset(b)
    requires DistinctKeys(a, key)
    ensures DistinctKeys(b, key)
  {
    forall i, j | 0 <= i < j < |b| ensures key(b[i]) != key(b[j]) {
      assert b == b[..i] + [b[i]] + b[i + 1..];
      assert b[j] in multiset(b[i + 1..]);
      AtMostOnce(a, b[i], key);
      assert multiset(b) == multiset(b[..i]) + multiset{b[i]} + multiset(b[i + 1..]);
      assert b[i] in multiset(a) && b[j] in multiset(a);
      var p :| 0 <= p < |a| && a[p] == b[i];
      var q :| 0 <= q < |a| && a[q] == b[j];
    }
  }

  lemma {:induction false} AtMostOnce<T>(a: seq<T>, x: T, key: T -> real)
    requires DistinctKeys(a, key)
    ensures multiset(a)[x] <= 1
  {
    if a != [] {
      assert a == [a[0]] + a[1..];
      AtMostOnce(a[1..], x, key);
      assert forall q :: 0 <= q < |a[1..]| ==> a[1..][q] == a[q + 1] && key(a[0]) != key(a[q + 1]);
      assert a[0] !in a[1..];
    }
  }

  /** Sorting two arrangements of the same elements with distinct keys gives one list. */
  lemma StableSortForgetsOrder<T>(a: seq<T>, b: seq<T>, key: T -> real)
    requires multiset(a) == multiset(b)
    requires DistinctKeys(a, key)
    ensures StableSort(a, key) == StableSort(b, key)
  {
    var sa, sb := StableSort(a, key), StableSort(b, key);
    StableSortSorted(a, key);
    StableSortSorted(b, key);
    DistinctTransfers(a, sa, key);
    StrictFromDistinct(sa, key);
    SortedPermutationsAgree(sa, sb, key);
  }
}
