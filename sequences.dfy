/** Row filtering (the WHERE clause of a DELETE or SELECT) and the
    ascending-key order in which the tables keep their rows. */
module Sequences {

  /** The elements of `s` that satisfy `keep`, in their original order. */
  function Filter<T(==,!new)>(s: seq<T>, keep: T -> bool): (r: seq<T>)
    ensures |r| <= |s|
    ensures forall x :: x in r <==> x in s && keep(x)
  {
    if s == [] then [] else (if keep(s[0]) then [s[0]] else []) + Filter(s[1..], keep)
  }

  /** Filtering a sequence that grows at the end: what loops over rows need. */
  lemma {:induction false} FilterAppend<T(!new)>(s: seq<T>, x: T, keep: T -> bool)
    ensures Filter(s + [x], keep) == Filter(s, keep) + (if keep(x) then [x] else [])
  {
    if s == [] {
      assert [x][1..] == [];
    } else {
      assert (s + [x])[0] == s[0];
      assert (s + [x])[1..] == s[1..] + [x];
      FilterAppend(s[1..], x, keep);
    }
  }

  /** A filter that rejects nothing returns its input. */
  lemma {:induction false} FilterKeepsAll<T(!new)>(s: seq<T>, keep: T -> bool)
    requires forall x :: x in s ==> keep(x)
    ensures Filter(s, keep) == s
  {
    if s != [] {
      FilterKeepsAll(s[1..], keep);
    }
  }

  /** Filters that agree on every element of `s` select the same rows. */
  lemma {:induction false} FilterCongruent<T(!new)>(s: seq<T>, f: T -> bool, g: T -> bool)
    requires forall x :: x in s ==> f(x) == g(x)
    ensures Filter(s, f) == Filter(s, g)
  {
    if s != [] {
      FilterCongruent(s[1..], f, g);
    }
  }

  /** Filtering twice is filtering once by the conjunction. */
  lemma {:induction false} FilterTwice<T(!new)>(s: seq<T>, f: T -> bool, g: T -> bool, both: T -> bool)
    requires forall x :: x in s ==> both(x) == (f(x) && g(x))
    ensures Filter(Filter(s, f), g) == Filter(s, both)
  {
    if s != [] {
      FilterTwice(s[1..], f, g, both);
      if f(s[0]) {
        assert Filter(s, f) == [s[0]] + Filter(s[1..], f);
        assert Filter(s, f)[0] == s[0] && Filter(s, f)[1..] == Filter(s[1..], f);
      } else {
        assert Filter(s, f) == Filter(s[1..], f);
      }
    }
  }

  /** Every element of `s` stands in `rel` to every element after it. */
  ghost predicate Pairwise<T>(s: seq<T>, rel: (T, T) -> bool)
  {
    forall i, j :: 0 <= i < j < |s| ==> rel(s[i], s[j])
  }

  function KeyBefore<T>(key: T -> int): (T, T) -> bool
  {
    (a, b) => key(a) < key(b)
  }

  /** The keys of `s` strictly increase from left to right. */
  ghost predicate StrictlyIncreasing<T>(s: seq<T>, key: T -> int)
  {
    Pairwise(s, KeyBefore(key))
  }

  /** The keys of `s`, as a set. */
  function KeySet<T(==,!new)>(s: seq<T>, key: T -> int): (ks: set<int>)
    ensures forall x :: x in s ==> key(x) in ks
    ensures forall k :: k in ks ==> exists x :: x in s && key(x) == k
  {
    set x | x in s :: key(x)
  }

  /** Deleting rows keeps every pairwise relation among the remaining ones. */
  lemma {:induction false} FilterKeepsPairwise<T(!new)>(s: seq<T>, keep: T -> bool, rel: (T, T) -> bool)
    requires Pairwise(s, rel)
    ensures Pairwise(Filter(s, keep), rel)
  {
    if s != [] {
      var rest := Filter(s[1..], keep);
      assert Pairwise(s[1..], rel) by {
        forall i, j | 0 <= i < j < |s[1..]|
          ensures rel(s[1..][i], s[1..][j])
        {
          assert s[1..][i] == s[i + 1] && s[1..][j] == s[j + 1];
        }
      }
      FilterKeepsPairwise(s[1..], keep, rel);
      forall x | x in rest
        ensures rel(s[0], x)
      {
        var j :| 0 <= j < |s[1..]| && s[1..][j] == x;
        assert s[j + 1] == x;
      }
      var r := Filter(s, keep);
      if keep(s[0]) {
        assert r == [s[0]] + rest;
        forall i, j | 0 <= i < j < |r|
          ensures rel(r[i], r[j])
        {
          if i == 0 {
            assert r[j] == rest[j - 1];
            assert rest[j - 1] in rest;
          } else {
            assert r[i] == rest[i - 1] && r[j] == rest[j - 1];
          }
        }
      } else {
        assert r == rest;
      }
    }
  }

  /** Appending an element that every present element stands in `rel` to keeps the relation. */
  lemma AppendKeepsPairwise<T>(s: seq<T>, x: T, rel: (T, T) -> bool)
    requires Pairwise(s, rel)
    requires forall y :: y in s ==> rel(y, x)
    ensures Pairwise(s + [x], rel)
  {
    var r := s + [x];
    forall i, j | 0 <= i < j < |r|
      ensures rel(r[i], r[j])
    {
      if j == |s| {
        assert r[i] == s[i] && s[i] in s;
      } else {
        assert r[i] == s[i] && r[j] == s[j];
      }
    }
  }

  /** Putting in front an element that stands in `rel` to every element keeps the relation. */
  lemma ConsKeepsPairwise<T>(x: T, s: seq<T>, rel: (T, T) -> bool)
    requires Pairwise(s, rel)
    requires forall y :: y in s ==> rel(x, y)
    ensures Pairwise([x] + s, rel)
  {
    var r := [x] + s;
    forall i, j | 0 <= i < j < |r|
      ensures rel(r[i], r[j])
    {
      if i == 0 {
        assert r[j] == s[j - 1] && s[j - 1] in s;
      } else {
        assert r[i] == s[i - 1] && r[j] == s[j - 1];
      }
    }
  }

  /** The first element stands in `rel` to the rest, and the rest keep the relation. */
  lemma TailKeepsPairwise<T>(s: seq<T>, rel: (T, T) -> bool)
    requires s != [] && Pairwise(s, rel)
    ensures Pairwise(s[1..], rel)
    ensures forall y :: y in s[1..] ==> rel(s[0], y)
  {
    var tail := s[1..];
    forall i, j | 0 <= i < j < |tail|
      ensures rel(tail[i], tail[j])
    {
      assert tail[i] == s[i + 1] && tail[j] == s[j + 1];
    }
    forall y | y in tail
      ensures rel(s[0], y)
    {
      var k :| 0 <= k < |tail| && tail[k] == y;
      assert s[k + 1] == y;
    }
  }

  /** Overwriting one element with `x`, which stands in `rel` to its new neighbours on either side, keeps the relation. */
  lemma UpdateKeepsPairwise<T>(s: seq<T>, k: int, x: T, rel: (T, T) -> bool)
    requires 0 <= k < |s|
    requires Pairwise(s, rel)
    requires forall i :: 0 <= i < k ==> rel(s[i], x)
    requires forall i :: k < i < |s| ==> rel(x, s[i])
    ensures Pairwise(s[k := x], rel)
  {
  }

  /** The position of the first element whose key is `k`, or -1 when there is none. */
  function IndexOfKey<T>(s: seq<T>, key: T -> int, k: int): (i: int)
    ensures -1 <= i < |s|
    ensures 0 <= i ==> key(s[i]) == k && forall j :: 0 <= j < i ==> key(s[j]) != k
    ensures i == -1 <==> forall j :: 0 <= j < |s| ==> key(s[j]) != k
  {
    if s == [] then -1
    else if key(s[0]) == k then 0
    else
      var i := IndexOfKey(s[1..], key, k);
      if i == -1 then -1 else i + 1
  }

  /** The row keyed `k`: what a JOIN on a primary key finds. */
  function RowWithKey<T(==,!new)>(rows: seq<T>, key: T -> int, k: int): (x: T)
    requires k in KeySet(rows, key)
    ensures x in rows && key(x) == k
  {
    var i := IndexOfKey(rows, key, k);
    assert i != -1 by {
      var y :| y in rows && key(y) == k;
      var j :| 0 <= j < |rows| && rows[j] == y;
    }
    rows[i]
  }
}
