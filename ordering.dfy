/** The orders that ORDER BY clauses impose: a comparator-driven insertion
    sort, and the binary (code-point) order on text columns. */
module Ordering {
  import opened Sequences

  /** `le(a, b)`: `a` may be listed before `b`. */
  ghost predicate TotalPreorder<T(!new)>(le: (T, T) -> bool)
  {
    && (forall a, b :: le(a, b) || le(b, a))
    && (forall a, b, c :: le(a, b) && le(b, c) ==> le(a, c))
  }

  /** Each element may be listed before every later one. */
  ghost predicate SortedBy<T>(s: seq<T>, le: (T, T) -> bool)
  {
    Pairwise(s, le)
  }

  /** Places `x` in front of the first element it may precede. */
  function Insert<T(==)>(x: T, s: seq<T>, le: (T, T) -> bool): (r: seq<T>)
    ensures multiset(r) == multiset(s) + multiset{x}
  {
    if s == [] || le(x, s[0]) then [x] + s
    else assert s == [s[0]] + s[1..]; [s[0]] + Insert(x, s[1..], le)
  }

  /** Insertion sort; elements that compare equal keep their relative order. */
  function SortBy<T(==)>(s: seq<T>, le: (T, T) -> bool): (r: seq<T>)
    ensures multiset(r) == multiset(s)
  {
    if s == [] then []
    else assert s == [s[0]] + s[1..]; Insert(s[0], SortBy(s[1..], le), le)
  }

  /** Every element of `Insert(x, s, le)` is `x` or an element of `s`. */
  lemma InsertedFrom<T>(x: T, s: seq<T>, le: (T, T) -> bool, y: T)
    requires y in Insert(x, s, le)
    ensures y == x || y in s
  {
    assert y in multiset(Insert(x, s, le));
  }

  lemma {:induction false} InsertKeepsSorted<T(!new)>(x: T, s: seq<T>, le: (T, T) -> bool)
    requires TotalPreorder(le)
    requires SortedBy(s, le)
    ensures SortedBy(Insert(x, s, le), le)
  {
    if s == [] || le(x, s[0]) {
      forall y | y in s
        ensures le(x, y)
      {
        var k :| 0 <= k < |s| && s[k] == y;
        if k > 0 {
          assert le(s[0], s[k]);
        }
      }
      ConsKeepsPairwise(x, s, le);
    } else {
      TailKeepsPairwise(s, le);
      InsertKeepsSorted(x, s[1..], le);
      var rest := Insert(x, s[1..], le);
      forall y | y in rest
        ensures le(s[0], y)
      {
        InsertedFrom(x, s[1..], le, y);
      }
      ConsKeepsPairwise(s[0], rest, le);
    }
  }

  /** Inserting keeps any relation that `x` has with every element in both directions. */
  lemma {:induction false} InsertKeepsPairwise<T(!new)>(x: T, s: seq<T>, le: (T, T) -> bool, rel: (T, T) -> bool)
    requires Pairwise(s, rel)
    requires forall y :: y in s ==> rel(x, y) && rel(y, x)
    ensures Pairwise(Insert(x, s, le), rel)
  {
    if s == [] || le(x, s[0]) {
      ConsKeepsPairwise(x, s, rel);
    } else {
      TailKeepsPairwise(s, rel);
      InsertKeepsPairwise(x, s[1..], le, rel);
      var rest := Insert(x, s[1..], le);
      forall y | y in rest
        ensures rel(s[0], y)
      {
        InsertedFrom(x, s[1..], le, y);
      }
      ConsKeepsPairwise(s[0], rest, rel);
    }
  }

  lemma {:induction false} SortBySorted<T(!new)>(s: seq<T>, le: (T, T) -> bool)
    requires TotalPreorder(le)
    ensures SortedBy(SortBy(s, le), le)
  {
    if s != [] {
      SortBySorted(s[1..], le);
      InsertKeepsSorted(s[0], SortBy(s[1..], le), le);
    }
  }

  /** Text order of the BINARY collation: lexicographic by code point. */
  predicate TextLe(a: string, b: string)
    decreases |a|
  {
    a == [] || (b != [] && (a[0] < b[0] || (a[0] == b[0] && TextLe(a[1..], b[1..]))))
  }

  lemma {:induction false} TextLeTotal(a: string, b: string)
    ensures TextLe(a, b) || TextLe(b, a)
    decreases |a|
  {
    if a != [] && b != [] && a[0] == b[0] {
      TextLeTotal(a[1..], b[1..]);
    }
  }

  lemma {:induction false} TextLeTransitive(a: string, b: string, c: string)
    requires TextLe(a, b) && TextLe(b, c)
    ensures TextLe(a, c)
    decreases |a|
  {
    if a != [] && a[0] == b[0] && b[0] == c[0] {
      TextLeTransitive(a[1..], b[1..], c[1..]);
    }
  }

  lemma {:induction false} TextLeAntisymmetric(a: string, b: string)
    requires TextLe(a, b) && TextLe(b, a)
    ensures a == b
    decreases |a|
  {
    if a != [] {
      TextLeAntisymmetric(a[1..], b[1..]);
      assert a == [a[0]] + a[1..] && b == [b[0]] + b[1..];
    }
  }
}
