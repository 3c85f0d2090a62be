/**
 * Sorting as the queries use it: LINQ's `OrderBy`/`OrderByDescending` on one key
 * and `OrderBy(...).ThenBy(...)` on a pair of text columns compared ordinally.
 */
module Ordering {

  /** `le` is total and transitive: a valid comparison for an ORDER BY clause. */
  ghost predicate TotalPreorder<T(!new)>(le: (T, T) -> bool) {
    && (forall a, b :: le(a, b) || le(b, a))
    && (forall a, b, c :: le(a, b) && le(b, c) ==> le(a, c))
  }

  /** Every element may precede every later one. */
  ghost predicate SortedBy<T>(s: seq<T>, le: (T, T) -> bool) {
    forall i, j :: 0 <= i < j < |s| ==> le(s[i], s[j])
  }

  /** `x` placed before the first element it may precede; equal elements already present stay behind it. */
  function Insert<T>(x: T, s: seq<T>, le: (T, T) -> bool): (r: seq<T>)
    ensures multiset(r) == multiset(s) + multiset{x}
    ensures |r| == |s| + 1
    decreases |s|
  {
    if s == [] || le(x, s[0]) then [x] + s
    else
      assert s == [s[0]] + s[1..];
      [s[0]] + Insert(x, s[1..], le)
  }

  /** A stable insertion sort: the rows of `s` rearranged by `le`. */
  function SortBy<T>(s: seq<T>, le: (T, T) -> bool): (r: seq<T>)
    ensures multiset(r) == multiset(s)
    ensures |r| == |s|
    decreases |s|
  {
    if s == [] then []
    else
      assert s == [s[0]] + s[1..];
      Insert(s[0], SortBy(s[1..], le), le)
  }

  lemma {:induction false} InsertSorted<T(!new)>(x: T, s: seq<T>, le: (T, T) -> bool)
    requires TotalPreorder(le)
    requires SortedBy(s, le)
    ensures SortedBy(Insert(x, s, le), le)
    decreases |s|
  {
    if s != [] && !le(x, s[0]) {
      var rest := Insert(x, s[1..], le);
      InsertSorted(x, s[1..], le);
      forall k | 0 <= k < |rest|
        ensures le(s[0], rest[k])
      {
        assert rest[k] in multiset(rest);
        if rest[k] != x {
          assert rest[k] in multiset(s[1..]);
          var m :| 0 <= m < |s[1..]| && s[1..][m] == rest[k];
          assert s[m + 1] == rest[k];
        }
      }
    }
  }

  /** The sort's output is ordered by `le`. */
  lemma {:induction false} SortBySorted<T(!new)>(s: seq<T>, le: (T, T) -> bool)
    requires TotalPreorder(le)
    ensures SortedBy(SortBy(s, le), le)
    decreases |s|
  {
    if s != [] {
      SortBySorted(s[1..], le);
      InsertSorted(s[0], SortBy(s[1..], le), le);
    }
  }

  /** Ordinal comparison of text, code point by code point (SQLite's BINARY collation on UTF-8). */
  predicate OrdinalLe(a: string, b: string)
    decreases |a|
  {
    if a == [] then true
    else if b == [] then false
    else if a[0] != b[0] then a[0] < b[0]
    else OrdinalLe(a[1..], b[1..])
  }

  lemma {:induction false} OrdinalLeTotal(a: string, b: string)
    ensures OrdinalLe(a, b) || OrdinalLe(b, a)
    decreases |a|
  {
    if a != [] && b != [] && a[0] == b[0] {
      OrdinalLeTotal(a[1..], b[1..]);
    }
  }

  lemma {:induction false} OrdinalLeAntisymmetric(a: string, b: string)
    ensures OrdinalLe(a, b) && OrdinalLe(b, a) ==> a == b
    decreases |a|
  {
    if a != [] && b != [] && a[0] == b[0] {
      OrdinalLeAntisymmetric(a[1..], b[1..]);
      if OrdinalLe(a, b) && OrdinalLe(b, a) {
        assert a == [a[0]] + a[1..] && b == [b[0]] + b[1..];
      }
    }
  }

  lemma {:induction false} OrdinalLeTransitive(a: string, b: string, c: string)
    ensures OrdinalLe(a, b) && OrdinalLe(b, c) ==> OrdinalLe(a, c)
    decreases |a|
  {
    if a != [] && b != [] && c != [] && a[0] == b[0] && b[0] == c[0] {
      OrdinalLeTransitive(a[1..], b[1..], c[1..]);
    }
  }

  /** `(c1, n1)` may precede `(c2, n2)` under `OrderBy(first).ThenBy(second)`. */
  predicate PairLe(x: (string, string), y: (string, string)) {
    (OrdinalLe(x.0, y.0) && x.0 != y.0) || (x.0 == y.0 && OrdinalLe(x.1, y.1))
  }

  /** The two-column ordering is a valid sort order. */
  lemma {:induction false} PairLeTotalPreorder()
    ensures TotalPreorder(PairLe)
  {
    forall x: (string, string), y: (string, string)
      ensures PairLe(x, y) || PairLe(y, x)
    {
      OrdinalLeTotal(x.0, y.0);
      OrdinalLeTotal(x.1, y.1);
    }
    forall x: (string, string), y: (string, string), z: (string, string) | PairLe(x, y) && PairLe(y, z)
      ensures PairLe(x, z)
    {
      OrdinalLeTransitive(x.0, y.0, z.0);
      OrdinalLeTransitive(x.1, y.1, z.1);
      OrdinalLeAntisymmetric(x.0, y.0);
      OrdinalLeAntisymmetric(y.0, z.0);
      OrdinalLeAntisymmetric(x.0, z.0);
    }
  }
}
