/**
 * Order-preserving selection from a sequence: JavaScript's `Array.prototype.filter`
 * and LINQ's `Where`, which every query and every view in the model is built from.
 */
module Seqs {

  /** The elements of `s` that satisfy `p`, in their original order. */
  function Filter<T(!new)>(s: seq<T>, p: T -> bool): (r: seq<T>)
    ensures |r| <= |s|
    ensures forall x :: x in r <==> x in s && p(x)
    decreases |s|
  {
    if s == [] then [] else (if p(s[0]) then [s[0]] else []) + Filter(s[1..], p)
  }

  /** Filtering distributes over concatenation. */
  lemma {:induction false} FilterAppend<T(!new)>(a: seq<T>, b: seq<T>, p: T -> bool)
    ensures Filter(a + b, p) == Filter(a, p) + Filter(b, p)
    decreases |a|
  {
    if a == [] {
      assert a + b == b;
    } else {
      assert (a + b)[1..] == a[1..] + b;
      FilterAppend(a[1..], b, p);
    }
  }

  /** A non-empty sequence has a first element. */
  lemma {:induction false} HeadIsMember<T>(s: seq<T>)
    ensures s != [] ==> s[0] in s
  {
  }

  /** A filter that nothing passes is empty. */
  lemma {:induction false} FilterNone<T(!new)>(s: seq<T>, p: T -> bool)
    requires forall x :: x in s ==> !p(x)
    ensures Filter(s, p) == []
  {
    if Filter(s, p) != [] {
      assert Filter(s, p)[0] in Filter(s, p);
    }
  }

  /** A filter that everything passes changes nothing. */
  lemma {:induction false} FilterAll<T(!new)>(s: seq<T>, p: T -> bool)
    requires forall x :: x in s ==> p(x)
    ensures Filter(s, p) == s
    decreases |s|
  {
    if s != [] {
      FilterAll(s[1..], p);
    }
  }

  /** Two complementary filters split a sequence: each element goes to exactly one side. */
  lemma {:induction false} FilterPartition<T(!new)>(s: seq<T>, p: T -> bool, q: T -> bool)
    requires forall x :: q(x) == !p(x)
    ensures multiset(Filter(s, p)) + multiset(Filter(s, q)) == multiset(s)
    ensures |Filter(s, p)| + |Filter(s, q)| == |s|
    decreases |s|
  {
    if s != [] {
      FilterPartition(s[1..], p, q);
      assert s == [s[0]] + s[1..];
      assert multiset(s) == multiset{s[0]} + multiset(s[1..]);
      if p(s[0]) {
        assert Filter(s, p) == [s[0]] + Filter(s[1..], p);
        assert Filter(s, q) == Filter(s[1..], q);
      } else {
        assert Filter(s, p) == Filter(s[1..], p);
        assert Filter(s, q) == [s[0]] + Filter(s[1..], q);
      }
    }
  }

  /** `f` applied to each element of `s`: JavaScript's `Array.prototype.map`. */
  function Map<T, U>(s: seq<T>, f: T -> U): (r: seq<U>)
    ensures |r| == |s|
    ensures forall i :: 0 <= i < |s| ==> r[i] == f(s[i])
  {
    seq(|s|, i requires 0 <= i < |s| => f(s[i]))
  }

  /** Mapping distributes over concatenation. */
  lemma {:induction false} MapAppend<T, U>(a: seq<T>, b: seq<T>, f: T -> U)
    ensures Map(a + b, f) == Map(a, f) + Map(b, f)
  {
    assert forall i :: 0 <= i < |a + b| ==> Map(a + b, f)[i] == (Map(a, f) + Map(b, f))[i];
  }

  /** The number of elements of `s` that satisfy `p`. */
  function Count<T(!new)>(s: seq<T>, p: T -> bool): nat {
    |Filter(s, p)|
  }

  /** When only element `i` can satisfy `p`, `p` counts 1 or 0. */
  lemma {:induction false} CountOnlyAt<T(!new)>(s: seq<T>, i: int, p: T -> bool)
    requires 0 <= i < |s|
    requires forall k :: 0 <= k < |s| && k != i ==> !p(s[k])
    ensures Count(s, p) == if p(s[i]) then 1 else 0
  {
    var before, at, after := s[..i], [s[i]], s[i + 1..];
    assert s == before + at + after;
    FilterAppend(before + at, after, p);
    FilterAppend(before, at, p);
    forall x | x in before ensures !p(x) {
      var k :| 0 <= k < |before| && before[k] == x;
      assert s[k] == x;
    }
    forall x | x in after ensures !p(x) {
      var k :| 0 <= k < |after| && after[k] == x;
      assert s[i + 1 + k] == x;
    }
    FilterNone(before, p);
    FilterNone(after, p);
  }

  /** `key` strictly increases along `s`: a table whose rows are kept in primary-key order. */
  ghost predicate StrictlyIncreasing<T(!new)>(s: seq<T>, key: T -> int) {
    forall i, j :: 0 <= i < j < |s| ==> key(s[i]) < key(s[j])
  }

  /** Removing rows from a table keeps the remaining ones in key order. */
  lemma {:induction false} FilterKeepsIncreasing<T(!new)>(s: seq<T>, p: T -> bool, key: T -> int)
    requires StrictlyIncreasing(s, key)
    ensures StrictlyIncreasing(Filter(s, p), key)
    decreases |s|
  {
    if s != [] {
      var rest := Filter(s[1..], p);
      FilterKeepsIncreasing(s[1..], p, key);
      forall y | y in rest
        ensures key(s[0]) < key(y)
      {
        var m :| 0 <= m < |s[1..]| && s[1..][m] == y;
        assert s[m + 1] == y;
      }
    }
  }
}
