/**
 * Grouping a sequence into a dictionary of arrays in one pass, as both pages do: each
 * element that passes `keep` is turned into `project(x)` and pushed onto the array of its
 * key, the array being opened the first time the key is met.
 */
module Grouping {
  import opened Seqs

  /** The keys of the kept elements. */
  function KeysOf<T(==,!new)>(s: seq<T>, keep: T -> bool, key: T -> string): set<string> {
    set x | x in s && keep(x) :: key(x)
  }

  /** The kept elements with key `k`, in order. */
  function Members<T(==,!new)>(s: seq<T>, keep: T -> bool, key: T -> string, k: string): seq<T> {
    Filter(s, (x: T) => keep(x) && key(x) == k)
  }

  /** The reference grouping: for each key of a kept element, those elements projected, in order. */
  function GroupBy<T(==,!new), V>(s: seq<T>, keep: T -> bool, key: T -> string, project: T -> V): map<string, seq<V>> {
    map k | k in KeysOf(s, keep, key) :: Map(Members(s, keep, key, k), project)
  }

  /** An appended element joins the end of its key's group when it is kept. */
  lemma {:induction false} MembersAppend<T(!new), V>(s: seq<T>, x: T, keep: T -> bool, key: T -> string, project: T -> V, k: string)
    ensures Map(Members(s + [x], keep, key, k), project) ==
      Map(Members(s, keep, key, k), project) + (if keep(x) && key(x) == k then [project(x)] else [])
  {
    var p := (y: T) => keep(y) && key(y) == k;
    FilterAppend(s, [x], p);
    MapAppend(Members(s, keep, key, k), if p(x) then [x] else [], project);
  }

  /** Appending an element adds its key when it is kept, and no other key. */
  lemma {:induction false} KeysOfAppend<T(!new)>(s: seq<T>, x: T, keep: T -> bool, key: T -> string)
    ensures KeysOf(s + [x], keep, key) == KeysOf(s, keep, key) + (if keep(x) then {key(x)} else {})
  {
    assert forall y :: y in s + [x] <==> y in s || y == x;
  }

  /** The group of a key that no kept element has is empty. */
  lemma {:induction false} MembersOfAbsentKey<T(!new), V>(s: seq<T>, keep: T -> bool, key: T -> string, project: T -> V, k: string)
    requires k !in KeysOf(s, keep, key)
    ensures Map(Members(s, keep, key, k), project) == []
  {
    assert forall y :: y in s && keep(y) ==> key(y) in KeysOf(s, keep, key);
    FilterNone(s, (y: T) => keep(y) && key(y) == k);
  }

  /** The group of key `k` after an append: the old group, extended when the element is kept with key `k`. */
  lemma {:induction false} GroupAfterAppend<T(!new), V>(s: seq<T>, x: T, keep: T -> bool, key: T -> string, project: T -> V, k: string)
    requires k in KeysOf(s + [x], keep, key)
    ensures GroupBy(s + [x], keep, key, project)[k] ==
      (if k in KeysOf(s, keep, key) then GroupBy(s, keep, key, project)[k] else []) +
      (if keep(x) && key(x) == k then [project(x)] else [])
  {
    MembersAppend(s, x, keep, key, project, k);
    if k !in KeysOf(s, keep, key) {
      MembersOfAbsentKey(s, keep, key, project, k);
    }
  }

  /** A kept element is pushed onto its key's group, which is opened if need be. */
  lemma {:induction false} GroupByAppendKept<T(!new), V>(s: seq<T>, x: T, keep: T -> bool, key: T -> string, project: T -> V)
    requires keep(x)
    ensures GroupBy(s + [x], keep, key, project) ==
      var g := GroupBy(s, keep, key, project);
      g[key(x) := (if key(x) in g then g[key(x)] else []) + [project(x)]]
  {
    var g := GroupBy(s, keep, key, project);
    var h := GroupBy(s + [x], keep, key, project);
    var c := key(x);
    var expected := g[c := (if c in g then g[c] else []) + [project(x)]];
    KeysOfAppend(s, x, keep, key);
    assert h.Keys == expected.Keys;
    forall k | k in h
      ensures h[k] == expected[k]
    {
      GroupAfterAppend(s, x, keep, key, project, k);
    }
  }

  /** An element that is not kept leaves the grouping as it was. */
  lemma {:induction false} GroupByAppendDropped<T(!new), V>(s: seq<T>, x: T, keep: T -> bool, key: T -> string, project: T -> V)
    requires !keep(x)
    ensures GroupBy(s + [x], keep, key, project) == GroupBy(s, keep, key, project)
  {
    var g := GroupBy(s, keep, key, project);
    var h := GroupBy(s + [x], keep, key, project);
    KeysOfAppend(s, x, keep, key);
    assert KeysOf(s + [x], keep, key) == KeysOf(s, keep, key);
    assert h.Keys == g.Keys;
    forall k | k in h
      ensures h[k] == g[k]
    {
      GroupAfterAppend(s, x, keep, key, project, k);
      assert h[k] == g[k] + [];
    }
  }

  /** Appending an element pushes it onto its key's group, opening the group if need be, when it is kept. */
  lemma {:induction false} GroupByAppend<T(!new), V>(s: seq<T>, x: T, keep: T -> bool, key: T -> string, project: T -> V)
    ensures GroupBy(s + [x], keep, key, project) ==
      var g := GroupBy(s, keep, key, project);
      if keep(x) then g[key(x) := (if key(x) in g then g[key(x)] else []) + [project(x)]] else g
  {
    if keep(x) {
      GroupByAppendKept(s, x, keep, key, project);
    } else {
      GroupByAppendDropped(s, x, keep, key, project);
    }
  }

  /**
   * Every kept element is in the group of its key and nowhere else, every group entry comes
   * from a kept element of that key, and no group is empty.
   */
  lemma {:induction false} GroupByMembers<T(!new), V>(s: seq<T>, keep: T -> bool, key: T -> string, project: T -> V)
    ensures GroupBy(s, keep, key, project).Keys == KeysOf(s, keep, key)
    ensures forall k, y :: k in GroupBy(s, keep, key, project) && y in GroupBy(s, keep, key, project)[k] ==>
      exists x :: x in s && keep(x) && key(x) == k && y == project(x)
    ensures forall x :: x in s && keep(x) ==>
      key(x) in GroupBy(s, keep, key, project) && project(x) in GroupBy(s, keep, key, project)[key(x)]
    ensures forall k :: k in GroupBy(s, keep, key, project) ==> GroupBy(s, keep, key, project)[k] != []
  {
    var g := GroupBy(s, keep, key, project);
    forall k, y | k in g && y in g[k]
      ensures exists x :: x in s && keep(x) && key(x) == k && y == project(x)
    {
      var m := Members(s, keep, key, k);
      var i :| 0 <= i < |m| && Map(m, project)[i] == y;
      assert m[i] in m;
    }
    forall x | x in s && keep(x)
      ensures key(x) in g && project(x) in g[key(x)]
    {
      var m := Members(s, keep, key, key(x));
      var i :| 0 <= i < |m| && m[i] == x;
      assert Map(m, project)[i] == project(x);
    }
    forall k | k in g
      ensures g[k] != []
    {
      var x :| x in s && keep(x) && key(x) == k;
      assert x in Members(s, keep, key, k);
    }
  }

  /** The total size of the groups named by `keys`. */
  function GroupSizes<V>(g: map<string, seq<V>>, keys: seq<string>): nat
    requires forall k :: k in keys ==> k in g
    decreases |keys|
  {
    if keys == [] then 0 else |g[keys[0]]| + GroupSizes(g, keys[1..])
  }

  predicate Distinct(keys: seq<string>) {
    forall i, j :: 0 <= i < j < |keys| ==> keys[i] != keys[j]
  }

  /** `keys` without `c`. */
  function Remove(keys: seq<string>, c: string): (r: seq<string>)
    ensures forall k :: k in r <==> k in keys && k != c
    ensures Distinct(keys) ==> Distinct(r)
    decreases |keys|
  {
    if keys == [] then []
    else if keys[0] == c then Remove(keys[1..], c)
    else
      var rest := Remove(keys[1..], c);
      var r := [keys[0]] + rest;
      assert Distinct(keys) ==> Distinct(r) by {
        if Distinct(keys) {
          assert Distinct(keys[1..]);
          forall i, j | 0 <= i < j < |r|
            ensures r[i] != r[j]
          {
            if i == 0 {
              assert r[j] in rest;
            }
          }
        }
      }
      r
  }

  /** Removing a key that is not there changes nothing. */
  lemma {:induction false} RemoveAbsent(keys: seq<string>, c: string)
    requires c !in keys
    ensures Remove(keys, c) == keys
    decreases |keys|
  {
    if keys != [] {
      RemoveAbsent(keys[1..], c);
    }
  }

  /** Two groupings whose named groups have the same sizes have the same total. */
  lemma {:induction false} GroupSizesAgree<V>(g: map<string, seq<V>>, h: map<string, seq<V>>, keys: seq<string>)
    requires forall k :: k in keys ==> k in g && k in h && |g[k]| == |h[k]|
    ensures GroupSizes(g, keys) == GroupSizes(h, keys)
    decreases |keys|
  {
    if keys != [] {
      GroupSizesAgree(g, h, keys[1..]);
    }
  }

  /** The total is one named group plus the total of the others. */
  lemma {:induction false} GroupSizesRemove<V>(g: map<string, seq<V>>, keys: seq<string>, c: string)
    requires forall k :: k in keys ==> k in g
    requires Distinct(keys) && c in keys
    ensures GroupSizes(g, keys) == |g[c]| + GroupSizes(g, Remove(keys, c))
    decreases |keys|
  {
    if keys[0] == c {
      assert c !in keys[1..];
      RemoveAbsent(keys[1..], c);
    } else {
      GroupSizesRemove(g, keys[1..], c);
    }
  }

  /** Pushing one entry onto a named group grows the total by one. */
  lemma {:induction false} GroupSizesPush<V>(g: map<string, seq<V>>, keys: seq<string>, c: string, v: V)
    requires forall k :: k in keys ==> k in g
    requires Distinct(keys) && c in keys
    ensures GroupSizes(g[c := g[c] + [v]], keys) == GroupSizes(g, keys) + 1
  {
    var h := g[c := g[c] + [v]];
    GroupSizesRemove(h, keys, c);
    GroupSizesRemove(g, keys, c);
    GroupSizesAgree(h, g, Remove(keys, c));
  }

  /** Opening a group of one under a new named key grows the total of the other keys by one. */
  lemma {:induction false} GroupSizesOpen<V>(g: map<string, seq<V>>, keys: seq<string>, c: string, v: V)
    requires forall k :: k in Remove(keys, c) ==> k in g
    requires Distinct(keys) && c in keys
    ensures GroupSizes(g[c := [v]], keys) == GroupSizes(g, Remove(keys, c)) + 1
  {
    var h := g[c := [v]];
    GroupSizesRemove(h, keys, c);
    GroupSizesAgree(h, g, Remove(keys, c));
  }

  /** A dropped element changes neither the groups nor the count of kept elements. */
  lemma {:induction false} GroupSizesStepDropped<T(!new), V>(init: seq<T>, x: T, keep: T -> bool, key: T -> string, project: T -> V, keys: seq<string>)
    requires !keep(x)
    requires forall k :: k in keys ==> k in KeysOf(init, keep, key)
    requires GroupSizes(GroupBy(init, keep, key, project), keys) == Count(init, keep)
    ensures forall k :: k in keys ==> k in KeysOf(init + [x], keep, key)
    ensures GroupSizes(GroupBy(init + [x], keep, key, project), keys) == Count(init + [x], keep)
  {
    KeysOfAppend(init, x, keep, key);
    GroupByAppendDropped(init, x, keep, key, project);
    FilterAppend(init, [x], keep);
  }

  /** A kept element of a key already present grows that one group and the count by one. */
  lemma {:induction false} GroupSizesStepOld<T(!new), V>(init: seq<T>, x: T, keep: T -> bool, key: T -> string, project: T -> V, keys: seq<string>)
    requires keep(x) && key(x) in KeysOf(init, keep, key)
    requires Distinct(keys) && key(x) in keys
    requires forall k :: k in keys ==> k in KeysOf(init, keep, key)
    requires GroupSizes(GroupBy(init, keep, key, project), keys) == Count(init, keep)
    ensures forall k :: k in keys ==> k in KeysOf(init + [x], keep, key)
    ensures GroupSizes(GroupBy(init + [x], keep, key, project), keys) == Count(init + [x], keep)
  {
    KeysOfAppend(init, x, keep, key);
    GroupByAppendKept(init, x, keep, key, project);
    FilterAppend(init, [x], keep);
    GroupSizesPush(GroupBy(init, keep, key, project), keys, key(x), project(x));
  }

  /** A kept element of a new key opens a group of one and grows the count by one. */
  lemma {:induction false} GroupSizesStepNew<T(!new), V>(init: seq<T>, x: T, keep: T -> bool, key: T -> string, project: T -> V, keys: seq<string>)
    requires keep(x) && key(x) !in KeysOf(init, keep, key)
    requires Distinct(keys) && key(x) in keys
    requires forall k :: k in Remove(keys, key(x)) ==> k in KeysOf(init, keep, key)
    requires GroupSizes(GroupBy(init, keep, key, project), Remove(keys, key(x))) == Count(init, keep)
    requires forall k :: k in keys ==> k in KeysOf(init + [x], keep, key)
    ensures GroupSizes(GroupBy(init + [x], keep, key, project), keys) == Count(init + [x], keep)
  {
    var g := GroupBy(init, keep, key, project);
    assert key(x) !in g;
    GroupByAppendKept(init, x, keep, key, project);
    assert [] + [project(x)] == [project(x)];
    assert GroupBy(init + [x], keep, key, project) == g[key(x) := [project(x)]];
    FilterAppend(init, [x], keep);
    GroupSizesOpen(g, keys, key(x), project(x));
  }

  /**
   * The groups together hold every kept element once: for any listing of the keys without
   * repeats, the group sizes add up to the number of kept elements.
   */
  lemma {:induction false} GroupSizesSum<T(!new), V>(s: seq<T>, keep: T -> bool, key: T -> string, project: T -> V, keys: seq<string>)
    requires Distinct(keys)
    requires forall k :: k in keys <==> k in KeysOf(s, keep, key)
    ensures GroupSizes(GroupBy(s, keep, key, project), keys) == Count(s, keep)
    decreases |s|
  {
    if s == [] {
      HeadIsMember(keys);
    } else {
      var init, x := s[..|s| - 1], s[|s| - 1];
      assert s == init + [x];
      KeysOfAppend(init, x, keep, key);
      if !keep(x) {
        GroupSizesSum(init, keep, key, project, keys);
        GroupSizesStepDropped(init, x, keep, key, project, keys);
      } else if key(x) in KeysOf(init, keep, key) {
        GroupSizesSum(init, keep, key, project, keys);
        GroupSizesStepOld(init, x, keep, key, project, keys);
      } else {
        var rest := Remove(keys, key(x));
        GroupSizesSum(init, keep, key, project, rest);
        GroupSizesStepNew(init, x, keep, key, project, keys);
      }
    }
  }
}
