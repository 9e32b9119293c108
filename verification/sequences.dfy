/**
 * The LINQ operators the table of contents is built with, as functions on sequences:
 * the keys of `GroupBy` (in order of first appearance), `Where`, and the stable `OrderBy`
 * under a comparison given as a parameter.
 */
module Sequences {

  /** No element occurs twice. */
  predicate NoDuplicates<T(==)>(s: seq<T>) {
    forall i, j :: 0 <= i < j < |s| ==> s[i] != s[j]
  }

  /** `x` occurs in `s` before the first occurrence of `y`. */
  predicate FirstBefore<T(==)>(s: seq<T>, x: T, y: T) {
    exists k :: 0 <= k < |s| && s[k] == x && y !in s[..k]
  }

  /**
   * The distinct elements of `s` in order of first appearance: the keys `GroupBy` yields.
   * Each key comes out once and every element's key comes out; `DistinctInOrder` states the order.
   */
  function Distinct<T(==)>(s: seq<T>): (r: seq<T>)
    ensures NoDuplicates(r)
    ensures forall i :: 0 <= i < |r| ==> r[i] in s
    ensures forall i :: 0 <= i < |s| ==> s[i] in r
    decreases |s|
  {
    if s == [] then []
    else
      var rest := Distinct(s[..|s| - 1]);
      if s[|s| - 1] in rest then rest else rest + [s[|s| - 1]]
  }

  /** A key that `Distinct` yields before another first appears in the input before it. */
  lemma {:induction false} DistinctInOrder<T>(s: seq<T>)
    ensures forall i, j :: 0 <= i < j < |Distinct(s)| ==> FirstBefore(s, Distinct(s)[i], Distinct(s)[j])
    decreases |s|
  {
    if s != [] {
      var init := s[..|s| - 1];
      DistinctInOrder(init);
      DistinctExtendOrder(s, Distinct(init));
    }
  }

  /** Extending the input by one element keeps the order of first appearance of the keys so far. */
  lemma DistinctExtendOrder<T>(s: seq<T>, rest: seq<T>)
    requires |s| > 0
    requires forall i :: 0 <= i < |rest| ==> rest[i] in s[..|s| - 1]
    requires forall i :: 0 <= i < |s| - 1 ==> s[i] in rest
    requires forall i, j :: 0 <= i < j < |rest| ==> FirstBefore(s[..|s| - 1], rest[i], rest[j])
    ensures forall i, j :: 0 <= i < j < |rest| ==> FirstBefore(s, rest[i], rest[j])
    ensures s[|s| - 1] !in rest ==> forall i :: 0 <= i < |rest| ==> FirstBefore(s, rest[i], s[|s| - 1])
  {
    var init := s[..|s| - 1];
    forall i, j | 0 <= i < j < |rest| ensures FirstBefore(s, rest[i], rest[j]) {
      var k :| 0 <= k < |init| && init[k] == rest[i] && rest[j] !in init[..k];
      assert s[..k] == init[..k];
    }
    if s[|s| - 1] !in rest {
      forall i | 0 <= i < |rest| ensures FirstBefore(s, rest[i], s[|s| - 1]) {
        var k :| 0 <= k < |init| && init[k] == rest[i];
        assert s[..k] == init[..k];
        assert s[|s| - 1] !in init;
      }
    }
  }

  /** `Where`: the elements satisfying `p`, in their original order. */
  function Where<T>(s: seq<T>, p: T -> bool): (r: seq<T>)
    ensures |r| <= |s|
    ensures forall i :: 0 <= i < |r| ==> p(r[i])
    decreases |s|
  {
    if s == [] then []
    else if p(s[0]) then [s[0]] + Where(s[1..], p)
    else Where(s[1..], p)
  }

  /** `Where` keeps exactly the occurrences that satisfy `p`. */
  lemma {:induction false} WhereMultiset<T>(s: seq<T>, p: T -> bool)
    ensures forall x :: multiset(Where(s, p))[x] == if p(x) then multiset(s)[x] else 0
    decreases |s|
  {
    if s != [] {
      WhereMultiset(s[1..], p);
      assert s == [s[0]] + s[1..];
    }
  }

  /** `le` relates every pair one way or the other. */
  ghost predicate Total<T(!new)>(le: (T, T) -> bool) {
    forall a, b :: le(a, b) || le(b, a)
  }

  /** Neighbours are in `le` order. */
  predicate SortedBy<T>(le: (T, T) -> bool, s: seq<T>) {
    forall i :: 0 < i < |s| ==> le(s[i - 1], s[i])
  }

  /** Inserts `x` before the first element it is `le`-below. */
  function InsertBy<T>(le: (T, T) -> bool, x: T, s: seq<T>): (r: seq<T>)
    ensures |r| == |s| + 1
    ensures r[0] == x || (|s| > 0 && r[0] == s[0])
    decreases |s|
  {
    if s == [] || le(x, s[0]) then [x] + s
    else [s[0]] + InsertBy(le, x, s[1..])
  }

  /**
   * `OrderBy`: a stable sort.  Elements that compare equal keep their original order,
   * because an element is inserted in front of every later element it ties with.
   */
  function SortBy<T>(le: (T, T) -> bool, s: seq<T>): (r: seq<T>)
    ensures |r| == |s|
    decreases |s|
  {
    if s == [] then [] else InsertBy(le, s[0], SortBy(le, s[1..]))
  }

  lemma {:induction false} InsertByMultiset<T>(le: (T, T) -> bool, x: T, s: seq<T>)
    ensures multiset(InsertBy(le, x, s)) == multiset{x} + multiset(s)
    decreases |s|
  {
    if s != [] && !le(x, s[0]) {
      InsertByMultiset(le, x, s[1..]);
      assert s == [s[0]] + s[1..];
    }
  }

  /** Sorting permutes its input. */
  lemma {:induction false} SortByMultiset<T>(le: (T, T) -> bool, s: seq<T>)
    ensures multiset(SortBy(le, s)) == multiset(s)
    decreases |s|
  {
    if s != [] {
      SortByMultiset(le, s[1..]);
      InsertByMultiset(le, s[0], SortBy(le, s[1..]));
      assert s == [s[0]] + s[1..];
    }
  }

  lemma {:induction false} InsertBySorted<T(!new)>(le: (T, T) -> bool, x: T, s: seq<T>)
    requires Total(le) && SortedBy(le, s)
    ensures SortedBy(le, InsertBy(le, x, s))
    decreases |s|
  {
    if s != [] && !le(x, s[0]) {
      InsertBySorted(le, x, s[1..]);
      var tail := InsertBy(le, x, s[1..]);
      assert le(s[0], tail[0]) by {
        if tail[0] == x { assert le(s[0], x); } else { assert le(s[0], s[1]); }
      }
    }
  }

  /** With a total comparison the result is in order. */
  lemma {:induction false} SortBySorted<T(!new)>(le: (T, T) -> bool, s: seq<T>)
    requires Total(le)
    ensures SortedBy(le, SortBy(le, s))
    decreases |s|
  {
    if s != [] {
      SortBySorted(le, s[1..]);
      InsertBySorted(le, s[0], SortBy(le, s[1..]));
    }
  }

  /** Sorting keeps the same elements, so a sequence without duplicates stays without. */
  lemma SortByNoDuplicates<T>(le: (T, T) -> bool, s: seq<T>)
    requires NoDuplicates(s)
    ensures NoDuplicates(SortBy(le, s))
  {
    var r := SortBy(le, s);
    SortByMultiset(le, s);
    forall i, j | 0 <= i < j < |r| ensures r[i] != r[j] {
      if r[i] == r[j] {
        MultisetAtLeastTwo(r, i, j);
        NoDuplicatesCountOne(s, r[i]);
        assert false;
      }
    }
  }

  lemma MultisetAtLeastTwo<T>(s: seq<T>, i: nat, j: nat)
    requires i < j < |s| && s[i] == s[j]
    ensures multiset(s)[s[i]] >= 2
  {
    assert s == s[..i] + [s[i]] + s[i + 1..j] + [s[j]] + s[j + 1..];
  }

  lemma {:induction false} NoDuplicatesCountOne<T>(s: seq<T>, x: T)
    requires NoDuplicates(s)
    ensures multiset(s)[x] <= 1
    decreases |s|
  {
    if s != [] {
      assert s == [s[0]] + s[1..];
      NoDuplicatesCountOne(s[1..], x);
      if s[0] == x {
        assert x !in s[1..];
      }
    }
  }

  /** `Where` distributes over concatenation. */
  lemma {:induction false} WhereAppend<T>(s: seq<T>, t: seq<T>, p: T -> bool)
    ensures Where(s + t, p) == Where(s, p) + Where(t, p)
    decreases |s|
  {
    if s != [] {
      assert (s + t)[0] == s[0] && (s + t)[1..] == s[1..] + t;
      WhereAppend(s[1..], t, p);
    } else {
      assert s + t == t;
    }
  }

  lemma WhereSingleton<T>(x: T, p: T -> bool)
    ensures Where([x], p) == if p(x) then [x] else []
  {
    assert [x][1..] == [];
  }

  /**
   * Inserting `x` keeps the order of the elements selected by `p`, provided `x` is `le`-below
   * every selected element when it is selected itself: `x` then lands in front of all of them.
   */
  lemma {:induction false} InsertByWhere<T>(le: (T, T) -> bool, x: T, s: seq<T>, p: T -> bool)
    requires p(x) ==> forall i :: 0 <= i < |s| && p(s[i]) ==> le(x, s[i])
    ensures Where(InsertBy(le, x, s), p) == (if p(x) then [x] else []) + Where(s, p)
    decreases |s|
  {
    if s == [] || le(x, s[0]) {
      assert InsertBy(le, x, s) == [x] + s;
      WhereAppend([x], s, p);
      WhereSingleton(x, p);
    } else {
      InsertByWhere(le, x, s[1..], p);
      assert InsertBy(le, x, s) == [s[0]] + InsertBy(le, x, s[1..]);
      WhereAppend([s[0]], InsertBy(le, x, s[1..]), p);
      WhereSingleton(s[0], p);
      assert s == [s[0]] + s[1..];
      WhereAppend([s[0]], s[1..], p);
    }
  }

  /**
   * `OrderBy` is stable: elements the comparison cannot tell apart (any two of them are
   * `le`-related both ways) come out in the order they went in.
   */
  lemma {:induction false} SortByStable<T(!new)>(le: (T, T) -> bool, s: seq<T>, p: T -> bool)
    requires forall a, b :: p(a) && p(b) ==> le(a, b)
    ensures Where(SortBy(le, s), p) == Where(s, p)
    decreases |s|
  {
    if s != [] {
      SortByStable(le, s[1..], p);
      var rest := SortBy(le, s[1..]);
      InsertByWhere(le, s[0], rest, p);
      assert s == [s[0]] + s[1..];
      WhereAppend([s[0]], s[1..], p);
      WhereSingleton(s[0], p);
    }
  }

  /** Every element of the input is in the sorted output. */
  lemma SortByMembers<T>(le: (T, T) -> bool, s: seq<T>)
    ensures forall i :: 0 <= i < |s| ==> s[i] in SortBy(le, s)
    ensures forall i :: 0 <= i < |SortBy(le, s)| ==> SortBy(le, s)[i] in s
  {
    SortByMultiset(le, s);
    forall i | 0 <= i < |s| ensures s[i] in SortBy(le, s) {
      assert s[i] in multiset(s);
    }
    forall i | 0 <= i < |SortBy(le, s)| ensures SortBy(le, s)[i] in s {
      assert SortBy(le, s)[i] in multiset(SortBy(le, s));
    }
  }

  /** The group predicate of `GroupBy(key)`: the elements whose key is `k`. */
  function HasKey<T, K(==)>(key: T -> K, k: K): T -> bool {
    x => key(x) == k
  }

  /** The elements of all groups with the given keys, taken together. */
  function Grouped<T, K(==)>(s: seq<T>, key: T -> K, keys: seq<K>): multiset<T>
    decreases |keys|
  {
    if keys == [] then multiset{} else multiset(Where(s, HasKey(key, keys[0]))) + Grouped(s, key, keys[1..])
  }

  lemma {:induction false} GroupedOfEmpty<T, K>(key: T -> K, keys: seq<K>)
    ensures Grouped([], key, keys) == multiset{}
    decreases |keys|
  {
    if keys != [] { GroupedOfEmpty(key, keys[1..]); }
  }

  lemma {:induction false} GroupedCons<T, K>(x: T, s: seq<T>, key: T -> K, keys: seq<K>)
    requires NoDuplicates(keys)
    ensures Grouped([x] + s, key, keys) == Grouped(s, key, keys) + (if key(x) in keys then multiset{x} else multiset{})
    decreases |keys|
  {
    if keys != [] {
      assert ([x] + s)[0] == x && ([x] + s)[1..] == s;
      GroupedCons(x, s, key, keys[1..]);
      if key(x) == keys[0] {
        assert key(x) !in keys[1..];
      }
    }
  }

  /**
   * Grouping by distinct keys that cover every element loses and duplicates nothing: the
   * groups together hold exactly the elements of the input.
   */
  lemma {:induction false} GroupsPartition<T, K>(s: seq<T>, key: T -> K, keys: seq<K>)
    requires NoDuplicates(keys)
    requires forall i :: 0 <= i < |s| ==> key(s[i]) in keys
    ensures Grouped(s, key, keys) == multiset(s)
    decreases |s|
  {
    if s == [] {
      GroupedOfEmpty(key, keys);
    } else {
      assert s == [s[0]] + s[1..];
      GroupedCons(s[0], s[1..], key, keys);
      GroupsPartition(s[1..], key, keys);
    }
  }
}
