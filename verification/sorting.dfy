/**
 A comparison sort over sequences. `List<T>.Sort(Comparison<T>)` in .NET is an
 unstable introsort, so what callers may rely on is only that the result is a
 sorted permutation of the input; insertion sort is one such sort.
 */
module Sorting {

  ghost predicate Total<T(!new)>(le: (T, T) -> bool) {
    forall a, b :: le(a, b) || le(b, a)
  }

  ghost predicate Transitive<T(!new)>(le: (T, T) -> bool) {
    forall a, b, c :: le(a, b) && le(b, c) ==> le(a, c)
  }

  ghost predicate SortedBy<T>(xs: seq<T>, le: (T, T) -> bool) {
    forall i, j :: 0 <= i < j < |xs| ==> le(xs[i], xs[j])
  }

  /** Places `x` into an already sorted sequence. */
  function Insert<T(!new)>(x: T, xs: seq<T>, le: (T, T) -> bool): (r: seq<T>)
    requires Total(le) && Transitive(le)
    requires SortedBy(xs, le)
    ensures SortedBy(r, le)
    ensures multiset(r) == multiset(xs) + multiset{x}
    ensures |r| == |xs| + 1
  {
    if |xs| == 0 then [x]
    else if le(x, xs[0]) then
      BelowAll(x, xs, le);
      ConsSorted(x, xs, le);
      [x] + xs
    else
      var rest := Insert(x, xs[1..], le);
      HeadBelowInserted(x, xs, rest, le);
      ConsSorted(xs[0], rest, le);
      assert xs == [xs[0]] + xs[1..];
      [xs[0]] + rest
  }

  /** An element at most the head of a sorted sequence is at most all of it. */
  lemma BelowAll<T(!new)>(x: T, xs: seq<T>, le: (T, T) -> bool)
    requires Transitive(le) && SortedBy(xs, le) && |xs| > 0 && le(x, xs[0])
    ensures forall j :: 0 <= j < |xs| ==> le(x, xs[j])
  {
    forall j | 0 < j < |xs| ensures le(x, xs[j]) {
      assert le(xs[0], xs[j]);
    }
  }

  /** The head of a sorted sequence is at most every element of the tail
      with `x` inserted, when it is at most `x`. */
  lemma HeadBelowInserted<T(!new)>(x: T, xs: seq<T>, rest: seq<T>, le: (T, T) -> bool)
    requires SortedBy(xs, le) && |xs| > 0 && le(xs[0], x)
    requires multiset(rest) == multiset(xs[1..]) + multiset{x}
    ensures forall j :: 0 <= j < |rest| ==> le(xs[0], rest[j])
  {
    forall j | 0 <= j < |rest| ensures le(xs[0], rest[j]) {
      InsertedFrom(rest, xs[1..], x, j);
      if rest[j] != x {
        var k :| 0 <= k < |xs| - 1 && xs[1..][k] == rest[j];
        assert xs[k + 1] == rest[j];
      }
    }
  }

  /** A sorted sequence stays sorted with a lower bound in front. */
  lemma ConsSorted<T(!new)>(y: T, rest: seq<T>, le: (T, T) -> bool)
    requires SortedBy(rest, le) && forall j :: 0 <= j < |rest| ==> le(y, rest[j])
    ensures SortedBy([y] + rest, le)
  {
    var r := [y] + rest;
    forall i, j | 0 <= i < j < |r| ensures le(r[i], r[j]) {
      assert r[j] == rest[j - 1];
      if i > 0 {
        assert r[i] == rest[i - 1];
      }
    }
  }

  /** An element of a sequence holding `ys` and `x` is `x` or an element of `ys`. */
  lemma InsertedFrom<T>(rest: seq<T>, ys: seq<T>, x: T, j: nat)
    requires multiset(rest) == multiset(ys) + multiset{x} && j < |rest|
    ensures rest[j] == x || rest[j] in ys
  {
    assert rest[j] in multiset(rest);
  }

  /** The elements of `xs`, rearranged into `le` order. */
  function Sort<T(!new)>(xs: seq<T>, le: (T, T) -> bool): (r: seq<T>)
    requires Total(le) && Transitive(le)
    ensures SortedBy(r, le)
    ensures multiset(r) == multiset(xs)
    ensures |r| == |xs|
  {
    if |xs| == 0 then []
    else
      assert xs == [xs[0]] + xs[1..];
      Insert(xs[0], Sort(xs[1..], le), le)
  }
}
