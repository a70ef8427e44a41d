/** The array operations the stores and the delivery queue perform through
    `filter`, `find`/`findIndex`, `map` and `splice`, over sequences. */
module Listing {
  import opened Wrappers

  /** `b` contains the elements of `a` in the same relative order, possibly with
      others in between. */
  ghost predicate IsSubsequence<T>(a: seq<T>, b: seq<T>)
    decreases |b|
  {
    a == [] || (b != [] && ((a[0] == b[0] && IsSubsequence(a[1..], b[1..])) || IsSubsequence(a, b[1..])))
  }

  /** `xs.filter(keep)`: every element `keep` accepts, as often as it occurs in `xs`, and
      no element it rejects. */
  function Filter<T(!new)>(xs: seq<T>, keep: T -> bool): (r: seq<T>)
    ensures |r| <= |xs|
    ensures forall x :: multiset(r)[x] == if keep(x) then multiset(xs)[x] else 0
    ensures forall x :: x in r <==> x in xs && keep(x)
    decreases |xs|
  {
    if xs == [] then []
    else
      var rest := Filter(xs[1..], keep);
      assert xs == [xs[0]] + xs[1..];
      assert forall x :: x in xs[1..] ==> x in xs;
      if keep(xs[0]) then [xs[0]] + rest else rest
  }

  /** `filter` keeps the order of what it keeps. */
  lemma {:induction false} FilterIsSubsequence<T(!new)>(xs: seq<T>, keep: T -> bool)
    ensures IsSubsequence(Filter(xs, keep), xs)
    decreases |xs|
  {
    if xs != [] {
      var rest := Filter(xs[1..], keep);
      FilterIsSubsequence(xs[1..], keep);
      if keep(xs[0]) {
        var r := Filter(xs, keep);
        assert r == [xs[0]] + rest;
        assert r[0] == xs[0] && r[1..] == rest;
      }
    }
  }

  /** A filter that rejects nothing returns the list unchanged. */
  lemma {:induction false} FilterKeepsAll<T(!new)>(xs: seq<T>, keep: T -> bool)
    ensures (forall i :: 0 <= i < |xs| ==> keep(xs[i])) ==> Filter(xs, keep) == xs
    decreases |xs|
  {
    if xs != [] {
      FilterKeepsAll(xs[1..], keep);
      assert [xs[0]] + xs[1..] == xs;
    }
  }

  /** `xs.findIndex(p)`, with `None` for -1: the index of the first element that
      satisfies `p`. */
  function FindFirst<T>(xs: seq<T>, p: T -> bool): (r: Option<nat>)
    ensures r.Some? ==> r.value < |xs| && p(xs[r.value])
    ensures forall j :: 0 <= j < |xs| && (r.None? || j < r.value) ==> !p(xs[j])
    decreases |xs|
  {
    if xs == [] then None
    else if p(xs[0]) then Some(0)
    else match FindFirst(xs[1..], p)
      case None => None
      case Some(i) => Some(i + 1)
  }

  /** `xs.find(p)`: the first element that satisfies `p`, if any. */
  function Find<T>(xs: seq<T>, p: T -> bool): (r: Option<T>)
    ensures r.Some? <==> exists i :: 0 <= i < |xs| && p(xs[i])
    ensures r.Some? ==> r.value in xs && p(r.value)
    ensures r.Some? ==> exists i :: 0 <= i < |xs| && xs[i] == r.value && forall j :: 0 <= j < i ==> !p(xs[j])
  {
    match FindFirst(xs, p)
    case None => None
    case Some(i) => Some(xs[i])
  }

  /** The element at `i` is the first to satisfy `p`, so `find` returns it. */
  lemma {:induction false} FindIs<T>(xs: seq<T>, p: T -> bool, i: nat)
    requires i < |xs| && p(xs[i])
    requires forall k :: 0 <= k < i ==> !p(xs[k])
    ensures FindFirst(xs, p) == Some(i) && Find(xs, p) == Some(xs[i])
    decreases i
  {
    if i > 0 {
      FindIs(xs[1..], p, i - 1);
    }
  }

  /** When no element satisfies `p`, `find` returns nothing. */
  lemma FindNone<T>(xs: seq<T>, p: T -> bool)
    requires forall k :: 0 <= k < |xs| ==> !p(xs[k])
    ensures FindFirst(xs, p) == None && Find(xs, p) == None
  {
  }

  /** The first element `filter` keeps is the first element that `keep` accepts. */
  lemma {:induction false} FilterFirst<T(!new)>(xs: seq<T>, keep: T -> bool, i: nat)
    requires i < |xs| && keep(xs[i])
    requires forall k :: 0 <= k < i ==> !keep(xs[k])
    ensures Filter(xs, keep) != [] && Filter(xs, keep)[0] == xs[i]
    decreases i
  {
    if i > 0 {
      FilterFirst(xs[1..], keep, i - 1);
    }
  }

  /** A filter that rejects exactly one position removes that position only. */
  lemma {:induction false} FilterRemovesOne<T(!new)>(xs: seq<T>, keep: T -> bool, k: nat)
    requires k < |xs| && !keep(xs[k])
    requires forall i :: 0 <= i < |xs| && i != k ==> keep(xs[i])
    ensures Filter(xs, keep) == RemoveAt(xs, k)
    decreases |xs|
  {
    var rest := xs[1..];
    assert forall i :: 0 <= i < |rest| && i + 1 != k ==> keep(rest[i]) by {
      forall i | 0 <= i < |rest| && i + 1 != k
        ensures keep(rest[i])
      {
        assert rest[i] == xs[i + 1];
      }
    }
    if k == 0 {
      FilterKeepsAll(rest, keep);
      assert Filter(xs, keep) == Filter(rest, keep);
    } else {
      FilterRemovesOne(rest, keep, k - 1);
      assert keep(xs[0]);
      assert Filter(xs, keep) == [xs[0]] + Filter(rest, keep);
      RemoveAtCons(xs, k);
    }
  }

  lemma RemoveAtCons<T>(xs: seq<T>, k: nat)
    requires 0 < k < |xs|
    ensures RemoveAt(xs, k) == [xs[0]] + RemoveAt(xs[1..], k - 1)
  {
    assert xs[..k] == [xs[0]] + xs[1..][..k - 1];
  }

  /** `xs.map(x => p(x) ? f(x) : x)`: `f` applied to the elements `p` selects, the
      others left as they are, in place. */
  function MapWhere<T>(xs: seq<T>, p: T -> bool, f: T -> T): (r: seq<T>)
    ensures |r| == |xs|
    ensures forall i :: 0 <= i < |xs| ==> r[i] == if p(xs[i]) then f(xs[i]) else xs[i]
    decreases |xs|
  {
    if xs == [] then [] else [if p(xs[0]) then f(xs[0]) else xs[0]] + MapWhere(xs[1..], p, f)
  }

  /** An update that never changes whether an element is selected leaves the index of
      the first selected element where it was. */
  lemma {:induction false} FindFirstMapWhere<T>(xs: seq<T>, p: T -> bool, f: T -> T)
    requires forall x :: p(x) ==> p(f(x))
    ensures FindFirst(MapWhere(xs, p, f), p) == FindFirst(xs, p)
    decreases |xs|
  {
    if xs != [] {
      var r := MapWhere(xs, p, f);
      assert r[1..] == MapWhere(xs[1..], p, f);
      if !p(xs[0]) {
        FindFirstMapWhere(xs[1..], p, f);
      }
    }
  }

  /** Applying an involution to the same selection twice restores the list, provided
      the involution does not change which elements are selected. */
  lemma MapWhereTwice<T>(xs: seq<T>, p: T -> bool, f: T -> T)
    requires forall x :: p(x) ==> p(f(x)) && f(f(x)) == x
    ensures MapWhere(MapWhere(xs, p, f), p, f) == xs
  {
  }

  /** `xs` without the element at index `i` (`splice(i, 1)` on a copy). */
  function RemoveAt<T>(xs: seq<T>, i: nat): (r: seq<T>)
    requires i < |xs|
    ensures |r| == |xs| - 1
    ensures multiset(r) + multiset{xs[i]} == multiset(xs)
  {
    assert xs == xs[..i] + [xs[i]] + xs[i + 1..];
    xs[..i] + xs[i + 1..]
  }

  /** Removing one element keeps the order of the rest. */
  lemma {:induction false} RemoveAtIsSubsequence<T>(xs: seq<T>, i: nat)
    requires i < |xs|
    ensures IsSubsequence(RemoveAt(xs, i), xs)
    decreases i
  {
    var r := RemoveAt(xs, i);
    if i == 0 {
      assert r == xs[1..];
      SuffixIsSubsequence(xs[1..]);
    } else {
      RemoveAtIsSubsequence(xs[1..], i - 1);
      assert r[0] == xs[0] && r[1..] == RemoveAt(xs[1..], i - 1);
    }
  }

  /** Every list is a subsequence of itself, and so of itself with one more element
      in front. */
  lemma {:induction false} SuffixIsSubsequence<T>(xs: seq<T>)
    ensures IsSubsequence(xs, xs)
    decreases |xs|
  {
    if xs != [] {
      SuffixIsSubsequence(xs[1..]);
    }
  }

  /** The list with the element at `i` moved to the front and the others after it,
      in their old order. */
  function MoveToFront<T>(xs: seq<T>, i: nat): (r: seq<T>)
    requires i < |xs|
    ensures |r| == |xs| && r[0] == xs[i] && r[1..] == RemoveAt(xs, i)
    ensures multiset(r) == multiset(xs)
  {
    var r := [xs[i]] + RemoveAt(xs, i);
    assert r[1..] == RemoveAt(xs, i);
    r
  }

  /** Moves the first element that satisfies `p` to the front; a list with no such
      element is returned unchanged. */
  function BringToFront<T>(xs: seq<T>, p: T -> bool): (r: seq<T>)
  {
    match FindFirst(xs, p)
    case None => xs
    case Some(i) => MoveToFront(xs, i)
  }

  /** Bringing the first match to the front a second time changes nothing. */
  lemma BringToFrontTwice<T>(xs: seq<T>, p: T -> bool)
    ensures BringToFront(BringToFront(xs, p), p) == BringToFront(xs, p)
  {
    var first := FindFirst(xs, p);
    if first.Some? {
      var r := MoveToFront(xs, first.value);
      assert BringToFront(xs, p) == r;
      FindIs(r, p, 0);
      var m := MoveToFront(r, 0);
      assert BringToFront(r, p) == m;
      assert RemoveAt(r, 0) == r[1..];
      assert m == [m[0]] + m[1..] == [r[0]] + r[1..] == r;
    }
  }

  /** `BringToFront` permutes the list. When no element satisfies `p` it changes
      nothing; otherwise the first element that satisfies `p` comes first and all the
      others follow in their old relative order. */
  lemma BringToFrontSpec<T>(xs: seq<T>, p: T -> bool)
    ensures |BringToFront(xs, p)| == |xs|
    ensures multiset(BringToFront(xs, p)) == multiset(xs)
    ensures (forall i :: 0 <= i < |xs| ==> !p(xs[i])) ==> BringToFront(xs, p) == xs
    ensures (exists i :: 0 <= i < |xs| && p(xs[i])) ==>
      var r := BringToFront(xs, p);
      && p(r[0])
      && (exists i :: 0 <= i < |xs| && r[0] == xs[i] && (forall j :: 0 <= j < i ==> !p(xs[j])) && r[1..] == RemoveAt(xs, i))
      && IsSubsequence(r[1..], xs)
  {
    match FindFirst(xs, p)
    case None =>
    case Some(i) =>
      RemoveAtIsSubsequence(xs, i);
  }
}
