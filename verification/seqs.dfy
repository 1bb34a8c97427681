/** Order-preserving list operations shared by the pages: JavaScript's
    `Array.prototype.filter`, `map` and `slice(0, n)`, with the facts the
    page models rely on. */
module Seqs {

  /** `xs.filter(p)`: the elements satisfying `p`, in their original order. */
  function Filter<T(!new)>(p: T -> bool, xs: seq<T>): (r: seq<T>)
    ensures |r| <= |xs|
    ensures forall x :: x in r <==> x in xs && p(x)
  {
    if xs == [] then []
    else if p(xs[0]) then [xs[0]] + Filter(p, xs[1..])
    else Filter(p, xs[1..])
  }

  /** `xs.map(f)`. */
  function Map<T, U>(f: T -> U, xs: seq<T>): (r: seq<U>)
    ensures |r| == |xs|
    ensures forall i :: 0 <= i < |xs| ==> r[i] == f(xs[i])
  {
    seq(|xs|, i requires 0 <= i < |xs| => f(xs[i]))
  }

  /** `xs.slice(0, n)`: the first `n` elements, or all of them when there are fewer. */
  function Take<T>(xs: seq<T>, n: nat): (r: seq<T>)
    ensures |r| == if |xs| <= n then |xs| else n
    ensures forall i :: 0 <= i < |r| ==> r[i] == xs[i]
  {
    if |xs| <= n then xs else xs[..n]
  }

  /** `a` is obtained from `b` by deleting elements, keeping the order of the rest:
      each element of `b` is either kept as the next element of `a` or dropped. */
  predicate IsSubsequence<T(==)>(a: seq<T>, b: seq<T>)
    decreases |b|
  {
    if b == [] then a == []
    else (a != [] && a[0] == b[0] && IsSubsequence(a[1..], b[1..])) || IsSubsequence(a, b[1..])
  }

  /** Filtering never reorders: its result is a subsequence of its input. */
  lemma {:induction false} FilterIsSubsequence<T(!new)>(p: T -> bool, xs: seq<T>)
    ensures IsSubsequence(Filter(p, xs), xs)
  {
    if xs != [] {
      FilterIsSubsequence(p, xs[1..]);
      if p(xs[0]) {
        assert Filter(p, xs)[1..] == Filter(p, xs[1..]);
      }
    }
  }

  /** The conjunction of two predicates. */
  function Both<T>(p: T -> bool, q: T -> bool): T -> bool {
    x => p(x) && q(x)
  }

  /** The empty list is a subsequence of every list. */
  lemma {:induction false} EmptyIsSubsequence<T>(b: seq<T>)
    ensures IsSubsequence([], b)
  {
    if b != [] {
      EmptyIsSubsequence(b[1..]);
    }
  }

  /** A prefix of a subsequence is still a subsequence. */
  lemma {:induction false} PrefixOfSubsequence<T>(a: seq<T>, b: seq<T>, k: nat)
    requires IsSubsequence(a, b) && k <= |a|
    ensures IsSubsequence(a[..k], b)
    decreases |b|
  {
    if b == [] {
    } else if k == 0 {
      EmptyIsSubsequence(b);
    } else if a != [] && a[0] == b[0] && IsSubsequence(a[1..], b[1..]) {
      PrefixOfSubsequence(a[1..], b[1..], k - 1);
      assert a[..k][1..] == a[1..][..k - 1];
    } else {
      PrefixOfSubsequence(a, b[1..], k);
    }
  }

  /** The first `n` elements of a filtered list keep the input's order. */
  lemma TakeOfFilterIsSubsequence<T(!new)>(p: T -> bool, xs: seq<T>, n: nat)
    ensures IsSubsequence(Take(Filter(p, xs), n), xs)
  {
    FilterIsSubsequence(p, xs);
    var f := Filter(p, xs);
    if n < |f| {
      PrefixOfSubsequence(f, xs, n);
    }
  }

  /** Filtering by a conjunction is filtering by each conjunct in turn:
      the pages' `matchesA && matchesB` filters are compositions of
      order-preserving filters. */
  lemma {:induction false} FilterConjunction<T(!new)>(p: T -> bool, q: T -> bool, xs: seq<T>)
    ensures Filter(Both(p, q), xs) == Filter(p, Filter(q, xs))
  {
    if xs != [] {
      FilterConjunction(p, q, xs[1..]);
    }
  }

  /** Filters by predicates that agree on the list's elements are equal. */
  lemma {:induction false} FilterAgree<T(!new)>(p: T -> bool, q: T -> bool, xs: seq<T>)
    requires forall x :: x in xs ==> p(x) == q(x)
    ensures Filter(p, xs) == Filter(q, xs)
  {
    if xs != [] {
      FilterAgree(p, q, xs[1..]);
    }
  }

  /** A predicate that holds everywhere keeps the whole list. */
  lemma {:induction false} FilterAll<T(!new)>(p: T -> bool, xs: seq<T>)
    requires forall x :: x in xs ==> p(x)
    ensures Filter(p, xs) == xs
  {
    if xs != [] {
      FilterAll(p, xs[1..]);
    }
  }

  /** A predicate that holds nowhere keeps nothing. */
  lemma {:induction false} FilterNone<T(!new)>(p: T -> bool, xs: seq<T>)
    requires forall x :: x in xs ==> !p(x)
    ensures Filter(p, xs) == []
  {
    if xs != [] {
      FilterNone(p, xs[1..]);
    }
  }

  /** Filtering distributes over concatenation; used to extend a filter one element at a time. */
  lemma {:induction false} FilterAppend<T(!new)>(p: T -> bool, xs: seq<T>, ys: seq<T>)
    ensures Filter(p, xs + ys) == Filter(p, xs) + Filter(p, ys)
  {
    if xs == [] {
      assert xs + ys == ys;
    } else {
      assert (xs + ys)[1..] == xs[1..] + ys;
      FilterAppend(p, xs[1..], ys);
    }
  }

  /** Filtering a list extended by one element extends the filtered list by
      that element exactly when it passes. */
  lemma FilterSnoc<T(!new)>(p: T -> bool, xs: seq<T>, x: T)
    ensures Filter(p, xs + [x]) == Filter(p, xs) + (if p(x) then [x] else [])
  {
    FilterAppend(p, xs, [x]);
    assert Filter(p, [x]) == if p(x) then [x] else [];
  }

  /** Mapping distributes over concatenation. */
  lemma MapAppend<T, U>(f: T -> U, xs: seq<T>, ys: seq<T>)
    ensures Map(f, xs + ys) == Map(f, xs) + Map(f, ys)
  {
  }

  /** Filtering then mapping a list extended by one element adds that
      element's image exactly when it passes. */
  lemma MapFilterSnoc<T(!new), U>(p: T -> bool, f: T -> U, xs: seq<T>, x: T)
    ensures Map(f, Filter(p, xs + [x])) == Map(f, Filter(p, xs)) + (if p(x) then [f(x)] else [])
  {
    FilterSnoc(p, xs, x);
    MapAppend(f, Filter(p, xs), if p(x) then [x] else []);
  }

  /** Where each row of two filtered and mapped groups comes from: the
      rows of the first group come from passing elements of `xs`, in the
      positions before every row of the second group, which come from
      passing elements of `ys`. */
  lemma TwoGroupsRows<A(!new), B(!new), R>(p: A -> bool, f: A -> R, xs: seq<A>, q: B -> bool, g: B -> R, ys: seq<B>)
    ensures var left := Map(f, Filter(p, xs));
      var all := left + Map(g, Filter(q, ys));
      && (forall i :: 0 <= i < |left| ==> exists x :: x in xs && p(x) && all[i] == f(x))
      && (forall i :: |left| <= i < |all| ==> exists y :: y in ys && q(y) && all[i] == g(y))
  {
    var fx := Filter(p, xs);
    var fy := Filter(q, ys);
    var left := Map(f, fx);
    var all := left + Map(g, fy);
    forall i | 0 <= i < |left|
      ensures RowOf(p, f, xs, all[i])
    {
      MappedFrom(p, f, xs, i);
      var x := fx[i];
      assert x in xs && p(x) && all[i] == f(x);
    }
    forall i | |left| <= i < |all|
      ensures RowOf(q, g, ys, all[i])
    {
      MappedFrom(q, g, ys, i - |left|);
      var y := fy[i - |left|];
      assert all[i] == Map(g, fy)[i - |left|];
      assert y in ys && q(y) && all[i] == g(y);
    }
  }

  /** `r` is the image under `f` of an element of `xs` that passes `p`. */
  ghost predicate RowOf<T(!new), U>(p: T -> bool, f: T -> U, xs: seq<T>, r: U) {
    exists x :: x in xs && p(x) && r == f(x)
  }

  /** The `k`-th row of a filtered and mapped list is the image of a passing element. */
  lemma MappedFrom<T(!new), U>(p: T -> bool, f: T -> U, xs: seq<T>, k: int)
    requires 0 <= k < |Filter(p, xs)|
    ensures Filter(p, xs)[k] in xs && p(Filter(p, xs)[k])
    ensures Map(f, Filter(p, xs))[k] == f(Filter(p, xs)[k])
  {
    assert Filter(p, xs)[k] in Filter(p, xs);
  }

  /** Every passing element of either group has its row among the mapped rows. */
  lemma TwoGroupsComplete<A(!new), B(!new), R>(p: A -> bool, f: A -> R, xs: seq<A>, q: B -> bool, g: B -> R, ys: seq<B>)
    ensures var all := Map(f, Filter(p, xs)) + Map(g, Filter(q, ys));
      && (forall x :: x in xs && p(x) ==> f(x) in all)
      && (forall y :: y in ys && q(y) ==> g(y) in all)
  {
    var fx := Filter(p, xs);
    var fy := Filter(q, ys);
    var all := Map(f, fx) + Map(g, fy);
    forall x | x in xs && p(x)
      ensures f(x) in all
    {
      var k :| 0 <= k < |fx| && fx[k] == x;
      assert all[k] == f(x);
    }
    forall y | y in ys && q(y)
      ensures g(y) in all
    {
      var k :| 0 <= k < |fy| && fy[k] == y;
      assert all[|fx| + k] == g(y);
    }
  }

  /** The first `n` of two filtered and mapped groups, the first group
      before the second, where `first` tells the two groups' rows apart:
      the list is as long as it can be up to `n`, every row comes from a
      passing element of its group, no row of the second group precedes
      one of the first, and nothing is lost when there are at most `n`
      passing elements. */
  lemma TakeOfTwoGroups<A(!new), B(!new), R>(
    p: A -> bool, f: A -> R, xs: seq<A>,
    q: B -> bool, g: B -> R, ys: seq<B>,
    first: R -> bool, n: nat)
    requires forall x :: first(f(x))
    requires forall y :: !first(g(y))
    ensures var r := Take(Map(f, Filter(p, xs)) + Map(g, Filter(q, ys)), n);
      var hits := |Filter(p, xs)| + |Filter(q, ys)|;
      && |r| == (if hits <= n then hits else n)
      && (forall i :: 0 <= i < |r| && first(r[i]) ==> exists x :: x in xs && p(x) && r[i] == f(x))
      && (forall i :: 0 <= i < |r| && !first(r[i]) ==> exists y :: y in ys && q(y) && r[i] == g(y))
      && (forall i, j :: 0 <= i < j < |r| && first(r[j]) ==> first(r[i]))
      && (hits <= n ==>
            (forall x :: x in xs && p(x) ==> f(x) in r)
            && (forall y :: y in ys && q(y) ==> g(y) in r))
  {
    var left := Map(f, Filter(p, xs));
    var all := left + Map(g, Filter(q, ys));
    var r := Take(all, n);
    TwoGroupsRows(p, f, xs, q, g, ys);
    TwoGroupsComplete(p, f, xs, q, g, ys);
    assert forall i :: 0 <= i < |r| ==> r[i] == all[i];
    assert forall i :: 0 <= i < |r| && first(r[i]) ==> i < |left|;
  }
}
