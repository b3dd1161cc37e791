/** The collection operations behind Swift's `filter`, `map` and `flatMap`,
    and the subsequence relation used to state that they keep order. */
module Seqs {

  /** `a` is `b` with some elements left out: its elements appear in `b` in the
      same order. Matching is done greedily from the end. */
  predicate IsSubseq<T(==)>(a: seq<T>, b: seq<T>)
    decreases |b|
  {
    if a == [] then true
    else if b == [] then false
    else if a[|a| - 1] == b[|b| - 1] then IsSubseq(a[..|a| - 1], b[..|b| - 1])
    else IsSubseq(a, b[..|b| - 1])
  }

  /** No element occurs twice. */
  predicate Distinct<T(==)>(s: seq<T>) {
    forall i, j :: 0 <= i < j < |s| ==> s[i] != s[j]
  }

  /** The set of elements of `s`. */
  function Elems<T>(s: seq<T>): set<T> {
    set x | x in s
  }

  lemma {:induction false} SubseqDropLast<T>(a: seq<T>, b: seq<T>)
    requires a != [] && IsSubseq(a, b)
    ensures IsSubseq(a[..|a| - 1], b)
    decreases |b|
  {
    var a', b' := a[..|a| - 1], b[..|b| - 1];
    if a'[..] == [] {
    } else if a[|a| - 1] == b[|b| - 1] {
      if a'[|a'| - 1] == b[|b| - 1] {
        SubseqDropLast(a', b');
      }
    } else {
      SubseqDropLast(a, b');
      if a'[|a'| - 1] == b[|b| - 1] {
        SubseqDropLast(a', b');
      }
    }
  }

  /** Appending to the longer sequence keeps a subsequence a subsequence. */
  lemma SubseqExtend<T>(a: seq<T>, b: seq<T>, x: T)
    requires IsSubseq(a, b)
    ensures IsSubseq(a, b + [x])
  {
    var b' := b + [x];
    assert b'[..|b'| - 1] == b;
    if a != [] && a[|a| - 1] == x {
      SubseqDropLast(a, b);
    }
  }

  /** Appending the same element to both keeps a subsequence a subsequence. */
  lemma SubseqAppendBoth<T>(a: seq<T>, b: seq<T>, x: T)
    requires IsSubseq(a, b)
    ensures IsSubseq(a + [x], b + [x])
  {
    assert (a + [x])[..|a|] == a;
    assert (b + [x])[..|b|] == b;
  }

  lemma {:induction false} SubseqElems<T>(a: seq<T>, b: seq<T>)
    requires IsSubseq(a, b)
    ensures forall x :: x in a ==> x in b
    decreases |b|
  {
    if a != [] && b != [] {
      if a[|a| - 1] == b[|b| - 1] {
        SubseqElems(a[..|a| - 1], b[..|b| - 1]);
        assert a == a[..|a| - 1] + [a[|a| - 1]];
      } else {
        SubseqElems(a, b[..|b| - 1]);
      }
      assert b == b[..|b| - 1] + [b[|b| - 1]];
    }
  }

  /** `s.filter(p)`: the elements satisfying `p`, in order. */
  function Filter<T(==,!new)>(s: seq<T>, p: T -> bool): (r: seq<T>)
    ensures forall x :: x in r <==> x in s && p(x)
    ensures forall x :: multiset(r)[x] == if p(x) then multiset(s)[x] else 0
    ensures IsSubseq(r, s)
    decreases |s|
  {
    if s == [] then []
    else
      var init, last := s[..|s| - 1], s[|s| - 1];
      var r := Filter(init, p);
      assert s == init + [last];
      assert multiset(s) == multiset(init) + multiset{last};
      if p(last) then
        SubseqAppendBoth(r, init, last);
        r + [last]
      else
        SubseqExtend(r, init, last);
        r
  }

  /** `s.map(f)`. */
  function Map<T, U>(s: seq<T>, f: T -> U): (r: seq<U>)
    ensures |r| == |s|
    ensures forall i :: 0 <= i < |s| ==> r[i] == f(s[i])
  {
    seq(|s|, i requires 0 <= i < |s| => f(s[i]))
  }

  /** `s.flatMap(f)`: the concatenation of `f` applied to each element. */
  function FlatMap<T(!new), U(==,!new)>(s: seq<T>, f: T -> seq<U>): (r: seq<U>)
    ensures forall y :: y in r <==> exists x :: x in s && y in f(x)
    decreases |s|
  {
    if s == [] then []
    else
      var init, last := s[..|s| - 1], s[|s| - 1];
      assert s == init + [last];
      FlatMap(init, f) + f(last)
  }

  /** The distinct elements of a sequence are as many as its set. */
  lemma {:induction false} DistinctCard<T>(s: seq<T>)
    requires Distinct(s)
    ensures |Elems(s)| == |s|
    decreases |s|
  {
    if s != [] {
      var init := s[..|s| - 1];
      DistinctCard(init);
      assert s == init + [s[|s| - 1]];
      assert Elems(s) == Elems(init) + {s[|s| - 1]};
      assert s[|s| - 1] !in Elems(init);
    }
  }

  /** `order` lists, once each, the elements of `all` already visited, and
      `remaining` holds the rest. */
  predicate IsPartialVisit<T>(all: set<T>, remaining: set<T>, order: seq<T>) {
    && remaining + Elems(order) == all
    && (forall y :: y in order ==> y !in remaining)
    && Distinct(order)
  }

  /** Moving one element from the unvisited pool to the end of the visiting
      order keeps it a partial visit. */
  lemma VisitOne<T>(all: set<T>, remaining: set<T>, order: seq<T>, x: T)
    requires IsPartialVisit(all, remaining, order) && x in remaining
    ensures IsPartialVisit(all, remaining - {x}, order + [x])
  {
    assert Elems(order + [x]) == Elems(order) + {x};
  }

  /** A finished visit lists every element exactly once. */
  lemma VisitDone<T>(all: set<T>, order: seq<T>)
    requires IsPartialVisit(all, {}, order)
    ensures Distinct(order) && Elems(order) == all && |order| == |all|
  {
    DistinctCard(order);
  }
}
