/**
  Order-preserving selection from a sequence, the meaning of Python's
  list comprehension `[x for x in xs if p(x)]`, and the facts about it
  that the event filters rely on.
 */
module Selection {

  /** The elements of `s` that satisfy `p`, in their order in `s`. */
  function Filter<T(==, !new)>(p: T -> bool, s: seq<T>): (r: seq<T>)
    ensures |r| <= |s|
    ensures forall x :: x in r <==> x in s && p(x)
  {
    if s == [] then [] else (if p(s[0]) then [s[0]] else []) + Filter(p, s[1..])
  }

  /** `a` is `b` with some of its elements left out and the others in their order. */
  predicate IsSubsequence<T(==)>(a: seq<T>, b: seq<T>)
    decreases |a| + |b|
  {
    || a == []
    || (b != [] && ((a[0] == b[0] && IsSubsequence(a[1..], b[1..])) || IsSubsequence(a, b[1..])))
  }

  /**
    The selection keeps every element that satisfies `p`, as often as it
    occurs, drops every other one, and keeps the order of `s`.
   */
  lemma {:induction false} FilterSelects<T(!new)>(p: T -> bool, s: seq<T>)
    ensures IsSubsequence(Filter(p, s), s)
    ensures forall x :: multiset(Filter(p, s))[x] == if p(x) then multiset(s)[x] else 0
  {
    if s != [] {
      FilterSelects(p, s[1..]);
      assert s == [s[0]] + s[1..];
      assert multiset(s) == multiset([s[0]]) + multiset(s[1..]);
      var rest := Filter(p, s[1..]);
      if p(s[0]) {
        assert Filter(p, s) == [s[0]] + rest;
        assert Filter(p, s)[1..] == rest;
        assert multiset(Filter(p, s)) == multiset([s[0]]) + multiset(rest);
      } else {
        assert Filter(p, s) == rest;
      }
    }
  }

  /** Selections by pairwise exclusive predicates that all imply `t` fit together inside the selection by `t`. */
  lemma {:induction false} DisjointSelectionsFit<T(!new)>(p: T -> bool, q: T -> bool, r: T -> bool, t: T -> bool, s: seq<T>)
    requires forall x :: p(x) ==> t(x) && !q(x) && !r(x)
    requires forall x :: q(x) ==> t(x) && !r(x)
    requires forall x :: r(x) ==> t(x)
    ensures |Filter(p, s)| + |Filter(q, s)| + |Filter(r, s)| <= |Filter(t, s)|
  {
    if s != [] {
      DisjointSelectionsFit(p, q, r, t, s[1..]);
    }
  }

  /**
    Selecting by a stronger predicate selects no more, and strictly fewer
    when some element satisfies only the weaker one.
   */
  lemma {:induction false} StrongerSelectsFewer<T(!new)>(p: T -> bool, q: T -> bool, s: seq<T>)
    requires forall x :: p(x) ==> q(x)
    ensures |Filter(p, s)| <= |Filter(q, s)|
    ensures (exists x :: x in s && q(x) && !p(x)) ==> |Filter(p, s)| < |Filter(q, s)|
  {
    if s != [] {
      StrongerSelectsFewer(p, q, s[1..]);
      if exists x :: x in s && q(x) && !p(x) {
        var x :| x in s && q(x) && !p(x);
        if x != s[0] {
          assert x in s[1..];
        }
      }
    }
  }

  /** Selecting first by a weaker predicate changes nothing. */
  lemma {:induction false} FilterOfFilter<T(!new)>(p: T -> bool, q: T -> bool, s: seq<T>)
    requires forall x :: p(x) ==> q(x)
    ensures Filter(p, Filter(q, s)) == Filter(p, s)
  {
    if s != [] {
      FilterOfFilter(p, q, s[1..]);
      if q(s[0]) {
        assert Filter(q, s) == [s[0]] + Filter(q, s[1..]);
        assert Filter(q, s)[1..] == Filter(q, s[1..]);
      } else {
        assert Filter(q, s) == Filter(q, s[1..]);
        assert Filter(p, s) == Filter(p, s[1..]);
      }
    }
  }

  /** The first element selected is the first element of `s` that satisfies `p`. */
  lemma {:induction false} FirstSelected<T(!new)>(p: T -> bool, s: seq<T>, i: nat)
    requires i < |s| && p(s[i])
    requires forall j :: 0 <= j < i ==> !p(s[j])
    ensures Filter(p, s) != [] && Filter(p, s)[0] == s[i]
  {
    if i > 0 {
      FirstSelected(p, s[1..], i - 1);
    }
  }
}
