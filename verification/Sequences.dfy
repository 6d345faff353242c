/** Order-preserving selection from sequences, and what it means to split one in two. */
module Sequences {

  /** The elements satisfying `p`, in order. */
  function Filter<T>(p: T -> bool, s: seq<T>): seq<T>
  {
    if s == [] then []
    else Filter(p, s[..|s| - 1]) + if p(s[|s| - 1]) then [s[|s| - 1]] else []
  }

  function Not<T>(p: T -> bool): T -> bool {
    x => !p(x)
  }

  /** Every element satisfies `p`. */
  ghost predicate All<T>(p: T -> bool, s: seq<T>) {
    forall i :: 0 <= i < |s| ==> p(s[i])
  }

  /** `s` arises by shuffling `a` and `b` together, each keeping its order. */
  ghost predicate Interleaves<T>(s: seq<T>, a: seq<T>, b: seq<T>)
  {
    if s == [] then a == [] && b == []
    else
      || (a != [] && a[|a| - 1] == s[|s| - 1] && Interleaves(s[..|s| - 1], a[..|a| - 1], b))
      || (b != [] && b[|b| - 1] == s[|s| - 1] && Interleaves(s[..|s| - 1], a, b[..|b| - 1]))
  }

  /** Selecting by a test and by its negation splits a sequence without loss, copy or reordering. */
  lemma {:induction false} FilterSplits<T>(p: T -> bool, s: seq<T>)
    ensures Interleaves(s, Filter(p, s), Filter(Not(p), s))
    ensures All(p, Filter(p, s)) && All(Not(p), Filter(Not(p), s))
  {
    if s != [] {
      var init, last := s[..|s| - 1], s[|s| - 1];
      FilterSplits(p, init);
      var a, b := Filter(p, init), Filter(Not(p), init);
      assert (a + [last])[..|a|] == a && (b + [last])[..|b|] == b;
      assert if p(last) then Filter(p, s) == a + [last] && Filter(Not(p), s) == b
             else Filter(p, s) == a && Filter(Not(p), s) == b + [last];
    }
  }

  /** ... and is the only such split. */
  lemma {:induction false} SplitUnique<T>(p: T -> bool, s: seq<T>, a: seq<T>, b: seq<T>)
    requires Interleaves(s, a, b)
    requires All(p, a) && All(Not(p), b)
    ensures a == Filter(p, s) && b == Filter(Not(p), s)
  {
    if s != [] {
      var init, last := s[..|s| - 1], s[|s| - 1];
      if p(last) {
        assert b != [] ==> Not(p)(b[|b| - 1]);
        assert Interleaves(init, a[..|a| - 1], b);
        SplitUnique(p, init, a[..|a| - 1], b);
        assert a == a[..|a| - 1] + [last];
      } else {
        assert Interleaves(init, a, b[..|b| - 1]);
        SplitUnique(p, init, a, b[..|b| - 1]);
        assert b == b[..|b| - 1] + [last];
      }
    }
  }

  /** No element is lost or copied. */
  lemma {:induction false} InterleavedMembers<T>(s: seq<T>, a: seq<T>, b: seq<T>)
    requires Interleaves(s, a, b)
    ensures multiset(s) == multiset(a) + multiset(b)
  {
    if s != [] {
      var init, last := s[..|s| - 1], s[|s| - 1];
      assert s == init + [last];
      if a != [] && a[|a| - 1] == last && Interleaves(init, a[..|a| - 1], b) {
        InterleavedMembers(init, a[..|a| - 1], b);
        assert a == a[..|a| - 1] + [last];
      } else {
        InterleavedMembers(init, a, b[..|b| - 1]);
        assert b == b[..|b| - 1] + [last];
      }
    }
  }
}
