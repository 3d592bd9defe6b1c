/**
 * `Array.prototype.filter` as a function on sequences, and the facts that
 * make it the order-preserving selection of the matching elements.
 */
module Seqs {

  /** `s.filter(p)`: the elements of `s` satisfying `p`, in their original order. */
  function Filter<T(==,!new)>(p: T -> bool, s: seq<T>): (r: seq<T>)
    ensures |r| <= |s|
    ensures forall x :: x in r <==> x in s && p(x)
  {
    if s == [] then []
    else if p(s[0]) then [s[0]] + Filter(p, s[1..])
    else Filter(p, s[1..])
  }

  /** `r` is obtained from `s` by deleting elements, without reordering. */
  predicate IsSubsequence<T(==,!new)>(r: seq<T>, s: seq<T>)
    decreases |s|
  {
    r == [] || (s != [] && ((r[0] == s[0] && IsSubsequence(r[1..], s[1..])) || IsSubsequence(r, s[1..])))
  }

  lemma SubsequenceOfCons<T(!new)>(r: seq<T>, x: T, s: seq<T>)
    requires IsSubsequence(r, s)
    ensures IsSubsequence(r, [x] + s)
  {
    assert ([x] + s)[1..] == s;
  }

  /** The elements a filter keeps stay in their order. */
  lemma {:induction false} FilterIsSubsequence<T(!new)>(p: T -> bool, s: seq<T>)
    ensures IsSubsequence(Filter(p, s), s)
  {
    if s != [] {
      FilterIsSubsequence(p, s[1..]);
      var r := Filter(p, s);
      if p(s[0]) {
        assert r[0] == s[0] && r[1..] == Filter(p, s[1..]);
      }
    }
  }

  /** Every order-preserving selection of matching elements already lies inside the filter. */
  lemma {:induction false} FilterIsGreatest<T(!new)>(p: T -> bool, q: seq<T>, s: seq<T>)
    requires IsSubsequence(q, s)
    requires forall x :: x in q ==> p(x)
    ensures IsSubsequence(q, Filter(p, s))
    decreases |s|
  {
    if q != [] {
      if q[0] == s[0] && IsSubsequence(q[1..], s[1..]) {
        assert q[0] in q;
        assert forall x :: x in q[1..] ==> x in q;
        FilterIsGreatest(p, q[1..], s[1..]);
        var f := Filter(p, s);
        assert f == [s[0]] + Filter(p, s[1..]);
        assert f[0] == q[0] && f[1..] == Filter(p, s[1..]);
      } else {
        FilterIsGreatest(p, q, s[1..]);
        if p(s[0]) {
          SubsequenceOfCons(q, s[0], Filter(p, s[1..]));
        }
      }
    }
  }

  /**
   * `r` is exactly the order-preserving selection of the elements of `s`
   * satisfying `p`: it is such a selection, and it contains every other one.
   */
  ghost predicate SelectsExactly<T(!new)>(r: seq<T>, s: seq<T>, p: T -> bool) {
    && IsSubsequence(r, s)
    && (forall x :: x in r ==> p(x))
    && (forall q :: IsSubsequence(q, s) && (forall x :: x in q ==> p(x)) ==> IsSubsequence(q, r))
  }

  lemma FilterSelectsExactly<T(!new)>(p: T -> bool, s: seq<T>)
    ensures SelectsExactly(Filter(p, s), s, p)
  {
    FilterIsSubsequence(p, s);
    forall q | IsSubsequence(q, s) && (forall x :: x in q ==> p(x))
      ensures IsSubsequence(q, Filter(p, s))
    {
      FilterIsGreatest(p, q, s);
    }
  }

  /** Filtering a concatenation filters each part. */
  lemma {:induction false} FilterAppend<T(!new)>(p: T -> bool, s: seq<T>, t: seq<T>)
    ensures Filter(p, s + t) == Filter(p, s) + Filter(p, t)
  {
    if s == [] {
      assert s + t == t;
    } else {
      assert (s + t)[0] == s[0];
      assert (s + t)[1..] == s[1..] + t;
      FilterAppend(p, s[1..], t);
    }
  }

  /** A filter every element passes keeps the whole sequence. */
  lemma {:induction false} FilterKeepsAll<T(!new)>(p: T -> bool, s: seq<T>)
    requires forall x :: x in s ==> p(x)
    ensures Filter(p, s) == s
  {
    if s != [] {
      assert s[0] in s;
      assert forall x :: x in s[1..] ==> x in s;
      FilterKeepsAll(p, s[1..]);
      assert s == [s[0]] + s[1..];
    }
  }

  /** Filtering twice by the same predicate is filtering once. */
  lemma FilterIdempotent<T(!new)>(p: T -> bool, s: seq<T>)
    ensures Filter(p, Filter(p, s)) == Filter(p, s)
  {
    FilterKeepsAll(p, Filter(p, s));
  }
}
