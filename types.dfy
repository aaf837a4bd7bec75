/** Values shared by every part of the model: optional values, the one error the
    URL decoding can raise, and the hotel record loaded from the static data file. */
module Types {

  datatype Option<T> = None | Some(value: T)

  /** The outcome of code that can throw `URIError` (from `decodeURIComponent`). */
  datatype Result<T> = Ok(value: T) | UriError

  /** One record of the static hotel list (src/types.ts). The nightly rate is kept in
      integer cents; the page code only formats it. */
  datatype Hotel = Hotel(
    name: string,
    city: string,
    dailyRateCents: int,
    id: int,
    hasMemberRate: bool,
    image: string)
}

/** Order-preserving filtering of sequences, as `Array.prototype.filter` does it. */
module Seqs {

  /** `subsequence s of t`: `s` is `t` with some elements left out. */
  predicate Subsequence<T(==)>(s: seq<T>, t: seq<T>)
    decreases |t|
  {
    if s == [] then true
    else if t == [] then false
    else if s[|s| - 1] == t[|t| - 1] && Subsequence(s[..|s| - 1], t[..|t| - 1]) then true
    else Subsequence(s, t[..|t| - 1])
  }

  lemma {:induction false} SubsequenceExtend<T>(s: seq<T>, t: seq<T>, x: T)
    requires Subsequence(s, t)
    ensures Subsequence(s, t + [x])
    decreases |t|
  {
    if s != [] {
      assert (t + [x])[..|t + [x]| - 1] == t;
    }
  }

  lemma SubsequenceBoth<T>(s: seq<T>, t: seq<T>, x: T)
    requires Subsequence(s, t)
    ensures Subsequence(s + [x], t + [x])
  {
    assert (s + [x])[..|s|] == s && (t + [x])[..|t|] == t;
  }

  /** `s.filter(p)`: the elements of `s` that pass `p`. */
  function Filter<T(!new)>(s: seq<T>, p: T -> bool): (r: seq<T>)
    ensures |r| <= |s|
    ensures forall x :: x in r <==> x in s && p(x)
    decreases |s|
  {
    if s == [] then []
    else Filter(s[..|s| - 1], p) + (if p(s[|s| - 1]) then [s[|s| - 1]] else [])
  }

  /** The filtered elements keep their order: the result is `s` with the failing
      elements left out. */
  lemma {:induction false} FilterKeepsOrder<T(!new)>(s: seq<T>, p: T -> bool)
    ensures Subsequence(Filter(s, p), s)
    decreases |s|
  {
    if s != [] {
      var init, x := s[..|s| - 1], s[|s| - 1];
      assert s == init + [x];
      FilterKeepsOrder(init, p);
      if p(x) {
        assert Filter(s, p) == Filter(init, p) + [x];
        SubsequenceBoth(Filter(init, p), init, x);
      } else {
        assert Filter(s, p) == Filter(init, p);
        SubsequenceExtend(Filter(init, p), init, x);
      }
    }
  }

  /** An element that passes occurs in the result as often as in `s`; one that
      fails does not occur. */
  lemma {:induction false} FilterCounts<T(!new)>(s: seq<T>, p: T -> bool)
    ensures forall x :: multiset(Filter(s, p))[x] == if p(x) then multiset(s)[x] else 0
    decreases |s|
  {
    if s != [] {
      var init, y := s[..|s| - 1], s[|s| - 1];
      var tail := if p(y) then [y] else [];
      assert s == init + [y];
      assert multiset(s) == multiset(init) + multiset([y]);
      FilterCounts(init, p);
      assert multiset(Filter(s, p)) == multiset(Filter(init, p)) + multiset(tail);
    }
  }

  /** Filtering a concatenation filters each part in turn: the result keeps the
      order of the input. */
  lemma {:induction false} FilterAppend<T(!new)>(a: seq<T>, b: seq<T>, p: T -> bool)
    ensures Filter(a + b, p) == Filter(a, p) + Filter(b, p)
    decreases |b|
  {
    if b == [] {
      assert a + b == a;
    } else {
      var b', x := b[..|b| - 1], b[|b| - 1];
      assert (a + b)[..|a + b| - 1] == a + b' && (a + b)[|a + b| - 1] == x;
      FilterAppend(a, b', p);
      var tail := if p(x) then [x] else [];
      assert (Filter(a, p) + Filter(b', p)) + tail == Filter(a, p) + (Filter(b', p) + tail);
    }
  }

  /** Nothing is dropped when every element passes. */
  lemma {:induction false} FilterAll<T(!new)>(s: seq<T>, p: T -> bool)
    requires forall x :: x in s ==> p(x)
    ensures Filter(s, p) == s
    decreases |s|
  {
    if s != [] {
      assert s[..|s| - 1] + [s[|s| - 1]] == s;
      FilterAll(s[..|s| - 1], p);
    }
  }

  /** Different predicates that agree on the elements give the same result. */
  lemma {:induction false} FilterCongruent<T(!new)>(s: seq<T>, p: T -> bool, q: T -> bool)
    requires forall x :: x in s ==> (p(x) <==> q(x))
    ensures Filter(s, p) == Filter(s, q)
    decreases |s|
  {
    if s != [] {
      FilterCongruent(s[..|s| - 1], p, q);
    }
  }
}
