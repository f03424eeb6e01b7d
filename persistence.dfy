/** Rows of a persistence diagram as the external persistent-homology tool
    writes them, and the order-preserving row selection (a pandas boolean
    mask, `df.loc[mask]`) that every consumer of those tables applies. */
module Persistence {

  /** One critical-point pair: the homology dimension, the birth and death
      values, and the pixel coordinates of the birth and death cells. */
  datatype Pair = Pair(dim: int, birth: int, death: int, birthX: int, birthY: int, deathX: int, deathY: int)

  /** `df.loc[mask]`: the rows that satisfy `p`, in input order. */
  function Select<T>(s: seq<T>, p: T -> bool): (r: seq<T>)
    ensures |r| <= |s|
    ensures forall x :: x in r ==> x in s && p(x)
    ensures forall x :: x in s && p(x) ==> x in r
  {
    if s == [] then []
    else (if p(s[0]) then [s[0]] else []) + Select(s[1..], p)
  }

  /** `a` can be obtained from `b` by deleting elements (greedy matching). */
  predicate IsSubsequence<T(==)>(a: seq<T>, b: seq<T>)
    decreases |b|
  {
    if a == [] then true
    else if b == [] then false
    else if a[0] == b[0] then IsSubsequence(a[1..], b[1..])
    else IsSubsequence(a, b[1..])
  }

  lemma {:induction false} SubsequenceDropHead<T>(a: seq<T>, b: seq<T>)
    requires a != [] && IsSubsequence(a, b)
    ensures IsSubsequence(a[1..], b)
    decreases |b|, 0
  {
    if a[1..] != [] {
      if a[0] == b[0] {
        SubsequenceCons(a[1..], b[1..], b[0]);
        assert [b[0]] + b[1..] == b;
      } else {
        SubsequenceDropHead(a, b[1..]);
        SubsequenceCons(a[1..], b[1..], b[0]);
        assert [b[0]] + b[1..] == b;
      }
    }
  }

  lemma {:induction false} SubsequenceCons<T>(a: seq<T>, b: seq<T>, x: T)
    requires IsSubsequence(a, b)
    ensures IsSubsequence(a, [x] + b)
    decreases |b|, 1
  {
    var xb := [x] + b;
    assert xb[1..] == b;
    if a != [] && a[0] == x {
      SubsequenceDropHead(a, b);
    }
  }

  /** The selected rows keep their input order. */
  lemma {:induction false} SelectIsSubsequence<T>(s: seq<T>, p: T -> bool)
    ensures IsSubsequence(Select(s, p), s)
  {
    if s != [] {
      SelectIsSubsequence(s[1..], p);
      if p(s[0]) {
        var r := Select(s, p);
        assert r[0] == s[0] && r[1..] == Select(s[1..], p);
      } else {
        assert Select(s, p) == Select(s[1..], p);
        SubsequenceCons(Select(s[1..], p), s[1..], s[0]);
        assert [s[0]] + s[1..] == s;
      }
    }
  }

  /** Every qualifying row is kept as often as it occurs, every other row is dropped. */
  lemma {:induction false} SelectMultiplicity<T>(s: seq<T>, p: T -> bool, x: T)
    ensures multiset(Select(s, p))[x] == if p(x) then multiset(s)[x] else 0
  {
    if s != [] {
      SelectMultiplicity(s[1..], p, x);
      assert s == [s[0]] + s[1..];
      assert multiset(s) == multiset([s[0]]) + multiset(s[1..]);
    }
  }

  /** Selecting twice with the same mask changes nothing. */
  lemma {:induction false} SelectIdempotent<T>(s: seq<T>, p: T -> bool)
    ensures Select(Select(s, p), p) == Select(s, p)
  {
    if s != [] {
      SelectIdempotent(s[1..], p);
      if p(s[0]) {
        var r := Select(s, p);
        assert r[0] == s[0] && r[1..] == Select(s[1..], p);
        assert Select(r, p) == [s[0]] + Select(r[1..], p);
      } else {
        assert Select(s, p) == Select(s[1..], p);
      }
    }
  }

  lemma {:induction false} SelectAppend<T>(s: seq<T>, t: seq<T>, p: T -> bool)
    ensures Select(s + t, p) == Select(s, p) + Select(t, p)
  {
    if s != [] {
      var head := if p(s[0]) then [s[0]] else [];
      assert (s + t)[0] == s[0] && (s + t)[1..] == s[1..] + t;
      SelectAppend(s[1..], t, p);
      calc {
        Select(s + t, p);
        head + Select(s[1..] + t, p);
        head + (Select(s[1..], p) + Select(t, p));
        { AppendAssociative(head, Select(s[1..], p), Select(t, p)); }
        (head + Select(s[1..], p)) + Select(t, p);
      }
    } else {
      assert s + t == t;
    }
  }

  lemma AppendAssociative<T>(a: seq<T>, b: seq<T>, c: seq<T>)
    ensures a + (b + c) == (a + b) + c
  {
  }

  /** A weaker mask selects at least the rows of a stronger one, in the same order. */
  lemma {:induction false} SelectMonotone<T>(s: seq<T>, p: T -> bool, q: T -> bool)
    requires forall x :: x in s && p(x) ==> q(x)
    ensures IsSubsequence(Select(s, p), Select(s, q))
  {
    if s != [] {
      SelectMonotone(s[1..], p, q);
      var rp, rq := Select(s, p), Select(s, q);
      if p(s[0]) {
        assert rp[0] == s[0] && rp[1..] == Select(s[1..], p);
        assert rq[0] == s[0] && rq[1..] == Select(s[1..], q);
      } else if q(s[0]) {
        assert rp == Select(s[1..], p);
        assert rq == [s[0]] + Select(s[1..], q);
        SubsequenceCons(rp, Select(s[1..], q), s[0]);
      } else {
        assert rp == Select(s[1..], p);
        assert rq == Select(s[1..], q);
      }
    }
  }

  /** Two masks that agree on every row select the same rows. */
  lemma {:induction false} SelectCongruent<T>(s: seq<T>, p: T -> bool, q: T -> bool)
    requires forall x :: x in s ==> p(x) == q(x)
    ensures Select(s, p) == Select(s, q)
  {
    if s != [] {
      SelectCongruent(s[1..], p, q);
    }
  }
}
