/** Small shared vocabulary: an optional value for the error paths, absolute
    value, sums of reals, and the integer conversions the Python code relies on. */
module Common {

  /** `None` stands for a call that raises in the source (an index error, an
      empty reduction) and therefore produces no table. */
  datatype Option<T> = None | Some(value: T)

  /** An 8-bit pixel or orientation value, as read from a bitmap. */
  type Byte = v: int | 0 <= v < 256

  function Abs(x: int): int
  {
    if x < 0 then -x else x
  }

  function Max(a: real, b: real): real
  {
    if a < b then b else a
  }

  function Sum(s: seq<real>): real
  {
    if s == [] then 0.0 else Sum(s[..|s| - 1]) + s[|s| - 1]
  }

  lemma {:induction false} SumAppend(s: seq<real>, t: seq<real>)
    ensures Sum(s + t) == Sum(s) + Sum(t)
    decreases |t|
  {
    if t == [] {
      assert s + t == s;
    } else {
      assert (s + t)[..|s + t| - 1] == s + t[..|t| - 1];
      SumAppend(s, t[..|t| - 1]);
    }
  }

  /** Adding w to one entry adds w to the sum. */
  lemma {:induction false} SumUpdate(s: seq<real>, k: nat, w: real)
    requires k < |s|
    ensures Sum(s[k := s[k] + w]) == Sum(s) + w
    decreases |s|
  {
    var n := |s|;
    var t := s[k := s[k] + w];
    assert t[..n - 1] == if k < n - 1 then s[..n - 1][k := s[k] + w] else s[..n - 1];
    if k < n - 1 {
      SumUpdate(s[..n - 1], k, w);
    }
  }

  function SumInt(s: seq<int>): int
  {
    if s == [] then 0 else SumInt(s[..|s| - 1]) + s[|s| - 1]
  }

  lemma {:induction false} SumIntUpdate(s: seq<int>, k: nat, w: int)
    requires k < |s|
    ensures SumInt(s[k := s[k] + w]) == SumInt(s) + w
    decreases |s|
  {
    var n := |s|;
    var t := s[k := s[k] + w];
    assert t[..n - 1] == if k < n - 1 then s[..n - 1][k := s[k] + w] else s[..n - 1];
    if k < n - 1 {
      SumIntUpdate(s[..n - 1], k, w);
    }
  }

  /** A sum of non-negative entries is at least each entry. */
  lemma {:induction false} SumIntAtLeastEntry(s: seq<int>, k: nat)
    requires k < |s| && forall j :: 0 <= j < |s| ==> s[j] >= 0
    ensures SumInt(s) >= s[k]
    decreases |s|
  {
    var n := |s|;
    if k < n - 1 {
      SumIntAtLeastEntry(s[..n - 1], k);
    } else if n > 1 {
      SumIntAtLeastEntry(s[..n - 1], 0);
    }
  }

  /** A fallible step applied to every element in order: the values, or
      `None` as soon as one step fails (a loop that raises at its first failing
      element). */
  function MapAll<T(!new), U>(xs: seq<T>, f: T --> Option<U>): Option<seq<U>>
    requires forall x :: f.requires(x)
  {
    if xs == [] then Some([])
    else
      match MapAll(xs[..|xs| - 1], f)
      case None => None
      case Some(vs) =>
        match f(xs[|xs| - 1])
        case None => None
        case Some(v) => Some(vs + [v])
  }

  /** One more element: a failure stops the run, a value is appended. */
  lemma MapAllSnoc<T(!new), U>(xs: seq<T>, x: T, f: T --> Option<U>)
    requires forall x :: f.requires(x)
    ensures MapAll(xs + [x], f) ==
      match MapAll(xs, f)
      case None => None
      case Some(vs) => if f(x).None? then None else Some(vs + [f(x).value])
  {
    assert (xs + [x])[..|xs|] == xs;
  }

  /** Running over one more element of a prefix. */
  lemma MapAllPrefix<T(!new), U>(xs: seq<T>, i: nat, f: T --> Option<U>)
    requires i < |xs| && forall x :: f.requires(x)
    ensures MapAll(xs[..i + 1], f) ==
      match MapAll(xs[..i], f)
      case None => None
      case Some(vs) => if f(xs[i]).None? then None else Some(vs + [f(xs[i]).value])
  {
    assert xs[..i + 1] == xs[..i] + [xs[i]];
    MapAllSnoc(xs[..i], xs[i], f);
  }

  /** The run fails exactly when the step fails on some element. */
  lemma {:induction false} MapAllNone<T(!new), U>(xs: seq<T>, f: T --> Option<U>)
    requires forall x :: f.requires(x)
    ensures MapAll(xs, f).None? <==> exists k :: 0 <= k < |xs| && f(xs[k]).None?
  {
    if xs != [] {
      var n := |xs|;
      MapAllNone(xs[..n - 1], f);
      assert forall k :: 0 <= k < n - 1 ==> xs[..n - 1][k] == xs[k];
    }
  }

  /** A run that succeeds holds the step's value on every element, in order. */
  lemma {:induction false} MapAllValues<T(!new), U>(xs: seq<T>, f: T --> Option<U>)
    requires forall x :: f.requires(x)
    ensures MapAll(xs, f).Some? ==>
      && |MapAll(xs, f).value| == |xs|
      && forall k :: 0 <= k < |xs| ==> f(xs[k]).Some? && MapAll(xs, f).value[k] == f(xs[k]).value
  {
    if xs != [] {
      var n := |xs|;
      MapAllValues(xs[..n - 1], f);
      assert forall k :: 0 <= k < n - 1 ==> xs[..n - 1][k] == xs[k];
    }
  }

  /** Python's `int(r)` and numpy's `astype(int)` on a real: truncation toward zero. */
  function TruncToInt(r: real): (n: int)
    ensures r >= 0.0 ==> n as real <= r < n as real + 1.0
    ensures r < 0.0 ==> n as real - 1.0 < r <= n as real
  {
    if r >= 0.0 then r.Floor else -((-r).Floor)
  }
}
