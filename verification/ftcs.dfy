/** The explicit forward-time centred-space step. */
module Ftcs {
  import Heat

  /** The next state of the explicit scheme: both ends are copied, every
      interior point moves by alpha times the second difference around it. */
  function ExplicitStep(s: seq<real>, alpha: real): (r: seq<real>)
    requires |s| >= 2
    ensures |r| == |s|
    ensures r[0] == s[0] && r[|s| - 1] == s[|s| - 1]
    ensures forall i :: 0 < i < |s| - 1 ==> StencilAt(s, alpha, r, i)
  {
    seq(|s|, i requires 0 <= i < |s| =>
      if i == 0 || i == |s| - 1 then s[i]
      else s[i] + alpha * (s[i + 1] - 2.0 * s[i] + s[i - 1]))
  }

  /** At interior point i, r differs from s by alpha times the second
      difference of s around i. */
  predicate StencilAt(s: seq<real>, alpha: real, r: seq<real>, i: int)
  {
    && 0 < i < |s| - 1 && i < |r|
    && r[i] - s[i] == alpha * (s[i + 1] - 2.0 * s[i] + s[i - 1])
  }

  /** The explicit branch of a tick as it writes the scratch buffer: the
      front and back entries are copied from the state, then interior
      entries 1 .. n-2 are written in order. Every entry is written, so
      whatever the scratch buffer held before does not matter. */
  method ExplicitSweep(s: seq<real>, alpha: real, scratch: seq<real>) returns (r: seq<real>)
    requires |s| >= 2 && |scratch| == |s|
    ensures r == ExplicitStep(s, alpha)
  {
    var n := |s|;
    ghost var next := ExplicitStep(s, alpha);
    r := scratch[0 := s[0]];
    r := r[n - 1 := s[n - 1]];
    var i := 1;
    while i < n - 1
      invariant 1 <= i <= n - 1 && |r| == n
      invariant r[0] == s[0] && r[n - 1] == s[n - 1]
      invariant forall k :: 0 < k < i ==> r[k] == next[k]
    {
      assert StencilAt(s, alpha, next, i);
      r := r[i := s[i] + alpha * (s[i + 1] - 2.0 * s[i] + s[i - 1])];
      i := i + 1;
    }
    assert forall k :: 0 <= k < n ==> r[k] == next[k];
  }

  function Min3(a: real, b: real, c: real): (m: real)
    ensures m <= a && m <= b && m <= c
    ensures m == a || m == b || m == c
  {
    if a <= b && a <= c then a else if b <= c then b else c
  }

  function Max3(a: real, b: real, c: real): (m: real)
    ensures m >= a && m >= b && m >= c
    ensures m == a || m == b || m == c
  {
    if a >= b && a >= c then a else if b >= c then b else c
  }

  /** Discrete maximum principle: with 0 <= alpha <= 1/2 the new interior
      value is a convex combination of the three old values around it, so
      it stays between their minimum and maximum. */
  lemma ExplicitMaximumPrinciple(s: seq<real>, alpha: real, i: int)
    requires |s| >= 2 && 0.0 <= alpha <= 0.5 && 0 < i < |s| - 1
    ensures Min3(s[i - 1], s[i], s[i + 1]) <= ExplicitStep(s, alpha)[i] <= Max3(s[i - 1], s[i], s[i + 1])
  {
    var r := ExplicitStep(s, alpha);
    assert StencilAt(s, alpha, r, i);
    ConvexStencil(s[i - 1], s[i], s[i + 1], r[i], alpha);
  }

  /** The stencil at one point, with neighbours a and d around b. */
  lemma ConvexStencil(a: real, b: real, d: real, next: real, alpha: real)
    requires 0.0 <= alpha <= 0.5 && next - b == alpha * (d - 2.0 * b + a)
    ensures Min3(a, b, d) <= next <= Max3(a, b, d)
  {
    var lo := Min3(a, b, d);
    var hi := Max3(a, b, d);
    assert next - lo == (1.0 - 2.0 * alpha) * (b - lo) + alpha * (d - lo) + alpha * (a - lo);
    Heat.NonnegativeProduct(1.0 - 2.0 * alpha, b - lo);
    Heat.NonnegativeProduct(alpha, d - lo);
    Heat.NonnegativeProduct(alpha, a - lo);
    assert hi - next == (1.0 - 2.0 * alpha) * (hi - b) + alpha * (hi - d) + alpha * (hi - a);
    Heat.NonnegativeProduct(1.0 - 2.0 * alpha, hi - b);
    Heat.NonnegativeProduct(alpha, hi - d);
    Heat.NonnegativeProduct(alpha, hi - a);
  }
}
