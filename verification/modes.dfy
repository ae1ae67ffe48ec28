/** The link between the stepping kernels and the amplification factors: a
    sampled Fourier mode is an eigenvector of both the explicit and the
    implicit step, with the scheme's lambda as eigenvalue. */
module Modes {
  import opened Heat
  import Stability
  import Ftcs
  import Thomas

  /** At interior point i the samples satisfy s[i-1] + s[i+1] = 2 c s[i],
      as cos(kappa (i-1)) + cos(kappa (i+1)) = 2 cos(kappa) cos(kappa i)
      does for every sampled sine or cosine wave. */
  predicate ModeAt(s: seq<real>, c: real, i: int)
  {
    0 < i < |s| - 1 && s[i - 1] + s[i + 1] == 2.0 * c * s[i]
  }

  /** s is a mode with cosine c at every interior point. */
  predicate IsMode(s: seq<real>, c: real)
  {
    && |s| >= 2
    && -1.0 <= c <= 1.0
    && forall i :: 0 < i < |s| - 1 ==> ModeAt(s, c, i)
  }

  /** A mode that also vanishes at both boundary points, such as a sampled
      sine wave with a whole number of half periods on the grid. */
  predicate IsClampedMode(s: seq<real>, c: real)
  {
    IsMode(s, c) && s[0] == 0.0 && s[|s| - 1] == 0.0
  }

  /** Every sample multiplied by k. */
  function Scale(k: real, s: seq<real>): (r: seq<real>)
    ensures |r| == |s|
    ensures forall i :: 0 <= i < |s| ==> r[i] == k * s[i]
  {
    seq(|s|, i requires 0 <= i < |s| => k * s[i])
  }

  /** The explicit step multiplies every interior sample of a mode by the
      explicit amplification factor. */
  lemma ExplicitOnMode(s: seq<real>, c: real, alpha: real)
    requires IsMode(s, c) && alpha >= 0.0
    ensures forall i :: 0 < i < |s| - 1 ==>
              Ftcs.ExplicitStep(s, alpha)[i] == Stability.Lambda(Explicit, c, alpha) * s[i]
  {
    var r := Ftcs.ExplicitStep(s, alpha);
    forall i | 0 < i < |s| - 1
      ensures r[i] == Stability.Lambda(Explicit, c, alpha) * s[i]
    {
      assert ModeAt(s, c, i) && Ftcs.StencilAt(s, alpha, r, i);
      ExplicitPoint(s, r, c, alpha, i);
    }
  }

  /** The explicit stencil at one point of a mode. */
  lemma ExplicitPoint(s: seq<real>, r: seq<real>, c: real, alpha: real, i: int)
    requires -1.0 <= c <= 1.0 && alpha >= 0.0
    requires ModeAt(s, c, i) && Ftcs.StencilAt(s, alpha, r, i)
    ensures r[i] == Stability.Lambda(Explicit, c, alpha) * s[i]
  {
    var left, mid, right, next := s[i - 1], s[i], s[i + 1], r[i];
    var g := Stability.Gap(c);
    assert right - 2.0 * mid + left == -2.0 * g * mid;
    assert alpha * (-2.0 * g * mid) == -2.0 * alpha * g * mid;
  }

  /** On a clamped mode the whole explicit step is a multiplication by the
      explicit amplification factor. */
  lemma ExplicitOnClampedMode(s: seq<real>, c: real, alpha: real)
    requires IsClampedMode(s, c) && alpha >= 0.0
    ensures Ftcs.ExplicitStep(s, alpha) == Scale(Stability.Lambda(Explicit, c, alpha), s)
  {
    var r := Ftcs.ExplicitStep(s, alpha);
    var lambda := Stability.Lambda(Explicit, c, alpha);
    ExplicitOnMode(s, c, alpha);
    forall i | 0 < i < |s| - 1
      ensures ScaledAt(s, r, lambda, i)
    {
    }
    ScaledWithClampedEnds(s, r, lambda);
  }

  /** r is lambda times s at index i. */
  predicate ScaledAt(s: seq<real>, r: seq<real>, lambda: real, i: int)
  {
    0 <= i < |s| && i < |r| && r[i] == lambda * s[i]
  }

  /** A vector that is lambda times s inside and agrees with s at both ends,
      where s vanishes, is lambda times s. */
  lemma ScaledWithClampedEnds(s: seq<real>, r: seq<real>, lambda: real)
    requires |s| >= 2 && |r| == |s| && s[0] == 0.0 && s[|s| - 1] == 0.0
    requires r[0] == s[0] && r[|s| - 1] == s[|s| - 1]
    requires forall i :: 0 < i < |s| - 1 ==> ScaledAt(s, r, lambda, i)
    ensures r == Scale(lambda, s)
  {
    var t := Scale(lambda, s);
    forall i | 0 <= i < |s|
      ensures r[i] == t[i]
    {
      if i == 0 || i == |s| - 1 {
        assert r[i] == 0.0 == lambda * s[i];
      } else {
        assert ScaledAt(s, r, lambda, i);
      }
    }
  }

  /** The implicit amplification factor times a clamped mode solves the
      implicit step's tridiagonal system for that mode. */
  lemma ScaledModeSolves(s: seq<real>, c: real, alpha: real)
    requires IsClampedMode(s, c) && alpha >= 0.0
    ensures Thomas.SolvesBtcs(s, alpha, Scale(Stability.Lambda(Implicit, c, alpha), s))
  {
    var lambda := Stability.Lambda(Implicit, c, alpha);
    var x := Scale(lambda, s);
    forall i | 0 < i < |s| - 1
      ensures Thomas.RowHolds(s, alpha, x, i)
    {
      assert ModeAt(s, c, i);
      ImplicitPoint(s[i - 1], s[i], s[i + 1], c, alpha);
    }
  }

  /** The implicit row at one point whose neighbours sum to 2 c times its
      value, with every value scaled by the implicit factor. */
  lemma ImplicitPoint(left: real, mid: real, right: real, c: real, alpha: real)
    requires -1.0 <= c <= 1.0 && alpha >= 0.0 && left + right == 2.0 * c * mid
    ensures var lambda := Stability.Lambda(Implicit, c, alpha);
            (1.0 + 2.0 * alpha) * (lambda * mid) - alpha * (lambda * left + lambda * right) == mid
  {
    var d := Stability.ImplicitDenominator(c, alpha);
    var lambda := Stability.Lambda(Implicit, c, alpha);
    assert lambda * d == 1.0;
    assert lambda * left + lambda * right == lambda * (2.0 * c * mid);
    assert (1.0 + 2.0 * alpha) * (lambda * mid) - alpha * (lambda * (2.0 * c * mid)) == (lambda * d) * mid;
  }

  /** On a clamped mode the implicit step is a multiplication by the
      implicit amplification factor: the Thomas solver reproduces lambda. */
  lemma ImplicitOnClampedMode(s: seq<real>, c: real, alpha: real)
    requires IsClampedMode(s, c) && alpha >= 0.0
    ensures Thomas.ImplicitStep(s, alpha) == Scale(Stability.Lambda(Implicit, c, alpha), s)
  {
    ScaledModeSolves(s, c, alpha);
    Thomas.SolutionUnique(s, alpha, Scale(Stability.Lambda(Implicit, c, alpha), s));
  }
}
