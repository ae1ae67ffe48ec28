/** Von Neumann analysis of the three schemes. A Fourier mode of wavenumber
    kappa is multiplied per step by an amplification factor lambda that is a
    rational function of c = cos(kappa); the cosine itself is not modelled,
    so every member takes c in [-1, 1] directly. */
module Stability {
  import opened Heat

  /** 1 - cos(kappa): the mode's weight in the second difference. */
  function Gap(c: real): (g: real)
    requires -1.0 <= c <= 1.0
    ensures 0.0 <= g <= 2.0
  {
    1.0 - c
  }

  function ImplicitDenominator(c: real, alpha: real): (d: real)
    requires -1.0 <= c <= 1.0 && alpha >= 0.0
    ensures d >= 1.0
  {
    NonnegativeProduct(2.0 * alpha, Gap(c));
    1.0 + 2.0 * alpha * Gap(c)
  }

  function CrankNicolsonDenominator(c: real, alpha: real): (d: real)
    requires -1.0 <= c <= 1.0 && alpha >= 0.0
    ensures d >= 1.0
  {
    NonnegativeProduct(alpha, Gap(c));
    1.0 + alpha * Gap(c)
  }

  /** The per-step amplification factor of a scheme. */
  function Lambda(m: Method, c: real, alpha: real): (r: real)
    requires -1.0 <= c <= 1.0 && alpha >= 0.0
    ensures r <= 1.0
    ensures c == 1.0 ==> r == 1.0
    ensures m == Implicit ==> 0.0 < r
    ensures m == CrankNicolson ==> -1.0 <= r
  {
    match m
    case Explicit =>
      NonnegativeProduct(2.0 * alpha, Gap(c));
      1.0 - 2.0 * alpha * Gap(c)
    case Implicit =>
      var d := ImplicitDenominator(c, alpha);
      QuotientInBand(1.0, d);
      1.0 / d
    case CrankNicolson =>
      var d := CrankNicolsonDenominator(c, alpha);
      NonnegativeProduct(alpha, Gap(c));
      QuotientInBand(1.0 - alpha * Gap(c), d);
      (1.0 - alpha * Gap(c)) / d
  }

  /** A numerator within [-d, d] over a denominator d >= 1 gives a quotient
      within [-1, 1], and a positive numerator a positive quotient. */
  lemma QuotientInBand(n: real, d: real)
    requires d >= 1.0 && -d <= n <= d
    ensures -1.0 <= n / d <= 1.0
    ensures n > 0.0 ==> n / d > 0.0
    ensures d == 1.0 ==> n / d == n
  {
    var q := n / d;
    assert q * d == n;
    assert (1.0 - q) * d == d - n;
    assert (1.0 + q) * d == d + n;
  }

  /** A scheme damps the mode when |lambda| <= 1, that is when the
      dissipation -ln|lambda| it reports is not negative. */
  predicate Damped(lambda: real) { -1.0 <= lambda <= 1.0 }

  /** The implicit scheme and Crank-Nicolson damp every mode for every
      nonnegative diffusion number. */
  lemma UnconditionallyDamped(c: real, alpha: real)
    requires -1.0 <= c <= 1.0 && alpha >= 0.0
    ensures Damped(Lambda(Implicit, c, alpha))
    ensures Damped(Lambda(CrankNicolson, c, alpha))
  {
  }

  /** The explicit scheme damps every mode exactly when alpha <= 1/2. */
  lemma ExplicitDampedIff(alpha: real)
    requires alpha >= 0.0
    ensures (forall c :: -1.0 <= c <= 1.0 ==> Damped(Lambda(Explicit, c, alpha))) <==> alpha <= 0.5
  {
    if alpha <= 0.5 {
      forall c | -1.0 <= c <= 1.0
        ensures Damped(Lambda(Explicit, c, alpha))
      {
        assert alpha * Gap(c) <= 0.5 * 2.0 by {
          assert alpha * Gap(c) <= alpha * 2.0;
        }
      }
    } else {
      assert Lambda(Explicit, -1.0, alpha) < -1.0;
    }
  }

  /** The imaginary part of the principal complex logarithm of a real
      lambda, in units of pi: the phase of a negative factor is pi. */
  function NormalizedDispersion(lambda: real): (r: real)
    ensures r == 0.0 || r == 1.0
    ensures r == 1.0 <==> lambda < 0.0
  {
    if lambda < 0.0 then 1.0 else 0.0
  }

  /** The implicit scheme never reverses the sign of a mode; Crank-Nicolson
      does so exactly for the modes with alpha (1 - c) > 1. */
  lemma DispersionOfSchemes(c: real, alpha: real)
    requires -1.0 <= c <= 1.0 && alpha >= 0.0
    ensures NormalizedDispersion(Lambda(Implicit, c, alpha)) == 0.0
    ensures NormalizedDispersion(Lambda(CrankNicolson, c, alpha)) == 1.0 <==> alpha * (1.0 - c) > 1.0
    ensures NormalizedDispersion(Lambda(Explicit, c, alpha)) == 1.0 <==> 2.0 * alpha * (1.0 - c) > 1.0
  {
    var d := CrankNicolsonDenominator(c, alpha);
    var n := 1.0 - alpha * Gap(c);
    assert Lambda(CrankNicolson, c, alpha) == n / d;
    assert n / d < 0.0 <==> n < 0.0 by {
      assert (n / d) * d == n;
    }
  }

  /** The normalised wavenumbers at which the curves are sampled:
      xi_i = i / (nx - 1) for i = 0 .. nx/2. */
  function XiGrid(nx: nat): (xi: seq<real>)
    requires nx >= 2
    ensures |xi| == nx / 2 + 1
    ensures xi[0] == 0.0
    ensures forall i, j :: 0 <= i < j < |xi| ==> xi[i] < xi[j]
  {
    var xi := seq(nx / 2 + 1, i requires 0 <= i <= nx / 2 => i as real / (nx - 1) as real);
    assert forall i, j :: 0 <= i < j < |xi| ==> xi[i] < xi[j] by {
      forall i, j | 0 <= i < j < |xi|
        ensures xi[i] < xi[j]
      {
        DivideMonotone(i as real, j as real, (nx - 1) as real);
      }
    }
    xi
  }

  lemma DivideMonotone(a: real, b: real, d: real)
    requires a < b && d > 0.0
    ensures a / d < b / d
  {
    assert (b / d - a / d) * d == b - a;
  }

  lemma CancelFactor(a: real, b: real, d: real)
    requires d != 0.0 && a * d == b * d
    ensures a == b
  {
    assert (a - b) * d == 0.0;
  }

  /** The last sample is the Nyquist fraction 1/2 exactly when nx is odd;
      with an even nx the grid runs past it. */
  lemma XiGridEnd(nx: nat)
    requires nx >= 2
    ensures nx % 2 == 1 ==> XiGrid(nx)[nx / 2] == 0.5
    ensures nx % 2 == 0 ==> XiGrid(nx)[nx / 2] > 0.5
  {
    var h := nx / 2;
    var last := XiGrid(nx)[h];
    assert last * (nx - 1) as real == h as real;
    if nx % 2 == 1 {
      assert (nx - 1) as real == 2.0 * h as real;
      CancelFactor(last, 0.5, (nx - 1) as real);
    } else {
      assert (nx - 1) as real == 2.0 * h as real - 1.0;
      DivideMonotone(0.5 * (nx - 1) as real, h as real, (nx - 1) as real);
    }
  }

  /** The ideal continuous decay rate xi^2 at every grid wavenumber. */
  function IdealDissipation(nx: nat): (d: seq<real>)
    requires nx >= 2
    ensures |d| == |XiGrid(nx)|
    ensures forall i :: 0 <= i < |d| ==> d[i] == XiGrid(nx)[i] * XiGrid(nx)[i]
  {
    var xi := XiGrid(nx);
    seq(|xi|, i requires 0 <= i < |xi| => xi[i] * xi[i])
  }

  /** The ideal decay curve starts at 0 and rises strictly; it ends at
      exactly 1/4, the square of the Nyquist fraction, when nx is odd, and
      above 1/4 when nx is even. */
  lemma IdealDissipationShape(nx: nat)
    requires nx >= 2
    ensures var d := IdealDissipation(nx);
            && d[0] == 0.0
            && (forall i, j :: 0 <= i < j < |d| ==> d[i] < d[j])
            && (nx % 2 == 1 ==> d[|d| - 1] == 0.25)
            && (nx % 2 == 0 ==> d[|d| - 1] > 0.25)
  {
    var xi := XiGrid(nx);
    var d := IdealDissipation(nx);
    forall i, j | 0 <= i < j < |d|
      ensures d[i] < d[j]
    {
      assert 0.0 <= xi[i] by {
        if i > 0 {
          assert xi[0] < xi[i];
        }
      }
      SquareMonotone(xi[i], xi[j]);
    }
    XiGridEnd(nx);
    if nx % 2 == 0 {
      SquareMonotone(0.5, xi[nx / 2]);
    }
  }

  lemma SquareMonotone(a: real, b: real)
    requires 0.0 <= a < b
    ensures a * a < b * b
  {
    var e := b - a;
    assert b * b == a * a + 2.0 * a * e + e * e;
    assert e * e > 0.0;
    assert a * e >= 0.0;
  }
}
