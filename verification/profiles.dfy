/** The four analytic initial-temperature shapes. The exponential is not
    modelled exactly: it is a parameter `exp` of every member that needs it,
    so each property proved here holds whatever function `exp` stands for. */
module Profiles {
  import opened Heat

  /** y raised to the natural power k. */
  function Pow(y: real, k: nat): real
  {
    if k == 0 then 1.0 else y * Pow(y, k - 1)
  }

  /** An even power does not see the sign of its base. */
  lemma {:induction false} PowEven(y: real, k: nat)
    ensures Pow(-y, 2 * k) == Pow(y, 2 * k)
  {
    if k > 0 {
      PowEven(y, k - 1);
      assert Pow(-y, 2 * k) == (-y) * ((-y) * Pow(-y, 2 * (k - 1)));
      assert Pow(y, 2 * k) == y * (y * Pow(y, 2 * (k - 1)));
    }
  }

  function Abs(x: real): (r: real)
    ensures r >= 0.0 && (r == x || r == -x)
  {
    if x < 0.0 then -x else x
  }

  /** Half-width of the Gauss-like shapes and of the rectangle. */
  const kWidth: real := 0.1 * kRangeX

  /** Radius inside which the Delta shape is nonzero. */
  const kDeltaRadius: real := 1e-10 * kRangeX

  /** Value of the profile at distance x from the domain centre. */
  function Initial(x: real, profile: Profile, ampl: real, exp: real -> real): (r: real)
    ensures profile == Rectangle ==> (r == ampl <==> Abs(x) < kWidth || ampl == 0.0)
    ensures profile == Rectangle ==> (r == 0.0 <==> Abs(x) >= kWidth || ampl == 0.0)
    ensures profile == Delta ==> (r != 0.0 <==> Abs(x) < kDeltaRadius && ampl != 0.0)
  {
    match profile
    case Gauss => ampl * exp(-Pow(x / kWidth, 2))
    case SuperGauss => ampl * exp(-Pow(x / kWidth, 8))
    case Rectangle => ampl * (if Abs(x) < kWidth then 1.0 else 0.0)
    case Delta => ampl * (if Abs(x) < kDeltaRadius then 1.0 else 0.0)
  }

  /** Every profile depends on x only through |x| or an even power of x. */
  lemma ProfileEven(x: real, profile: Profile, ampl: real, exp: real -> real)
    ensures Initial(-x, profile, ampl, exp) == Initial(x, profile, ampl, exp)
  {
    match profile
    case Gauss =>
      PowEven(x / kWidth, 1);
      assert -x / kWidth == -(x / kWidth);
    case SuperGauss =>
      PowEven(x / kWidth, 4);
      assert -x / kWidth == -(x / kWidth);
    case Rectangle =>
    case Delta =>
  }

  /** Amplitude used for a profile on a grid of spacing dx: the Delta impulse
      is scaled so that it carries the same discrete mass at any resolution. */
  function Amplitude(profile: Profile, dx: real): (a: real)
    requires dx > 0.0
    ensures a > 0.0
    ensures profile == Delta ==> a * dx == 0.1 * kRangeX
    ensures profile != Delta ==> a == 1.0
  {
    if profile == Delta then kRangeX * 0.1 / dx else 1.0
  }
}
