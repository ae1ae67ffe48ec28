/** Snapping the spatial resolution to a power of two. The spin box value n
    is rounded to 2^m with m = round(log2 n), and the slider shows m - 4.
    Logarithm and power are replaced by their integer characterisation:
    round(log2 n) = m exactly when 2^(2m) <= 2 n^2 < 2^(2m+2), that is
    m - 1/2 <= log2 n < m + 1/2. */
module Snapping {
  import opened Heat

  /** 2 raised to the natural power k. */
  function Pow2(k: nat): (p: nat)
    ensures p >= 1
  {
    if k == 0 then 1 else 2 * Pow2(k - 1)
  }

  lemma {:induction false} Pow2Monotone(a: nat, b: nat)
    requires a <= b
    ensures Pow2(a) <= Pow2(b)
  {
    if a < b {
      Pow2Monotone(a, b - 1);
    }
  }

  lemma {:induction false} Pow2Square(k: nat)
    ensures Pow2(2 * k) == Pow2(k) * Pow2(k)
  {
    if k > 0 {
      Pow2Square(k - 1);
      var p := Pow2(k - 1);
      assert Pow2(k) == 2 * p;
      assert Pow2(2 * k) == 4 * Pow2(2 * (k - 1));
      assert (2 * p) * (2 * p) == 4 * (p * p);
    }
  }

  /** m is the rounded base-2 logarithm of n. */
  predicate RoundsTo(n: nat, m: nat)
  {
    Pow2(2 * m) <= 2 * (n * n) < Pow2(2 * m + 2)
  }

  /** The rounded logarithm, found by walking m upwards from a value whose
      lower bound already holds. */
  function RoundLog2From(n: nat, m: nat): (r: nat)
    requires Pow2(2 * m) <= 2 * (n * n)
    ensures RoundsTo(n, r) && r >= m
    decreases 2 * (n * n) - Pow2(2 * m)
  {
    if 2 * (n * n) < Pow2(2 * m + 2) then m
    else
      assert Pow2(2 * (m + 1)) == 2 * (2 * Pow2(2 * m));
      RoundLog2From(n, m + 1)
  }

  /** round(log2 n) for n >= 1. */
  function RoundLog2(n: nat): (m: nat)
    requires n >= 1
    ensures RoundsTo(n, m)
  {
    RoundLog2From(n, 0)
  }

  /** The rounded logarithm is the only m that rounds n. */
  lemma RoundLog2Unique(n: nat, m: nat)
    requires n >= 1
    ensures RoundsTo(n, m) <==> m == RoundLog2(n)
  {
    var r := RoundLog2(n);
    if RoundsTo(n, m) && m != r {
      if m < r {
        Pow2Monotone(2 * m + 2, 2 * r);
      } else {
        Pow2Monotone(2 * r + 2, 2 * m);
      }
      assert false;
    }
  }

  /** A power of two rounds to its own exponent. */
  lemma PowerRoundsToExponent(k: nat)
    ensures RoundLog2(Pow2(k)) == k
  {
    var n := Pow2(k);
    var sq := Pow2(2 * k);
    Pow2Square(k);
    assert Pow2(2 * k + 1) == 2 * sq;
    assert Pow2(2 * k + 2) == 2 * Pow2(2 * k + 1);
    assert RoundsTo(n, k);
    RoundLog2Unique(n, k);
  }

  /** Result of snapping: the spin box value and single step 2^m, and the
      slider position m - 4. */
  datatype Snap = Snap(spin: nat, slider: int)

  /** The substitute used when the spin box is stepped down to 0: half the
      previous grid size, but not below the smallest resolution. */
  function StepDownTarget(oldNx: nat): (n: nat)
    ensures n >= kNxMin && n >= oldNx / 2
    ensures n == oldNx / 2 || n == kNxMin
  {
    if oldNx / 2 >= kNxMin then oldNx / 2 else kNxMin
  }

  /** The spin box handler: n == 0 is replaced by the step-down target, then
      n is rounded to the nearest power of two. */
  function UpdateNx(n: nat, oldNx: nat): (r: Snap)
    ensures var target := if n == 0 then StepDownTarget(oldNx) else n;
            exists m: nat :: RoundsTo(target, m) && r == Snap(Pow2(m), m - 4)
  {
    var target := if n == 0 then StepDownTarget(oldNx) else n;
    var m := RoundLog2(target);
    Snap(Pow2(m), m - 4)
  }

  /** The slider handler: position s selects 2^(s+4) points. */
  function UpdateNxFromSlider(s: int): (spin: nat)
    requires s >= -4
    ensures spin >= 1 && spin % 2 == (if s == -4 then 1 else 0)
  {
    Pow2Positive(s + 4);
    Pow2(s + 4)
  }

  lemma Pow2Positive(k: nat)
    ensures k >= 1 ==> Pow2(k) % 2 == 0
    ensures Pow2(k) >= 1
  {
  }

  /** Powers of two are fixed points of the spin box handler, and the
      slider it sets is the exponent minus 4. */
  lemma PowerOfTwoFixed(k: nat, oldNx: nat)
    ensures UpdateNx(Pow2(k), oldNx) == Snap(Pow2(k), k - 4)
  {
    PowerRoundsToExponent(k);
  }

  /** Slider and spin box agree both ways: the spin box value chosen by the
      slider maps back to the same slider position, and the snapped spin
      box value is the one its slider position selects. */
  lemma SliderRoundTrip(s: int, n: nat, oldNx: nat)
    requires s >= -3
    ensures UpdateNx(UpdateNxFromSlider(s), oldNx) == Snap(UpdateNxFromSlider(s), s)
    ensures UpdateNx(n, oldNx).slider >= -4 && UpdateNxFromSlider(UpdateNx(n, oldNx).slider) == UpdateNx(n, oldNx).spin
  {
    PowerOfTwoFixed(s + 4, oldNx);
  }

  /** Stepping the spin box down from 2^k, the grid having 2^k + 1 points,
      lands on 0 and snaps to half the value, but never below 32. */
  lemma StepDownHalves(k: nat)
    requires k >= 1
    ensures UpdateNx(0, Pow2(k) + 1) == (if k - 1 >= 5 then Snap(Pow2(k - 1), k - 5) else Snap(kNxMin, 1))
  {
    assert (Pow2(k) + 1) / 2 == Pow2(k - 1);
    if k - 1 >= 5 {
      Pow2Monotone(5, k - 1);
      assert Pow2(5) == 32;
      PowerOfTwoFixed(k - 1, 0);
    } else {
      assert Pow2(5) == 32;
      if k - 1 < 5 {
        Pow2Monotone(k - 1, 4);
        assert Pow2(4) == 16;
      }
      PowerRoundsToExponent(5);
    }
  }

  /** Stepping up from 2^k by the single step 2^k snaps to 2^(k+1). */
  lemma StepUpDoubles(k: nat, oldNx: nat)
    ensures UpdateNx(Pow2(k) + Pow2(k), oldNx) == Snap(Pow2(k + 1), k - 3)
  {
    PowerOfTwoFixed(k + 1, oldNx);
  }

  /** Every snapped resolution other than 1 gives an odd number of grid
      points, so the grid has a centre sample. */
  lemma SnappedGridOdd(n: nat, oldNx: nat)
    ensures UpdateNx(n, oldNx).spin >= 1
    ensures UpdateNx(n, oldNx).spin != 1 ==> (UpdateNx(n, oldNx).spin + 1) % 2 == 1
  {
    var target := if n == 0 then StepDownTarget(oldNx) else n;
    var m := RoundLog2(target);
    assert UpdateNx(n, oldNx).spin == Pow2(m);
    Pow2Positive(m);
  }
}
