/** Building the initial state: sizing the four buffers and sampling the
    selected profile at every grid point. */
module Sampler {
  import opened Heat
  import opened Profiles

  /** A vector resized to n elements: the common prefix is kept and every
      new element is value-initialised to zero. */
  function Resize(s: seq<real>, n: nat): (r: seq<real>)
    ensures |r| == n
    ensures forall i :: 0 <= i < n && i < |s| ==> r[i] == s[i]
    ensures forall i :: |s| <= i < n ==> r[i] == 0.0
  {
    if n <= |s| then s[..n] else s + seq(n - |s|, _ => 0.0)
  }

  /** Index of the grid point that sits at the domain centre. */
  function Centre(nx: nat): nat { nx / 2 }

  /** Physical coordinate of sample i, measured from the centre index. */
  function Coordinate(i: nat, nx: nat, dx: real): (x: real)
    ensures i == Centre(nx) ==> x == 0.0
    ensures dx > 0.0 ==> (x < 0.0 <==> i < Centre(nx))
  {
    (i as real - Centre(nx) as real) * dx
  }

  /** The profile sampled at all nx grid points. */
  function Sample(nx: nat, dx: real, profile: Profile, exp: real -> real): (s: seq<real>)
    requires dx > 0.0
    ensures |s| == nx
    ensures forall i :: 0 <= i < nx ==>
              s[i] == Initial(Coordinate(i, nx, dx), profile, Amplitude(profile, dx), exp)
  {
    seq(nx, i requires 0 <= i < nx => Initial(Coordinate(i, nx, dx), profile, Amplitude(profile, dx), exp))
  }

  /** The sampling loop of a reconfiguration, writing into the resized
      state buffer: every entry is overwritten with the profile at its
      coordinate, so the result is the sampled profile whatever the buffer
      held before. */
  method SampleInto(nx: nat, dx: real, profile: Profile, exp: real -> real, buffer: seq<real>) returns (s: seq<real>)
    requires dx > 0.0 && |buffer| == nx
    ensures s == Sample(nx, dx, profile, exp)
  {
    ghost var target := Sample(nx, dx, profile, exp);
    var ampl := if profile == Delta then kRangeX * 0.1 / dx else 1.0;
    assert ampl == Amplitude(profile, dx);
    s := buffer;
    var i := 0;
    while i < nx
      invariant 0 <= i <= nx && |s| == nx
      invariant forall k :: 0 <= k < i ==> s[k] == target[k]
    {
      assert (i as real - (nx / 2) as real) * dx == Coordinate(i, nx, dx);
      s := s[i := Initial((i as real - (nx / 2) as real) * dx, profile, ampl, exp)];
      i := i + 1;
    }
  }

  /** The buffers after a reconfiguration: nx = spin + 1 samples, the scratch
      and coefficient buffers resized from their previous contents. */
  function InitiateState(spin: nat, dx: real, profile: Profile, exp: real -> real, prev: Buffers): (b: Buffers)
    requires spin >= 1 && dx > 0.0
    ensures b.WellFormed() && |b.state| == spin + 1
    ensures forall i :: 0 <= i < |prev.scratch| && i < |b.scratch| ==> b.scratch[i] == prev.scratch[i]
    ensures forall i :: |prev.scratch| <= i < |b.scratch| ==> b.scratch[i] == 0.0
  {
    var nx := spin + 1;
    Buffers(Sample(nx, dx, profile, exp), Resize(prev.scratch, nx), Resize(prev.tdmaU, nx - 1), Resize(prev.tdmaV, nx - 1))
  }

  /** On a grid with an odd number of points the sampled state is a mirror
      image of itself about the centre index. */
  lemma SampleSymmetric(nx: nat, dx: real, profile: Profile, exp: real -> real, k: nat)
    requires dx > 0.0 && nx % 2 == 1 && k <= Centre(nx)
    ensures Centre(nx) + k < nx
    ensures Sample(nx, dx, profile, exp)[Centre(nx) + k] == Sample(nx, dx, profile, exp)[Centre(nx) - k]
  {
    var c := Centre(nx);
    assert Coordinate(c - k, nx, dx) == -Coordinate(c + k, nx, dx);
    ProfileEven(Coordinate(c + k, nx, dx), profile, Amplitude(profile, dx), exp);
  }

  /** A sampled rectangle holds only its amplitude and zero, the amplitude
      exactly at the points closer to the centre than the half-width. */
  lemma RectangleIsTwoValued(nx: nat, dx: real, exp: real -> real, i: nat)
    requires dx > 0.0 && i < nx
    ensures var s := Sample(nx, dx, Rectangle, exp);
            (s[i] == 1.0 <==> Abs(Coordinate(i, nx, dx)) < kWidth) &&
            (s[i] == 0.0 <==> Abs(Coordinate(i, nx, dx)) >= kWidth)
  {
  }

  /** When the grid spacing exceeds the Delta radius, the sampled Delta is
      nonzero at the centre index only, where it equals 0.1 L / dx. */
  lemma {:induction false} DeltaOnlyAtCentre(nx: nat, dx: real, exp: real -> real, i: nat)
    requires dx > kDeltaRadius && i < nx
    ensures var s := Sample(nx, dx, Delta, exp);
            (s[i] != 0.0 <==> i == Centre(nx)) &&
            (i == Centre(nx) ==> s[i] * dx == 0.1 * kRangeX)
  {
    var x := Coordinate(i, nx, dx);
    if i != Centre(nx) {
      var d := i as real - Centre(nx) as real;
      assert x == d * dx;
      assert d >= 1.0 || d <= -1.0;
      if d >= 1.0 {
        assert d * dx >= dx;
      } else {
        assert d * dx <= -dx;
      }
      assert Abs(x) >= kDeltaRadius;
    }
  }
}
