/** The implicit backward-time centred-space step: the tridiagonal system
      x[0] = s[0],  x[n-1] = s[n-1],
      (1 + 2 alpha) x[i] - alpha (x[i-1] + x[i+1]) = s[i]   for 0 < i < n-1
    solved by the Thomas algorithm. Eliminate and BackSweep define the two
    passes recursively; ForwardEliminate is the loop over the coefficient
    arrays, BackSubstitute the loop that writes the scratch buffer, and
    ImplicitStep is proved to be the system's only solution. */
module Thomas {
  import Heat

  /** Interior row i of the system holds for x. */
  predicate RowHolds(s: seq<real>, alpha: real, x: seq<real>, i: int)
  {
    && 0 < i < |s| - 1 && i < |x| - 1
    && (1.0 + 2.0 * alpha) * x[i] - alpha * (x[i - 1] + x[i + 1]) == s[i]
  }

  /** x solves the implicit step's tridiagonal system for the state s. */
  predicate SolvesBtcs(s: seq<real>, alpha: real, x: seq<real>)
  {
    && |s| >= 2
    && |x| == |s|
    && x[0] == s[0]
    && x[|s| - 1] == s[|s| - 1]
    && forall i :: 0 < i < |s| - 1 ==> RowHolds(s, alpha, x, i)
  }

  /** The pivot of elimination row i, given the coefficient u[i-1]. It is
      never zero: it stays at or below -(alpha + 1). */
  function Denominator(alpha: real, uPrev: real): (d: real)
    requires alpha >= 0.0 && 0.0 <= uPrev < 1.0
    ensures d <= -(alpha + 1.0)
  {
    assert alpha * uPrev <= alpha by {
      assert alpha * (1.0 - uPrev) >= 0.0;
    }
    alpha * uPrev - (2.0 * alpha + 1.0)
  }

  /** Coefficient u[i] of elimination row i, from u[i-1]. */
  function RowU(alpha: real, uPrev: real): (u: real)
    requires alpha >= 0.0 && 0.0 <= uPrev < 1.0
    ensures 0.0 <= u < 1.0
  {
    var d := Denominator(alpha, uPrev);
    ScaledInverseBounds(alpha, d);
    -alpha * (1.0 / d)
  }

  /** For 0 <= a < -d the quotient -a / d lies in [0, 1). */
  lemma ScaledInverseBounds(a: real, d: real)
    requires 0.0 <= a < -d
    ensures 0.0 <= -a * (1.0 / d) < 1.0
  {
    var inv := 1.0 / d;
    assert d * inv == 1.0;
    assert inv < 0.0;
    var q := -a * inv;
    assert q * (-d) == a * (d * inv);
    assert q * (-d) < -d;
    Heat.NonnegativeProduct(a, -inv);
    assert q == a * (-inv);
    if q >= 1.0 {
      Heat.NonnegativeProduct(q - 1.0, -d);
      assert false;
    }
    assert 0.0 <= q;
    assert q < 1.0;
    assert q == -a * (1.0 / d);
  }

  /** Coefficient v[i] of elimination row i, from u[i-1], v[i-1] and s[i]. */
  function RowV(alpha: real, uPrev: real, vPrev: real, si: real): real
    requires alpha >= 0.0 && 0.0 <= uPrev < 1.0
  {
    (-si - alpha * vPrev) * (1.0 / Denominator(alpha, uPrev))
  }

  /** The two coefficient buffers of the forward elimination. */
  datatype Coefficients = Coefficients(u: seq<real>, v: seq<real>)

  /** Entry k of the coefficient buffers is computed from entry k-1. */
  predicate EliminationRow(s: seq<real>, alpha: real, c: Coefficients, k: int)
    requires alpha >= 0.0
  {
    && 0 < k < |c.u| && k < |c.v| && k < |s|
    && 0.0 <= c.u[k - 1] < 1.0
    && c.u[k] == RowU(alpha, c.u[k - 1])
    && c.v[k] == RowV(alpha, c.u[k - 1], c.v[k - 1], s[k])
  }

  /** The coefficient buffers follow the elimination recurrence on their
      first `len` entries. */
  predicate Eliminated(s: seq<real>, alpha: real, c: Coefficients, len: nat)
    requires alpha >= 0.0
  {
    && 1 <= len <= |c.u| && len <= |c.v| && len <= |s|
    && c.u[0] == 0.0 && c.v[0] == s[0]
    && (forall k :: 0 <= k < len ==> 0.0 <= c.u[k] < 1.0)
    && (forall k :: 0 < k < len ==> EliminationRow(s, alpha, c, k))
  }

  /** The coefficient buffers with one more elimination row appended. */
  function Extend(s: seq<real>, alpha: real, p: Coefficients): (c: Coefficients)
    requires alpha >= 0.0 && 1 <= |p.u| == |p.v| < |s| && Eliminated(s, alpha, p, |p.u|)
    ensures |c.u| == |p.u| + 1 && |c.v| == |p.v| + 1
    ensures Eliminated(s, alpha, c, |c.u|)
  {
    var len := |p.u|;
    var c := Coefficients(p.u + [RowU(alpha, p.u[len - 1])], p.v + [RowV(alpha, p.u[len - 1], p.v[len - 1], s[len])]);
    ExtendKeepsEliminated(s, alpha, p, c);
    c
  }

  lemma ExtendKeepsEliminated(s: seq<real>, alpha: real, p: Coefficients, c: Coefficients)
    requires alpha >= 0.0 && 1 <= |p.u| == |p.v| < |s| && Eliminated(s, alpha, p, |p.u|)
    requires c.u == p.u + [RowU(alpha, p.u[|p.u| - 1])]
    requires c.v == p.v + [RowV(alpha, p.u[|p.u| - 1], p.v[|p.u| - 1], s[|p.u|])]
    ensures Eliminated(s, alpha, c, |c.u|)
  {
    var len := |p.u|;
    forall k | 0 <= k < len + 1
      ensures 0.0 <= c.u[k] < 1.0
    {
      if k < len {
        assert c.u[k] == p.u[k];
      }
    }
    forall k | 0 < k < len + 1
      ensures EliminationRow(s, alpha, c, k)
    {
      assert c.u[k - 1] == p.u[k - 1] && c.v[k - 1] == p.v[k - 1];
      if k < len {
        assert EliminationRow(s, alpha, p, k);
        assert c.u[k] == p.u[k] && c.v[k] == p.v[k];
      }
    }
  }

  /** The forward sweep over rows 0 .. len-1. */
  function Eliminate(s: seq<real>, alpha: real, len: nat): (c: Coefficients)
    requires alpha >= 0.0 && 1 <= len <= |s|
    ensures |c.u| == len && |c.v| == len
    ensures Eliminated(s, alpha, c, len)
  {
    if len == 1 then Coefficients([0.0], [s[0]])
    else Extend(s, alpha, Eliminate(s, alpha, len - 1))
  }

  /** x follows the back-substitution recurrence x[k] = u[k] x[k+1] + v[k]
      at row k. */
  predicate SubstitutedAt(c: Coefficients, x: seq<real>, k: int)
  {
    && 0 <= k < |x| - 1 && k < |c.u| && k < |c.v|
    && x[k] == c.u[k] * x[k + 1] + c.v[k]
  }

  /** x follows the back-substitution recurrence at every row k with
      lo <= k < |x| - 1. */
  predicate BackSubstituted(c: Coefficients, x: seq<real>, lo: int)
  {
    forall k :: lo <= k < |x| - 1 && 0 <= k ==> SubstitutedAt(c, x, k)
  }

  /** x follows the back-substitution recurrence at every row k <= i. */
  predicate SubstitutedThrough(c: Coefficients, x: seq<real>, i: int)
  {
    forall k :: 0 <= k <= i ==> SubstitutedAt(c, x, k)
  }

  /** The backward sweep from row j down to row 0 over the buffer t whose
      rows above j are already substituted. */
  function BackSweep(c: Coefficients, t: seq<real>, j: int): (x: seq<real>)
    requires |c.u| == |t| - 1 && |c.v| == |t| - 1 && -1 <= j <= |t| - 2
    requires BackSubstituted(c, t, j + 1)
    ensures |x| == |t|
    ensures forall k :: j < k < |t| ==> x[k] == t[k]
    ensures BackSubstituted(c, x, 0)
    decreases j + 1
  {
    if j < 0 then t
    else
      SweepStep(c, t, j);
      BackSweep(c, t[j := c.u[j] * t[j + 1] + c.v[j]], j - 1)
  }

  /** Writing row j of the backward sweep extends the substituted rows
      down to j. */
  lemma SweepStep(c: Coefficients, t: seq<real>, j: int)
    requires |c.u| == |t| - 1 && |c.v| == |t| - 1 && 0 <= j <= |t| - 2
    requires BackSubstituted(c, t, j + 1)
    ensures BackSubstituted(c, t[j := c.u[j] * t[j + 1] + c.v[j]], j)
  {
    var next := t[j := c.u[j] * t[j + 1] + c.v[j]];
    forall k | j <= k < |next| - 1
      ensures SubstitutedAt(c, next, k)
    {
      if k > j {
        assert SubstitutedAt(c, t, k);
      }
    }
  }

  /** The next state of the implicit scheme: eliminate rows 0 .. n-2, fix
      the right end, and substitute back down to index 0. */
  function ImplicitStep(s: seq<real>, alpha: real): (x: seq<real>)
    requires |s| >= 2 && alpha >= 0.0
    ensures SolvesBtcs(s, alpha, x)
  {
    var c := Eliminate(s, alpha, |s| - 1);
    var x := BackSweep(c, s, |s| - 2);
    SolutionFromSweep(s, alpha, c, x);
    x
  }

  /** The pivot times the coefficient u[i] is -alpha. */
  lemma PivotTimesRowU(alpha: real, uPrev: real)
    requires alpha >= 0.0 && 0.0 <= uPrev < 1.0
    ensures Denominator(alpha, uPrev) * RowU(alpha, uPrev) == -alpha
  {
    var d := Denominator(alpha, uPrev);
    assert d * (1.0 / d) == 1.0;
    assert d * (-alpha * (1.0 / d)) == -alpha * (d * (1.0 / d));
  }

  /** The pivot times the coefficient v[i] gives back the right-hand side
      of row i after elimination, -s[i] - alpha v[i-1]. */
  lemma PivotTimesRowV(alpha: real, uPrev: real, vPrev: real, si: real)
    requires alpha >= 0.0 && 0.0 <= uPrev < 1.0
    ensures Denominator(alpha, uPrev) * RowV(alpha, uPrev, vPrev, si) == -si - alpha * vPrev
  {
    var d := Denominator(alpha, uPrev);
    var w := -si - alpha * vPrev;
    assert d * (1.0 / d) == 1.0;
    assert d * (w * (1.0 / d)) == w * (d * (1.0 / d));
  }

  /** Row i of the system holds when x[i-1] and x[i] follow the
      elimination recurrence with the coefficients u, v of row i. */
  lemma RowFromElimination(alpha: real, uPrev: real, vPrev: real, u: real, v: real, si: real,
                           xPrev: real, xi: real, xNext: real)
    requires alpha >= 0.0 && 0.0 <= uPrev < 1.0
    requires u == RowU(alpha, uPrev) && v == RowV(alpha, uPrev, vPrev, si)
    requires xPrev == uPrev * xi + vPrev
    requires xi == u * xNext + v
    ensures (1.0 + 2.0 * alpha) * xi - alpha * (xPrev + xNext) == si
  {
    var d := Denominator(alpha, uPrev);
    var inv := 1.0 / d;
    assert d * inv == 1.0;
    assert d * xi == (d * inv) * (-alpha * xNext) + (d * inv) * (-si - alpha * vPrev);
    assert (1.0 + 2.0 * alpha) * xi - alpha * (xPrev + xNext) == -d * xi - alpha * vPrev - alpha * xNext;
  }

  /** Conversely, when row i holds and x[i-1] follows the recurrence of
      row i-1, x[i] follows the recurrence of row i. */
  lemma EliminationFromRow(alpha: real, uPrev: real, vPrev: real, u: real, v: real, si: real,
                           xPrev: real, xi: real, xNext: real)
    requires alpha >= 0.0 && 0.0 <= uPrev < 1.0
    requires u == RowU(alpha, uPrev) && v == RowV(alpha, uPrev, vPrev, si)
    requires xPrev == uPrev * xi + vPrev
    requires (1.0 + 2.0 * alpha) * xi - alpha * (xPrev + xNext) == si
    ensures xi == u * xNext + v
  {
    var d := Denominator(alpha, uPrev);
    var inv := 1.0 / d;
    assert d * inv == 1.0;
    var rhs := (-alpha * inv) * xNext + (-si - alpha * vPrev) * inv;
    assert d * rhs == (d * inv) * (-alpha * xNext) + (d * inv) * (-si - alpha * vPrev);
    assert (1.0 + 2.0 * alpha) * xi - alpha * (xPrev + xNext) == -d * xi - alpha * vPrev - alpha * xNext;
    assert (xi - rhs) * d == 0.0;
  }

  /** A state that follows the elimination and back-substitution
      recurrences and keeps the right end solves the system. */
  lemma SolutionFromSweep(s: seq<real>, alpha: real, c: Coefficients, x: seq<real>)
    requires |s| >= 2 && alpha >= 0.0 && |x| == |s|
    requires |c.u| == |s| - 1 && |c.v| == |s| - 1 && Eliminated(s, alpha, c, |s| - 1)
    requires BackSubstituted(c, x, 0) && x[|s| - 1] == s[|s| - 1]
    ensures SolvesBtcs(s, alpha, x)
  {
    assert SubstitutedAt(c, x, 0);
    forall i | 0 < i < |s| - 1
      ensures RowHolds(s, alpha, x, i)
    {
      SweepRow(s, alpha, c, x, i);
    }
  }

  /** One interior row of SolutionFromSweep. */
  lemma SweepRow(s: seq<real>, alpha: real, c: Coefficients, x: seq<real>, i: int)
    requires alpha >= 0.0 && |x| == |s| && 0 < i < |s| - 1
    requires |c.u| == |s| - 1 && |c.v| == |s| - 1
    requires EliminationRow(s, alpha, c, i)
    requires SubstitutedAt(c, x, i - 1) && SubstitutedAt(c, x, i)
    ensures RowHolds(s, alpha, x, i)
  {
    RowFromElimination(alpha, c.u[i - 1], c.v[i - 1], c.u[i], c.v[i], s[i], x[i - 1], x[i], x[i + 1]);
  }

  /** Any solution of the system follows the elimination recurrence on
      rows 0 .. i. */
  lemma {:induction false} SolutionFollowsElimination(s: seq<real>, alpha: real, x: seq<real>, i: nat)
    requires alpha >= 0.0 && SolvesBtcs(s, alpha, x) && i < |s| - 1
    ensures SubstitutedThrough(Eliminate(s, alpha, |s| - 1), x, i)
  {
    var c := Eliminate(s, alpha, |s| - 1);
    if i > 0 {
      SolutionFollowsElimination(s, alpha, x, i - 1);
      RowStep(s, alpha, c, x, i);
    }
  }

  /** One row of SolutionFollowsElimination. */
  lemma RowStep(s: seq<real>, alpha: real, c: Coefficients, x: seq<real>, i: int)
    requires alpha >= 0.0 && |x| == |s| && 0 < i < |s| - 1
    requires |c.u| == |s| - 1 && |c.v| == |s| - 1
    requires EliminationRow(s, alpha, c, i)
    requires SubstitutedAt(c, x, i - 1) && RowHolds(s, alpha, x, i)
    ensures SubstitutedAt(c, x, i)
  {
    EliminationFromRow(alpha, c.u[i - 1], c.v[i - 1], c.u[i], c.v[i], s[i], x[i - 1], x[i], x[i + 1]);
  }

  /** Two states that follow the same back-substitution recurrence and
      agree at the right end agree from index i upwards. */
  lemma {:induction false} BackSubstitutionDetermines(c: Coefficients, x: seq<real>, y: seq<real>, i: nat)
    requires |x| == |y| && |c.u| == |x| - 1 && |c.v| == |x| - 1 && i < |x|
    requires BackSubstituted(c, x, 0) && BackSubstituted(c, y, 0) && x[|x| - 1] == y[|y| - 1]
    ensures forall k :: i <= k < |x| ==> x[k] == y[k]
    decreases |x| - i
  {
    if i < |x| - 1 {
      BackSubstitutionDetermines(c, x, y, i + 1);
      assert SubstitutedAt(c, x, i) && SubstitutedAt(c, y, i);
    }
  }

  /** The system has exactly one solution: a state solves it if and only if
      it is the implicit step. */
  lemma SolutionUnique(s: seq<real>, alpha: real, x: seq<real>)
    requires |s| >= 2 && alpha >= 0.0
    ensures SolvesBtcs(s, alpha, x) <==> x == ImplicitStep(s, alpha)
  {
    if SolvesBtcs(s, alpha, x) {
      var c := Eliminate(s, alpha, |s| - 1);
      var y := ImplicitStep(s, alpha);
      SolutionFollowsElimination(s, alpha, x, |s| - 2);
      assert BackSubstituted(c, x, 0);
      assert BackSubstituted(c, y, 0);
      BackSubstitutionDetermines(c, x, y, 0);
    }
  }

  /** The forward elimination on arrays: tdmaU[0] = 0, tdmaV[0] = s[0], then
      rows 1 .. n-2 through the reciprocal of the pivot, as RowU and RowV
      compute it. */
  method ForwardEliminate(s: seq<real>, alpha: real) returns (u: seq<real>, v: seq<real>)
    requires |s| >= 2 && alpha >= 0.0
    ensures Coefficients(u, v) == Eliminate(s, alpha, |s| - 1)
  {
    var n := |s|;
    ghost var c := Eliminate(s, alpha, n - 1);
    var tdmaU := new real[n - 1];
    var tdmaV := new real[n - 1];
    tdmaU[0] := 0.0;
    tdmaV[0] := s[0];
    var i := 1;
    while i < n - 1
      invariant 1 <= i <= n - 1
      invariant forall k :: 0 <= k < i ==> tdmaU[k] == c.u[k] && tdmaV[k] == c.v[k]
    {
      assert EliminationRow(s, alpha, c, i);
      var uPrev, vPrev := tdmaU[i - 1], tdmaV[i - 1];
      tdmaU[i] := RowU(alpha, uPrev);
      tdmaV[i] := RowV(alpha, uPrev, vPrev, s[i]);
      i := i + 1;
    }
    u, v := tdmaU[..], tdmaV[..];
    assert u == c.u && v == c.v;
  }

  /** The back substitution into the scratch buffer: the right end is
      copied from s, then rows n-2 down to 0 are filled from the row above.
      Every index is written, so the buffer's previous contents never
      matter. */
  method BackSubstitute(c: Coefficients, s: seq<real>, scratch: seq<real>) returns (x: seq<real>)
    requires |s| >= 2 && |c.u| == |s| - 1 && |c.v| == |s| - 1 && |scratch| == |s|
    ensures |x| == |s| && x[|s| - 1] == s[|s| - 1]
    ensures BackSubstituted(c, x, 0)
  {
    var n := |s|;
    x := scratch[n - 1 := s[n - 1]];
    var j := n - 2;
    while j > 0
      invariant 0 <= j <= n - 2 && |x| == n
      invariant x[n - 1] == s[n - 1]
      invariant BackSubstituted(c, x, j + 1)
    {
      SweepStep(c, x, j);
      x := x[j := c.u[j] * x[j + 1] + c.v[j]];
      j := j - 1;
    }
    SweepStep(c, x, j);
    x := x[j := c.u[j] * x[j + 1] + c.v[j]];
  }

  /** The implicit branch of a tick: forward elimination into the two
      coefficient buffers, then back substitution into the scratch buffer,
      which becomes the next state. */
  method ThomasSolve(s: seq<real>, alpha: real, scratch: seq<real>) returns (x: seq<real>, u: seq<real>, v: seq<real>)
    requires |s| >= 2 && alpha >= 0.0 && |scratch| == |s|
    ensures |u| == |s| - 1 && |v| == |s| - 1
    ensures u[0] == 0.0 && v[0] == s[0]
    ensures forall i :: 0 <= i < |u| ==> 0.0 <= u[i] < 1.0
    ensures forall i :: 0 < i < |u| ==> Denominator(alpha, u[i - 1]) * u[i] == -alpha
    ensures SolvesBtcs(s, alpha, x)
    ensures x == ImplicitStep(s, alpha)
    ensures Coefficients(u, v) == Eliminate(s, alpha, |s| - 1)
  {
    u, v := ForwardEliminate(s, alpha);
    var c := Coefficients(u, v);
    x := BackSubstitute(c, s, scratch);
    SolutionFromSweep(s, alpha, c, x);
    SolutionUnique(s, alpha, x);
    PivotsOfElimination(s, alpha, c);
  }

  /** Every coefficient u[k] of an elimination is the negated diffusion
      number over the pivot of its row. */
  lemma PivotsOfElimination(s: seq<real>, alpha: real, c: Coefficients)
    requires |s| >= 2 && alpha >= 0.0
    requires |c.u| == |s| - 1 && |c.v| == |s| - 1 && Eliminated(s, alpha, c, |s| - 1)
    ensures forall k :: 0 <= k < |c.u| ==> 0.0 <= c.u[k] < 1.0
    ensures forall k :: 0 < k < |c.u| ==> Denominator(alpha, c.u[k - 1]) * c.u[k] == -alpha
  {
    forall k | 0 < k < |c.u|
      ensures Denominator(alpha, c.u[k - 1]) * c.u[k] == -alpha
    {
      assert EliminationRow(s, alpha, c, k);
      PivotTimesRowU(alpha, c.u[k - 1]);
    }
  }
}
