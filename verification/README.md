# Heat equation engine, modelled in Dafny

A model of the numerical engine of the HeatEquation visualiser (`form.cpp`).
The visualiser integrates the one-dimensional heat equation on a grid of nx
points with three time-stepping schemes, and plots each scheme's von Neumann
amplification factor next to the ideal decay rate. The Qt shell around the
engine is not modelled. Arithmetic is exact `real` in place of `double`.

The model has one module per piece of the engine:

- `Heat` (`heat.dfy`): the constants, the scheme and profile enumerations,
  and the four buffers (state, scratch, and the two forward-elimination
  coefficient buffers).
- `Profiles` (`profiles.dfy`): the four initial shapes. The exponential is a
  parameter `exp: real -> real`.
- `Sampler` (`sampler.dfy`): how reconfiguring resizes the buffers and
  samples the initial state.
- `Stability` (`stability.dfy`): the three amplification factors as rational
  functions of c = cos(kappa) in [-1, 1], the phase of the complex
  logarithm, and the wavenumber grid.
- `Ftcs` (`ftcs.dfy`): the explicit step and its discrete maximum principle.
- `Thomas` (`thomas.dfy`): the implicit step and the Thomas algorithm.
  - `Eliminate` and `BackSweep` define the two passes recursively.
  - `ForwardEliminate` and `BackSubstitute` are the loops.
  - `ImplicitStep` is proved to be the unique solution of the tridiagonal
    system, with every pivot at or below -(alpha + 1).
- `Modes` (`modes.dfy`): a sampled Fourier mode is multiplied by the
  scheme's lambda under the explicit step and under the implicit step. This
  ties the stepping kernels to the stability analysis.
- `Controller` (`controller.dfy`): the tick handler as a transition function.
  - The state is (elapsed time, snapshot counter, buffers, running flag).
  - Snapshots and the end of the run are emitted as events.
  - Also modelled: the Solve button, and a run of k ticks.
- `Snapping` (`snapping.dfy`): how the resolution spin box and slider snap
  to powers of two. round(log2 n) = m is written in integers as
  2^(2m) <= 2 n^2 < 2^(2m+2).

Where the code and its description differ, the model follows the code:

- The Crank-Nicolson branch of a tick is not a no-op.
  - It writes nothing to the scratch buffer, but the state is still
    replaced by the scratch buffer.
  - The first such tick after Solve therefore sets the state to the resized
    scratch contents: old values on the common prefix, zeros elsewhere.
  - Only from the second tick on does the state stay unchanged.
- Reaching the horizon emits no snapshot. It only resets the counter and
  finishes the run.
- The divergence scan compares strictly (> 3, < -3) over the half-open
  window [0, floor(0.4 nx)).
  - For nx = 2 the window is empty.
  - Both searches then return their end position, index 0, so the test
    reads state[0].
  - In `double`, floor(nx * 0.4) equals (2 nx) / 5 for every nx: the product
    is never just below an integer.
- The snapshot counter is a function-local static. Solve does not reset it;
  every path that finishes a run sets it back to 1.
- With dt = T / nt the guard admits the clock values 0, dt, ..., nt dt. A
  run therefore takes nt + 1 steps and ends at T + dt, unless it diverges.

## Model

| member | source | states |
|---|---|---|
| Heat.Buffers.WellFormed | form.cpp:649-652 | the shape invariant of the four buffers: state and scratch of the same length of at least 2, the coefficient buffers one shorter; Sampler.InitiateState establishes it and Controller.Tick keeps it |
| Heat.MethodOfTab | form.cpp:672 | the scheme is the tab index cast to the enumeration, whose order is Explicit, Implicit, Crank-Nicolson; the cast is inverted by TabOfMethod |
| Profiles.Initial | form.cpp:5-20 | a rectangle takes exactly the value ampl strictly inside the half-width 0.1 L and 0 outside; a Delta is nonzero exactly within radius 1e-10 L |
| Profiles.ProfileEven | form.cpp:5-20 | every profile has the same value at -x and at x, because it uses only an even power of x or |x| |
| Profiles.PowEven | form.cpp:10-12 | an even power of -y equals the same power of y |
| Profiles.Amplitude | form.cpp:654 | the amplitude is positive; for Delta, amplitude times dx is 0.1 L, so the discrete mass does not depend on the resolution; otherwise it is 1 |
| Sampler.Resize | form.cpp:649-652 | resizing to n keeps the common prefix and zero-fills the new elements |
| Sampler.Coordinate | form.cpp:656-657 | sample i sits at (i - nx/2) dx with integer nx/2: it is 0 at the centre index and negative exactly left of it |
| Sampler.SampleInto | form.cpp:654-657 | the sampling loop overwrites every entry of the resized buffer, whatever it held, so the state is exactly the profile sampled at each grid coordinate with the profile's amplitude |
| Sampler.InitiateState | form.cpp:646-657 | nx = spin box + 1; state and scratch have nx entries, the coefficient buffers nx - 1; the scratch keeps its old prefix and is zero beyond it |
| Sampler.SampleSymmetric | form.cpp:654-657 | for odd nx the sampled state is a mirror image about the centre index |
| Sampler.RectangleIsTwoValued | form.cpp:13-14 | a sampled rectangle is 1 exactly where |x| < 0.1 L and 0 exactly elsewhere |
| Sampler.DeltaOnlyAtCentre | form.cpp:15-16 | when dx exceeds 1e-10 L, a sampled Delta is nonzero only at the centre index, where it is 0.1 L / dx |
| Stability.ImplicitDenominator | form.cpp:31-32 | the implicit denominator 1 + 2 alpha (1 - c) is at least 1 |
| Stability.CrankNicolsonDenominator | form.cpp:34-35 | the Crank-Nicolson denominator 1 + alpha (1 - c) is at least 1 |
| Stability.Lambda | form.cpp:25-35 | every lambda is at most 1 and equals 1 at c = 1; the implicit lambda is positive; the Crank-Nicolson lambda is at least -1 |
| Stability.UnconditionallyDamped | form.cpp:31-35 | the implicit and Crank-Nicolson factors satisfy |lambda| <= 1 for every c and every alpha >= 0 |
| Stability.ExplicitDampedIff | form.cpp:28-29 | the explicit factor damps every mode if and only if alpha <= 1/2 |
| Stability.DispersionOfSchemes | form.cpp:25-44 | the implicit phase is always 0; Crank-Nicolson flips a mode exactly when alpha (1 - c) > 1, and the explicit scheme exactly when 2 alpha (1 - c) > 1 |
| Stability.XiGrid | form.cpp:676-678 | the grid xi_i = i / (nx - 1) has nx/2 + 1 points, starts at 0 and is strictly increasing |
| Stability.XiGridEnd | form.cpp:676-678 | the last wavenumber is exactly 1/2 when nx is odd and lies above 1/2 when nx is even |
| Stability.IdealDissipationShape | form.cpp:676-679 | the ideal decay curve xi^2 starts at 0 and rises strictly over the grid; it ends at exactly 1/4 for odd nx and above 1/4 for even nx |
| Ftcs.ExplicitSweep | form.cpp:765-770 | the explicit loop overwrites every entry of the scratch buffer, whatever it held: it yields the explicit step, ends copied and each interior value moved by alpha times its second difference |
| Ftcs.ExplicitMaximumPrinciple | form.cpp:768-769 | for 0 <= alpha <= 1/2 each new interior value lies between the minimum and maximum of its three old neighbours |
| Thomas.Denominator | form.cpp:777 | the pivot alpha u[i-1] - (2 alpha + 1) is at most -(alpha + 1), never zero, whenever u[i-1] is in [0, 1) |
| Thomas.RowU | form.cpp:777-778 | every eliminated coefficient u[i] stays in [0, 1) |
| Thomas.RowV | form.cpp:779 | the coefficient v[i] as the loop computes it, through the reciprocal of the pivot; PivotTimesRowV states what it means |
| Thomas.PivotTimesRowV | form.cpp:777-779 | the coefficient v[i] that RowV computes, times the pivot, gives back the eliminated right-hand side -s[i] - alpha v[i-1] |
| Thomas.Eliminate | form.cpp:772-780 | the forward sweep yields n - 1 coefficients with u[0] = 0 and v[0] = s[0], each row computed from the previous one, each u in [0, 1) |
| Thomas.BackSweep | form.cpp:781-784 | the backward sweep keeps the rows above its start and leaves every row satisfying x[k] = u[k] x[k+1] + v[k] |
| Thomas.ImplicitStep | form.cpp:771-786 | the implicit step solves the tridiagonal system: both ends kept and (1 + 2 alpha) x[i] - alpha (x[i-1] + x[i+1]) = s[i] inside |
| Thomas.RowFromElimination | form.cpp:777-783 | when x[i-1] and x[i] follow the recurrences of rows i-1 and i, row i of the system holds |
| Thomas.EliminationFromRow | form.cpp:777-783 | conversely, when row i holds and x[i-1] follows row i-1's recurrence, x[i] follows row i's |
| Thomas.SolutionFromSweep | form.cpp:771-786 | a vector that follows the elimination and substitution recurrences and keeps the right end solves the system |
| Thomas.SolutionFollowsElimination | form.cpp:771-786 | every solution of the system follows the back-substitution recurrence on all rows up to i |
| Thomas.BackSubstitutionDetermines | form.cpp:781-784 | two vectors with the same back-substitution recurrence and the same right end agree everywhere |
| Thomas.SolutionUnique | form.cpp:771-786 | a vector solves the system if and only if it equals the implicit step, so solving recovers any vector the system was built from |
| Thomas.PivotsOfElimination | form.cpp:775-779 | every pivot times the coefficient it produces is -alpha, so the coefficients are bounded quotients of nonzero pivots |
| Thomas.ForwardEliminate | form.cpp:772-780 | the elimination loop fills the two buffers with the coefficients of the recursive definition, every access in bounds |
| Thomas.BackSubstitute | form.cpp:781-784 | the substitution loop writes every index of the scratch buffer, whatever it held: the right end is copied and every row follows the recurrence |
| Thomas.ThomasSolve | form.cpp:771-786 | the implicit branch, writing into the scratch buffer, leaves u[0] = 0, every u in [0, 1), every pivot relation, and a next state that solves the system and equals the implicit step |
| Modes.ExplicitOnMode | form.cpp:28-29 | the explicit step multiplies each interior sample of a Fourier mode with cosine c by the explicit lambda |
| Modes.ExplicitOnClampedMode | form.cpp:765-770 | on a mode that vanishes at both ends, the explicit step is a multiplication by the explicit lambda |
| Modes.ScaledModeSolves | form.cpp:31-32 | the implicit lambda times a clamped mode solves the implicit system for that mode |
| Modes.ImplicitOnClampedMode | form.cpp:771-786 | on a clamped mode, the Thomas solver's result is the implicit lambda times the mode |
| Controller.Advance | form.cpp:763-793 | the scheme writes the scratch buffer, which becomes the state; explicit is the FTCS step, implicit solves the system with u[0] = 0 and v[0] = s[0], Crank-Nicolson only copies the scratch buffer |
| Controller.AdvanceImplicit | form.cpp:771-793 | the Thomas solver run on the buffers fills the coefficient buffers and the scratch buffer exactly as the implicit branch of Advance describes, and the scratch becomes the state |
| Controller.Advances | form.cpp:759 | the guard admits every clock value up to the horizon T, and admits none at or beyond T + dt |
| Controller.SnapshotDue | form.cpp:795 | with the counter at 5 or more no interval snapshot is due within the horizon; with the counter at 1 or more none is due within the first fifth of it |
| Controller.Diverged | form.cpp:801 | the divergence test as written, through the maximum and minimum searches over the window; DivergedIff states what it means |
| Controller.Window | form.cpp:801 | the divergence window ends at floor(0.4 nx): w <= 0.4 nx < w + 1; so it ends before index nx, and is nonempty once nx >= 3 |
| Controller.MaxOf | form.cpp:801 | the maximum search returns an element of the window that no element exceeds |
| Controller.MinOf | form.cpp:801 | the minimum search returns an element of the window that no element undercuts |
| Controller.DivergedIff | form.cpp:801 | divergence holds exactly when some index below floor(0.4 nx) is strictly outside [-3, 3]; on a two-point grid it tests state[0] |
| Controller.Tick | form.cpp:753-813 | a tick keeps the buffers well formed and the grid size unchanged |
| Controller.Solve | form.cpp:736-753 | Solve rebuilds the buffers, emits the sampled initial state, zeroes the clock and starts the run, keeping the static counter |
| Controller.TickGuard | form.cpp:759-761 | a tick advances only if t < T + 1e-3 dt, checked before adding exactly dt; otherwise it only sets the counter to 1, stops the run and reports the end |
| Controller.SnapshotCadence | form.cpp:795-799 | without divergence an advancing tick emits a snapshot exactly when t > (T/5) tIndex, the counter then rising by exactly one, so there is at most one interval snapshot per tick |
| Controller.DivergenceEndsRun | form.cpp:795-806 | an advancing tick finishes exactly when the new state diverges; it then ends with one more snapshot and the end event, resets the counter and stops; because the interval test runs first, the tick emits three events, the first being the interval snapshot, exactly when that snapshot is due |
| Controller.FinishIff | form.cpp:801-813 | a tick finishes exactly when the guard fails or the new state diverges; finishing resets the counter to 1 and stops the run, otherwise the running flag is untouched |
| Controller.TIndexPositive | form.cpp:757 | the snapshot counter never drops below 1 across ticks and Solve |
| Controller.CrankNicolsonCopiesScratch | form.cpp:787-793 | a Crank-Nicolson tick moves the scratch buffer into the state and leaves the scratch buffer alone; a second such tick changes nothing |
| Controller.CrankNicolsonAfterSolve | form.cpp:650 | the first Crank-Nicolson tick after Solve leaves the state equal to the resized scratch buffer: old values on the common prefix, zeros beyond |
| Controller.Step | form.cpp:751-761 | one timer period obeys the clock discipline: the run keeps going only through a tick that passed the guard and moved the clock by dt, a running state that fails the guard is stopped, and a stopped run is left unchanged |
| Controller.Run | form.cpp:751 | the states after 0 .. k timer periods: each is one period after the previous, all keep the buffers well formed, and the whole trace obeys the clock discipline |
| Controller.GuardAdmits | form.cpp:759 | with dt = T / nt the guard admits the clock value k dt exactly when k <= nt |
| Controller.RunContinues | form.cpp:751-761 | in a clocked trace from a zero clock, if no tick among the first k periods diverges and k <= nt + 1, the run is still going after k periods with clock exactly k dt |
| Controller.RunReachesHorizon | form.cpp:751-761 | with dt = T / nt and no divergence in periods 0 .. nt, the run is going in every period 0 .. nt + 1 with clock k dt, reaching T + dt in period nt + 1 |
| Controller.RunClock | form.cpp:751-761 | in any clocked trace started from a zero clock, a state still running after k periods has clock k dt |
| Controller.RunLength | form.cpp:751-761 | with dt = T / nt, every clocked trace from a zero clock passes the guard in periods 0 .. nt while running, fails it in period nt + 1 if still running then, and has stopped after nt + 2 periods; when no tick in periods 0 .. nt diverges it is still running in period nt + 1, at clock T + dt |
| Controller.RunAfterSolve | form.cpp:736-761 | the actual run of the tick handler from a freshly solved state takes at most nt + 1 advancing ticks, and exactly nt + 1, ending at T + dt, when no tick diverges |
| Snapping.Pow2Square | form.cpp:599-600 | 2^(2k) is the square of 2^k |
| Snapping.Pow2Monotone | form.cpp:599-600 | powers of two grow with the exponent |
| Snapping.RoundLog2 | form.cpp:599 | the rounded logarithm m of n >= 1 satisfies 2^(2m) <= 2 n^2 < 2^(2m+2) |
| Snapping.RoundLog2Unique | form.cpp:599 | that m is the only one: n rounds to m if and only if m is RoundLog2(n) |
| Snapping.PowerRoundsToExponent | form.cpp:599-600 | round(log2 2^k) = k |
| Snapping.StepDownTarget | form.cpp:594-597 | a spin box value of 0 is replaced by max(old nx / 2, 32) |
| Snapping.UpdateNx | form.cpp:591-607 | the spin box value becomes 2^m and the slider m - 4, where m rounds the (possibly substituted) value |
| Snapping.UpdateNxFromSlider | form.cpp:574-582 | slider position s selects 2^(s+4) grid intervals, an even number except at s = -4 |
| Snapping.PowerOfTwoFixed | form.cpp:599-607 | every power of two 2^k, 2^0 = 1 included, is left unchanged and sets the slider to k - 4 |
| Snapping.SliderRoundTrip | form.cpp:574-607 | the slider and the spin box agree both ways: a slider position maps to a value that maps back to it, and every snapped value is the one its slider position selects |
| Snapping.StepDownHalves | form.cpp:593-597 | stepping down from 2^k with nx = 2^k + 1 snaps to 2^(k-1), but to 32 when that is smaller |
| Snapping.StepUpDoubles | form.cpp:605-607 | stepping up from 2^k by the single step 2^k snaps to 2^(k+1) |
| Snapping.SnappedGridOdd | form.cpp:646 | every snapped value other than 1 gives an odd number of grid points, so the grid has a centre sample |

## Left out

- The Qt user interface is not modelled: widgets, charts, series, axes,
  layouts, signal wiring and the enabling and disabling of controls. A
  snapshot is an abstract event carrying the state.
- The timer that drives the ticks is not modelled. `Controller.Run`
  stands in for it by applying the tick function repeatedly and recording
  every state.
- `exp` in the Gauss shapes is left as a parameter, so every property about
  the shapes holds for any function in its place.
- `cos` is left out: the stability members take c = cos(kappa) directly, for
  c in [-1, 1].
- The complex logarithm is left out except for its phase on a real
  argument. The dissipation -ln|lambda| is represented by the predicate
  `Stability.Damped` (|lambda| <= 1).
- `log2`, `pow` and `round` in snapping are left out. They are replaced by
  the integer characterisation of the rounded logarithm.
- The display rescaling of the curves by pi and 4 pi^2 alpha is not
  modelled. It is a plotting detail.
- IEEE-754 rounding is not modelled, so nothing is claimed about accuracy,
  energy or stability of the floating-point run. All arithmetic is exact.
- The parameters class (nx, dx, dt, alpha) is not part of this model. Its
  outputs are inputs here, under dx > 0, dt > 0 and alpha >= 0.
- The commented-out Crank-Nicolson draft is not modelled. The branch runs
  as it is written: empty.
- The empty `updateSpectrum` is not modelled.
- The clamping of slider and spin box values to their ranges is not
  modelled. `Snapping.UpdateNxFromSlider` therefore requires s >= -4, so
  that the power is an integer.
- The translation catalogue and the number-of-steps handlers are not
  modelled, because they only relabel widgets or rebuild the state.
- The `default` branches of `initial` and `dispersion_diffusion` are not
  modelled, because the enumerations have no other values.
- Controller.Tick: its own contract states only well-formedness. The
  behaviour of each branch is stated by the lemmas TickGuard,
  SnapshotCadence, DivergenceEndsRun and FinishIff.
