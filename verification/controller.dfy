/** The run controller: one timer tick as a transition over the elapsed
    time, the snapshot counter, the four buffers and the running flag. A
    snapshot of the state and the end of the run are emitted as events. */
module Controller {
  import opened Heat
  import Ftcs
  import Thomas
  import Sampler

  /** What a tick reads from the parameters: the time step, the diffusion
      number alpha = dt / dx^2 and the scheme of the selected tab. */
  datatype Config = Config(dt: real, alpha: real, scheme: Method)
  {
    predicate Valid() { dt > 0.0 && alpha >= 0.0 }
  }

  /** The controller state. tIndex is a function-local static of the tick
      handler: it survives from one run to the next. */
  datatype Sim = Sim(tCur: real, tIndex: int, buf: Buffers, running: bool)

  datatype Event = Snapshot(values: seq<real>) | Finished

  /** The state after a tick and the events it emitted, in order. */
  datatype Outcome = Outcome(sim: Sim, events: seq<Event>)

  /** Bound on |state| beyond which the run is declared divergent. */
  const kBlowUp: real := 3.0

  /** The scheme's next state is written to the scratch buffer, which is
      then copied into the state. Crank-Nicolson writes nothing, so it
      copies whatever the scratch buffer held. */
  function Advance(cfg: Config, b: Buffers): (r: Buffers)
    requires cfg.alpha >= 0.0 && b.WellFormed()
    ensures r.WellFormed() && |r.state| == |b.state|
    ensures r.state == r.scratch
    ensures cfg.scheme == Explicit ==> r == b.(state := Ftcs.ExplicitStep(b.state, cfg.alpha), scratch := r.state)
    ensures cfg.scheme == Implicit ==> Thomas.SolvesBtcs(b.state, cfg.alpha, r.state)
    ensures cfg.scheme == Implicit ==> r.tdmaU[0] == 0.0 && r.tdmaV[0] == b.state[0]
    ensures cfg.scheme == CrankNicolson ==> r == b.(state := b.scratch)
  {
    match cfg.scheme
    case Explicit =>
      var next := Ftcs.ExplicitStep(b.state, cfg.alpha);
      b.(scratch := next, state := next)
    case Implicit =>
      var c := Thomas.Eliminate(b.state, cfg.alpha, |b.state| - 1);
      var next := Thomas.ImplicitStep(b.state, cfg.alpha);
      Buffers(next, next, c.u, c.v)
    case CrankNicolson =>
      b.(state := b.scratch)
  }

  /** End of the divergence scan: the integer part of 0.4 nx. */
  function Window(nx: nat): (w: nat)
    ensures w as real <= 0.4 * nx as real < w as real + 1.0
    ensures w <= nx && (nx >= 1 ==> w < nx)
    ensures nx >= 3 ==> w >= 1
  {
    (2 * nx) / 5
  }

  /** Largest element of a nonempty sequence. */
  function MaxOf(s: seq<real>): (m: real)
    requires |s| > 0
    ensures forall i :: 0 <= i < |s| ==> s[i] <= m
    ensures exists i :: 0 <= i < |s| && s[i] == m
  {
    if |s| == 1 then s[0]
    else
      var rest := MaxOf(s[1..]);
      assert forall i :: 1 <= i < |s| ==> s[i] == s[1..][i - 1];
      if s[0] >= rest then s[0] else rest
  }

  /** Smallest element of a nonempty sequence. */
  function MinOf(s: seq<real>): (m: real)
    requires |s| > 0
    ensures forall i :: 0 <= i < |s| ==> m <= s[i]
    ensures exists i :: 0 <= i < |s| && s[i] == m
  {
    if |s| == 1 then s[0]
    else
      var rest := MinOf(s[1..]);
      assert forall i :: 1 <= i < |s| ==> s[i] == s[1..][i - 1];
      if s[0] <= rest then s[0] else rest
  }

  /** The divergence test: the maximum and the minimum of the half-open
      window [0, Window(nx)). When the window is empty both searches return
      their end position, index 0, and its element is what gets compared. */
  predicate Diverged(s: seq<real>)
    requires |s| >= 2
  {
    var w := Window(|s|);
    if w == 0 then s[0] > kBlowUp || s[0] < -kBlowUp
    else MaxOf(s[..w]) > kBlowUp || MinOf(s[..w]) < -kBlowUp
  }

  /** The value at j is outside the band [-3, 3]. */
  predicate OutOfBand(s: seq<real>, j: int)
  {
    0 <= j < |s| && (s[j] > kBlowUp || s[j] < -kBlowUp)
  }

  /** Divergence means some sample in the window strictly leaves the band;
      on the two-point grid the empty window makes it a test of s[0]. */
  lemma DivergedIff(s: seq<real>)
    requires |s| >= 2
    ensures |s| >= 3 ==> (Diverged(s) <==> exists j :: 0 <= j < Window(|s|) && OutOfBand(s, j))
    ensures |s| == 2 ==> (Diverged(s) <==> OutOfBand(s, 0))
  {
    var w := Window(|s|);
    if w > 0 {
      var win := s[..w];
      if Diverged(s) {
        if MaxOf(win) > kBlowUp {
          var j :| 0 <= j < w && win[j] == MaxOf(win);
          assert OutOfBand(s, j);
        } else {
          var j :| 0 <= j < w && win[j] == MinOf(win);
          assert OutOfBand(s, j);
        }
      }
      if exists j :: 0 <= j < w && OutOfBand(s, j) {
        var j :| 0 <= j < w && OutOfBand(s, j);
        assert win[j] == s[j];
      }
    }
  }

  /** The elapsed-time guard, checked before the clock moves. Its
      tolerance admits the horizon itself but less than one more step. */
  predicate Advances(cfg: Config, sim: Sim)
    ensures cfg.dt > 0.0 && sim.tCur <= kRangeT ==> Advances(cfg, sim)
    ensures cfg.dt > 0.0 && Advances(cfg, sim) ==> sim.tCur < kRangeT + cfg.dt
  {
    sim.tCur < kRangeT + 1e-3 * cfg.dt
  }

  /** An interval snapshot is due once the clock passes tIndex fifths of
      the horizon: with the counter at 5 or more none is due within the
      horizon, and with the counter at 1 or more none is due within the
      first fifth. */
  predicate SnapshotDue(t: real, tIndex: int)
    ensures tIndex >= 5 && t <= kRangeT ==> !SnapshotDue(t, tIndex)
    ensures tIndex >= 1 && t <= kRangeT / 5.0 ==> !SnapshotDue(t, tIndex)
  {
    t > kRangeT / 5.0 * tIndex as real
  }

  /** The implicit branch as the Thomas solver runs it on the buffers: the
      coefficient buffers it fills and the scratch buffer it writes, which
      becomes the state, are exactly the buffers Advance describes. */
  method AdvanceImplicit(cfg: Config, b: Buffers) returns (r: Buffers)
    requires cfg.Valid() && cfg.scheme == Implicit && b.WellFormed()
    ensures r == Advance(cfg, b)
  {
    var x, u, v := Thomas.ThomasSolve(b.state, cfg.alpha, b.scratch);
    r := Buffers(x, x, u, v);
  }

  /** One timer tick. */
  function Tick(cfg: Config, sim: Sim): (o: Outcome)
    requires cfg.Valid() && sim.buf.WellFormed()
    ensures o.sim.buf.WellFormed() && |o.sim.buf.state| == |sim.buf.state|
  {
    if Advances(cfg, sim) then
      var t := sim.tCur + cfg.dt;
      var b := Advance(cfg, sim.buf);
      var due := SnapshotDue(t, sim.tIndex);
      var index := if due then sim.tIndex + 1 else sim.tIndex;
      var shown := if due then [Snapshot(b.state)] else [];
      if Diverged(b.state) then Outcome(Sim(t, 1, b, false), shown + [Snapshot(b.state), Finished])
      else Outcome(Sim(t, index, b, sim.running), shown)
    else
      Outcome(sim.(tIndex := 1, running := false), [Finished])
  }

  /** Pressing Solve: rebuild the buffers, show the initial state, reset the
      clock and start the timer. The snapshot counter is not reset. Solve
      reads none of cfg, the configuration the ticks after it run under:
      the grid it rebuilds comes from spin and dx. The parameter stays so
      that Solve and Tick are stated against the same configuration. */
  function Solve(cfg: Config, sim: Sim, spin: nat, dx: real, profile: Profile, exp: real -> real): (o: Outcome)
    requires spin >= 1 && dx > 0.0
    ensures o.sim.buf.WellFormed() && |o.sim.buf.state| == spin + 1
    ensures o.sim.tCur == 0.0 && o.sim.running && o.sim.tIndex == sim.tIndex
    ensures o.sim.buf.state == Sampler.Sample(spin + 1, dx, profile, exp)
    ensures o.events == [Snapshot(o.sim.buf.state)]
  {
    var b := Sampler.InitiateState(spin, dx, profile, exp, sim.buf);
    Outcome(Sim(0.0, sim.tIndex, b, true), [Snapshot(b.state)])
  }

  /** A tick that passes the guard moves the clock by exactly dt and
      advances the buffers; one that fails it changes nothing but the
      counter and the running flag, and only reports the end. */
  lemma TickGuard(cfg: Config, sim: Sim)
    requires cfg.Valid() && sim.buf.WellFormed()
    ensures var o := Tick(cfg, sim);
            Advances(cfg, sim) ==> o.sim.tCur == sim.tCur + cfg.dt && o.sim.buf == Advance(cfg, sim.buf)
    ensures var o := Tick(cfg, sim);
            !Advances(cfg, sim) ==> o.sim == sim.(tIndex := 1, running := false) && o.events == [Finished]
  {
  }

  /** On an advancing tick that does not diverge, an interval snapshot is
      emitted exactly when it is due, and the counter then rises by one:
      at most one interval snapshot per tick. */
  lemma SnapshotCadence(cfg: Config, sim: Sim)
    requires cfg.Valid() && sim.buf.WellFormed()
    requires Advances(cfg, sim) && !Diverged(Advance(cfg, sim.buf).state)
    ensures var o := Tick(cfg, sim);
            var due := SnapshotDue(sim.tCur + cfg.dt, sim.tIndex);
            && |o.events| <= 1
            && (|o.events| == 1 <==> due)
            && (o.sim.tIndex == sim.tIndex + 1 <==> due)
            && (!due ==> o.sim.tIndex == sim.tIndex)
            && (forall e :: e in o.events ==> e == Snapshot(o.sim.buf.state))
            && o.sim.running == sim.running
  {
  }

  /** An advancing tick ends the run early exactly when the new state
      diverges; it then emits one more snapshot, resets the counter and
      finishes. The interval test runs first, so a diverging tick whose
      interval snapshot is due emits that one too, three events in all. */
  lemma DivergenceEndsRun(cfg: Config, sim: Sim)
    requires cfg.Valid() && sim.buf.WellFormed() && Advances(cfg, sim)
    ensures var o := Tick(cfg, sim);
            (Finished in o.events <==> Diverged(Advance(cfg, sim.buf).state))
    ensures var o := Tick(cfg, sim);
            Diverged(Advance(cfg, sim.buf).state) ==>
              && 2 <= |o.events| <= 3
              && o.events[|o.events| - 2..] == [Snapshot(o.sim.buf.state), Finished]
              && (|o.events| == 3 <==> SnapshotDue(sim.tCur + cfg.dt, sim.tIndex))
              && (|o.events| == 3 ==> o.events[0] == Snapshot(o.sim.buf.state))
              && o.sim.tIndex == 1 && !o.sim.running
  {
  }

  /** A tick finishes the run exactly when the guard fails or the new state
      diverges; finishing always resets the counter to 1, and a tick that
      does not finish leaves the running flag alone. */
  lemma FinishIff(cfg: Config, sim: Sim)
    requires cfg.Valid() && sim.buf.WellFormed()
    ensures var o := Tick(cfg, sim);
            Finished in o.events <==> !Advances(cfg, sim) || Diverged(Advance(cfg, sim.buf).state)
    ensures var o := Tick(cfg, sim);
            Finished in o.events ==> o.sim.tIndex == 1 && !o.sim.running && o.events[|o.events| - 1] == Finished
    ensures var o := Tick(cfg, sim);
            !(Finished in o.events) ==> o.sim.running == sim.running
  {
  }

  /** The counter starts at 1 and never drops below it. */
  lemma TIndexPositive(cfg: Config, sim: Sim, spin: nat, dx: real, profile: Profile, exp: real -> real)
    requires cfg.Valid() && sim.buf.WellFormed() && sim.tIndex >= 1
    requires spin >= 1 && dx > 0.0
    ensures Tick(cfg, sim).sim.tIndex >= 1
    ensures Solve(cfg, sim, spin, dx, profile, exp).sim.tIndex >= 1
  {
  }

  /** A Crank-Nicolson tick moves the scratch buffer into the state and
      touches nothing else; once state and scratch agree, every further
      Crank-Nicolson tick leaves the buffers unchanged. */
  lemma CrankNicolsonCopiesScratch(cfg: Config, b: Buffers)
    requires cfg.Valid() && cfg.scheme == CrankNicolson && b.WellFormed()
    ensures Advance(cfg, b).state == b.scratch
    ensures Advance(cfg, b).scratch == b.scratch
    ensures Advance(cfg, Advance(cfg, b)) == Advance(cfg, b)
  {
  }

  /** The first Crank-Nicolson tick after Solve turns the state into the
      scratch buffer as the resize left it: the old contents on the common
      prefix, zeros on the grown part. */
  lemma CrankNicolsonAfterSolve(cfg: Config, sim: Sim, spin: nat, dx: real, profile: Profile, exp: real -> real)
    requires cfg.Valid() && cfg.scheme == CrankNicolson && spin >= 1 && dx > 0.0
    ensures var s := Solve(cfg, sim, spin, dx, profile, exp).sim;
            var o := Tick(cfg, s);
            && o.sim.tCur == cfg.dt
            && |o.sim.buf.state| == spin + 1
            && (forall i :: 0 <= i < |sim.buf.scratch| && i <= spin ==> o.sim.buf.state[i] == sim.buf.scratch[i])
            && (forall i :: |sim.buf.scratch| <= i <= spin ==> o.sim.buf.state[i] == 0.0)
  {
    var s := Solve(cfg, sim, spin, dx, profile, exp).sim;
    assert Advances(cfg, s);
  }

  /** The tick from p would not diverge: the state the scheme produces
      stays within the band on the divergence window. */
  predicate Sustained(cfg: Config, p: Sim)
  {
    cfg.Valid() && p.buf.WellFormed() && !Diverged(Advance(cfg, p.buf).state)
  }

  /** The clock discipline of one timer period from p to q: the run keeps
      going only through a tick that passed the guard and moved the clock
      by exactly dt, and it does keep going through such a tick when the
      new state does not diverge; a running state that fails the guard is
      stopped; a stopped run stays as it is. */
  predicate Clocked(cfg: Config, p: Sim, q: Sim)
  {
    && (q.running ==> p.running && Advances(cfg, p) && q.tCur == p.tCur + cfg.dt)
    && (p.running && Advances(cfg, p) && Sustained(cfg, p) ==> q.running)
    && (p.running && !Advances(cfg, p) ==> !q.running)
    && (!p.running ==> q == p)
  }

  /** One period of the timer: a tick while the run is going, nothing once
      it has finished. */
  function Step(cfg: Config, sim: Sim): (r: Sim)
    requires cfg.Valid() && sim.buf.WellFormed()
    ensures r.buf.WellFormed() && |r.buf.state| == |sim.buf.state|
    ensures Clocked(cfg, sim, r)
  {
    if sim.running then Tick(cfg, sim).sim else sim
  }

  /** Every consecutive pair of a trace obeys the clock discipline. */
  predicate ClockedTrace(cfg: Config, trace: seq<Sim>)
  {
    forall i :: 0 < i < |trace| ==> Clocked(cfg, trace[i - 1], trace[i])
  }

  /** The states after 0, 1, .., k periods of the timer. */
  function Run(cfg: Config, sim: Sim, k: nat): (trace: seq<Sim>)
    requires cfg.Valid() && sim.buf.WellFormed()
    ensures |trace| == k + 1 && trace[0] == sim
    ensures forall i :: 0 <= i < |trace| ==> trace[i].buf.WellFormed()
    ensures forall i :: 0 < i < |trace| ==> trace[i] == Step(cfg, trace[i - 1])
    ensures ClockedTrace(cfg, trace)
  {
    if k == 0 then [sim]
    else
      var p := Run(cfg, sim, k - 1);
      var trace := p + [Step(cfg, p[k - 1])];
      assert forall i :: 0 <= i < k ==> trace[i] == p[i];
      trace
  }

  /** With dt = T / nt the guard admits the clock value k dt exactly when
      k <= nt. */
  lemma GuardAdmits(nt: nat, k: nat, dt: real)
    requires nt >= 1 && dt == kRangeT / nt as real
    ensures k as real * dt < kRangeT + 1e-3 * dt <==> k <= nt
  {
    assert nt as real * dt == kRangeT;
    if k <= nt {
      assert k as real * dt <= nt as real * dt;
    } else {
      assert k as real * dt >= (nt + 1) as real * dt;
    }
  }

  lemma NextMultiple(j: nat, k: nat, dt: real)
    requires k == j + 1
    ensures j as real * dt + dt == k as real * dt
  {
  }

  /** While a clocked run started from a zero clock is still going, its
      clock after k periods reads k dt. */
  lemma {:induction false} RunClock(cfg: Config, trace: seq<Sim>, k: nat)
    requires ClockedTrace(cfg, trace) && |trace| > 0 && trace[0].tCur == 0.0 && k < |trace|
    ensures trace[k].running ==> trace[k].tCur == k as real * cfg.dt
  {
    if k > 0 {
      RunClock(cfg, trace, k - 1);
      assert Clocked(cfg, trace[k - 1], trace[k]);
      NextMultiple(k - 1, k, cfg.dt);
    }
  }

  /** A clocked run with dt = T / nt that starts running from a zero
      clock and does not diverge in its first k periods, k <= nt + 1, is
      still running after them, with clock k dt. */
  lemma {:induction false} RunContinues(cfg: Config, trace: seq<Sim>, nt: nat, k: nat)
    requires cfg.Valid() && nt >= 1 && cfg.dt == kRangeT / nt as real
    requires ClockedTrace(cfg, trace) && |trace| > 0 && trace[0].running && trace[0].tCur == 0.0
    requires k <= nt + 1 && k < |trace|
    requires forall j :: 0 <= j < k ==> Sustained(cfg, trace[j])
    ensures trace[k].running && trace[k].tCur == k as real * cfg.dt
  {
    if k > 0 {
      RunContinues(cfg, trace, nt, k - 1);
      GuardAdmits(nt, k - 1, cfg.dt);
      assert Sustained(cfg, trace[k - 1]);
      assert Clocked(cfg, trace[k - 1], trace[k]);
      NextMultiple(k - 1, k, cfg.dt);
    }
  }

  /** A clocked run with dt = T / nt that starts running from a zero clock
      and does not diverge in periods 0 .. nt is running through period
      nt + 1, where its clock reads T + dt. */
  lemma RunReachesHorizon(cfg: Config, trace: seq<Sim>, nt: nat)
    requires cfg.Valid() && nt >= 1 && cfg.dt == kRangeT / nt as real
    requires ClockedTrace(cfg, trace) && nt + 1 < |trace| && trace[0].running && trace[0].tCur == 0.0
    requires forall j :: 0 <= j <= nt ==> Sustained(cfg, trace[j])
    ensures forall k :: 0 <= k <= nt + 1 ==> trace[k].running && trace[k].tCur == k as real * cfg.dt
    ensures trace[nt + 1].tCur == kRangeT + cfg.dt
  {
    forall k | 0 <= k <= nt + 1
      ensures trace[k].running && trace[k].tCur == k as real * cfg.dt
    {
      RunContinues(cfg, trace, nt, k);
    }
    NextMultiple(nt, nt + 1, cfg.dt);
    assert nt as real * cfg.dt == kRangeT;
  }

  /** In exact arithmetic a run with dt = T / nt makes nt + 1 advancing
      ticks, the periods 0 .. nt, unless it diverges first; a running state
      fails the guard in period nt + 1, so the timer has stopped after
      nt + 2 periods. When the run starts running and none of the periods
      0 .. nt diverges, it does make all nt + 1 ticks and stands at
      T + dt when the guard stops it. */
  lemma RunLength(cfg: Config, trace: seq<Sim>, nt: nat)
    requires cfg.Valid() && nt >= 1 && cfg.dt == kRangeT / nt as real
    requires ClockedTrace(cfg, trace) && |trace| == nt + 3 && trace[0].tCur == 0.0
    ensures forall k :: 0 <= k <= nt && trace[k].running ==> Advances(cfg, trace[k])
    ensures trace[nt + 1].running ==> !Advances(cfg, trace[nt + 1])
    ensures !trace[nt + 2].running
    ensures trace[0].running && (forall j :: 0 <= j <= nt ==> Sustained(cfg, trace[j])) ==>
              && (forall k :: 0 <= k <= nt + 1 ==> trace[k].running && trace[k].tCur == k as real * cfg.dt)
              && trace[nt + 1].tCur == kRangeT + cfg.dt
  {
    if trace[0].running && (forall j :: 0 <= j <= nt ==> Sustained(cfg, trace[j])) {
      RunReachesHorizon(cfg, trace, nt);
    }
    forall k | 0 <= k <= nt && trace[k].running
      ensures Advances(cfg, trace[k])
    {
      RunClock(cfg, trace, k);
      GuardAdmits(nt, k, cfg.dt);
    }
    RunClock(cfg, trace, nt + 1);
    GuardAdmits(nt, nt + 1, cfg.dt);
    assert Clocked(cfg, trace[nt + 1], trace[nt + 2]);
  }

  /** The run length for the timer driving the tick handler from a freshly
      solved state: never more than nt + 1 advancing ticks, and exactly
      nt + 1, ending at T + dt, when no tick diverges. */
  lemma RunAfterSolve(cfg: Config, sim: Sim, nt: nat, spin: nat, dx: real, profile: Profile, exp: real -> real)
    requires cfg.Valid() && nt >= 1 && cfg.dt == kRangeT / nt as real && spin >= 1 && dx > 0.0
    ensures var trace := Run(cfg, Solve(cfg, sim, spin, dx, profile, exp).sim, nt + 2);
            && (forall k :: 0 <= k <= nt && trace[k].running ==> Advances(cfg, trace[k]))
            && (trace[nt + 1].running ==> !Advances(cfg, trace[nt + 1]))
            && !trace[nt + 2].running
    ensures var trace := Run(cfg, Solve(cfg, sim, spin, dx, profile, exp).sim, nt + 2);
            (forall j :: 0 <= j <= nt ==> Sustained(cfg, trace[j])) ==>
              && (forall k :: 0 <= k <= nt + 1 ==> trace[k].running && trace[k].tCur == k as real * cfg.dt)
              && trace[nt + 1].tCur == kRangeT + cfg.dt
  {
    var trace := Run(cfg, Solve(cfg, sim, spin, dx, profile, exp).sim, nt + 2);
    RunLength(cfg, trace, nt);
  }
}
