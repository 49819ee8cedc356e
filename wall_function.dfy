/**
 * The control flow of the standard wall function of the compressible solver
 * (CNSSolver::SetTau_Wall_WF, after Nichols and Nelson): for one wall vertex,
 * the automatic switch-off for a small starting y+, the relaxed Newton iteration
 * for the friction velocity with its iteration cap and safe fallback values, the
 * clipping of the wall eddy viscosity and the Crocco-Busemann update of the wall
 * temperature. The law-of-the-wall formulas themselves (exp, asin, sqrt of the
 * Spalding and White-Christoph laws) are given per vertex as functions.
 */
module WallFunction {

  /** Convergence tolerance of the Newton solver. */
  const TOL: real := 0.000000000001
  /** The error scale EPS of option_structure.hpp (1e-16). */
  const EPS: real := 0.0000000000000001
  /** Lower clip of the friction velocity and of the wall eddy viscosity (1e-6). */
  const CLIP: real := 0.000001
  /** Safe values used when the Newton solver does not converge. */
  const FALLBACK_Y_PLUS: real := 30.0
  const FALLBACK_EDDY_VISCOSITY: real := 1.0
  const FALLBACK_U_TAU: real := 1.0

  function Abs(x: real): real { if x < 0.0 then -x else x }

  function Max(a: real, b: real): (m: real)
    ensures m >= a && m >= b && (m == a || m == b)
  {
    if a >= b then a else b
  }

  /**
   * What one evaluation of the wall laws yields from (U_Tau, T_Wall, Density_Wall):
   * the Crocco-Busemann denominator 1 + Beta U+ - Gam U+^2, the Spalding y+ and the
   * unclipped wall eddy viscosity.
   */
  datatype WallLawTerms = WallLawTerms(denum: real, yPlus: real, eddyRaw: real)

  /** What the Newton update reads: U_Tau, the T_Wall and density before and after the temperature update, and diff. */
  datatype NewtonInputs = NewtonInputs(uTau: real, tWallOld: real, densityOld: real, densityNew: real, diff: real)

  /**
   * The floating-point physics of one vertex, taken as given: terms evaluates the wall
   * laws, update returns U_Tau - relax * diff / grad_diff.
   */
  datatype WallLaw = WallLaw(terms: (real, real, real) -> WallLawTerms, update: NewtonInputs -> real)

  /**
   * One wall vertex as the wall function sees it: the pressure and temperature of the normal
   * neighbour (P_Wall is extrapolated from it), the current temperature and laminar viscosity
   * of the wall point, the wall distance |WallDist|, sqrt(WallShearStress / Density_Wall) from
   * the current stress tensor, and the vertex's wall laws.
   */
  datatype WallFunctionInput = WallFunctionInput(
    pWall: real,
    tNormal: real,
    tWall: real,
    lamViscWall: real,
    wallDist: real,
    shearVelocity: real,
    law: WallLaw)

  /** Configuration shared by every vertex: R, the minimum y+, the iteration cap, and whether the marker is isothermal. */
  datatype WallFunctionConfig = WallFunctionConfig(gasConstant: real, minYPlus: real, maxIter: nat, isothermal: bool)

  /** The divisions of one vertex are by non-zero numbers (a physical state: positive R, T, P, mu and distance). */
  predicate InputOk(cfg: WallFunctionConfig, v: WallFunctionInput)
  {
    cfg.gasConstant != 0.0 && v.tWall != 0.0 && v.tNormal != 0.0 && v.pWall != 0.0
    && v.lamViscWall != 0.0 && v.wallDist != 0.0
  }

  /** Equation of state at the wall: Density_Wall = P_Wall / (R T_Wall). */
  function WallDensity(cfg: WallFunctionConfig, pWall: real, tWall: real): real
    requires cfg.gasConstant != 0.0 && tWall != 0.0
  {
    pWall / (cfg.gasConstant * tWall)
  }

  /** The function the Newton method drives to zero: Density_Wall U_Tau |WallDist| / mu_wall - Y+. */
  function NewtonResidual(v: WallFunctionInput, density: real, uTau: real, yPlus: real): real
    requires v.lamViscWall != 0.0
  {
    (density * uTau * v.wallDist / v.lamViscWall) - yPlus
  }

  /** The starting guess of the friction velocity, clipped from below. */
  function InitialFrictionVelocity(v: WallFunctionInput): (u: real)
    ensures u >= CLIP
    ensures v.shearVelocity >= CLIP ==> u == v.shearVelocity
  {
    Max(CLIP, v.shearVelocity)
  }

  /** Y_Plus_Start = Density_Wall U_Tau |WallDist| / mu_wall with the starting guess. */
  function YPlusStart(cfg: WallFunctionConfig, v: WallFunctionInput): real
    requires InputOk(cfg, v)
  {
    WallDensity(cfg, v.pWall, v.tWall) * InitialFrictionVelocity(v) * v.wallDist / v.lamViscWall
  }

  /** The variables the Newton loop updates. */
  datatype NewtonState = NewtonState(uTau: real, tWall: real, densityWall: real, yPlus: real,
                                     eddyVisc: real, diff: real, counter: nat)

  /** The state on entry to the loop. */
  function InitialNewtonState(cfg: WallFunctionConfig, v: WallFunctionInput): (st: NewtonState)
    requires InputOk(cfg, v)
    ensures st.counter == 0 && st.diff == 1.0 && st.uTau >= CLIP && st.tWall == v.tWall
  {
    NewtonState(InitialFrictionVelocity(v), v.tWall, WallDensity(cfg, v.pWall, v.tWall),
                0.99 * cfg.minYPlus, 0.0, 1.0, 0)
  }

  /**
   * One pass of the loop body, before the iteration-cap check. T_Wall follows the
   * Crocco-Busemann law unless the marker is isothermal, and only when its denominator
   * exceeds EPS; the eddy viscosity is clipped at 1e-6.
   */
  function NewtonIteration(cfg: WallFunctionConfig, v: WallFunctionInput, st: NewtonState): (next: NewtonState)
    requires InputOk(cfg, v) && st.tWall != 0.0
    ensures next.tWall != 0.0
    ensures next.counter == st.counter + 1
    ensures next.eddyVisc >= CLIP
    ensures cfg.isothermal ==> next.tWall == st.tWall
    ensures next.densityWall == WallDensity(cfg, v.pWall, next.tWall)
  {
    var t := v.law.terms(st.uTau, st.tWall, st.densityWall);
    var tWall := if !cfg.isothermal && t.denum > EPS then v.tNormal / t.denum else st.tWall;
    var density := WallDensity(cfg, v.pWall, tWall);
    var eddy := Max(CLIP, t.eddyRaw);
    var diff := NewtonResidual(v, density, st.uTau, t.yPlus);
    var uTau := v.law.update(NewtonInputs(st.uTau, st.tWall, st.densityWall, density, diff));
    NewtonState(uTau, tWall, density, t.yPlus, eddy, diff, st.counter + 1)
  }

  /** The state of the loop when it stops: by convergence, or by the cap with the safe values. */
  function NewtonLoop(cfg: WallFunctionConfig, v: WallFunctionInput, st: NewtonState): (r: (NewtonState, bool))
    requires InputOk(cfg, v) && st.tWall != 0.0 && st.counter <= cfg.maxIter
    decreases cfg.maxIter - st.counter
  {
    if Abs(st.diff) <= TOL then (st, true)
    else
      var next := NewtonIteration(cfg, v, st);
      if next.counter > cfg.maxIter then
        (next.(yPlus := FALLBACK_Y_PLUS, eddyVisc := FALLBACK_EDDY_VISCOSITY, uTau := FALLBACK_U_TAU), false)
      else NewtonLoop(cfg, v, next)
  }

  /** What the wall function decides at one vertex. */
  datatype WallFunctionResult =
    | SmallYPlus
    | Solved(yPlus: real, eddyVisc: real, uTau: real, tWall: real, tauWall: real, converged: bool, iterations: nat)

  /** Tau_Wall = (1 / Density_Wall) (Y+ mu_wall / |WallDist|)^2. */
  function WallShearStress(v: WallFunctionInput, densityWall: real, yPlus: real): real
    requires v.wallDist != 0.0 && densityWall != 0.0
  {
    var a := yPlus * v.lamViscWall / v.wallDist;
    (1.0 / densityWall) * (a * a)
  }

  /** The wall function at one vertex, as a function of its inputs. */
  function WallFunctionSpec(cfg: WallFunctionConfig, v: WallFunctionInput): WallFunctionResult
    requires InputOk(cfg, v)
  {
    if YPlusStart(cfg, v) < cfg.minYPlus then SmallYPlus
    else
      var st0 := InitialNewtonState(cfg, v);
      NewtonLoopOutcome(cfg, v, st0);
      var (st, converged) := NewtonLoop(cfg, v, st0);
      DensityNonZero(cfg, v.pWall, st.tWall);
      Solved(st.yPlus, st.eddyVisc, st.uTau, st.tWall, WallShearStress(v, st.densityWall, st.yPlus), converged, st.counter)
  }

  lemma DensityNonZero(cfg: WallFunctionConfig, pWall: real, tWall: real)
    requires cfg.gasConstant != 0.0 && tWall != 0.0 && pWall != 0.0
    ensures WallDensity(cfg, pWall, tWall) != 0.0
  {
  }

  /**
   * The loop's outcome: it runs at least once more from a non-converged state, the counter
   * ends at most at max_iter + 1, exactly max_iter + 1 when it did not converge, in which case
   * the safe values are used; otherwise the final |diff| is within the tolerance; the eddy
   * viscosity is at least 1e-6 whenever an iteration ran; an isothermal wall keeps T_Wall.
   */
  lemma {:induction false} NewtonLoopOutcome(cfg: WallFunctionConfig, v: WallFunctionInput, st: NewtonState)
    requires InputOk(cfg, v) && st.tWall != 0.0 && st.counter <= cfg.maxIter
    requires Abs(st.diff) > TOL
    ensures var (fin, converged) := NewtonLoop(cfg, v, st);
            st.counter < fin.counter <= cfg.maxIter + 1
            && fin.eddyVisc >= CLIP
            && fin.tWall != 0.0
            && fin.densityWall == WallDensity(cfg, v.pWall, fin.tWall)
            && (converged <==> fin.counter <= cfg.maxIter)
            && (converged ==> Abs(fin.diff) <= TOL)
            && (!converged ==> fin.yPlus == FALLBACK_Y_PLUS && fin.eddyVisc == FALLBACK_EDDY_VISCOSITY
                               && fin.uTau == FALLBACK_U_TAU)
            && (cfg.isothermal ==> fin.tWall == st.tWall)
    decreases cfg.maxIter - st.counter
  {
    var next := NewtonIteration(cfg, v, st);
    if next.counter <= cfg.maxIter && Abs(next.diff) > TOL {
      NewtonLoopOutcome(cfg, v, next);
    }
  }

  /**
   * The wall function at one vertex: skipped exactly when the starting y+ is below the minimum;
   * otherwise at most max_iter + 1 Newton steps, the fallback values exactly when the cap was
   * hit, a wall eddy viscosity of at least 1e-6, and an unchanged T_Wall on an isothermal wall.
   */
  lemma WallFunctionOutcome(cfg: WallFunctionConfig, v: WallFunctionInput)
    requires InputOk(cfg, v)
    ensures var r := WallFunctionSpec(cfg, v);
            (r.SmallYPlus? <==> YPlusStart(cfg, v) < cfg.minYPlus)
            && (r.Solved? ==>
                  1 <= r.iterations <= cfg.maxIter + 1
                  && r.eddyVisc >= CLIP
                  && r.tWall != 0.0
                  && (r.converged <==> r.iterations <= cfg.maxIter)
                  && (!r.converged ==> r.yPlus == FALLBACK_Y_PLUS && r.eddyVisc == FALLBACK_EDDY_VISCOSITY
                                       && r.uTau == FALLBACK_U_TAU)
                  && (cfg.isothermal ==> r.tWall == v.tWall))
  {
    if YPlusStart(cfg, v) >= cfg.minYPlus {
      NewtonLoopOutcome(cfg, v, InitialNewtonState(cfg, v));
    }
  }

  /**
   * The per-vertex part of SetTau_Wall_WF, with its while loop: the starting y+ check,
   * the Newton iterations and the iteration cap with its safe fallback values.
   */
  method WallFunctionVertex(cfg: WallFunctionConfig, v: WallFunctionInput) returns (r: WallFunctionResult)
    requires InputOk(cfg, v)
    ensures r == WallFunctionSpec(cfg, v)
    ensures r.SmallYPlus? <==> YPlusStart(cfg, v) < cfg.minYPlus
    ensures r.Solved? ==> r.eddyVisc >= CLIP && 1 <= r.iterations <= cfg.maxIter + 1
  {
    var uTau := Max(CLIP, v.shearVelocity);
    var tWall := v.tWall;
    var densityWall := WallDensity(cfg, v.pWall, tWall);
    var yPlus := 0.99 * cfg.minYPlus;
    var eddyVisc := 0.0;
    var diff := 1.0;
    var counter: nat := 0;
    var yPlusStart := densityWall * uTau * v.wallDist / v.lamViscWall;
    assert yPlusStart == YPlusStart(cfg, v);
    if yPlusStart < cfg.minYPlus {
      return SmallYPlus;
    }
    ghost var st0 := InitialNewtonState(cfg, v);
    assert st0 == NewtonState(uTau, tWall, densityWall, yPlus, eddyVisc, diff, counter);
    ghost var spec := NewtonLoop(cfg, v, st0);
    var converged := true;
    while Abs(diff) > TOL
      invariant tWall != 0.0
      invariant densityWall == WallDensity(cfg, v.pWall, tWall)
      invariant converged ==> counter <= cfg.maxIter
      invariant converged ==> NewtonLoop(cfg, v, NewtonState(uTau, tWall, densityWall, yPlus, eddyVisc, diff, counter))
                              == spec
      invariant !converged ==> (NewtonState(uTau, tWall, densityWall, yPlus, eddyVisc, diff, counter), false)
                               == spec
      decreases cfg.maxIter + 1 - counter, if converged then 1 else 0
    {
      ghost var st := NewtonState(uTau, tWall, densityWall, yPlus, eddyVisc, diff, counter);
      var t := v.law.terms(uTau, tWall, densityWall);
      var tWallOld := tWall;
      var densityOld := densityWall;
      if !cfg.isothermal {
        var denum := t.denum;
        if denum > EPS {
          tWall := v.tNormal / denum;
        }
      }
      densityWall := WallDensity(cfg, v.pWall, tWall);
      yPlus := t.yPlus;
      eddyVisc := Max(CLIP, t.eddyRaw);
      diff := NewtonResidual(v, densityWall, uTau, yPlus);
      uTau := v.law.update(NewtonInputs(uTau, tWallOld, densityOld, densityWall, diff));
      counter := counter + 1;
      ghost var next := NewtonIteration(cfg, v, st);
      assert next.tWall == tWall;
      assert next.densityWall == densityWall;
      assert next.yPlus == yPlus;
      assert next.eddyVisc == eddyVisc;
      assert next.diff == diff;
      assert next.uTau == uTau;
      assert NewtonState(uTau, tWall, densityWall, yPlus, eddyVisc, diff, counter) == NewtonIteration(cfg, v, st);
      if counter > cfg.maxIter {
        yPlus := FALLBACK_Y_PLUS;
        eddyVisc := FALLBACK_EDDY_VISCOSITY;
        uTau := FALLBACK_U_TAU;
        converged := false;
        break;
      }
    }
    ghost var fin := NewtonState(uTau, tWall, densityWall, yPlus, eddyVisc, diff, counter);
    assert spec == (fin, converged);
    DensityNonZero(cfg, v.pWall, tWall);
    var tauWall := WallShearStress(v, densityWall, yPlus);
    WallFunctionOutcome(cfg, v);
    r := Solved(yPlus, eddyVisc, uTau, tWall, tauWall, converged, counter);
  }
}
