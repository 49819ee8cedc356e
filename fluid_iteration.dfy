/**
 * The control logic of CFluidIteration: which equation system each solver kind selects, which
 * integrations one inner iteration runs and in which order, what Monitor reports, how many
 * inner iterations Solve performs, and the gust-length check of SetWind_GustField.
 * The integrations themselves (multigrid and single-grid iterations) are not modelled: an
 * iteration is the list of integrations it calls.
 */
module FluidIteration {
  import opened Outcome

  // ENUM_MAIN_SOLVER
  const EULER: nat := 1
  const NAVIER_STOKES: nat := 2
  const RANS: nat := 3
  const INC_EULER: nat := 4
  const INC_NAVIER_STOKES: nat := 5
  const INC_RANS: nat := 6
  const HEAT_EQUATION: nat := 7
  const DISC_ADJ_EULER: nat := 15
  const DISC_ADJ_RANS: nat := 16
  const DISC_ADJ_NAVIER_STOKES: nat := 17
  const DISC_ADJ_INC_EULER: nat := 18
  const DISC_ADJ_INC_RANS: nat := 19
  const DISC_ADJ_INC_NAVIER_STOKES: nat := 20
  const NEMO_EULER: nat := 41
  const NEMO_NAVIER_STOKES: nat := 42

  // RUNTIME_TYPE
  const RUNTIME_FLOW_SYS: nat := 2
  const RUNTIME_TURB_SYS: nat := 3
  const RUNTIME_HEAT_SYS: nat := 21
  const RUNTIME_TRANS_SYS: nat := 22
  const RUNTIME_RADIATION_SYS: nat := 23

  // ENUM_TRANS_MODEL::LM, ENUM_GUST_TYPE::VORTEX, TIME_MARCHING::DT_STEPPING_1ST / _2ND
  const LM: nat := 1
  const VORTEX: nat := 4
  const DT_STEPPING_1ST: nat := 2
  const DT_STEPPING_2ND: nat := 3

  const EulerFamily: set<nat> := {EULER, DISC_ADJ_EULER, INC_EULER, DISC_ADJ_INC_EULER, NEMO_EULER}
  const NavierStokesFamily: set<nat> :=
    {NAVIER_STOKES, DISC_ADJ_NAVIER_STOKES, INC_NAVIER_STOKES, DISC_ADJ_INC_NAVIER_STOKES, NEMO_NAVIER_STOKES}
  const RansFamily: set<nat> := {RANS, DISC_ADJ_RANS, INC_RANS, DISC_ADJ_INC_RANS}

  const GUST_LENGTH_MESSAGE: string := "The gust length needs to be positive"

  datatype Option<T> = None | Some(value: T)

  /**
   * The switch at the top of Iterate: the solver kind that SetGlobalParam receives with
   * RUNTIME_FLOW_SYS, or None for a kind no case names (the global parameters are then left as they are).
   */
  function FlowSystemParam(kind: nat): (p: Option<nat>)
    ensures p == Some(EULER) <==> kind in EulerFamily
    ensures p == Some(NAVIER_STOKES) <==> kind in NavierStokesFamily
    ensures p == Some(RANS) <==> kind in RansFamily
    ensures p.None? <==> kind !in EulerFamily && kind !in NavierStokesFamily && kind !in RansFamily
    ensures p.Some? ==> p.value in {EULER, NAVIER_STOKES, RANS}
  {
    if kind in EulerFamily then Some(EULER)
    else if kind in NavierStokesFamily then Some(NAVIER_STOKES)
    else if kind in RansFamily then Some(RANS)
    else None
  }

  /** The three families share no solver kind. */
  lemma SolverFamiliesDisjoint()
    ensures EulerFamily * NavierStokesFamily == {} && EulerFamily * RansFamily == {}
    ensures NavierStokesFamily * RansFamily == {}
  {
    assert forall k :: k in EulerFamily ==> k !in NavierStokesFamily && k !in RansFamily;
    assert forall k :: k in NavierStokesFamily ==> k !in RansFamily;
  }

  /** The kind a family is mapped to is a member of that family and maps to itself. */
  lemma FlowSystemParamIdempotent(kind: nat)
    requires FlowSystemParam(kind).Some?
    ensures FlowSystemParam(FlowSystemParam(kind).value) == FlowSystemParam(kind)
  {
  }

  /** The heat solver and the continuous adjoints select no flow system. */
  lemma NoFlowSystemForOtherKinds()
    ensures FlowSystemParam(HEAT_EQUATION).None?
    ensures FlowSystemParam(10).None? && FlowSystemParam(11).None? && FlowSystemParam(12).None?
  {
  }

  /** frozen_visc of Iterate: frozen viscosity requested for the adjoint that is running. */
  function FrozenViscosity(continuousAdjoint: bool, frozenViscCont: bool, discreteAdjoint: bool,
                           frozenViscDisc: bool): (frozen: bool)
    ensures !continuousAdjoint && !discreteAdjoint ==> !frozen
    ensures frozen ==> frozenViscCont || frozenViscDisc
    ensures continuousAdjoint && !discreteAdjoint ==> (frozen <==> frozenViscCont)
    ensures discreteAdjoint && !continuousAdjoint ==> (frozen <==> frozenViscDisc)
  {
    (continuousAdjoint && frozenViscCont) || (discreteAdjoint && frozenViscDisc)
  }

  /** The configuration Iterate reads. */
  datatype IterateConfig = IterateConfig(
    kind: nat,                  // Kind_Solver
    transModel: nat,            // Kind_Trans_Model
    frozenVisc: bool,           // frozen_visc
    weaklyCoupledHeat: bool,
    radiation: bool,            // AddRadiation()
    cflAdapt: bool,             // CFL_Adapt == YES
    discreteAdjoint: bool,
    gridMovement: bool,
    aeroelastic: bool,
    timeMarching: nat,
    windGust: bool,
    aeroelasticIter: nat)

  /** One call Iterate makes: an integration of a runtime system, CFL adaptation, the aeroelastic grid update or the gust field. */
  datatype Action =
    | MultiGridIteration(system: nat)
    | SingleGridIteration(system: nat)
    | AdaptCFLNumber
    | SetGridMovement
    | SetWindGustField

  predicate Unsteady(cfg: IterateConfig)
  {
    cfg.timeMarching == DT_STEPPING_1ST || cfg.timeMarching == DT_STEPPING_2ND
  }

  /** Iterate reads InnerIter % AeroelasticIter only on an aeroelastic unsteady run with a moving grid and a gust. */
  predicate GustReapplyDefined(cfg: IterateConfig)
  {
    cfg.gridMovement && cfg.aeroelastic && Unsteady(cfg) && cfg.windGust ==> cfg.aeroelasticIter > 0
  }

  /** The gust field is re-applied every AeroelasticIter inner iterations, except at the first. */
  predicate ReappliesGust(cfg: IterateConfig, innerIter: nat)
    requires GustReapplyDefined(cfg)
  {
    cfg.gridMovement && cfg.aeroelastic && Unsteady(cfg) && cfg.windGust
    && innerIter % cfg.aeroelasticIter == 0 && innerIter != 0
  }

  /** Every call Iterate can make, in the order in which it makes them. */
  const IterateSchedule: seq<Action> := [
    MultiGridIteration(RUNTIME_FLOW_SYS),
    SingleGridIteration(RUNTIME_TURB_SYS),
    SingleGridIteration(RUNTIME_TRANS_SYS),
    SingleGridIteration(RUNTIME_HEAT_SYS),
    SingleGridIteration(RUNTIME_RADIATION_SYS),
    AdaptCFLNumber,
    SetGridMovement,
    SetWindGustField]

  /**
   * The condition under which Iterate makes a call: the flow is always integrated; the
   * turbulence model for the RANS family unless the viscosity is frozen, the LM transition model
   * only inside that branch; the weakly coupled heat and radiation systems when configured; CFL
   * adaptation outside the discrete adjoint; the aeroelastic grid update on an unsteady run, and
   * within it the gust field.
   */
  predicate Runs(cfg: IterateConfig, innerIter: nat, a: Action)
    requires GustReapplyDefined(cfg)
  {
    match a
    case MultiGridIteration(system) => system == RUNTIME_FLOW_SYS
    case SingleGridIteration(system) =>
      (system == RUNTIME_TURB_SYS && cfg.kind in RansFamily && !cfg.frozenVisc)
      || (system == RUNTIME_TRANS_SYS && cfg.kind in RansFamily && !cfg.frozenVisc && cfg.transModel == LM)
      || (system == RUNTIME_HEAT_SYS && cfg.weaklyCoupledHeat)
      || (system == RUNTIME_RADIATION_SYS && cfg.radiation)
    case AdaptCFLNumber => cfg.cflAdapt && !cfg.discreteAdjoint
    case SetGridMovement => cfg.gridMovement && cfg.aeroelastic && Unsteady(cfg)
    case SetWindGustField => ReappliesGust(cfg, innerIter)
  }

  /** The calls of schedule that run, in schedule order. */
  function RunningActions(cfg: IterateConfig, innerIter: nat, schedule: seq<Action>): (actions: seq<Action>)
    requires GustReapplyDefined(cfg)
    ensures |actions| <= |schedule|
    ensures forall a :: a in actions <==> a in schedule && Runs(cfg, innerIter, a)
    decreases |schedule|
  {
    if schedule == [] then []
    else
      var rest := RunningActions(cfg, innerIter, schedule[1..]);
      if Runs(cfg, innerIter, schedule[0]) then [schedule[0]] + rest else rest
  }

  /** No two entries of s are equal. */
  ghost predicate Distinct(s: seq<Action>)
  {
    forall i, j :: 0 <= i < j < |s| ==> s[i] != s[j]
  }

  /** Taking the running calls of a schedule without repetitions repeats none. */
  lemma {:induction false} RunningActionsDistinct(cfg: IterateConfig, innerIter: nat, schedule: seq<Action>)
    requires GustReapplyDefined(cfg) && Distinct(schedule)
    ensures Distinct(RunningActions(cfg, innerIter, schedule))
    decreases |schedule|
  {
    if schedule != [] {
      var tail := schedule[1..];
      assert Distinct(tail) by {
        forall i, j | 0 <= i < j < |tail|
          ensures tail[i] != tail[j]
        {
          assert tail[i] == schedule[i + 1] && tail[j] == schedule[j + 1];
        }
      }
      RunningActionsDistinct(cfg, innerIter, tail);
      var rest := RunningActions(cfg, innerIter, tail);
      if Runs(cfg, innerIter, schedule[0]) {
        assert schedule[0] !in tail by {
          forall j | 0 <= j < |tail|
            ensures tail[j] != schedule[0]
          {
            assert tail[j] == schedule[j + 1];
          }
        }
        var r := [schedule[0]] + rest;
        forall i, j | 0 <= i < j < |r|
          ensures r[i] != r[j]
        {
          if i == 0 {
            assert r[j] == rest[j - 1];
            assert rest[j - 1] in rest;
          } else {
            assert r[i] == rest[i - 1] && r[j] == rest[j - 1];
          }
        }
      }
    }
  }

  /** The calls of one inner iteration (CFluidIteration::Iterate), in order. */
  function IterateActions(cfg: IterateConfig, innerIter: nat): (actions: seq<Action>)
    requires GustReapplyDefined(cfg)
    ensures forall a :: a in actions <==> a in IterateSchedule && Runs(cfg, innerIter, a)
  {
    RunningActions(cfg, innerIter, IterateSchedule)
  }

  /** Every inner iteration integrates the flow, first, and makes no call twice. */
  lemma IterateActionsFlowFirst(cfg: IterateConfig, innerIter: nat)
    requires GustReapplyDefined(cfg)
    ensures |IterateActions(cfg, innerIter)| > 0 && IterateActions(cfg, innerIter)[0] == MultiGridIteration(RUNTIME_FLOW_SYS)
    ensures Distinct(IterateActions(cfg, innerIter))
  {
    assert IterateSchedule[0] == MultiGridIteration(RUNTIME_FLOW_SYS);
    assert Distinct(IterateSchedule);
    RunningActionsDistinct(cfg, innerIter, IterateSchedule);
  }

  /**
   * The turbulence model is integrated exactly for the RANS family without frozen viscosity,
   * the transition model exactly when the LM model is selected on top of that.
   */
  lemma IterateActionsSubSolves(cfg: IterateConfig, innerIter: nat)
    requires GustReapplyDefined(cfg)
    ensures SingleGridIteration(RUNTIME_TURB_SYS) in IterateActions(cfg, innerIter) <==> cfg.kind in RansFamily && !cfg.frozenVisc
    ensures SingleGridIteration(RUNTIME_TRANS_SYS) in IterateActions(cfg, innerIter) <==>
              cfg.kind in RansFamily && !cfg.frozenVisc && cfg.transModel == LM
  {
    assert IterateSchedule[1] == SingleGridIteration(RUNTIME_TURB_SYS);
    assert IterateSchedule[2] == SingleGridIteration(RUNTIME_TRANS_SYS);
  }

  /** Heat and radiation are integrated exactly when configured, the CFL adapted exactly outside the discrete adjoint. */
  lemma IterateActionsCoupledSystems(cfg: IterateConfig, innerIter: nat)
    requires GustReapplyDefined(cfg)
    ensures SingleGridIteration(RUNTIME_HEAT_SYS) in IterateActions(cfg, innerIter) <==> cfg.weaklyCoupledHeat
    ensures SingleGridIteration(RUNTIME_RADIATION_SYS) in IterateActions(cfg, innerIter) <==> cfg.radiation
    ensures AdaptCFLNumber in IterateActions(cfg, innerIter) <==> cfg.cflAdapt && !cfg.discreteAdjoint
  {
    assert IterateSchedule[3] == SingleGridIteration(RUNTIME_HEAT_SYS);
    assert IterateSchedule[4] == SingleGridIteration(RUNTIME_RADIATION_SYS);
    assert IterateSchedule[5] == AdaptCFLNumber;
  }

  /**
   * The grid moves exactly on an aeroelastic unsteady run with grid movement, and the gust is
   * re-applied exactly every AeroelasticIter inner iterations after the first.
   */
  lemma IterateActionsGridMotion(cfg: IterateConfig, innerIter: nat)
    requires GustReapplyDefined(cfg)
    ensures SetGridMovement in IterateActions(cfg, innerIter) <==> cfg.gridMovement && cfg.aeroelastic && Unsteady(cfg)
    ensures SetWindGustField in IterateActions(cfg, innerIter) <==> ReappliesGust(cfg, innerIter)
  {
    assert IterateSchedule[6] == SetGridMovement;
    assert IterateSchedule[7] == SetWindGustField;
  }

  /**
   * CFluidIteration::Monitor: the output's convergence, overridden in Fixed-CL mode by the
   * fixed-CL convergence that MonitorFixed_CL reports.
   */
  function MonitorResult(fixedCLMode: bool, outputConvergence: bool, fixedCLConvergence: bool): (stopCalc: bool)
    ensures fixedCLMode ==> (stopCalc <==> fixedCLConvergence)
    ensures !fixedCLMode ==> (stopCalc <==> outputConvergence)
  {
    if fixedCLMode then fixedCLConvergence else outputConvergence
  }

  /**
   * Monitor's answer after each inner iteration i, from the output's convergence and the
   * fixed-CL convergence reported after that iteration.
   */
  function StopFlags(fixedCLMode: bool, outputConvergence: seq<bool>, fixedCLConvergence: seq<bool>): (flags: seq<bool>)
    requires |outputConvergence| == |fixedCLConvergence|
    ensures |flags| == |outputConvergence|
    ensures forall i :: 0 <= i < |flags| ==> flags[i] == MonitorResult(fixedCLMode, outputConvergence[i], fixedCLConvergence[i])
  {
    seq(|outputConvergence|, i requires 0 <= i < |outputConvergence| =>
      MonitorResult(fixedCLMode, outputConvergence[i], fixedCLConvergence[i]))
  }

  /**
   * The number of inner iterations the loop of Solve runs when stop[i] is Monitor's answer
   * after iteration i and |stop| is the cap nInner_Iter.
   */
  function IterationsRun(stop: seq<bool>): (k: nat)
    decreases |stop|
  {
    if stop == [] then 0
    else if stop[0] then 1
    else 1 + IterationsRun(stop[1..])
  }

  /**
   * IterationsRun is the cap, or one past the first iteration whose Monitor answered true:
   * no iteration before the last one run stopped the loop.
   */
  lemma {:induction false} IterationsRunProperties(stop: seq<bool>)
    ensures IterationsRun(stop) <= |stop|
    ensures forall i :: 0 <= i && i + 1 < IterationsRun(stop) ==> !stop[i]
    ensures IterationsRun(stop) < |stop| ==> IterationsRun(stop) > 0 && stop[IterationsRun(stop) - 1]
    ensures |stop| > 0 ==> IterationsRun(stop) > 0
    decreases |stop|
  {
    if stop != [] && !stop[0] {
      var tail := stop[1..];
      IterationsRunProperties(tail);
      forall i | 0 <= i && i + 1 < IterationsRun(stop)
        ensures !stop[i]
      {
        if i > 0 {
          assert stop[i] == tail[i - 1];
        }
      }
      if IterationsRun(stop) < |stop| {
        assert stop[IterationsRun(stop) - 1] == tail[IterationsRun(tail) - 1];
      }
    }
  }

  /** Without a converged iteration before the cap, all of them run. */
  lemma {:induction false} IterationsRunWithoutStop(stop: seq<bool>)
    requires forall i :: 0 <= i < |stop| ==> !stop[i]
    ensures IterationsRun(stop) == |stop|
    decreases |stop|
  {
    if stop != [] {
      var tail := stop[1..];
      assert forall i :: 0 <= i < |tail| ==> tail[i] == stop[i + 1];
      IterationsRunWithoutStop(tail);
    }
  }

  /** Iterations run before and after a point of the loop: the i done so far and the rest. */
  lemma IterationsRunFrom(stop: seq<bool>, i: nat)
    requires i < |stop| && !stop[i]
    ensures IterationsRun(stop[i..]) == 1 + IterationsRun(stop[i + 1..])
  {
    assert stop[i..][1..] == stop[i + 1..];
  }

  /** The convergence reset after Solve on a steady multizone run: SetConvergence(false) on HEAT_SOL or FLOW_SOL. */
  datatype ConvergenceReset = NoReset | ResetHeat | ResetFlow

  function SolveConvergenceReset(multizone: bool, steady: bool, kind: nat): (r: ConvergenceReset)
    ensures r.NoReset? <==> !(multizone && steady)
    ensures r.ResetHeat? <==> multizone && steady && kind == HEAT_EQUATION
  {
    if multizone && steady then (if kind == HEAT_EQUATION then ResetHeat else ResetFlow) else NoReset
  }

  /**
   * The check of SetWind_GustField: a gust wavelength that is zero or negative stops the run,
   * except for the vortex gust, which does not use it.
   */
  function GustLengthCheck(gustType: nat, waveLength: real): (status: Status)
    ensures status.Aborted? <==> waveLength <= 0.0 && gustType != VORTEX
    ensures status.Aborted? ==> status.message == GUST_LENGTH_MESSAGE
  {
    if waveLength <= 0.0 && gustType != VORTEX then Aborted(GUST_LENGTH_MESSAGE) else Completed
  }

  /** The calls of inner iterations 0 .. n - 1, one list per iteration. */
  function IterateLog(cfg: IterateConfig, n: nat): (log: seq<seq<Action>>)
    requires GustReapplyDefined(cfg)
    ensures |log| == n
  {
    if n == 0 then [] else IterateLog(cfg, n - 1) + [IterateActions(cfg, n - 1)]
  }

  /** Entry i of the log is what inner iteration i calls. */
  lemma {:induction false} IterateLogEntries(cfg: IterateConfig, n: nat)
    requires GustReapplyDefined(cfg)
    ensures forall i :: 0 <= i < n ==> IterateLog(cfg, n)[i] == IterateActions(cfg, i)
  {
    if n > 0 {
      IterateLogEntries(cfg, n - 1);
    }
  }

  /**
   * The state of a CFluidIteration run that Solve changes: the InnerIter of the zone's
   * configuration and the inner iterations performed so far, each as the list of calls it made.
   */
  class CFluidIteration {
    var innerIter: nat
    var performed: seq<seq<Action>>

    constructor ()
      ensures innerIter == 0 && performed == []
    {
      innerIter := 0;
      performed := [];
    }

    /** One inner iteration: Iterate, at the configuration's current InnerIter, makes the calls IterateActions lists. */
    method Iterate(cfg: IterateConfig)
      requires GustReapplyDefined(cfg)
      modifies this`performed
      ensures performed == old(performed) + [IterateActions(cfg, innerIter)]
    {
      performed := performed + [IterateActions(cfg, innerIter)];
    }

    /**
     * CFluidIteration::Solve: at most nInnerIter inner iterations; before each, InnerIter is set
     * to its index; after each, Monitor decides (from the output's and the fixed-CL convergence
     * after iteration i), and the loop breaks on the first iteration that converged.
     */
    method Solve(cfg: IterateConfig, nInnerIter: nat, fixedCLMode: bool, outputConvergence: seq<bool>,
                 fixedCLConvergence: seq<bool>, multizone: bool, steady: bool)
      returns (iterations: nat, stopCalc: bool, reset: ConvergenceReset)
      requires GustReapplyDefined(cfg)
      requires |outputConvergence| == nInnerIter && |fixedCLConvergence| == nInnerIter
      modifies this
      ensures iterations <= nInnerIter
      ensures iterations == IterationsRun(StopFlags(fixedCLMode, outputConvergence, fixedCLConvergence))
      ensures stopCalc <==> iterations > 0 && StopFlags(fixedCLMode, outputConvergence, fixedCLConvergence)[iterations - 1]
      ensures innerIter == if iterations == 0 then old(innerIter) else iterations - 1
      ensures performed == old(performed) + IterateLog(cfg, iterations)
      ensures reset == SolveConvergenceReset(multizone, steady, cfg.kind)
    {
      ghost var stop := StopFlags(fixedCLMode, outputConvergence, fixedCLConvergence);
      ghost var before := performed;
      stopCalc := false;
      iterations := 0;
      var i := 0;
      while i < nInnerIter
        invariant 0 <= i <= nInnerIter && iterations == i
        invariant IterationsRun(stop) == i + IterationsRun(stop[i..])
        invariant i > 0 ==> !stop[i - 1]
        invariant innerIter == if i == 0 then old(innerIter) else i - 1
        invariant !stopCalc
        invariant performed == before + IterateLog(cfg, i)
      {
        innerIter := i;
        Iterate(cfg);
        assert performed == before + IterateLog(cfg, i + 1);
        iterations := i + 1;
        stopCalc := MonitorResult(fixedCLMode, outputConvergence[i], fixedCLConvergence[i]);
        if stopCalc {
          assert IterationsRun(stop[i..]) == 1;
          break;
        }
        IterationsRunFrom(stop, i);
        i := i + 1;
      }
      reset := SolveConvergenceReset(multizone, steady, cfg.kind);
    }
  }
}
