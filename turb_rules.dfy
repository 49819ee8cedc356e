/**
 * The decision rules and arithmetic of the turbulence solver (CTurbSolver) that do not
 * depend on its state: which handler a Riemann or Giles marker is routed to, how many
 * flow columns of a restart row precede the turbulence variables, where the k-th loaded
 * point reads its row, the volume-weighted restriction to a coarse multigrid level, the
 * freestream k and omega, and the geometry of the regions Impose_Fixed_Values fixes.
 */
module TurbRules {
  import opened LinearSystem

  // RIEMANN_TYPE codes
  const TOTAL_CONDITIONS_PT: nat := 1
  const DENSITY_VELOCITY: nat := 2
  const STATIC_PRESSURE: nat := 3
  const TOTAL_SUPERSONIC_INFLOW: nat := 4
  const STATIC_SUPERSONIC_INFLOW_PT: nat := 5
  const STATIC_SUPERSONIC_INFLOW_PD: nat := 6
  const MIXING_IN: nat := 7
  const MIXING_OUT: nat := 8
  const SUPERSONIC_OUTFLOW: nat := 9
  const RADIAL_EQUILIBRIUM: nat := 10
  const TOTAL_CONDITIONS_PT_1D: nat := 11
  const STATIC_PRESSURE_1D: nat := 12
  const MIXING_IN_1D: nat := 13
  const MIXING_OUT_1D: nat := 14

  /** The boundary routine a Riemann or Giles marker is handed to. */
  datatype BoundaryHandler = BCInlet | BCInletTurbo | BCInletMixingPlane | BCOutlet | NoHandler

  /** The Riemann kinds both BC_Riemann and BC_TurboRiemann treat as an inlet. */
  predicate IsRiemannInletKind(kind: nat)
  {
    kind == TOTAL_CONDITIONS_PT || kind == STATIC_SUPERSONIC_INFLOW_PT
    || kind == STATIC_SUPERSONIC_INFLOW_PD || kind == DENSITY_VELOCITY
  }

  /** The Giles kinds sent to the outlet routine. */
  predicate IsGilesOutletKind(kind: nat)
  {
    kind == STATIC_PRESSURE || kind == MIXING_OUT || kind == STATIC_PRESSURE_1D || kind == RADIAL_EQUILIBRIUM
  }

  /** The Giles kinds sent to the turbomachinery inlet routine whatever the mixing-plane flag. */
  predicate IsGilesTurboInletKind(kind: nat)
  {
    kind == TOTAL_CONDITIONS_PT || kind == TOTAL_CONDITIONS_PT_1D || kind == DENSITY_VELOCITY
  }

  /** CTurbSolver::BC_Riemann: inlet kinds to BC_Inlet, STATIC_PRESSURE to BC_Outlet, nothing otherwise. */
  function RiemannHandler(kind: nat): (h: BoundaryHandler)
    ensures h == BCInlet <==> IsRiemannInletKind(kind)
    ensures h == BCOutlet <==> kind == STATIC_PRESSURE
    ensures h == BCInlet || h == BCOutlet || h == NoHandler
  {
    if IsRiemannInletKind(kind) then BCInlet
    else if kind == STATIC_PRESSURE then BCOutlet
    else NoHandler
  }

  /** CTurbSolver::BC_TurboRiemann: as BC_Riemann, with the turbomachinery inlet routine. */
  function TurboRiemannHandler(kind: nat): (h: BoundaryHandler)
    ensures h == BCInletTurbo <==> IsRiemannInletKind(kind)
    ensures h == BCOutlet <==> kind == STATIC_PRESSURE
    ensures h == BCInletTurbo || h == BCOutlet || h == NoHandler
  {
    if IsRiemannInletKind(kind) then BCInletTurbo
    else if kind == STATIC_PRESSURE then BCOutlet
    else NoHandler
  }

  /** CTurbSolver::BC_Giles: MIXING_IN goes to the mixing-plane inlet only when the mixing-plane flag is set. */
  function GilesHandler(kind: nat, mixingPlane: bool): (h: BoundaryHandler)
    ensures h == BCInletMixingPlane <==> kind == MIXING_IN && mixingPlane
    ensures h == BCInletTurbo <==> IsGilesTurboInletKind(kind) || (kind == MIXING_IN && !mixingPlane)
    ensures h == BCOutlet <==> IsGilesOutletKind(kind)
    ensures h != BCInlet
  {
    if IsGilesTurboInletKind(kind) then BCInletTurbo
    else if kind == MIXING_IN then (if mixingPlane then BCInletMixingPlane else BCInletTurbo)
    else if IsGilesOutletKind(kind) then BCOutlet
    else NoHandler
  }

  /** BC_TurboRiemann routes exactly as BC_Riemann, with the turbomachinery inlet in place of the plain one. */
  lemma TurboRiemannFollowsRiemann(kind: nat)
    ensures TurboRiemannHandler(kind) == if RiemannHandler(kind) == BCInlet then BCInletTurbo else RiemannHandler(kind)
  {
  }

  /** Every marker BC_Riemann sends to the outlet, BC_Giles does too; so does every Giles inlet kind of Riemann except the supersonic ones. */
  lemma GilesAgreesWithRiemann(kind: nat, mixingPlane: bool)
    ensures RiemannHandler(kind) == BCOutlet ==> GilesHandler(kind, mixingPlane) == BCOutlet
    ensures RiemannHandler(kind) == BCInlet && kind != STATIC_SUPERSONIC_INFLOW_PT && kind != STATIC_SUPERSONIC_INFLOW_PD
            ==> GilesHandler(kind, mixingPlane) == BCInletTurbo
    ensures kind == STATIC_SUPERSONIC_INFLOW_PT || kind == STATIC_SUPERSONIC_INFLOW_PD
            ==> GilesHandler(kind, mixingPlane) == NoHandler
  {
  }

  /** The kinds none of the three routines handle: the turbulence variables get no boundary treatment there. */
  lemma UnhandledKinds(kind: nat, mixingPlane: bool)
    requires kind in {TOTAL_SUPERSONIC_INFLOW, SUPERSONIC_OUTFLOW, MIXING_IN_1D, MIXING_OUT_1D}
    ensures RiemannHandler(kind) == NoHandler && TurboRiemannHandler(kind) == NoHandler
    ensures GilesHandler(kind, mixingPlane) == NoHandler
  {
  }

  /**
   * skipVars of LoadRestart: the coordinates and the flow variables precede the turbulence
   * variables in a restart row; the incompressible restart omits the temperature column when
   * neither the energy equation nor weakly coupled heat is active.
   */
  function RestartSkipVars(nDim: nat, nVarFlow: nat, incompressible: bool, energy: bool, weaklyCoupledHeat: bool): (skip: int)
    ensures incompressible && !energy && !weaklyCoupledHeat ==> skip == nDim + nVarFlow - 1
    ensures !(incompressible && !energy && !weaklyCoupledHeat) ==> skip == nDim + nVarFlow
  {
    var skip := nDim + nVarFlow;
    if incompressible && (!energy && !weaklyCoupledHeat) then skip - 1 else skip
  }

  /**
   * For the incompressible flow solver (nDim + 2 variables: pressure, velocity, temperature),
   * skipVars is the number of columns the flow solver wrote: nDim coordinates, pressure, nDim
   * velocities and the temperature only when it was solved for.
   */
  lemma IncompressibleSkipVarsCountsWrittenColumns(nDim: nat, energy: bool, weaklyCoupledHeat: bool)
    ensures RestartSkipVars(nDim, nDim + 2, true, energy, weaklyCoupledHeat)
            == nDim + 1 + nDim + (if energy || weaklyCoupledHeat then 1 else 0)
  {
  }

  /** The compressible restart always carries all flow variables. */
  lemma CompressibleSkipVarsIsFullRow(nDim: nat, nVarFlow: nat, energy: bool, weaklyCoupledHeat: bool)
    ensures RestartSkipVars(nDim, nVarFlow, false, energy, weaklyCoupledHeat) == nDim + nVarFlow
  {
  }

  /** Number of global points of the restart that live on this process (GetGlobal_to_Local_Point > -1). */
  function MappedCount(globalToLocal: seq<int>): (n: nat)
    ensures n <= |globalToLocal|
    decreases |globalToLocal|
  {
    if globalToLocal == [] then 0
    else
      var last := globalToLocal[|globalToLocal| - 1];
      var n := MappedCount(globalToLocal[..|globalToLocal| - 1]);
      if last > -1 then n + 1 else n
  }

  /** No point is loaded exactly when every global point belongs to another process. */
  lemma {:induction false} MappedCountZero(globalToLocal: seq<int>)
    ensures MappedCount(globalToLocal) == 0 <==> forall g :: 0 <= g < |globalToLocal| ==> globalToLocal[g] <= -1
    decreases |globalToLocal|
  {
    if globalToLocal != [] {
      var prefix := globalToLocal[..|globalToLocal| - 1];
      MappedCountZero(prefix);
      assert forall g :: 0 <= g < |prefix| ==> prefix[g] == globalToLocal[g];
    }
  }

  /** index = counter * Restart_Vars[1] + skipVars: the first turbulence value of the counter-th loaded row. */
  function RestartOffset(counter: nat, rowWidth: nat, skip: nat): (index: nat)
    ensures index >= skip
    ensures index - skip == counter * rowWidth
  {
    counter * rowWidth + skip
  }

  /** A point-major solution matrix (CVariable::Solution): nPoint rows of nVar values. */
  ghost predicate IsSolutionMatrix(sol: seq<seq<real>>, nPoint: nat, nVar: nat)
  {
    |sol| == nPoint && forall p :: 0 <= p < |sol| ==> |sol[p]| == nVar
  }

  /** What LoadRestart demands of its inputs: local indices are points, and every row read lies in the data. */
  ghost predicate RestartInputsOk(globalToLocal: seq<int>, nPoint: nat, nVar: nat, rowWidth: nat, skip: nat, data: seq<real>)
  {
    (forall g :: 0 <= g < |globalToLocal| ==> globalToLocal[g] < nPoint)
    && RowsInData(MappedCount(globalToLocal), nVar, rowWidth, skip, data)
  }

  /** The first `count` restart rows lie in the data: it is enough that the last of them does. */
  ghost predicate RowsInData(count: nat, nVar: nat, rowWidth: nat, skip: nat, data: seq<real>)
  {
    count == 0 || RestartOffset(count - 1, rowWidth, skip) + nVar <= |data|
  }

  /** Every row before the count is in the data too. */
  lemma RowsInDataBelow(count: nat, k: nat, nVar: nat, rowWidth: nat, skip: nat, data: seq<real>)
    requires RowsInData(count, nVar, rowWidth, skip, data) && k < count
    ensures RestartOffset(k, rowWidth, skip) + nVar <= |data|
    ensures RowsInData(k + 1, nVar, rowWidth, skip, data)
  {
    MulMonotone(k, count - 1, rowWidth);
  }


  lemma MappedCountOfPrefix(m: seq<int>, g: nat)
    requires g <= |m|
    ensures MappedCount(m[..g]) <= MappedCount(m)
    ensures g < |m| && m[g] > -1 ==> MappedCount(m[..g]) < MappedCount(m)
    decreases |m| - g
  {
    if g < |m| {
      assert m[..g + 1][..g] == m[..g];
      MappedCountOfPrefix(m, g + 1);
      assert MappedCount(m[..g + 1]) == MappedCount(m[..g]) + (if m[g] > -1 then 1 else 0);
    } else {
      assert m[..g] == m;
    }
  }

  /** The inputs that are fine for all of m are fine for each of its prefixes. */
  lemma RestartInputsOkPrefix(m: seq<int>, g: nat, nPoint: nat, nVar: nat, rowWidth: nat, skip: nat, data: seq<real>)
    requires g <= |m| && RestartInputsOk(m, nPoint, nVar, rowWidth, skip, data)
    ensures RestartInputsOk(m[..g], nPoint, nVar, rowWidth, skip, data)
    ensures g < |m| && m[g] > -1 ==> RestartOffset(MappedCount(m[..g]), rowWidth, skip) + nVar <= |data|
  {
    MappedCountOfPrefix(m, g);
    assert forall k :: 0 <= k < g ==> m[..g][k] == m[k];
    if MappedCount(m[..g]) > 0 {
      RowsInDataBelow(MappedCount(m), MappedCount(m[..g]) - 1, nVar, rowWidth, skip, data);
    }
    if g < |m| && m[g] > -1 {
      RowsInDataBelow(MappedCount(m), MappedCount(m[..g]), nVar, rowWidth, skip, data);
    }
  }

  /**
   * The solution after LoadRestart's loop over the first |m| global points: each one mapped
   * to local point l (m[g] > -1) copies the nVar values of its row, which starts at
   * RestartOffset(number of points loaded before it), into row l.
   */
  function LoadedSolution(sol: seq<seq<real>>, m: seq<int>, nVar: nat, rowWidth: nat, skip: nat,
                          data: seq<real>): (r: seq<seq<real>>)
    requires RestartInputsOk(m, |sol|, nVar, rowWidth, skip, data)
    ensures |r| == |sol|
    decreases |m|
  {
    if m == [] then sol
    else
      var g := |m| - 1;
      RestartInputsOkPrefix(m, g, |sol|, nVar, rowWidth, skip, data);
      LoadRow(LoadedSolution(sol, m[..g], nVar, rowWidth, skip, data), m[g], MappedCount(m[..g]), nVar, rowWidth, skip, data)
  }

  /**
   * One global point of the loading loop: mapped to local point l > -1, it copies the nVar
   * values of restart row `counter` into row l; unmapped (-1), it changes nothing.
   */
  function LoadRow(sol: seq<seq<real>>, l: int, counter: nat, nVar: nat, rowWidth: nat, skip: nat,
                   data: seq<real>): (r: seq<seq<real>>)
    requires l < |sol| && (l > -1 ==> RestartOffset(counter, rowWidth, skip) + nVar <= |data|)
    ensures |r| == |sol|
  {
    if l > -1 then sol[l := RestartRow(data, counter, nVar, rowWidth, skip)] else sol
  }

  /** The nVar values of restart row `counter`, read past the skipped leading columns. */
  function RestartRow(data: seq<real>, counter: nat, nVar: nat, rowWidth: nat, skip: nat): (row: seq<real>)
    requires RestartOffset(counter, rowWidth, skip) + nVar <= |data|
    ensures |row| == nVar
    ensures forall i :: 0 <= i < nVar ==> row[i] == data[counter * rowWidth + skip + i]
  {
    var index := RestartOffset(counter, rowWidth, skip);
    data[index..index + nVar]
  }

  /** Loading keeps the shape of the solution matrix. */
  lemma {:induction false} LoadedSolutionIsMatrix(sol: seq<seq<real>>, m: seq<int>, nVar: nat, rowWidth: nat,
                                                  skip: nat, data: seq<real>)
    requires IsSolutionMatrix(sol, |sol|, nVar) && RestartInputsOk(m, |sol|, nVar, rowWidth, skip, data)
    ensures IsSolutionMatrix(LoadedSolution(sol, m, nVar, rowWidth, skip, data), |sol|, nVar)
    decreases |m|
  {
    if m != [] {
      RestartInputsOkPrefix(m, |m| - 1, |sol|, nVar, rowWidth, skip, data);
      LoadedSolutionIsMatrix(sol, m[..|m| - 1], nVar, rowWidth, skip, data);
    }
  }

  /** One more global point: the loop body of LoadRestart in terms of LoadedSolution and MappedCount. */
  lemma LoadedSolutionStep(sol: seq<seq<real>>, m: seq<int>, nVar: nat, rowWidth: nat, skip: nat, data: seq<real>,
                           g: nat)
    requires g < |m| && RestartInputsOk(m, |sol|, nVar, rowWidth, skip, data)
    ensures RestartInputsOk(m[..g], |sol|, nVar, rowWidth, skip, data)
    ensures RestartInputsOk(m[..g + 1], |sol|, nVar, rowWidth, skip, data)
    ensures MappedCount(m[..g + 1]) == MappedCount(m[..g]) + (if m[g] > -1 then 1 else 0)
    ensures m[g] > -1 ==> RestartOffset(MappedCount(m[..g]), rowWidth, skip) + nVar <= |data|
    ensures LoadedSolution(sol, m[..g + 1], nVar, rowWidth, skip, data)
            == LoadRow(LoadedSolution(sol, m[..g], nVar, rowWidth, skip, data), m[g], MappedCount(m[..g]),
                       nVar, rowWidth, skip, data)
  {
    RestartInputsOkPrefix(m, g + 1, |sol|, nVar, rowWidth, skip, data);
    RestartInputsOkPrefix(m, g, |sol|, nVar, rowWidth, skip, data);
    assert m[..g + 1][..g] == m[..g];
  }

  /** The global-to-local map sends different global points to different local points. */
  ghost predicate InjectiveOnMapped(m: seq<int>)
  {
    forall g1, g2 :: 0 <= g1 < |m| && 0 <= g2 < |m| && g1 != g2 && m[g1] > -1 ==> m[g1] != m[g2]
  }

  /** Local point l is the image of no global point of m. */
  ghost predicate NotLoaded(m: seq<int>, l: nat)
  {
    forall g :: 0 <= g < |m| ==> m[g] != l
  }

  /**
   * With a one-to-one map, after the loop each loaded point holds its own row: the k-th
   * loaded global point reads data[k * Restart_Vars[1] + skipVars ..][..nVar].
   */
  lemma LoadedSolutionReadsOwnRow(sol: seq<seq<real>>, m: seq<int>, nVar: nat, rowWidth: nat,
                                                     skip: nat, data: seq<real>, g: nat)
    requires RestartInputsOk(m, |sol|, nVar, rowWidth, skip, data)
    requires InjectiveOnMapped(m) && g < |m| && m[g] > -1
    ensures MappedCount(m[..g]) < MappedCount(m)
    ensures RestartOffset(MappedCount(m[..g]), rowWidth, skip) + nVar <= |data|
    ensures LoadedSolution(sol, m, nVar, rowWidth, skip, data)[m[g]]
            == RestartRow(data, MappedCount(m[..g]), nVar, rowWidth, skip)
  {
    MappedCountOfPrefix(m, g);
    LoadedPrefixReadsOwnRow(sol, m, nVar, rowWidth, skip, data, |m|, g);
    assert m[..|m|] == m;
  }

  /** LoadedSolutionReadsOwnRow after the first n global points of the loop. */
  lemma {:induction false} LoadedPrefixReadsOwnRow(sol: seq<seq<real>>, m: seq<int>, nVar: nat, rowWidth: nat,
                                                   skip: nat, data: seq<real>, n: nat, g: nat)
    requires RestartInputsOk(m, |sol|, nVar, rowWidth, skip, data)
    requires InjectiveOnMapped(m) && g < n <= |m| && m[g] > -1
    ensures RestartInputsOk(m[..n], |sol|, nVar, rowWidth, skip, data)
    ensures RestartOffset(MappedCount(m[..g]), rowWidth, skip) + nVar <= |data|
    ensures LoadedSolution(sol, m[..n], nVar, rowWidth, skip, data)[m[g]]
            == RestartRow(data, MappedCount(m[..g]), nVar, rowWidth, skip)
    decreases n
  {
    RestartInputsOkPrefix(m, n, |sol|, nVar, rowWidth, skip, data);
    MappedCountOfPrefix(m, g);
    assert m[..n][..n - 1] == m[..n - 1];
    if g == n - 1 {
      LoadedSolutionLastRow(sol, m[..n], nVar, rowWidth, skip, data);
    } else {
      LoadedPrefixReadsOwnRow(sol, m, nVar, rowWidth, skip, data, n - 1, g);
      assert m[..n][n - 1] != m[g];
      LoadedSolutionKeepsRow(sol, m[..n], nVar, rowWidth, skip, data, m[g]);
    }
  }

  /** The last point of m, when mapped, holds its own row after the loop. */
  lemma LoadedSolutionLastRow(sol: seq<seq<real>>, m: seq<int>, nVar: nat, rowWidth: nat, skip: nat, data: seq<real>)
    requires RestartInputsOk(m, |sol|, nVar, rowWidth, skip, data) && m != [] && m[|m| - 1] > -1
    ensures RestartOffset(MappedCount(m[..|m| - 1]), rowWidth, skip) + nVar <= |data|
    ensures LoadedSolution(sol, m, nVar, rowWidth, skip, data)[m[|m| - 1]]
            == RestartRow(data, MappedCount(m[..|m| - 1]), nVar, rowWidth, skip)
  {
    LoadedSolutionLast(sol, m, nVar, rowWidth, skip, data);
    LoadRowAt(LoadedSolution(sol, m[..|m| - 1], nVar, rowWidth, skip, data), m[|m| - 1], MappedCount(m[..|m| - 1]),
              nVar, rowWidth, skip, data, m[|m| - 1]);
  }

  /** A row the last point of m is not mapped to is the one the earlier points left. */
  lemma LoadedSolutionKeepsRow(sol: seq<seq<real>>, m: seq<int>, nVar: nat, rowWidth: nat, skip: nat, data: seq<real>,
                               q: nat)
    requires RestartInputsOk(m, |sol|, nVar, rowWidth, skip, data) && m != [] && q < |sol| && m[|m| - 1] != q
    ensures RestartInputsOk(m[..|m| - 1], |sol|, nVar, rowWidth, skip, data)
    ensures LoadedSolution(sol, m, nVar, rowWidth, skip, data)[q] == LoadedSolution(sol, m[..|m| - 1], nVar, rowWidth, skip, data)[q]
  {
    LoadedSolutionLast(sol, m, nVar, rowWidth, skip, data);
    LoadRowAt(LoadedSolution(sol, m[..|m| - 1], nVar, rowWidth, skip, data), m[|m| - 1], MappedCount(m[..|m| - 1]),
              nVar, rowWidth, skip, data, q);
  }

  /** The loading loop's last point, as LoadedSolution is defined. */
  lemma LoadedSolutionLast(sol: seq<seq<real>>, m: seq<int>, nVar: nat, rowWidth: nat, skip: nat, data: seq<real>)
    requires RestartInputsOk(m, |sol|, nVar, rowWidth, skip, data) && m != []
    ensures RestartInputsOk(m[..|m| - 1], |sol|, nVar, rowWidth, skip, data)
    ensures m[|m| - 1] > -1 ==> RestartOffset(MappedCount(m[..|m| - 1]), rowWidth, skip) + nVar <= |data|
    ensures LoadedSolution(sol, m, nVar, rowWidth, skip, data)
            == LoadRow(LoadedSolution(sol, m[..|m| - 1], nVar, rowWidth, skip, data), m[|m| - 1],
                       MappedCount(m[..|m| - 1]), nVar, rowWidth, skip, data)
  {
    RestartInputsOkPrefix(m, |m| - 1, |sol|, nVar, rowWidth, skip, data);
  }

  /** Row q after one point of the loading loop. */
  lemma LoadRowAt(sol: seq<seq<real>>, l: int, counter: nat, nVar: nat, rowWidth: nat, skip: nat,
                  data: seq<real>, q: nat)
    requires l < |sol| && (l > -1 ==> RestartOffset(counter, rowWidth, skip) + nVar <= |data|) && q < |sol|
    ensures l == q ==>
              LoadRow(sol, l, counter, nVar, rowWidth, skip, data)[q]
              == RestartRow(data, counter, nVar, rowWidth, skip)
    ensures l != q ==> LoadRow(sol, l, counter, nVar, rowWidth, skip, data)[q] == sol[q]
  {
  }

  /** Local points no global point maps to keep their solution. */
  lemma {:induction false} LoadedSolutionKeepsOthers(sol: seq<seq<real>>, m: seq<int>, nVar: nat, rowWidth: nat,
                                                     skip: nat, data: seq<real>, l: nat)
    requires RestartInputsOk(m, |sol|, nVar, rowWidth, skip, data)
    requires l < |sol| && NotLoaded(m, l)
    ensures LoadedSolution(sol, m, nVar, rowWidth, skip, data)[l] == sol[l]
    decreases |m|
  {
    if m != [] {
      var last := |m| - 1;
      RestartInputsOkPrefix(m, last, |sol|, nVar, rowWidth, skip, data);
      assert NotLoaded(m[..last], l);
      LoadedSolutionKeepsOthers(sol, m[..last], nVar, rowWidth, skip, data, l);
    }
  }

  /** The children of each coarse point are fine points, and their solutions have nVar values. */
  ghost predicate ChildrenOk(children: seq<nat>, fine: seq<seq<real>>, fineVolume: seq<real>, iVar: nat)
  {
    |fine| == |fineVolume| && forall c :: 0 <= c < |children| ==> children[c] < |fine| && iVar < |fine[children[c]]|
  }

  /** Sum over the children of a coarse control volume of fine value times child volume. */
  function WeightedChildSum(children: seq<nat>, fine: seq<seq<real>>, fineVolume: seq<real>, iVar: nat): (s: real)
    requires ChildrenOk(children, fine, fineVolume, iVar)
    decreases |children|
  {
    if children == [] then 0.0
    else
      var c := children[|children| - 1];
      WeightedChildSum(children[..|children| - 1], fine, fineVolume, iVar) + fine[c][iVar] * fineVolume[c]
  }

  /** Sum of the child volumes. */
  function ChildVolumeSum(children: seq<nat>, fineVolume: seq<real>): (v: real)
    requires forall c :: 0 <= c < |children| ==> children[c] < |fineVolume|
    decreases |children|
  {
    if children == [] then 0.0
    else ChildVolumeSum(children[..|children| - 1], fineVolume) + fineVolume[children[|children| - 1]]
  }

  /**
   * Solution_Coarse[iVar] as LoadRestart accumulates it: starting from 0, each child adds
   * Solution_Fine[iVar] * Area_Children / Area_Parent.
   */
  function RestrictedValue(children: seq<nat>, fine: seq<seq<real>>, fineVolume: seq<real>, parentVolume: real,
                           iVar: nat): (v: real)
    requires ChildrenOk(children, fine, fineVolume, iVar) && parentVolume != 0.0
    decreases |children|
  {
    if children == [] then 0.0
    else
      RestrictedValue(children[..|children| - 1], fine, fineVolume, parentVolume, iVar)
      + ChildContribution(fine, fineVolume, parentVolume, children[|children| - 1], iVar)
  }

  /** Solution_Fine[iVar] * Area_Children / Area_Parent for the fine point c. */
  function ChildContribution(fine: seq<seq<real>>, fineVolume: seq<real>, parentVolume: real, c: nat, iVar: nat): real
    requires c < |fine| && c < |fineVolume| && iVar < |fine[c]| && parentVolume != 0.0
  {
    fine[c][iVar] * fineVolume[c] / parentVolume
  }

  /** Children that are points of a fine solution matrix are fine for every prefix and every variable. */
  lemma ChildrenOkOfMatrix(children: seq<nat>, fine: seq<seq<real>>, fineVolume: seq<real>, nVar: nat)
    requires IsSolutionMatrix(fine, |fineVolume|, nVar)
    requires forall c :: 0 <= c < |children| ==> children[c] < |fineVolume|
    ensures forall n, k :: 0 <= n <= |children| && 0 <= k < nVar ==> ChildrenOk(children[..n], fine, fineVolume, k)
  {
  }

  /** One more child adds its own term to the restricted value. */
  lemma RestrictedValueStep(children: seq<nat>, fine: seq<seq<real>>, fineVolume: seq<real>, parentVolume: real,
                            iVar: nat, n: nat)
    requires n < |children| && ChildrenOk(children[..n + 1], fine, fineVolume, iVar) && parentVolume != 0.0
    ensures ChildrenOk(children[..n], fine, fineVolume, iVar)
    ensures RestrictedValue(children[..n + 1], fine, fineVolume, parentVolume, iVar)
            == RestrictedValue(children[..n], fine, fineVolume, parentVolume, iVar)
               + ChildContribution(fine, fineVolume, parentVolume, children[n], iVar)
  {
    assert children[..n + 1][..n] == children[..n];
    assert children[..n + 1][n] == children[n];
  }

  /** The restricted value times the parent volume is the child-volume-weighted sum of the fine values. */
  lemma {:induction false} RestrictedValueIsWeightedSum(children: seq<nat>, fine: seq<seq<real>>, fineVolume: seq<real>,
                                                        parentVolume: real, iVar: nat)
    requires ChildrenOk(children, fine, fineVolume, iVar) && parentVolume != 0.0
    ensures RestrictedValue(children, fine, fineVolume, parentVolume, iVar) * parentVolume
            == WeightedChildSum(children, fine, fineVolume, iVar)
    decreases |children|
  {
    if children != [] {
      var prefix := children[..|children| - 1];
      var c := children[|children| - 1];
      RestrictedValueIsWeightedSum(prefix, fine, fineVolume, parentVolume, iVar);
      SumOfQuotients(RestrictedValue(prefix, fine, fineVolume, parentVolume, iVar),
                     WeightedChildSum(prefix, fine, fineVolume, iVar),
                     fine[c][iVar] * fineVolume[c], parentVolume);
    }
  }

  /** (r + t / n) * n == w + t whenever r * n == w. */
  lemma SumOfQuotients(r: real, w: real, t: real, n: real)
    requires n != 0.0 && r * n == w
    ensures (r + t / n) * n == w + t
  {
  }

  /** Children with positive volumes whose fine values lie in [lo, hi] give a weighted sum between lo and hi times their volume. */
  lemma {:induction false} WeightedChildSumBounds(children: seq<nat>, fine: seq<seq<real>>, fineVolume: seq<real>,
                                                  iVar: nat, lo: real, hi: real)
    requires ChildrenOk(children, fine, fineVolume, iVar)
    requires forall c :: 0 <= c < |children| ==> fineVolume[children[c]] > 0.0
    requires forall c :: 0 <= c < |children| ==> lo <= fine[children[c]][iVar] <= hi
    ensures lo * ChildVolumeSum(children, fineVolume) <= WeightedChildSum(children, fine, fineVolume, iVar)
    ensures WeightedChildSum(children, fine, fineVolume, iVar) <= hi * ChildVolumeSum(children, fineVolume)
    decreases |children|
  {
    if children != [] {
      var prefix := children[..|children| - 1];
      var c := children[|children| - 1];
      assert forall k :: 0 <= k < |prefix| ==> prefix[k] == children[k];
      WeightedChildSumBounds(prefix, fine, fineVolume, iVar, lo, hi);
      AddBoundedTerm(lo, hi, ChildVolumeSum(prefix, fineVolume), WeightedChildSum(prefix, fine, fineVolume, iVar),
                     fine[c][iVar], fineVolume[c],
                     ChildVolumeSum(children, fineVolume), WeightedChildSum(children, fine, fineVolume, iVar));
    }
  }

  /** Adding a value in [lo, hi] with positive weight w to a sum bounded by lo and hi times its weight v. */
  lemma AddBoundedTerm(lo: real, hi: real, v: real, s: real, x: real, w: real, total: real, sum: real)
    requires lo * v <= s <= hi * v && lo <= x <= hi && w > 0.0
    requires total == v + w && sum == s + x * w
    ensures lo * total <= sum <= hi * total
  {
    ScaleByPositive(lo, x, w);
    ScaleByPositive(x, hi, w);
    assert lo * total == lo * v + lo * w;
    assert hi * total == hi * v + hi * w;
  }

  /**
   * When the parent volume is the sum of its positive child volumes (agglomeration), the
   * restricted value lies between the smallest and the largest fine value; in particular
   * a uniform fine solution restricts to the same value.
   */
  lemma RestrictionIsConvex(children: seq<nat>, fine: seq<seq<real>>, fineVolume: seq<real>, parentVolume: real,
                            iVar: nat, lo: real, hi: real)
    requires ChildrenOk(children, fine, fineVolume, iVar)
    requires forall c :: 0 <= c < |children| ==> fineVolume[children[c]] > 0.0
    requires forall c :: 0 <= c < |children| ==> lo <= fine[children[c]][iVar] <= hi
    requires parentVolume == ChildVolumeSum(children, fineVolume) && parentVolume > 0.0
    ensures lo <= RestrictedValue(children, fine, fineVolume, parentVolume, iVar) <= hi
  {
    RestrictedValueIsWeightedSum(children, fine, fineVolume, parentVolume, iVar);
    WeightedChildSumBounds(children, fine, fineVolume, iVar, lo, hi);
    DivideBounds(lo, hi, RestrictedValue(children, fine, fineVolume, parentVolume, iVar), parentVolume,
                 ChildVolumeSum(children, fineVolume), WeightedChildSum(children, fine, fineVolume, iVar));
  }

  /** r * n == w with n > 0 and lo * n <= w <= hi * n put r between lo and hi. */
  lemma DivideBounds(lo: real, hi: real, r: real, n: real, total: real, w: real)
    requires n > 0.0 && total == n && r * n == w && lo * total <= w <= hi * total
    ensures lo <= r <= hi
  {
    ScaleByPositive(lo, r, n);
    ScaleByPositive(r, hi, n);
  }

  /** The freestream turbulence state of Impose_Fixed_Values: (kine_Inf, omega_Inf). */
  datatype TurbFreestream = TurbFreestream(kInf: real, omegaInf: real)

  /**
   * kine_Inf = 3/2 |V_inf|^2 I^2 and omega_Inf = rho_inf kine_Inf / (mu_inf viscRatio):
   * the turbulence kinetic energy of velocity fluctuations of relative intensity I, and the
   * dissipation rate that makes the freestream eddy viscosity viscRatio times the laminar one.
   */
  function FreestreamTurbulence(rhoInf: real, velocityInf: seq<real>, muLamInf: real, intensity: real,
                                viscRatio: real): (f: TurbFreestream)
    requires muLamInf * viscRatio != 0.0
    ensures f.kInf >= 0.0
    ensures f.kInf * 2.0 == 3.0 * (SquaredNorm(velocityInf) * Square(intensity))
    ensures f.omegaInf * (muLamInf * viscRatio) == rhoInf * f.kInf
  {
    var n := SquaredNorm(velocityInf);
    var i2 := Square(intensity);
    assert n * i2 >= 0.0 by {
      if n > 0.0 && i2 > 0.0 {
        ScaleByPositive(0.0, n, i2);
      }
    }
    var kine := 3.0 / 2.0 * (n * i2);
    TurbFreestream(kine, rhoInf * kine / (muLamInf * viscRatio))
  }

  /** The eddy viscosity rho k / omega of the freestream state is viscRatio times the laminar viscosity. */
  lemma FreestreamEddyViscosityRatio(rhoInf: real, velocityInf: seq<real>, muLamInf: real, intensity: real,
                                     viscRatio: real)
    requires muLamInf * viscRatio != 0.0
    requires rhoInf != 0.0 && FreestreamTurbulence(rhoInf, velocityInf, muLamInf, intensity, viscRatio).kInf != 0.0
    ensures FreestreamTurbulence(rhoInf, velocityInf, muLamInf, intensity, viscRatio).omegaInf != 0.0
    ensures rhoInf * FreestreamTurbulence(rhoInf, velocityInf, muLamInf, intensity, viscRatio).kInf
            / FreestreamTurbulence(rhoInf, velocityInf, muLamInf, intensity, viscRatio).omegaInf
            == muLamInf * viscRatio
  {
    var f := FreestreamTurbulence(rhoInf, velocityInf, muLamInf, intensity, viscRatio);
    assert f.omegaInf * (muLamInf * viscRatio) == rhoInf * f.kInf;
    assert rhoInf * f.kInf != 0.0;
  }

  /** A still freestream or a zero intensity gives no turbulence kinetic energy. */
  lemma FreestreamKineticEnergyZero(rhoInf: real, velocityInf: seq<real>, muLamInf: real, intensity: real,
                                    viscRatio: real)
    requires muLamInf * viscRatio != 0.0
    ensures FreestreamTurbulence(rhoInf, velocityInf, muLamInf, intensity, viscRatio).kInf == 0.0
            <==> SquaredNorm(velocityInf) == 0.0 || intensity == 0.0
  {
    var n := SquaredNorm(velocityInf);
    var i2 := Square(intensity);
    if n != 0.0 && intensity != 0.0 {
      ScaleByPositive(0.0, n, i2);
    }
  }

  /** GeometryToolbox::DotProduct. */
  function Dot(a: seq<real>, b: seq<real>): (d: real)
    requires |a| == |b|
    decreases |a|
  {
    if a == [] then 0.0 else Dot(a[..|a| - 1], b[..|b| - 1]) + a[|a| - 1] * b[|b| - 1]
  }

  /** unit_velocity_inf: each component divided by the norm. */
  function UnitVector(v: seq<real>, norm: real): (u: seq<real>)
    requires norm != 0.0
    ensures |u| == |v|
  {
    seq(|v|, i requires 0 <= i < |v| => v[i] / norm)
  }

  /** The squared norm is 0 exactly for the zero vector. */
  lemma {:induction false} SquaredNormZeroIff(v: seq<real>)
    ensures SquaredNorm(v) == 0.0 <==> forall i :: 0 <= i < |v| ==> v[i] == 0.0
    decreases |v|
  {
    if v != [] {
      var prefix := v[..|v| - 1];
      SquaredNormZeroIff(prefix);
      assert forall i :: 0 <= i < |prefix| ==> prefix[i] == v[i];
    }
  }

  /** A norm (the non-negative root of the squared norm, GeometryToolbox::Norm) is 0 exactly for the zero vector. */
  lemma NormZeroIff(v: seq<real>, norm: real)
    requires norm >= 0.0 && Square(norm) == SquaredNorm(v)
    ensures norm == 0.0 <==> forall i :: 0 <= i < |v| ==> v[i] == 0.0
  {
    SquaredNormZeroIff(v);
  }

  /** The two regions Impose_Fixed_Values fixes: upstream of the TS transition position, and the half-plane. */
  datatype FixedRegion =
    | UpstreamOfTransition(transPosX: real)
    | HalfPlane(unitVelocity: seq<real>, maxScalarProd: real)

  /** Whether a point with these coordinates is fixed to the freestream state. */
  predicate InRegion(region: FixedRegion, coord: seq<real>)
  {
    match region
    case UpstreamOfTransition(x) => |coord| > 0 && coord[0] < x - 0.01
    case HalfPlane(u, maxSP) => |coord| == |u| && Dot(coord, u) < maxSP
  }
}
