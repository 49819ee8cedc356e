/**
 * The viscous walls of the incompressible solver: BC_Wall_Generic for HEAT_FLUX and
 * ISOTHERMAL markers, and BC_ConjugateHeat_Interface. Variable nDim + 1 is the temperature;
 * the energy equation may be switched off, and then no wall touches it.
 */
module IncNSWall {
  import opened LinearSystem
  import opened WallBC
  import opened Outcome
  import opened ConjugateHeat

  // WALL_FUNCTIONS::NONE (spelled NO_WALL_FUNCTION in the incompressible solver)
  const NO_WALL_FUNCTION: nat := 0
  const UNKNOWN_BC_MESSAGE: string := "Unknown type of boundary condition"
  const WALL_FUNCTION_MESSAGE: string := "Wall function treament not implemented yet"

  /** Per-point values of the incompressible solver read by its wall conditions. */
  datatype IncNodes = IncNodes(temperature: seq<real>, thermalConductivity: seq<real>)

  predicate IncNodesSized(L: Layout, n: IncNodes)
  {
    |n.temperature| == L.nPoint && |n.thermalConductivity| == L.nPoint
  }

  // ---------------------------------------------------------------------------------------------
  // BC_Wall_Generic

  /**
   * What BC_Wall_Generic reads from the configuration: the kind of the marker, its wall-function
   * treatment, the time integration, mesh motion, the energy equation, streamwise periodicity
   * (with its temperature option) and the prescribed heat flux or temperature with their references.
   */
  datatype IncWallConfig = IncWallConfig(
    kind: nat,
    wallFunction: nat,
    implicit: bool,
    dynamicGrid: bool,
    energy: bool,
    streamwisePeriodic: bool,
    periodicTemperature: bool,
    wallHeatFlux: real,
    heatFluxRef: real,
    isothermalTemperature: real,
    temperatureRef: real)

  /** The reference value the marker's kind divides by is non-zero. */
  predicate IncWallConfigOk(cfg: IncWallConfig)
  {
    (cfg.kind == HEAT_FLUX ==> cfg.heatFluxRef != 0.0) && (cfg.kind == ISOTHERMAL ==> cfg.temperatureRef != 0.0)
  }

  /**
   * The checks BC_Wall_Generic makes before its vertex loop, and the prescribed value it then
   * uses: Wall_HeatFlux on a HEAT_FLUX marker, Twall on an ISOTHERMAL one. Any other kind, and
   * any wall-function treatment, stops the run (the kind is checked first).
   */
  function WallGenericValue(cfg: IncWallConfig): (r: Result<real>)
    requires IncWallConfigOk(cfg)
    ensures r.Fatal? <==> (cfg.kind != HEAT_FLUX && cfg.kind != ISOTHERMAL) || cfg.wallFunction != NO_WALL_FUNCTION
    ensures cfg.kind != HEAT_FLUX && cfg.kind != ISOTHERMAL ==> r == Fatal(UNKNOWN_BC_MESSAGE)
    ensures (cfg.kind == HEAT_FLUX || cfg.kind == ISOTHERMAL) && cfg.wallFunction != NO_WALL_FUNCTION
            ==> r == Fatal(WALL_FUNCTION_MESSAGE)
    ensures r.Ok? && cfg.kind == HEAT_FLUX ==> r.value * cfg.heatFluxRef == cfg.wallHeatFlux
    ensures r.Ok? && cfg.kind == ISOTHERMAL ==> r.value * cfg.temperatureRef == cfg.isothermalTemperature
  {
    if cfg.kind != HEAT_FLUX && cfg.kind != ISOTHERMAL then Fatal(UNKNOWN_BC_MESSAGE)
    else if cfg.wallFunction != NO_WALL_FUNCTION then Fatal(WALL_FUNCTION_MESSAGE)
    else if cfg.kind == HEAT_FLUX then Ok(cfg.wallHeatFlux / cfg.heatFluxRef)
    else Ok(cfg.isothermalTemperature / cfg.temperatureRef)
  }

  /** What a domain vertex needs: its points on the mesh and, on an isothermal wall with energy, a non-zero distance. */
  ghost predicate IncWallReady(L: Layout, g: WallGeometry, cfg: IncWallConfig, nodes: IncNodes, v: WallVertex)
  {
    L.Valid() && GeometrySized(L, g) && IncNodesSized(L, nodes) && IsDomainVertex(L, g, v)
    && v.normalNeighbor < L.nPoint
    && (cfg.energy && cfg.kind != HEAT_FLUX ==> v.dist != 0.0)
  }

  ghost predicate IncWallMarkerOk(L: Layout, g: WallGeometry, cfg: IncWallConfig, nodes: IncNodes, verts: seq<WallVertex>)
  {
    L.Valid() && IncWallConfigOk(cfg) && GeometrySized(L, g) && IncNodesSized(L, nodes) && VerticesOnMesh(L, verts)
    && forall i :: 0 <= i < |verts| && g.isDomain[verts[i].node] ==> IncWallReady(L, g, cfg, nodes, verts[i])
  }

  /**
   * The change of LinSysRes(iPoint, nDim + 1) at a vertex with the energy equation on: -q.Area
   * plus the streamwise-periodic term on a heat-flux wall, -k.dT/dn.Area on an isothermal wall.
   */
  function IncWallEnergyResidual(L: Layout, cfg: IncWallConfig, nodes: IncNodes, value: real, v: WallVertex): real
    requires IncNodesSized(L, nodes) && v.node < L.nPoint && v.normalNeighbor < L.nPoint
    requires cfg.kind != HEAT_FLUX ==> v.dist != 0.0
  {
    if cfg.kind == HEAT_FLUX then
      -(value * v.area) + (if cfg.streamwisePeriodic && cfg.periodicTemperature then v.periodicTerm else 0.0)
    else
      var dTdn := WallNormalGradient(nodes.temperature[v.normalNeighbor], value, v.dist);
      -(nodes.thermalConductivity[v.node] * dTdn * v.area)
  }

  /** What the isothermal wall adds to the diagonal energy entry: k.(Edge . Normal)/|Edge|^2, or 0 when |Edge|^2 is not positive. */
  function IsothermalDiagonal(L: Layout, nodes: IncNodes, v: WallVertex): real
    requires IncNodesSized(L, nodes) && v.node < L.nPoint
  {
    var proj := if v.dist2 > 0.0 then v.edgeDotNormal / v.dist2 else 0.0;
    nodes.thermalConductivity[v.node] * proj
  }

  /** The last Jacobian row deleted at p, plus one: the velocity rows, and the energy row too when withEnergy. */
  function DeletedHi(L: Layout, p: nat, withEnergy: bool): nat
  {
    if withEnergy then L.BlockHi(p) else L.VelocityHi(p)
  }

  /**
   * Strong no-slip and, under implicit integration, deletion of the velocity rows of p
   * (and of its energy row when withEnergy).
   */
  function NoSlipDeleted(L: Layout, s: FlowState, p: nat, wallVel: seq<real>, implicit: bool, withEnergy: bool): (t: FlowState)
    requires L.Valid() && Sized(L, s) && p < L.nPoint && |wallVel| == L.nDim
    ensures Sized(L, t)
    ensures NoSlipHolds(L, t, p, wallVel, implicit)
    ensures UnchangedOutside(s, t, L.VelocityLo(p), DeletedHi(L, p, withEnergy))
    ensures implicit && withEnergy ==> IsIdentityRow(t.jac, L.EnergyIndex(p))
  {
    var s1 := NoSlip(L, s, p, wallVel);
    if implicit then s1.(jac := DeleteRows(s1.jac, L.VelocityLo(p), DeletedHi(L, p, withEnergy))) else s1
  }

  /**
   * The energy part of a vertex: delta added to LinSysRes(p, nDim + 1) and, when addDiag,
   * AddVal2Diag of diag on the diagonal energy entry of p.
   */
  function EnergyAndDiagonal(L: Layout, s: FlowState, p: nat, delta: real, addDiag: bool, diag: real): (t: FlowState)
    requires L.Valid() && Sized(L, s) && p < L.nPoint
    ensures Sized(L, t)
    ensures L.EnergyIndex(p) < |s.res|
    ensures t.res[L.EnergyIndex(p)] == s.res[L.EnergyIndex(p)] + delta
    ensures UnchangedOutside(s, t, L.BlockLo(p), L.BlockHi(p))
    ensures t.solOld == s.solOld && t.truncErr == s.truncErr
    ensures forall r: nat, c: nat :: (r != L.EnergyIndex(p) || c != r) ==> t.jac(r, c) == s.jac(r, c)
    ensures t.jac(L.EnergyIndex(p), L.EnergyIndex(p))
            == s.jac(L.EnergyIndex(p), L.EnergyIndex(p)) + (if addDiag then diag else 0.0)
  {
    IndexInRange(p, L.nDim + 1, L.nPoint, L.nVar);
    var e := L.EnergyIndex(p);
    var t := s.(res := s.res[e := s.res[e] + delta]);
    if addDiag then t.(jac := AddVal2Diag(t.jac, p, L.nDim + 1, L.nVar, diag)) else t
  }

  /** The energy part leaves strong no-slip at p holding. */
  lemma EnergyAndDiagonalKeepsNoSlip(L: Layout, s: FlowState, p: nat, wallVel: seq<real>, implicit: bool,
                                     delta: real, addDiag: bool, diag: real)
    requires L.Valid() && Sized(L, s) && p < L.nPoint && NoSlipHolds(L, s, p, wallVel, implicit)
    ensures NoSlipHolds(L, EnergyAndDiagonal(L, s, p, delta, addDiag, diag), p, wallVel, implicit)
  {
    var t := EnergyAndDiagonal(L, s, p, delta, addDiag, diag);
    if implicit {
      forall r: nat | L.VelocityLo(p) <= r < L.VelocityHi(p)
        ensures IsIdentityRow(t.jac, r)
      {
        assert IsIdentityRow(s.jac, r);
      }
    }
  }

  /** One iteration of the vertex loop of BC_Wall_Generic, with the marker's prescribed value; halo vertices are skipped. */
  ghost function IncWallVertex(L: Layout, g: WallGeometry, cfg: IncWallConfig, nodes: IncNodes, value: real,
                               s: FlowState, v: WallVertex): FlowState
  {
    if Sized(L, s) && IncWallReady(L, g, cfg, nodes, v) then
      var p := v.node;
      var s1 := NoSlipDeleted(L, s, p, WallVelocity(L, cfg.dynamicGrid, g.gridVel[p]), cfg.implicit, false);
      if !cfg.energy then s1
      else EnergyAndDiagonal(L, s1, p, IncWallEnergyResidual(L, cfg, nodes, value, v),
                             cfg.implicit && cfg.kind != HEAT_FLUX, IsothermalDiagonal(L, nodes, v))
    else s
  }

  ghost function IncWallStep(L: Layout, g: WallGeometry, cfg: IncWallConfig, nodes: IncNodes, value: real): Step
  {
    (s, v) => IncWallVertex(L, g, cfg, nodes, value, s, v)
  }

  ghost function IncWallActive(L: Layout, g: WallGeometry, cfg: IncWallConfig, nodes: IncNodes): WallVertex -> bool
  {
    (v: WallVertex) => IncWallReady(L, g, cfg, nodes, v)
  }

  /** The energy contribution of a vertex: its residual change with the energy equation on, 0 without it. */
  ghost function IncWallContribution(L: Layout, cfg: IncWallConfig, nodes: IncNodes, value: real): WallVertex -> real
    requires IncNodesSized(L, nodes)
  {
    (v: WallVertex) =>
      if cfg.energy && v.node < L.nPoint && v.normalNeighbor < L.nPoint && (cfg.kind != HEAT_FLUX ==> v.dist != 0.0)
      then IncWallEnergyResidual(L, cfg, nodes, value, v) else 0.0
  }

  /** The state after BC_Wall_Generic has run over the marker's vertices with the prescribed value. */
  ghost function IncWall(L: Layout, g: WallGeometry, cfg: IncWallConfig, nodes: IncNodes, value: real,
                         s: FlowState, verts: seq<WallVertex>): FlowState
  {
    WallFold(IncWallStep(L, g, cfg, nodes, value), s, verts)
  }

  /** A ready vertex changes only its own block, enforces no-slip and changes the energy residual by its contribution. */
  lemma IncWallVertexEffect(L: Layout, g: WallGeometry, cfg: IncWallConfig, nodes: IncNodes, value: real,
                            s: FlowState, v: WallVertex)
    requires Sized(L, s) && IncWallReady(L, g, cfg, nodes, v)
    ensures Sized(L, IncWallVertex(L, g, cfg, nodes, value, s, v))
    ensures UnchangedOutside(s, IncWallVertex(L, g, cfg, nodes, value, s, v), L.BlockLo(v.node), L.BlockHi(v.node))
    ensures NoSlipHolds(L, IncWallVertex(L, g, cfg, nodes, value, s, v), v.node,
                        WallVelocity(L, cfg.dynamicGrid, g.gridVel[v.node]), cfg.implicit)
    ensures L.EnergyIndex(v.node) < |s.res|
    ensures IncWallVertex(L, g, cfg, nodes, value, s, v).res[L.EnergyIndex(v.node)]
            == s.res[L.EnergyIndex(v.node)] + IncWallContribution(L, cfg, nodes, value)(v)
  {
    var p := v.node;
    var wallVel := WallVelocity(L, cfg.dynamicGrid, g.gridVel[p]);
    IndexInRange(p, L.nDim + 1, L.nPoint, L.nVar);
    var s1 := NoSlipDeleted(L, s, p, wallVel, cfg.implicit, false);
    UnchangedOutsideWiden(s, s1, L.VelocityLo(p), L.VelocityHi(p), L.BlockLo(p), L.BlockHi(p));
    if cfg.energy {
      var delta := IncWallEnergyResidual(L, cfg, nodes, value, v);
      var addDiag := cfg.implicit && cfg.kind != HEAT_FLUX;
      var s2 := EnergyAndDiagonal(L, s1, p, delta, addDiag, IsothermalDiagonal(L, nodes, v));
      UnchangedOutsideTrans(s, s1, s2, L.BlockLo(p), L.BlockHi(p));
      EnergyAndDiagonalKeepsNoSlip(L, s1, p, wallVel, cfg.implicit, delta, addDiag, IsothermalDiagonal(L, nodes, v));
    }
  }

  /** The BC_Wall_Generic step meets the premises of the generic wall-loop lemmas. */
  lemma IncWallStepIsWallStep(L: Layout, g: WallGeometry, cfg: IncWallConfig, nodes: IncNodes, value: real)
    requires L.Valid() && GeometrySized(L, g) && IncNodesSized(L, nodes)
    ensures IsLocalStep(L, IncWallStep(L, g, cfg, nodes, value), IncWallActive(L, g, cfg, nodes))
    ensures EnforcesNoSlip(L, IncWallStep(L, g, cfg, nodes, value), IncWallActive(L, g, cfg, nodes),
                           WallVelocities(L, g, cfg.dynamicGrid), cfg.implicit)
    ensures AddsToEnergy(L, IncWallStep(L, g, cfg, nodes, value), IncWallActive(L, g, cfg, nodes),
                         IncWallContribution(L, cfg, nodes, value))
  {
    var step := IncWallStep(L, g, cfg, nodes, value);
    var active := IncWallActive(L, g, cfg, nodes);
    forall s: FlowState, v: WallVertex | Sized(L, s)
      ensures Sized(L, step(s, v))
      ensures !active(v) ==> step(s, v) == s
      ensures active(v) ==> UnchangedOutside(s, step(s, v), L.BlockLo(v.node), L.BlockHi(v.node))
      ensures active(v) && v.node < L.nPoint ==>
                NoSlipHolds(L, step(s, v), v.node, WallVelocities(L, g, cfg.dynamicGrid)[v.node], cfg.implicit)
      ensures active(v) && L.EnergyIndex(v.node) < |s.res| ==>
                step(s, v).res[L.EnergyIndex(v.node)] == s.res[L.EnergyIndex(v.node)] + IncWallContribution(L, cfg, nodes, value)(v)
    {
      if active(v) {
        IncWallVertexEffect(L, g, cfg, nodes, value, s, v);
      }
    }
  }

  /**
   * BC_Wall_Generic over a whole marker: strong no-slip at every domain vertex (zero velocity
   * residual and truncation error, Velocity_Old = wall velocity, identity velocity rows under
   * implicit integration); every point that carries no domain vertex keeps its residual,
   * Solution_Old, truncation error and Jacobian rows; the energy residual of every point changes
   * by the contributions of the domain vertices on it.
   */
  lemma IncWallProperties(L: Layout, g: WallGeometry, cfg: IncWallConfig, nodes: IncNodes, value: real,
                          s: FlowState, verts: seq<WallVertex>)
    requires Sized(L, s) && IncWallMarkerOk(L, g, cfg, nodes, verts)
    ensures Sized(L, IncWall(L, g, cfg, nodes, value, s, verts))
    ensures forall p :: 0 <= p < L.nPoint ==> L.EnergyIndex(p) < |s.res|
    ensures forall i :: 0 <= i < |verts| && g.isDomain[verts[i].node] ==>
              NoSlipHolds(L, IncWall(L, g, cfg, nodes, value, s, verts), verts[i].node,
                          WallVelocity(L, cfg.dynamicGrid, g.gridVel[verts[i].node]), cfg.implicit)
    ensures forall p :: 0 <= p < L.nPoint && (!g.isDomain[p] || forall i :: 0 <= i < |verts| ==> verts[i].node != p) ==>
              UnchangedInside(s, IncWall(L, g, cfg, nodes, value, s, verts), L.BlockLo(p), L.BlockHi(p))
    ensures forall p :: 0 <= p < L.nPoint ==>
              IncWall(L, g, cfg, nodes, value, s, verts).res[L.EnergyIndex(p)]
              == s.res[L.EnergyIndex(p)] + EnergySum(verts, IncWallActive(L, g, cfg, nodes), IncWallContribution(L, cfg, nodes, value), p)
  {
    var active := IncWallActive(L, g, cfg, nodes);
    IncWallStepIsWallStep(L, g, cfg, nodes, value);
    WallFoldProperties(L, IncWallStep(L, g, cfg, nodes, value), active, IncWallContribution(L, cfg, nodes, value),
                       WallVelocities(L, g, cfg.dynamicGrid), cfg.implicit, s, verts);
    forall p | 0 <= p < L.nPoint && (!g.isDomain[p] || forall i :: 0 <= i < |verts| ==> verts[i].node != p)
      ensures NoActiveVertexAt(verts, active, p)
    {
    }
  }

  /** Without the energy equation no energy residual changes. */
  lemma IncWallEnergyOff(L: Layout, g: WallGeometry, cfg: IncWallConfig, nodes: IncNodes, value: real,
                         s: FlowState, verts: seq<WallVertex>)
    requires Sized(L, s) && IncWallMarkerOk(L, g, cfg, nodes, verts) && !cfg.energy
    ensures Sized(L, IncWall(L, g, cfg, nodes, value, s, verts))
    ensures forall p :: 0 <= p < L.nPoint ==> L.EnergyIndex(p) < |s.res|
    ensures forall p :: 0 <= p < L.nPoint ==>
              IncWall(L, g, cfg, nodes, value, s, verts).res[L.EnergyIndex(p)] == s.res[L.EnergyIndex(p)]
  {
    IncWallProperties(L, g, cfg, nodes, value, s, verts);
    forall p | 0 <= p < L.nPoint
      ensures EnergySum(verts, IncWallActive(L, g, cfg, nodes), IncWallContribution(L, cfg, nodes, value), p) == 0.0
    {
      EnergySumZero(verts, IncWallActive(L, g, cfg, nodes), IncWallContribution(L, cfg, nodes, value), p);
    }
  }

  /**
   * The energy residual change at a vertex: exactly -q.Area on a heat-flux wall without the
   * periodic temperature term, and k.(T_normal - Twall).Area / dist (that is -k.dT/dn.Area)
   * on an isothermal wall.
   */
  lemma IncWallEnergyResidualValue(L: Layout, cfg: IncWallConfig, nodes: IncNodes, value: real, v: WallVertex)
    requires IncNodesSized(L, nodes) && v.node < L.nPoint && v.normalNeighbor < L.nPoint
    requires cfg.kind != HEAT_FLUX ==> v.dist != 0.0
    ensures cfg.kind == HEAT_FLUX && !(cfg.streamwisePeriodic && cfg.periodicTemperature) ==>
              IncWallEnergyResidual(L, cfg, nodes, value, v) == -(value * v.area)
    ensures cfg.kind != HEAT_FLUX ==>
              IncWallEnergyResidual(L, cfg, nodes, value, v) * v.dist
              == nodes.thermalConductivity[v.node] * (nodes.temperature[v.normalNeighbor] - value) * v.area
  {
    if cfg.kind != HEAT_FLUX {
      var k := nodes.thermalConductivity[v.node];
      var d := WallNormalGradient(nodes.temperature[v.normalNeighbor], value, v.dist);
      assert d * v.dist == value - nodes.temperature[v.normalNeighbor];
      calc {
        IncWallEnergyResidual(L, cfg, nodes, value, v) * v.dist;
        -(k * d * v.area) * v.dist;
        -(k * v.area) * (d * v.dist);
        k * (nodes.temperature[v.normalNeighbor] - value) * v.area;
      }
    }
  }

  /**
   * The Jacobian at an implicit vertex with energy: the velocity rows are deleted, and the
   * energy row gains IsothermalDiagonal on its diagonal entry on an isothermal wall and nothing
   * on a heat-flux wall; the pressure row is kept.
   */
  lemma IncWallVertexJacobian(L: Layout, g: WallGeometry, cfg: IncWallConfig, nodes: IncNodes, value: real,
                              s: FlowState, v: WallVertex, c: nat)
    requires Sized(L, s) && IncWallReady(L, g, cfg, nodes, v) && cfg.implicit
    ensures IncWallVertex(L, g, cfg, nodes, value, s, v).jac(L.BlockLo(v.node), c) == s.jac(L.BlockLo(v.node), c)
    ensures IncWallVertex(L, g, cfg, nodes, value, s, v).jac(L.EnergyIndex(v.node), c)
            == s.jac(L.EnergyIndex(v.node), c)
               + (if cfg.energy && cfg.kind != HEAT_FLUX && c == L.EnergyIndex(v.node) then IsothermalDiagonal(L, nodes, v) else 0.0)
  {
  }

  // ---------------------------------------------------------------------------------------------
  // BC_ConjugateHeat_Interface

  /** What BC_ConjugateHeat_Interface reads from the configuration. */
  datatype IncChtConfig = IncChtConfig(
    wallFunction: nat,
    implicit: bool,
    dynamicGrid: bool,
    energy: bool,
    chtMode: nat,
    temperatureRef: real,
    viscosityRef: real)

  /** What a domain vertex needs: its points on the mesh and, with energy, non-zero divisors for the coupling rule. */
  ghost predicate IncChtReady(L: Layout, g: WallGeometry, cfg: IncChtConfig, nodes: IncNodes, v: WallVertex)
  {
    L.Valid() && GeometrySized(L, g) && IncNodesSized(L, nodes) && IsDomainVertex(L, g, v)
    && v.normalNeighbor < L.nPoint
    && (cfg.energy ==> ChtInputsOk(cfg.chtMode, nodes.thermalConductivity[v.node], v.dist, v.conjFactor,
                                   cfg.viscosityRef, cfg.temperatureRef))
  }

  ghost predicate IncChtMarkerOk(L: Layout, g: WallGeometry, cfg: IncChtConfig, nodes: IncNodes, verts: seq<WallVertex>)
  {
    L.Valid() && GeometrySized(L, g) && IncNodesSized(L, nodes) && VerticesOnMesh(L, verts)
    && forall i :: 0 <= i < |verts| && g.isDomain[verts[i].node] ==> IncChtReady(L, g, cfg, nodes, verts[i])
  }

  /**
   * The wall temperature of a vertex: the same conductance-weighted average or conjugate
   * temperature as CNSSolver::GetCHTWallTemperature, with the fluid-side factor
   * k.viscosityRef/dist_ij and T_here the temperature of the normal neighbour.
   */
  function IncChtWallTemperature(L: Layout, cfg: IncChtConfig, nodes: IncNodes, v: WallVertex): (r: Result<real>)
    requires IncNodesSized(L, nodes) && v.node < L.nPoint && v.normalNeighbor < L.nPoint
    requires ChtInputsOk(cfg.chtMode, nodes.thermalConductivity[v.node], v.dist, v.conjFactor, cfg.viscosityRef, cfg.temperatureRef)
    ensures r.Fatal? <==> !IsAveragedCoupling(cfg.chtMode) && !IsDirectCoupling(cfg.chtMode)
    ensures r.Fatal? ==> r.message == UNKNOWN_CHT_MESSAGE
    ensures IsDirectCoupling(cfg.chtMode) ==> r == Ok(v.conjTemperature / cfg.temperatureRef)
    ensures IsAveragedCoupling(cfg.chtMode) ==>
              var fh := FluidHeatFactor(nodes.thermalConductivity[v.node], cfg.viscosityRef, v.dist);
              r.Ok? && r.value * (fh + v.conjFactor)
                       == nodes.temperature[v.normalNeighbor] * fh + (v.conjTemperature / cfg.temperatureRef) * v.conjFactor
  {
    GetCHTWallTemperature(cfg.chtMode, nodes.thermalConductivity[v.node], v.dist, nodes.temperature[v.normalNeighbor],
                          v.conjTemperature, v.conjFactor, cfg.viscosityRef, cfg.temperatureRef)
  }

  /** The coupling mode is one of the four known ones. */
  predicate ChtModeKnown(mode: nat)
  {
    IsAveragedCoupling(mode) || IsDirectCoupling(mode)
  }

  /** Strong imposition of the wall temperature at p: LinSysRes and truncation error 0, Solution_Old = twall. */
  function ImposeTemperature(L: Layout, s: FlowState, p: nat, twall: real): (t: FlowState)
    requires L.Valid() && Sized(L, s) && p < L.nPoint
    ensures Sized(L, t) && t.jac == s.jac
    ensures L.EnergyIndex(p) < |s.res|
    ensures t.res[L.EnergyIndex(p)] == 0.0 && t.solOld[L.EnergyIndex(p)] == twall && t.truncErr[L.EnergyIndex(p)] == 0.0
    ensures UnchangedOutside(s, t, L.EnergyIndex(p), L.EnergyIndex(p) + 1)
  {
    IndexInRange(p, L.nDim + 1, L.nPoint, L.nVar);
    var e := L.EnergyIndex(p);
    FlowState(s.res[e := 0.0], s.solOld[e := twall], s.truncErr[e := 0.0], s.jac)
  }

  /**
   * One iteration of the vertex loop of BC_ConjugateHeat_Interface; halo vertices are skipped.
   * With an unknown coupling mode the run stops at this vertex; the state returned then is
   * the one before the temperature is imposed.
   */
  ghost function IncChtVertex(L: Layout, g: WallGeometry, cfg: IncChtConfig, nodes: IncNodes, s: FlowState, v: WallVertex): FlowState
  {
    if Sized(L, s) && IncChtReady(L, g, cfg, nodes, v) then
      var p := v.node;
      var s2 := NoSlipDeleted(L, s, p, WallVelocity(L, cfg.dynamicGrid, g.gridVel[p]), cfg.implicit, cfg.energy);
      if !cfg.energy then s2
      else
        match IncChtWallTemperature(L, cfg, nodes, v)
        case Ok(twall) => ImposeTemperature(L, s2, p, twall)
        case Fatal(_) => s2
    else s
  }

  ghost function IncChtStep(L: Layout, g: WallGeometry, cfg: IncChtConfig, nodes: IncNodes): Step
  {
    (s, v) => IncChtVertex(L, g, cfg, nodes, s, v)
  }

  ghost function IncChtActive(L: Layout, g: WallGeometry, cfg: IncChtConfig, nodes: IncNodes): WallVertex -> bool
  {
    (v: WallVertex) => IncChtReady(L, g, cfg, nodes, v)
  }

  /** The state after BC_ConjugateHeat_Interface has run over the marker's vertices. */
  ghost function IncChtWall(L: Layout, g: WallGeometry, cfg: IncChtConfig, nodes: IncNodes, s: FlowState, verts: seq<WallVertex>): FlowState
  {
    WallFold(IncChtStep(L, g, cfg, nodes), s, verts)
  }

  /**
   * The temperature is imposed strongly at p: zero energy residual and truncation error,
   * Solution_Old temperature twall and, under implicit integration, an identity energy row.
   */
  ghost predicate TemperatureImposed(L: Layout, s: FlowState, p: nat, twall: real, implicit: bool)
  {
    L.EnergyIndex(p) < |s.res| && L.EnergyIndex(p) < |s.solOld| && L.EnergyIndex(p) < |s.truncErr|
    && s.res[L.EnergyIndex(p)] == 0.0 && s.solOld[L.EnergyIndex(p)] == twall && s.truncErr[L.EnergyIndex(p)] == 0.0
    && (implicit ==> IsIdentityRow(s.jac, L.EnergyIndex(p)))
  }

  /**
   * A ready vertex of BC_ConjugateHeat_Interface changes only its own block and enforces no-slip.
   */
  lemma IncChtVertexEffect(L: Layout, g: WallGeometry, cfg: IncChtConfig, nodes: IncNodes, s: FlowState, v: WallVertex)
    requires Sized(L, s) && IncChtReady(L, g, cfg, nodes, v)
    ensures Sized(L, IncChtVertex(L, g, cfg, nodes, s, v))
    ensures UnchangedOutside(s, IncChtVertex(L, g, cfg, nodes, s, v), L.BlockLo(v.node), L.BlockHi(v.node))
    ensures NoSlipHolds(L, IncChtVertex(L, g, cfg, nodes, s, v), v.node,
                        WallVelocity(L, cfg.dynamicGrid, g.gridVel[v.node]), cfg.implicit)
  {
    var p := v.node;
    var wallVel := WallVelocity(L, cfg.dynamicGrid, g.gridVel[p]);
    IndexInRange(p, L.nDim + 1, L.nPoint, L.nVar);
    var s2 := NoSlipDeleted(L, s, p, wallVel, cfg.implicit, cfg.energy);
    UnchangedOutsideWiden(s, s2, L.VelocityLo(p), DeletedHi(L, p, cfg.energy), L.BlockLo(p), L.BlockHi(p));
    if cfg.energy && ChtModeKnown(cfg.chtMode) {
      var twall := IncChtWallTemperature(L, cfg, nodes, v).value;
      var t := ImposeTemperature(L, s2, p, twall);
      UnchangedOutsideWiden(s2, t, L.EnergyIndex(p), L.EnergyIndex(p) + 1, L.BlockLo(p), L.BlockHi(p));
      UnchangedOutsideTrans(s, s2, t, L.BlockLo(p), L.BlockHi(p));
      NoSlipSurvivesEnergyEntry(L, s2, t, p, wallVel, cfg.implicit);
    }
  }

  /**
   * The energy entries after one BC_ConjugateHeat_Interface vertex: with energy and a known
   * coupling mode the coupling wall temperature is imposed; without energy the temperature
   * entries and energy Jacobian row are kept.
   */
  lemma IncChtVertexTemperature(L: Layout, g: WallGeometry, cfg: IncChtConfig, nodes: IncNodes, s: FlowState, v: WallVertex)
    requires Sized(L, s) && IncChtReady(L, g, cfg, nodes, v)
    ensures cfg.energy && ChtModeKnown(cfg.chtMode) ==>
              TemperatureImposed(L, IncChtVertex(L, g, cfg, nodes, s, v), v.node,
                                 IncChtWallTemperature(L, cfg, nodes, v).value, cfg.implicit)
    ensures !cfg.energy ==> UnchangedInside(s, IncChtVertex(L, g, cfg, nodes, s, v), L.EnergyIndex(v.node), L.BlockHi(v.node))
  {
    IndexInRange(v.node, L.nDim + 1, L.nPoint, L.nVar);
  }

  /** Strong no-slip at p survives a change of the energy entries of p alone. */
  lemma NoSlipSurvivesEnergyEntry(L: Layout, s: FlowState, t: FlowState, p: nat, wallVel: seq<real>, implicit: bool)
    requires L.Valid() && NoSlipHolds(L, s, p, wallVel, implicit)
    requires UnchangedOutside(s, t, L.EnergyIndex(p), L.EnergyIndex(p) + 1)
    ensures NoSlipHolds(L, t, p, wallVel, implicit)
  {
    if implicit {
      forall r: nat | L.VelocityLo(p) <= r < L.VelocityHi(p)
        ensures IsIdentityRow(t.jac, r)
      {
        assert IsIdentityRow(s.jac, r);
      }
    }
  }

  /** The BC_ConjugateHeat_Interface step meets the premises of the generic wall-loop lemmas. */
  lemma IncChtStepIsWallStep(L: Layout, g: WallGeometry, cfg: IncChtConfig, nodes: IncNodes)
    requires L.Valid() && GeometrySized(L, g) && IncNodesSized(L, nodes)
    ensures IsLocalStep(L, IncChtStep(L, g, cfg, nodes), IncChtActive(L, g, cfg, nodes))
    ensures EnforcesNoSlip(L, IncChtStep(L, g, cfg, nodes), IncChtActive(L, g, cfg, nodes),
                           WallVelocities(L, g, cfg.dynamicGrid), cfg.implicit)
  {
    var step := IncChtStep(L, g, cfg, nodes);
    var active := IncChtActive(L, g, cfg, nodes);
    forall s: FlowState, v: WallVertex | Sized(L, s)
      ensures Sized(L, step(s, v))
      ensures !active(v) ==> step(s, v) == s
      ensures active(v) ==> UnchangedOutside(s, step(s, v), L.BlockLo(v.node), L.BlockHi(v.node))
      ensures active(v) && v.node < L.nPoint ==>
                NoSlipHolds(L, step(s, v), v.node, WallVelocities(L, g, cfg.dynamicGrid)[v.node], cfg.implicit)
    {
      if active(v) {
        IncChtVertexEffect(L, g, cfg, nodes, s, v);
      }
    }
  }

  /** A vertex is the last one of the marker on its point. */
  ghost predicate LastOnPoint(verts: seq<WallVertex>, i: nat)
  {
    i < |verts| && forall j :: i < j < |verts| ==> verts[j].node != verts[i].node
  }

  /** An imposed temperature survives a step that changes only the block of another point. */
  lemma TemperatureImposedSurvives(L: Layout, s: FlowState, t: FlowState, p: nat, q: nat, twall: real, implicit: bool)
    requires L.Valid() && p != q
    requires TemperatureImposed(L, s, p, twall, implicit)
    requires UnchangedOutside(s, t, L.BlockLo(q), L.BlockHi(q))
    ensures TemperatureImposed(L, t, p, twall, implicit)
  {
    BlocksDisjoint(p, q, L.nVar);
    if implicit {
      assert IsIdentityRow(s.jac, L.EnergyIndex(p));
    }
  }

  /**
   * With energy and a known coupling mode, the last domain vertex of every point leaves the
   * coupling wall temperature imposed there.
   */
  lemma {:induction false} IncChtFoldImposes(L: Layout, g: WallGeometry, cfg: IncChtConfig, nodes: IncNodes,
                                             s: FlowState, verts: seq<WallVertex>)
    requires Sized(L, s) && IncChtMarkerOk(L, g, cfg, nodes, verts) && cfg.energy && ChtModeKnown(cfg.chtMode)
    ensures forall i :: 0 <= i < |verts| && g.isDomain[verts[i].node] && LastOnPoint(verts, i) ==>
              TemperatureImposed(L, IncChtWall(L, g, cfg, nodes, s, verts), verts[i].node,
                                 IncChtWallTemperature(L, cfg, nodes, verts[i]).value, cfg.implicit)
    decreases |verts|
  {
    if verts != [] {
      var step := IncChtStep(L, g, cfg, nodes);
      var prefix := verts[..|verts| - 1];
      var last := verts[|verts| - 1];
      var mid := IncChtWall(L, g, cfg, nodes, s, prefix);
      var fin := IncChtWall(L, g, cfg, nodes, s, verts);
      assert fin == step(mid, last);
      assert IncChtMarkerOk(L, g, cfg, nodes, prefix) by {
        forall i | 0 <= i < |prefix| ensures prefix[i] == verts[i] { }
      }
      IncChtFoldImposes(L, g, cfg, nodes, s, prefix);
      IncChtStepIsWallStep(L, g, cfg, nodes);
      WallFoldSized(L, step, IncChtActive(L, g, cfg, nodes), s, prefix);
      forall i | 0 <= i < |verts| && g.isDomain[verts[i].node] && LastOnPoint(verts, i)
        ensures TemperatureImposed(L, fin, verts[i].node, IncChtWallTemperature(L, cfg, nodes, verts[i]).value, cfg.implicit)
      {
        if i == |verts| - 1 {
          IncChtVertexTemperature(L, g, cfg, nodes, mid, last);
        } else {
          assert prefix[i] == verts[i];
          assert LastOnPoint(prefix, i) by {
            forall j | i < j < |prefix| ensures prefix[j].node != prefix[i].node {
              assert prefix[j] == verts[j];
            }
          }
          if IncChtReady(L, g, cfg, nodes, last) {
            IncChtVertexEffect(L, g, cfg, nodes, mid, last);
            TemperatureImposedSurvives(L, mid, fin, verts[i].node, last.node,
                                       IncChtWallTemperature(L, cfg, nodes, verts[i]).value, cfg.implicit);
          }
        }
      }
    }
  }

  /**
   * BC_ConjugateHeat_Interface over a whole marker: strong no-slip at every domain vertex;
   * every point that carries no domain vertex keeps its block; with energy and a known coupling
   * mode, the last domain vertex on each point leaves its wall temperature imposed there.
   */
  lemma IncChtWallProperties(L: Layout, g: WallGeometry, cfg: IncChtConfig, nodes: IncNodes,
                             s: FlowState, verts: seq<WallVertex>)
    requires Sized(L, s) && IncChtMarkerOk(L, g, cfg, nodes, verts)
    ensures Sized(L, IncChtWall(L, g, cfg, nodes, s, verts))
    ensures forall i :: 0 <= i < |verts| && g.isDomain[verts[i].node] ==>
              NoSlipHolds(L, IncChtWall(L, g, cfg, nodes, s, verts), verts[i].node,
                          WallVelocity(L, cfg.dynamicGrid, g.gridVel[verts[i].node]), cfg.implicit)
    ensures forall p :: 0 <= p < L.nPoint && (!g.isDomain[p] || forall i :: 0 <= i < |verts| ==> verts[i].node != p) ==>
              UnchangedInside(s, IncChtWall(L, g, cfg, nodes, s, verts), L.BlockLo(p), L.BlockHi(p))
    ensures cfg.energy && ChtModeKnown(cfg.chtMode) ==>
              forall i :: 0 <= i < |verts| && g.isDomain[verts[i].node] && LastOnPoint(verts, i) ==>
                TemperatureImposed(L, IncChtWall(L, g, cfg, nodes, s, verts), verts[i].node,
                                   IncChtWallTemperature(L, cfg, nodes, verts[i]).value, cfg.implicit)
  {
    var step := IncChtStep(L, g, cfg, nodes);
    var active := IncChtActive(L, g, cfg, nodes);
    IncChtStepIsWallStep(L, g, cfg, nodes);
    WallFoldSized(L, step, active, s, verts);
    WallFoldEnforcesNoSlip(L, step, active, WallVelocities(L, g, cfg.dynamicGrid), cfg.implicit, s, verts);
    forall p | 0 <= p < L.nPoint && (!g.isDomain[p] || forall i :: 0 <= i < |verts| ==> verts[i].node != p)
      ensures UnchangedInside(s, IncChtWall(L, g, cfg, nodes, s, verts), L.BlockLo(p), L.BlockHi(p))
    {
      assert NoActiveVertexAt(verts, active, p);
      WallFoldFrame(L, step, active, s, verts, p);
    }
    if cfg.energy && ChtModeKnown(cfg.chtMode) {
      IncChtFoldImposes(L, g, cfg, nodes, s, verts);
    }
  }
}
