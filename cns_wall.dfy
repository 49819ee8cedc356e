/**
 * The viscous wall boundary conditions of the compressible Navier-Stokes solver
 * (CNSSolver): heat-flux / heat-transfer walls and isothermal (or conjugate heat)
 * walls. Each is a per-vertex update of the solver state; the marker loop is the
 * fold of that update over the marker's vertices (WallBC.WallFold).
 */
module CNSWall {
  import opened LinearSystem
  import opened WallBC
  import opened Outcome
  import opened ConjugateHeat

  /** Per-point values of the compressible solver read by its wall conditions. */
  datatype CNSNodes = CNSNodes(
    temperature: seq<real>,
    pressure: seq<real>,
    density: seq<real>,
    velocity: seq<seq<real>>,
    laminarViscosity: seq<real>,
    eddyViscosity: seq<real>)

  predicate NodesSized(L: Layout, n: CNSNodes)
  {
    |n.temperature| == L.nPoint && |n.pressure| == L.nPoint && |n.density| == L.nPoint && |n.velocity| == L.nPoint
    && |n.laminarViscosity| == L.nPoint && |n.eddyViscosity| == L.nPoint
  }

  // ---------------------------------------------------------------------------------------------
  // BC_HeatFlux_Wall_Generic

  /**
   * The options a heat-flux (or heat-transfer) wall reads: kind is HEAT_FLUX or HEAT_TRANSFER;
   * wallHeatFlux, heatTransferCoefficient and heatTransferTemperature are the marker's
   * dimensional values; pyCustom marks a patch whose heat flux is given per vertex.
   */
  datatype HeatFluxConfig = HeatFluxConfig(
    kind: nat,
    implicit: bool,
    dynamicGrid: bool,
    pyCustom: bool,
    wallHeatFlux: real,
    heatTransferCoefficient: real,
    heatTransferTemperature: real,
    heatFluxRef: real,
    temperatureRef: real,
    gamma: real,
    gasConstant: real)

  /** The reference values the source divides by are non-zero when it divides by them. */
  predicate HeatFluxConfigOk(cfg: HeatFluxConfig)
  {
    ((cfg.kind == HEAT_FLUX || cfg.kind == HEAT_TRANSFER) ==> cfg.heatFluxRef != 0.0)
    && (cfg.kind == HEAT_TRANSFER ==> cfg.temperatureRef != 0.0)
    && (cfg.kind == HEAT_TRANSFER && cfg.implicit ==> cfg.gasConstant != 0.0)
  }

  /** Non-dimensional heat transfer coefficient h (0 unless HEAT_TRANSFER). */
  function TransferCoefficient(cfg: HeatFluxConfig): real
    requires HeatFluxConfigOk(cfg)
  {
    if cfg.kind == HEAT_TRANSFER then cfg.heatTransferCoefficient * cfg.temperatureRef / cfg.heatFluxRef else 0.0
  }

  /** Non-dimensional far-field temperature T_inf of a heat-transfer wall (0 unless HEAT_TRANSFER). */
  function TInfinity(cfg: HeatFluxConfig): real
    requires HeatFluxConfigOk(cfg)
  {
    if cfg.kind == HEAT_TRANSFER then cfg.heatTransferTemperature / cfg.temperatureRef else 0.0
  }

  /** The heat flux q imposed at a vertex. */
  function VertexHeatFlux(L: Layout, cfg: HeatFluxConfig, nodes: CNSNodes, v: WallVertex): (q: real)
    requires HeatFluxConfigOk(cfg) && v.node < |nodes.temperature|
    ensures cfg.pyCustom ==> q == v.custom
    ensures !cfg.pyCustom && cfg.kind == HEAT_FLUX ==> q == cfg.wallHeatFlux / cfg.heatFluxRef
    ensures !cfg.pyCustom && cfg.kind == HEAT_TRANSFER ==>
              q == TransferCoefficient(cfg) * (TInfinity(cfg) - nodes.temperature[v.node])
    ensures !cfg.pyCustom && cfg.kind != HEAT_FLUX && cfg.kind != HEAT_TRANSFER ==> q == 0.0
  {
    var base := if cfg.kind == HEAT_FLUX then cfg.wallHeatFlux / cfg.heatFluxRef else 0.0;
    if cfg.pyCustom then v.custom
    else if cfg.kind == HEAT_TRANSFER then TransferCoefficient(cfg) * (TInfinity(cfg) - nodes.temperature[v.node])
    else base
  }

  /** Res_Conv - Res_Visc of a heat-flux vertex: what is added to its energy residual. */
  function HeatFluxEnergyResidual(L: Layout, cfg: HeatFluxConfig, nodes: CNSNodes, v: WallVertex): (r: real)
    requires HeatFluxConfigOk(cfg) && v.node < |nodes.temperature|
    ensures !cfg.dynamicGrid ==> r == -(VertexHeatFlux(L, cfg, nodes, v) * v.area)
    ensures cfg.dynamicGrid ==> r == v.dyn.conv - (VertexHeatFlux(L, cfg, nodes, v) * v.area + v.dyn.visc)
  {
    var resConv := 0.0;
    var resVisc := VertexHeatFlux(L, cfg, nodes, v) * v.area;
    if cfg.dynamicGrid then (resConv + v.dyn.conv) - (resVisc + v.dyn.visc) else resConv - resVisc
  }

  /** The energy row of the heat-transfer Jacobian: temperature derivatives w.r.t. the conservative variables. */
  function HeatTransferJacobianRow(L: Layout, cfg: HeatFluxConfig, nodes: CNSNodes, v: WallVertex): (row: seq<real>)
    requires L.Valid() && HeatFluxConfigOk(cfg) && cfg.kind == HEAT_TRANSFER && cfg.implicit
    requires NodesSized(L, nodes) && v.node < L.nPoint
    requires nodes.density[v.node] != 0.0 && |nodes.velocity[v.node]| == L.nDim
    ensures |row| == L.nVar
  {
    var h := TransferCoefficient(cfg);
    var vel := nodes.velocity[v.node];
    var oneOnRho := 1.0 / nodes.density[v.node];
    var oneOnCv := (cfg.gamma - 1.0) / cfg.gasConstant;
    var dTdrho := oneOnRho * (-TInfinity(cfg) + oneOnCv * 0.5 * SquaredNorm(vel));
    var dTdrhoe := oneOnCv * oneOnRho;
    seq(L.nVar, b requires 0 <= b < L.nVar =>
      if b == 0 then h * dTdrho * v.area
      else if b <= L.nDim then -(h * dTdrhoe * vel[b - 1] * v.area)
      else h * dTdrhoe * v.area)
  }

  /** Row nDim + 1 of Jacobian_i: the moving-wall contribution plus the heat-transfer one. */
  function HeatFluxJacobianRow(L: Layout, cfg: HeatFluxConfig, nodes: CNSNodes, v: WallVertex): (row: seq<real>)
    requires L.Valid() && HeatFluxConfigOk(cfg) && cfg.implicit && NodesSized(L, nodes) && v.node < L.nPoint
    requires cfg.dynamicGrid ==> |v.dyn.jacRow| == L.nVar
    requires cfg.kind == HEAT_TRANSFER ==> nodes.density[v.node] != 0.0 && |nodes.velocity[v.node]| == L.nDim
    ensures |row| == L.nVar
  {
    AddVectors(if cfg.dynamicGrid then v.dyn.jacRow else Zeros(L.nVar),
               if cfg.kind == HEAT_TRANSFER then HeatTransferJacobianRow(L, cfg, nodes, v) else Zeros(L.nVar))
  }

  /** What a domain vertex must satisfy for the update to be defined. */
  ghost predicate HeatFluxReady(L: Layout, g: WallGeometry, cfg: HeatFluxConfig, nodes: CNSNodes, v: WallVertex)
  {
    L.Valid() && HeatFluxConfigOk(cfg) && GeometrySized(L, g) && NodesSized(L, nodes)
    && IsDomainVertex(L, g, v)
    && (cfg.implicit && cfg.dynamicGrid ==> |v.dyn.jacRow| == L.nVar)
    && (cfg.implicit && cfg.kind == HEAT_TRANSFER ==>
          nodes.density[v.node] != 0.0 && |nodes.velocity[v.node]| == L.nDim)
  }

  /** Every domain vertex of the marker is ready. */
  ghost predicate HeatFluxMarkerOk(L: Layout, g: WallGeometry, cfg: HeatFluxConfig, nodes: CNSNodes, verts: seq<WallVertex>)
  {
    L.Valid() && HeatFluxConfigOk(cfg) && GeometrySized(L, g) && NodesSized(L, nodes) && VerticesOnMesh(L, verts)
    && forall i :: 0 <= i < |verts| && g.isDomain[verts[i].node] ==> HeatFluxReady(L, g, cfg, nodes, verts[i])
  }

  /** Whether row nDim + 1 of Jacobian_i is added, and that row (zeros when it is not). */
  function HeatFluxAddsRow(cfg: HeatFluxConfig): bool
  {
    cfg.implicit && (cfg.dynamicGrid || cfg.kind == HEAT_TRANSFER)
  }

  function HeatFluxRowOrZero(L: Layout, g: WallGeometry, cfg: HeatFluxConfig, nodes: CNSNodes, v: WallVertex): (row: seq<real>)
    requires HeatFluxReady(L, g, cfg, nodes, v)
    ensures |row| == L.nVar
  {
    if HeatFluxAddsRow(cfg) then HeatFluxJacobianRow(L, cfg, nodes, v) else Zeros(L.nVar)
  }

  /** One iteration of the vertex loop of BC_HeatFlux_Wall_Generic; halo vertices are skipped. */
  ghost function HeatFluxVertex(L: Layout, g: WallGeometry, cfg: HeatFluxConfig, nodes: CNSNodes,
                                s: FlowState, v: WallVertex): FlowState
  {
    if Sized(L, s) && HeatFluxReady(L, g, cfg, nodes, v) then
      var wallVel := WallVelocity(L, cfg.dynamicGrid, g.gridVel[v.node]);
      EnergyUpdate(L, NoSlip(L, s, v.node, wallVel), v.node, HeatFluxEnergyResidual(L, cfg, nodes, v),
                   cfg.implicit, HeatFluxAddsRow(cfg), HeatFluxRowOrZero(L, g, cfg, nodes, v))
    else s
  }

  ghost function HeatFluxStep(L: Layout, g: WallGeometry, cfg: HeatFluxConfig, nodes: CNSNodes): Step
  {
    (s, v) => HeatFluxVertex(L, g, cfg, nodes, s, v)
  }

  ghost function HeatFluxActive(L: Layout, g: WallGeometry, cfg: HeatFluxConfig, nodes: CNSNodes): WallVertex -> bool
  {
    (v: WallVertex) => HeatFluxReady(L, g, cfg, nodes, v)
  }

  ghost function HeatFluxContribution(L: Layout, cfg: HeatFluxConfig, nodes: CNSNodes): WallVertex -> real
    requires HeatFluxConfigOk(cfg) && NodesSized(L, nodes)
  {
    (v: WallVertex) => if v.node < L.nPoint then HeatFluxEnergyResidual(L, cfg, nodes, v) else 0.0
  }

  /** The state after BC_HeatFlux_Wall_Generic has run over the marker's vertices. */
  ghost function HeatFluxWall(L: Layout, g: WallGeometry, cfg: HeatFluxConfig, nodes: CNSNodes,
                              s: FlowState, verts: seq<WallVertex>): FlowState
  {
    WallFold(HeatFluxStep(L, g, cfg, nodes), s, verts)
  }

  /** A ready heat-flux vertex changes only its own block, enforces no-slip and adds its energy residual. */
  lemma HeatFluxVertexEffect(L: Layout, g: WallGeometry, cfg: HeatFluxConfig, nodes: CNSNodes, s: FlowState, v: WallVertex)
    requires Sized(L, s) && HeatFluxReady(L, g, cfg, nodes, v)
    ensures var t := HeatFluxVertex(L, g, cfg, nodes, s, v);
            Sized(L, t)
            && UnchangedOutside(s, t, L.BlockLo(v.node), L.BlockHi(v.node))
            && NoSlipHolds(L, t, v.node, WallVelocity(L, cfg.dynamicGrid, g.gridVel[v.node]), cfg.implicit)
            && t.res[L.EnergyIndex(v.node)] == s.res[L.EnergyIndex(v.node)] + HeatFluxEnergyResidual(L, cfg, nodes, v)
  {
    NoSlipThenEnergy(L, s, v.node, WallVelocity(L, cfg.dynamicGrid, g.gridVel[v.node]),
                     HeatFluxEnergyResidual(L, cfg, nodes, v), cfg.implicit, HeatFluxAddsRow(cfg),
                     HeatFluxRowOrZero(L, g, cfg, nodes, v));
  }

  /** The heat-flux step meets the premises of the generic wall-loop lemmas. */
  lemma HeatFluxStepIsWallStep(L: Layout, g: WallGeometry, cfg: HeatFluxConfig, nodes: CNSNodes)
    requires L.Valid() && HeatFluxConfigOk(cfg) && GeometrySized(L, g) && NodesSized(L, nodes)
    ensures IsLocalStep(L, HeatFluxStep(L, g, cfg, nodes), HeatFluxActive(L, g, cfg, nodes))
    ensures EnforcesNoSlip(L, HeatFluxStep(L, g, cfg, nodes), HeatFluxActive(L, g, cfg, nodes),
                           WallVelocities(L, g, cfg.dynamicGrid), cfg.implicit)
    ensures AddsToEnergy(L, HeatFluxStep(L, g, cfg, nodes), HeatFluxActive(L, g, cfg, nodes),
                         HeatFluxContribution(L, cfg, nodes))
  {
    var step := HeatFluxStep(L, g, cfg, nodes);
    var active := HeatFluxActive(L, g, cfg, nodes);
    forall s: FlowState, v: WallVertex | Sized(L, s)
      ensures Sized(L, step(s, v))
      ensures !active(v) ==> step(s, v) == s
      ensures active(v) ==> UnchangedOutside(s, step(s, v), L.BlockLo(v.node), L.BlockHi(v.node))
      ensures active(v) && v.node < L.nPoint ==>
                NoSlipHolds(L, step(s, v), v.node, WallVelocities(L, g, cfg.dynamicGrid)[v.node], cfg.implicit)
      ensures active(v) && L.EnergyIndex(v.node) < |s.res| ==>
                step(s, v).res[L.EnergyIndex(v.node)] == s.res[L.EnergyIndex(v.node)] + HeatFluxContribution(L, cfg, nodes)(v)
    {
      if active(v) {
        HeatFluxVertexEffect(L, g, cfg, nodes, s, v);
      }
    }
  }

  /**
   * BC_HeatFlux_Wall_Generic over a whole marker: strong no-slip at every domain vertex
   * (zero velocity residual and truncation error, Velocity_Old = wall velocity, identity
   * velocity rows under implicit integration); every point that carries no domain vertex
   * (a halo point, or a point off the marker) keeps its residual, Solution_Old, truncation
   * error and Jacobian rows; the energy residual of every point gains the Res_Conv - Res_Visc
   * of the domain vertices on it.
   */
  lemma HeatFluxWallProperties(L: Layout, g: WallGeometry, cfg: HeatFluxConfig, nodes: CNSNodes,
                               s: FlowState, verts: seq<WallVertex>)
    requires Sized(L, s) && HeatFluxMarkerOk(L, g, cfg, nodes, verts)
    ensures Sized(L, HeatFluxWall(L, g, cfg, nodes, s, verts))
    ensures forall p :: 0 <= p < L.nPoint ==> L.EnergyIndex(p) < |s.res|
    ensures forall i :: 0 <= i < |verts| && g.isDomain[verts[i].node] ==>
              NoSlipHolds(L, HeatFluxWall(L, g, cfg, nodes, s, verts), verts[i].node,
                          WallVelocity(L, cfg.dynamicGrid, g.gridVel[verts[i].node]), cfg.implicit)
    ensures forall p :: 0 <= p < L.nPoint && (!g.isDomain[p] || forall i :: 0 <= i < |verts| ==> verts[i].node != p) ==>
              UnchangedInside(s, HeatFluxWall(L, g, cfg, nodes, s, verts), L.BlockLo(p), L.BlockHi(p))
    ensures forall p :: 0 <= p < L.nPoint ==>
              HeatFluxWall(L, g, cfg, nodes, s, verts).res[L.EnergyIndex(p)]
              == s.res[L.EnergyIndex(p)] + EnergySum(verts, HeatFluxActive(L, g, cfg, nodes), HeatFluxContribution(L, cfg, nodes), p)
  {
    var active := HeatFluxActive(L, g, cfg, nodes);
    HeatFluxStepIsWallStep(L, g, cfg, nodes);
    WallFoldProperties(L, HeatFluxStep(L, g, cfg, nodes), active, HeatFluxContribution(L, cfg, nodes),
                       WallVelocities(L, g, cfg.dynamicGrid), cfg.implicit, s, verts);
    forall p | 0 <= p < L.nPoint && (!g.isDomain[p] || forall i :: 0 <= i < |verts| ==> verts[i].node != p)
      ensures NoActiveVertexAt(verts, active, p)
    {
    }
  }

  /**
   * The energy residual added at a vertex on a static mesh: -q.Area, with q the configured
   * flux for HEAT_FLUX and h.(T_inf - T) for HEAT_TRANSFER, so a wall hotter than T_inf loses heat.
   */
  lemma HeatFluxEnergyOnStaticWall(L: Layout, cfg: HeatFluxConfig, nodes: CNSNodes, v: WallVertex)
    requires HeatFluxConfigOk(cfg) && v.node < |nodes.temperature| && !cfg.dynamicGrid && !cfg.pyCustom
    ensures cfg.kind == HEAT_FLUX ==>
              HeatFluxEnergyResidual(L, cfg, nodes, v) == -(cfg.wallHeatFlux / cfg.heatFluxRef * v.area)
    ensures cfg.kind == HEAT_TRANSFER ==>
              HeatFluxEnergyResidual(L, cfg, nodes, v)
              == TransferCoefficient(cfg) * (nodes.temperature[v.node] - TInfinity(cfg)) * v.area
  {
  }

  /** A domain vertex of a heat-flux wall is strong no-slip followed by the energy part. */
  lemma HeatFluxVertexUnfold(L: Layout, g: WallGeometry, cfg: HeatFluxConfig, nodes: CNSNodes, s: FlowState, v: WallVertex)
    requires Sized(L, s) && HeatFluxReady(L, g, cfg, nodes, v)
    ensures HeatFluxVertex(L, g, cfg, nodes, s, v)
            == EnergyUpdate(L, NoSlip(L, s, v.node, WallVelocity(L, cfg.dynamicGrid, g.gridVel[v.node])), v.node,
                            HeatFluxEnergyResidual(L, cfg, nodes, v), cfg.implicit, HeatFluxAddsRow(cfg),
                            HeatFluxRowOrZero(L, g, cfg, nodes, v))
  {
  }

  /**
   * Jacobian rows of a heat-flux vertex under implicit integration: the density row is kept,
   * the energy row gains row nDim + 1 of Jacobian_i (only when the mesh moves or heat is
   * transferred) and neither is turned into an identity row.
   */
  lemma HeatFluxVertexJacobian(L: Layout, g: WallGeometry, cfg: HeatFluxConfig, nodes: CNSNodes,
                               s: FlowState, v: WallVertex, c: nat)
    requires Sized(L, s) && HeatFluxReady(L, g, cfg, nodes, v) && cfg.implicit
    ensures HeatFluxVertex(L, g, cfg, nodes, s, v).jac(L.BlockLo(v.node), c) == s.jac(L.BlockLo(v.node), c)
    ensures HeatFluxVertex(L, g, cfg, nodes, s, v).jac(L.EnergyIndex(v.node), c)
            == s.jac(L.EnergyIndex(v.node), c)
               + (if HeatFluxAddsRow(cfg) then BlockRowEntry(L, v.node, HeatFluxJacobianRow(L, cfg, nodes, v), c) else 0.0)
  {
    var p := v.node;
    var wallVel := WallVelocity(L, cfg.dynamicGrid, g.gridVel[p]);
    var delta := HeatFluxEnergyResidual(L, cfg, nodes, v);
    var row := HeatFluxRowOrZero(L, g, cfg, nodes, v);
    HeatFluxVertexUnfold(L, g, cfg, nodes, s, v);
    NoSlipThenEnergyJacobian(L, s, p, wallVel, delta, HeatFluxAddsRow(cfg), row, c);
  }

  // ---------------------------------------------------------------------------------------------
  // BC_Isothermal_Wall_Generic (and BC_ConjugateHeat_Interface, which is it with chtMode)

  /**
   * The options an isothermal wall reads; isothermalTemperature is the marker's dimensional
   * wall temperature, chtCoupling the CHT_COUPLING code used when chtMode holds.
   */
  datatype IsothermalConfig = IsothermalConfig(
    implicit: bool,
    dynamicGrid: bool,
    pyCustom: bool,
    chtMode: bool,
    chtCoupling: nat,
    isothermalTemperature: real,
    temperatureRef: real,
    prandtlLam: real,
    prandtlTurb: real,
    gamma: real,
    gasConstant: real,
    viscosityRef: real)

  predicate IsothermalConfigOk(cfg: IsothermalConfig)
  {
    cfg.temperatureRef != 0.0 && cfg.prandtlLam != 0.0 && cfg.prandtlTurb != 0.0 && cfg.gamma != 1.0
    && (cfg.implicit ==> cfg.gasConstant != 0.0)
  }

  /** k = Cp (mu_lam / Pr_lam + mu_t / Pr_turb), with Cp = Gamma / (Gamma - 1) R. */
  function ThermalConductivity(cfg: IsothermalConfig, laminarViscosity: real, eddyViscosity: real): real
    requires IsothermalConfigOk(cfg)
  {
    var cp := (cfg.gamma / (cfg.gamma - 1.0)) * cfg.gasConstant;
    cp * (laminarViscosity / cfg.prandtlLam + eddyViscosity / cfg.prandtlTurb)
  }

  function VertexConductivity(L: Layout, cfg: IsothermalConfig, nodes: CNSNodes, v: WallVertex): real
    requires IsothermalConfigOk(cfg) && NodesSized(L, nodes) && v.node < L.nPoint
  {
    ThermalConductivity(cfg, nodes.laminarViscosity[v.node], nodes.eddyViscosity[v.node])
  }

  /** The divisions of the isothermal vertex are by non-zero numbers. */
  ghost predicate IsothermalVertexInputsOk(L: Layout, cfg: IsothermalConfig, nodes: CNSNodes, v: WallVertex)
  {
    IsothermalConfigOk(cfg) && NodesSized(L, nodes) && v.node < L.nPoint && v.normalNeighbor < L.nPoint
    && v.dist != 0.0
    && (cfg.chtMode ==> ChtInputsOk(cfg.chtCoupling, VertexConductivity(L, cfg, nodes, v), v.dist, v.conjFactor,
                                    cfg.viscosityRef, cfg.temperatureRef))
  }

  /**
   * The wall temperature used at a vertex, with the conjugate-heat call made as the
   * signature of GetCHTWallTemperature prescribes (conductivity first, then distance).
   */
  function IsothermalWallTemperature(L: Layout, cfg: IsothermalConfig, nodes: CNSNodes, v: WallVertex): (r: Result<real>)
    requires IsothermalVertexInputsOk(L, cfg, nodes, v)
    ensures r.Fatal? <==> cfg.chtMode && !IsAveragedCoupling(cfg.chtCoupling) && !IsDirectCoupling(cfg.chtCoupling)
    ensures !cfg.chtMode && cfg.pyCustom ==> r == Ok(v.custom)
    ensures !cfg.chtMode && !cfg.pyCustom ==> r == Ok(cfg.isothermalTemperature / cfg.temperatureRef)
    ensures cfg.chtMode && IsDirectCoupling(cfg.chtCoupling) ==> r == Ok(v.conjTemperature / cfg.temperatureRef)
    ensures cfg.chtMode && IsAveragedCoupling(cfg.chtCoupling) ==>
              var fh := FluidHeatFactor(VertexConductivity(L, cfg, nodes, v), cfg.viscosityRef, v.dist);
              r.Ok? && r.value * (fh + v.conjFactor)
                       == nodes.temperature[v.normalNeighbor] * fh + (v.conjTemperature / cfg.temperatureRef) * v.conjFactor
  {
    var there := nodes.temperature[v.normalNeighbor];
    if cfg.chtMode then
      GetCHTWallTemperature(cfg.chtCoupling, VertexConductivity(L, cfg, nodes, v), v.dist, there,
                            v.conjTemperature, v.conjFactor, cfg.viscosityRef, cfg.temperatureRef)
    else if cfg.pyCustom then Ok(v.custom)
    else Ok(cfg.isothermalTemperature / cfg.temperatureRef)
  }

  /**
   * The call of CNSSolver.cpp as written: dist_ij is passed where the signature expects the
   * thermal conductivity and the other way round.
   */
  function ChtWallTemperatureAsCalled(L: Layout, cfg: IsothermalConfig, nodes: CNSNodes, v: WallVertex): (r: Result<real>)
    requires IsothermalConfigOk(cfg) && NodesSized(L, nodes) && v.node < L.nPoint && v.normalNeighbor < L.nPoint
    requires ChtInputsOk(cfg.chtCoupling, v.dist, VertexConductivity(L, cfg, nodes, v), v.conjFactor,
                         cfg.viscosityRef, cfg.temperatureRef)
    ensures IsAveragedCoupling(cfg.chtCoupling) ==>
              var fh := FluidHeatFactor(v.dist, cfg.viscosityRef, VertexConductivity(L, cfg, nodes, v));
              r.Ok? && r.value * (fh + v.conjFactor)
                       == nodes.temperature[v.normalNeighbor] * fh + (v.conjTemperature / cfg.temperatureRef) * v.conjFactor
  {
    GetCHTWallTemperature(cfg.chtCoupling, v.dist, VertexConductivity(L, cfg, nodes, v),
                          nodes.temperature[v.normalNeighbor], v.conjTemperature, v.conjFactor,
                          cfg.viscosityRef, cfg.temperatureRef)
  }

  /**
   * An averaged-coupling vertex where the swapped call and the intended one disagree:
   * k = 2, dist = 1, mu_ref = 1, T_here = 1, T_conj = 0, f_c = 1. The intended fluid factor
   * is k mu_ref / dist = 2 and the wall temperature 2/3; the swapped call uses 1/2 and gets 1/3.
   */
  lemma ChtSwappedArgumentsCounterexample()
    ensures var cfg := IsothermalConfig(false, false, false, true, AVERAGED_TEMPERATURE_NEUMANN_HEATFLUX,
                                        0.0, 1.0, 1.0, 1.0, 2.0, 1.0, 1.0);
            var L := Layout(2, 4, 2);
            var nodes := CNSNodes([1.0, 1.0], [1.0, 1.0], [1.0, 1.0], [[0.0, 0.0], [0.0, 0.0]], [1.0, 1.0], [0.0, 0.0]);
            var v := WallVertex(0, 1, 1.0, 1.0, 1.0, 0.0, 0.0, 0.0, 1.0, 0.0, DynamicWallTerms(0.0, 0.0, []));
            VertexConductivity(L, cfg, nodes, v) == 2.0
            && IsothermalVertexInputsOk(L, cfg, nodes, v)
            && IsothermalWallTemperature(L, cfg, nodes, v) == Ok(2.0 / 3.0)
            && ChtWallTemperatureAsCalled(L, cfg, nodes, v) == Ok(1.0 / 3.0)
  {
    var cfg := IsothermalConfig(false, false, false, true, AVERAGED_TEMPERATURE_NEUMANN_HEATFLUX,
                                0.0, 1.0, 1.0, 1.0, 2.0, 1.0, 1.0);
    var L := Layout(2, 4, 2);
    var nodes := CNSNodes([1.0, 1.0], [1.0, 1.0], [1.0, 1.0], [[0.0, 0.0], [0.0, 0.0]], [1.0, 1.0], [0.0, 0.0]);
    var v := WallVertex(0, 1, 1.0, 1.0, 1.0, 0.0, 0.0, 0.0, 1.0, 0.0, DynamicWallTerms(0.0, 0.0, []));
    assert VertexConductivity(L, cfg, nodes, v) == 2.0;
    assert FluidHeatFactor(2.0, 1.0, 1.0) == 2.0;
    assert FluidHeatFactor(1.0, 1.0, 2.0) == 0.5;
  }

  /** Res_Conv - Res_Visc of an isothermal vertex with wall temperature twall. */
  function IsothermalEnergyResidual(L: Layout, cfg: IsothermalConfig, nodes: CNSNodes, v: WallVertex, twall: real): (r: real)
    requires IsothermalVertexInputsOk(L, cfg, nodes, v)
    ensures var k := VertexConductivity(L, cfg, nodes, v);
            var viscous := k * WallNormalGradient(nodes.temperature[v.normalNeighbor], twall, v.dist) * v.area;
            (!cfg.dynamicGrid ==> r == -viscous)
            && (cfg.dynamicGrid ==> r == v.dyn.conv - (viscous + v.dyn.visc))
  {
    var k := VertexConductivity(L, cfg, nodes, v);
    var dTdn := WallNormalGradient(nodes.temperature[v.normalNeighbor], twall, v.dist);
    var resConv := 0.0;
    var resVisc := k * dTdn * v.area;
    if cfg.dynamicGrid then (resConv + v.dyn.conv) - (resVisc + v.dyn.visc) else resConv - resVisc
  }

  /**
   * d(-q·Area)/dρ of the isothermal wall flux, k/dist·dT/dρ·Area, where
   * dT/dρ = (-T_wall + (γ - 1)/R·|v|²/2)/ρ is the ideal-gas derivative at fixed energy.
   */
  function IsothermalDensityDerivative(k: real, dist: real, area: real, rho: real, twall: real,
                                       gamma: real, gasConstant: real, vel2: real): real
    requires dist != 0.0 && rho != 0.0 && gasConstant != 0.0
  {
    k / dist * (1.0 / rho * (-twall + (gamma - 1.0) / gasConstant * (vel2 / 2.0))) * area
  }

  /** d(-q·Area)/d(ρE) of the isothermal wall flux, k/dist·(γ - 1)/(R·ρ)·Area. */
  function IsothermalEnergyDerivative(k: real, dist: real, area: real, rho: real,
                                      gamma: real, gasConstant: real): real
    requires dist != 0.0 && rho != 0.0 && gasConstant != 0.0
  {
    k / dist * (gamma - 1.0) / (gasConstant * rho) * area
  }

  /** Row nDim + 1 of Jacobian_i of an isothermal vertex, with the moving-wall terms when the mesh moves. */
  function IsothermalJacobianRow(L: Layout, cfg: IsothermalConfig, nodes: CNSNodes, v: WallVertex, twall: real): (row: seq<real>)
    requires L.Valid() && IsothermalVertexInputsOk(L, cfg, nodes, v) && cfg.implicit
    requires nodes.density[v.node] != 0.0 && |nodes.velocity[v.node]| == L.nDim
    requires cfg.dynamicGrid ==> |v.dyn.jacRow| == L.nVar
    ensures |row| == L.nVar
    ensures row[0] == IsothermalDensityDerivative(VertexConductivity(L, cfg, nodes, v), v.dist, v.area, nodes.density[v.node],
                                                  twall, cfg.gamma, cfg.gasConstant, SquaredNorm(nodes.velocity[v.node]))
                      + (if cfg.dynamicGrid then v.dyn.jacRow[0] else 0.0)
    ensures forall b :: 1 <= b <= L.nDim ==> row[b] == (if cfg.dynamicGrid then v.dyn.jacRow[b] else 0.0)
    ensures row[L.nDim + 1] == IsothermalEnergyDerivative(VertexConductivity(L, cfg, nodes, v), v.dist, v.area,
                                                          nodes.density[v.node], cfg.gamma, cfg.gasConstant)
                               + (if cfg.dynamicGrid then v.dyn.jacRow[L.nDim + 1] else 0.0)
  {
    var k := VertexConductivity(L, cfg, nodes, v);
    var rho := nodes.density[v.node];
    var densityEntry := IsothermalDensityDerivative(k, v.dist, v.area, rho, twall, cfg.gamma, cfg.gasConstant,
                                                    SquaredNorm(nodes.velocity[v.node]));
    var energyEntry := IsothermalEnergyDerivative(k, v.dist, v.area, rho, cfg.gamma, cfg.gasConstant);
    var own := seq(L.nVar, b requires 0 <= b < L.nVar =>
      if b == 0 then densityEntry else if b <= L.nDim then 0.0 else energyEntry);
    if cfg.dynamicGrid then AddVectors(own, v.dyn.jacRow) else own
  }

  ghost predicate IsothermalReady(L: Layout, g: WallGeometry, cfg: IsothermalConfig, nodes: CNSNodes, v: WallVertex)
  {
    L.Valid() && GeometrySized(L, g) && IsDomainVertex(L, g, v) && IsothermalVertexInputsOk(L, cfg, nodes, v)
    && (cfg.implicit ==> nodes.density[v.node] != 0.0 && |nodes.velocity[v.node]| == L.nDim)
    && (cfg.implicit && cfg.dynamicGrid ==> |v.dyn.jacRow| == L.nVar)
  }

  /** The wall temperature rule is defined: not CHT, or a known coupling mode. */
  predicate WallTemperatureDefined(cfg: IsothermalConfig)
  {
    !cfg.chtMode || IsAveragedCoupling(cfg.chtCoupling) || IsDirectCoupling(cfg.chtCoupling)
  }

  ghost predicate IsothermalMarkerOk(L: Layout, g: WallGeometry, cfg: IsothermalConfig, nodes: CNSNodes, verts: seq<WallVertex>)
  {
    L.Valid() && IsothermalConfigOk(cfg) && GeometrySized(L, g) && NodesSized(L, nodes) && VerticesOnMesh(L, verts)
    && forall i :: 0 <= i < |verts| && g.isDomain[verts[i].node] ==> IsothermalReady(L, g, cfg, nodes, verts[i])
  }

  function IsothermalRowOrZero(L: Layout, g: WallGeometry, cfg: IsothermalConfig, nodes: CNSNodes, v: WallVertex, twall: real): (row: seq<real>)
    requires IsothermalReady(L, g, cfg, nodes, v)
    ensures |row| == L.nVar
  {
    if cfg.implicit then IsothermalJacobianRow(L, cfg, nodes, v, twall) else Zeros(L.nVar)
  }

  /** One iteration of the vertex loop of BC_Isothermal_Wall_Generic, when its wall temperature is defined. */
  ghost function IsothermalVertex(L: Layout, g: WallGeometry, cfg: IsothermalConfig, nodes: CNSNodes,
                                  s: FlowState, v: WallVertex): FlowState
  {
    if Sized(L, s) && IsothermalReady(L, g, cfg, nodes, v) && IsothermalWallTemperature(L, cfg, nodes, v).Ok? then
      var wallVel := WallVelocity(L, cfg.dynamicGrid, g.gridVel[v.node]);
      var twall := IsothermalWallTemperature(L, cfg, nodes, v).value;
      EnergyUpdate(L, NoSlip(L, s, v.node, wallVel), v.node, IsothermalEnergyResidual(L, cfg, nodes, v, twall),
                   cfg.implicit, cfg.implicit, IsothermalRowOrZero(L, g, cfg, nodes, v, twall))
    else s
  }

  ghost function IsothermalStep(L: Layout, g: WallGeometry, cfg: IsothermalConfig, nodes: CNSNodes): Step
  {
    (s, v) => IsothermalVertex(L, g, cfg, nodes, s, v)
  }

  ghost function IsothermalActive(L: Layout, g: WallGeometry, cfg: IsothermalConfig, nodes: CNSNodes): WallVertex -> bool
  {
    (v: WallVertex) => IsothermalReady(L, g, cfg, nodes, v) && IsothermalWallTemperature(L, cfg, nodes, v).Ok?
  }

  ghost function IsothermalContribution(L: Layout, g: WallGeometry, cfg: IsothermalConfig, nodes: CNSNodes): WallVertex -> real
  {
    (v: WallVertex) => if IsothermalReady(L, g, cfg, nodes, v) && IsothermalWallTemperature(L, cfg, nodes, v).Ok?
         then IsothermalEnergyResidual(L, cfg, nodes, v, IsothermalWallTemperature(L, cfg, nodes, v).value)
         else 0.0
  }

  /** The state after BC_Isothermal_Wall_Generic has run over the marker's vertices. */
  ghost function IsothermalWall(L: Layout, g: WallGeometry, cfg: IsothermalConfig, nodes: CNSNodes,
                                s: FlowState, verts: seq<WallVertex>): FlowState
  {
    WallFold(IsothermalStep(L, g, cfg, nodes), s, verts)
  }

  lemma IsothermalVertexEffect(L: Layout, g: WallGeometry, cfg: IsothermalConfig, nodes: CNSNodes, s: FlowState, v: WallVertex)
    requires Sized(L, s) && IsothermalReady(L, g, cfg, nodes, v) && IsothermalWallTemperature(L, cfg, nodes, v).Ok?
    ensures var t := IsothermalVertex(L, g, cfg, nodes, s, v);
            Sized(L, t)
            && UnchangedOutside(s, t, L.BlockLo(v.node), L.BlockHi(v.node))
            && NoSlipHolds(L, t, v.node, WallVelocity(L, cfg.dynamicGrid, g.gridVel[v.node]), cfg.implicit)
            && t.res[L.EnergyIndex(v.node)]
               == s.res[L.EnergyIndex(v.node)] + IsothermalContribution(L, g, cfg, nodes)(v)
  {
    var twall := IsothermalWallTemperature(L, cfg, nodes, v).value;
    NoSlipThenEnergy(L, s, v.node, WallVelocity(L, cfg.dynamicGrid, g.gridVel[v.node]),
                     IsothermalEnergyResidual(L, cfg, nodes, v, twall), cfg.implicit, cfg.implicit,
                     IsothermalRowOrZero(L, g, cfg, nodes, v, twall));
  }

  lemma IsothermalStepIsWallStep(L: Layout, g: WallGeometry, cfg: IsothermalConfig, nodes: CNSNodes)
    requires L.Valid() && IsothermalConfigOk(cfg) && GeometrySized(L, g) && NodesSized(L, nodes)
    ensures IsLocalStep(L, IsothermalStep(L, g, cfg, nodes), IsothermalActive(L, g, cfg, nodes))
    ensures EnforcesNoSlip(L, IsothermalStep(L, g, cfg, nodes), IsothermalActive(L, g, cfg, nodes),
                           WallVelocities(L, g, cfg.dynamicGrid), cfg.implicit)
    ensures AddsToEnergy(L, IsothermalStep(L, g, cfg, nodes), IsothermalActive(L, g, cfg, nodes),
                         IsothermalContribution(L, g, cfg, nodes))
  {
    var step := IsothermalStep(L, g, cfg, nodes);
    var active := IsothermalActive(L, g, cfg, nodes);
    forall s: FlowState, v: WallVertex | Sized(L, s)
      ensures Sized(L, step(s, v))
      ensures !active(v) ==> step(s, v) == s
      ensures active(v) ==> UnchangedOutside(s, step(s, v), L.BlockLo(v.node), L.BlockHi(v.node))
      ensures active(v) && v.node < L.nPoint ==>
                NoSlipHolds(L, step(s, v), v.node, WallVelocities(L, g, cfg.dynamicGrid)[v.node], cfg.implicit)
      ensures active(v) && L.EnergyIndex(v.node) < |s.res| ==>
                step(s, v).res[L.EnergyIndex(v.node)] == s.res[L.EnergyIndex(v.node)] + IsothermalContribution(L, g, cfg, nodes)(v)
    {
      if active(v) {
        IsothermalVertexEffect(L, g, cfg, nodes, s, v);
      }
    }
  }

  /**
   * BC_Isothermal_Wall_Generic over a whole marker whose wall temperature is defined:
   * strong no-slip at every domain vertex.
   */
  lemma IsothermalWallProperties(L: Layout, g: WallGeometry, cfg: IsothermalConfig, nodes: CNSNodes,
                                 s: FlowState, verts: seq<WallVertex>)
    requires Sized(L, s) && IsothermalMarkerOk(L, g, cfg, nodes, verts) && WallTemperatureDefined(cfg)
    ensures Sized(L, IsothermalWall(L, g, cfg, nodes, s, verts))
    ensures forall i :: 0 <= i < |verts| && g.isDomain[verts[i].node] ==>
              NoSlipHolds(L, IsothermalWall(L, g, cfg, nodes, s, verts), verts[i].node,
                          WallVelocity(L, cfg.dynamicGrid, g.gridVel[verts[i].node]), cfg.implicit)
  {
    IsothermalStepIsWallStep(L, g, cfg, nodes);
    WallFoldProperties(L, IsothermalStep(L, g, cfg, nodes), IsothermalActive(L, g, cfg, nodes),
                       IsothermalContribution(L, g, cfg, nodes), WallVelocities(L, g, cfg.dynamicGrid), cfg.implicit, s, verts);
  }

  /**
   * BC_Isothermal_Wall_Generic over a whole marker whose wall temperature is defined leaves
   * every point without a domain vertex untouched.
   */
  lemma IsothermalWallFrame(L: Layout, g: WallGeometry, cfg: IsothermalConfig, nodes: CNSNodes,
                            s: FlowState, verts: seq<WallVertex>)
    requires Sized(L, s) && IsothermalMarkerOk(L, g, cfg, nodes, verts) && WallTemperatureDefined(cfg)
    ensures forall p :: 0 <= p < L.nPoint && (!g.isDomain[p] || forall i :: 0 <= i < |verts| ==> verts[i].node != p) ==>
              UnchangedInside(s, IsothermalWall(L, g, cfg, nodes, s, verts), L.BlockLo(p), L.BlockHi(p))
  {
    var active := IsothermalActive(L, g, cfg, nodes);
    IsothermalStepIsWallStep(L, g, cfg, nodes);
    forall p | 0 <= p < L.nPoint && (!g.isDomain[p] || forall i :: 0 <= i < |verts| ==> verts[i].node != p)
      ensures UnchangedInside(s, IsothermalWall(L, g, cfg, nodes, s, verts), L.BlockLo(p), L.BlockHi(p))
    {
      assert NoActiveVertexAt(verts, active, p);
      WallFoldFrame(L, IsothermalStep(L, g, cfg, nodes), active, s, verts, p);
    }
  }

  /**
   * BC_Isothermal_Wall_Generic over a whole marker whose wall temperature is defined increases
   * the energy residual of every point by the Res_Conv - Res_Visc of its domain vertices.
   */
  lemma IsothermalWallEnergy(L: Layout, g: WallGeometry, cfg: IsothermalConfig, nodes: CNSNodes,
                             s: FlowState, verts: seq<WallVertex>, p: nat)
    requires Sized(L, s) && IsothermalMarkerOk(L, g, cfg, nodes, verts) && WallTemperatureDefined(cfg)
    requires p < L.nPoint
    ensures L.EnergyIndex(p) < |s.res| == |IsothermalWall(L, g, cfg, nodes, s, verts).res|
    ensures IsothermalWall(L, g, cfg, nodes, s, verts).res[L.EnergyIndex(p)]
            == s.res[L.EnergyIndex(p)] + EnergySum(verts, IsothermalActive(L, g, cfg, nodes), IsothermalContribution(L, g, cfg, nodes), p)
  {
    IsothermalStepIsWallStep(L, g, cfg, nodes);
    WallFoldEnergy(L, IsothermalStep(L, g, cfg, nodes), IsothermalActive(L, g, cfg, nodes),
                   IsothermalContribution(L, g, cfg, nodes), s, verts, p);
  }

  /**
   * Jacobian rows of an isothermal vertex under implicit integration: the density row is kept
   * and the energy row gains row nDim + 1 of Jacobian_i in the columns of the vertex's point.
   */
  lemma IsothermalVertexJacobian(L: Layout, g: WallGeometry, cfg: IsothermalConfig, nodes: CNSNodes,
                                 s: FlowState, v: WallVertex, c: nat)
    requires Sized(L, s) && IsothermalReady(L, g, cfg, nodes, v) && cfg.implicit
    requires IsothermalWallTemperature(L, cfg, nodes, v).Ok?
    ensures IsothermalVertex(L, g, cfg, nodes, s, v).jac(L.BlockLo(v.node), c) == s.jac(L.BlockLo(v.node), c)
    ensures IsothermalVertex(L, g, cfg, nodes, s, v).jac(L.EnergyIndex(v.node), c)
            == s.jac(L.EnergyIndex(v.node), c)
               + BlockRowEntry(L, v.node, IsothermalJacobianRow(L, cfg, nodes, v, IsothermalWallTemperature(L, cfg, nodes, v).value), c)
  {
    var p := v.node;
    var wallVel := WallVelocity(L, cfg.dynamicGrid, g.gridVel[p]);
    var twall := IsothermalWallTemperature(L, cfg, nodes, v).value;
    var delta := IsothermalEnergyResidual(L, cfg, nodes, v, twall);
    var row := IsothermalRowOrZero(L, g, cfg, nodes, v, twall);
    assert IsothermalVertex(L, g, cfg, nodes, s, v) == EnergyUpdate(L, NoSlip(L, s, p, wallVel), p, delta, true, true, row);
    NoSlipThenEnergyJacobian(L, s, p, wallVel, delta, true, row, c);
  }

  /**
   * On a static isothermal wall the energy residual grows by k.Area.(T_normal - T_wall)/dist:
   * the weak heat flux -k.dT/dn.Area, positive when the fluid beside the wall is hotter.
   */
  lemma IsothermalEnergyOnStaticWall(L: Layout, cfg: IsothermalConfig, nodes: CNSNodes, v: WallVertex, twall: real)
    requires IsothermalVertexInputsOk(L, cfg, nodes, v) && !cfg.dynamicGrid
    ensures var k := VertexConductivity(L, cfg, nodes, v);
            IsothermalEnergyResidual(L, cfg, nodes, v, twall)
            == k * v.area * (nodes.temperature[v.normalNeighbor] - twall) / v.dist
  {
  }
}
