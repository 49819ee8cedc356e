/**
 * The turbulence solver object (CTurbSolver) as far as its fluid-interface boundary
 * condition, its restart loading and its fixed-value regions change it: the node
 * solutions and old solutions are per-point rows the methods reassign, LinSysRes an
 * array of nPoint * nVar entries, the Jacobian a matrix field and Solution_Inf the
 * far-field state vector.
 */
module TurbSolverModel {
  import opened LinearSystem
  import opened Outcome
  import opened TurbRules

  // TURB_TRANS_MODEL::TS, EULER_IMPLICIT and FLUID_INTERFACE
  const TS: nat := 3
  const EULER_IMPLICIT: nat := 3
  const FLUID_INTERFACE: nat := 39

  const ZERO_FARFIELD_MESSAGE: string := "Far-field velocity is zero, cannot fix turbulence quantities to inflow values."

  /** The error LoadRestart raises when the file holds another number of domain points than the mesh. */
  function RestartMismatchMessage(fileName: string): (msg: string)
    ensures |msg| > |fileName|
  {
    "The solution file " + fileName + " doesn't match with the mesh file!\n"
    + "It could be empty lines at the end of the file."
  }

  /** nDim, nVar (the turbulence variables), nPoint and nPointDomain (the points this process owns come first). */
  datatype TurbLayout = TurbLayout(nDim: nat, nVar: nat, nPoint: nat, nPointDomain: nat)
  {
    ghost predicate Valid()
    {
      1 <= nDim && nPointDomain <= nPoint
    }

    /** Position of variable i of point p in LinSysRes, and of its row in the Jacobian. */
    function Index(p: nat, i: nat): nat
    {
      p * nVar + i
    }
  }

  /** What the fixed-value and interface loops change: Solution, Solution_Old, LinSysRes, Jacobian. */
  datatype TurbState = TurbState(solution: seq<seq<real>>, solutionOld: seq<seq<real>>, res: seq<real>, jac: Matrix)

  ghost predicate TurbSized(T: TurbLayout, s: TurbState)
  {
    IsSolutionMatrix(s.solution, T.nPoint, T.nVar) && IsSolutionMatrix(s.solutionOld, T.nPoint, T.nVar)
    && |s.res| == T.nPoint * T.nVar
  }

  // ---------------------------------------------------------------------------------------------
  // Impose_Fixed_Values
  // ---------------------------------------------------------------------------------------------

  /**
   * One fixed point: Solution_Old and Solution become Solution_Inf, the residual block is
   * zeroed and, under implicit integration, the point's nVar Jacobian rows become identity rows.
   */
  function FixPoint(T: TurbLayout, s: TurbState, p: nat, solInf: seq<real>, implicit: bool): (r: TurbState)
    requires TurbSized(T, s) && p < T.nPoint && |solInf| == T.nVar
    ensures TurbSized(T, r)
  {
    BlockInRange(p, T.nPoint, T.nVar);
    TurbState(s.solution[p := solInf], s.solutionOld[p := solInf],
              ZeroRange(s.res, p * T.nVar, p * T.nVar + T.nVar),
              if implicit then DeleteRows(s.jac, p * T.nVar, p * T.nVar + T.nVar) else s.jac)
  }

  /** The loop over the domain points 0 ..< n that fixes every point whose coordinates lie in the region. */
  function FixRegion(T: TurbLayout, s: TurbState, region: FixedRegion, coords: seq<seq<real>>, solInf: seq<real>,
                     implicit: bool, n: nat): (r: TurbState)
    requires TurbSized(T, s) && n <= T.nPoint && n <= |coords| && |solInf| == T.nVar
    ensures TurbSized(T, r)
    decreases n
  {
    if n == 0 then s
    else
      var prev := FixRegion(T, s, region, coords, solInf, implicit, n - 1);
      if InRegion(region, coords[n - 1]) then FixPoint(T, prev, n - 1, solInf, implicit) else prev
  }

  /** The points among 0 ..< n whose coordinates lie in the region. */
  ghost function RegionPoints(region: FixedRegion, coords: seq<seq<real>>, n: nat): set<nat>
    requires n <= |coords|
  {
    set p: nat | p < n && InRegion(region, coords[p])
  }

  /**
   * r is s with exactly the points of F fixed to solInf: their solution and old solution are
   * solInf, their residual entries 0 and, when implicit, their Jacobian rows identity rows; every
   * other point, and every Jacobian row past the last point, is as in s.
   */
  ghost predicate FixedExactly(T: TurbLayout, s: TurbState, r: TurbState, F: set<nat>, solInf: seq<real>, implicit: bool)
    requires TurbSized(T, s) && TurbSized(T, r)
  {
    (forall p :: 0 <= p < T.nPoint ==>
       r.solution[p] == (if p in F then solInf else s.solution[p])
       && r.solutionOld[p] == (if p in F then solInf else s.solutionOld[p]))
    && (forall p, i :: 0 <= p < T.nPoint && 0 <= i < T.nVar ==>
          T.Index(p, i) < |s.res|
          && r.res[T.Index(p, i)] == (if p in F then 0.0 else s.res[T.Index(p, i)]))
    && (forall p, i, c: nat :: 0 <= p < T.nPoint && 0 <= i < T.nVar ==>
          r.jac(T.Index(p, i), c)
          == (if p in F && implicit then (if c == T.Index(p, i) then 1.0 else 0.0) else s.jac(T.Index(p, i), c)))
    && (forall row: nat, c: nat :: row >= T.nPoint * T.nVar ==> r.jac(row, c) == s.jac(row, c))
  }

  /** Fixing a single point fixes exactly that point. */
  lemma FixPointEffect(T: TurbLayout, s: TurbState, q: nat, solInf: seq<real>, implicit: bool)
    requires TurbSized(T, s) && q < T.nPoint && |solInf| == T.nVar
    ensures FixedExactly(T, s, FixPoint(T, s, q, solInf, implicit), {q}, solInf, implicit)
  {
    var r := FixPoint(T, s, q, solInf, implicit);
    BlockInRange(q, T.nPoint, T.nVar);
    forall p, i | 0 <= p < T.nPoint && 0 <= i < T.nVar
      ensures T.Index(p, i) < |s.res|
      ensures r.res[T.Index(p, i)] == (if p in {q} then 0.0 else s.res[T.Index(p, i)])
    {
      IndexInRange(p, i, T.nPoint, T.nVar);
      if p != q {
        BlocksDisjoint(p, q, T.nVar);
      }
    }
    forall p, i, c: nat | 0 <= p < T.nPoint && 0 <= i < T.nVar
      ensures r.jac(T.Index(p, i), c)
              == (if p in {q} && implicit then (if c == T.Index(p, i) then 1.0 else 0.0) else s.jac(T.Index(p, i), c))
    {
      if p != q {
        BlocksDisjoint(p, q, T.nVar);
      } else if implicit {
        assert IsIdentityRow(r.jac, T.Index(p, i));
      }
    }
    assert forall row: nat, c: nat :: row >= T.nPoint * T.nVar ==> r.jac(row, c) == s.jac(row, c);
    assert forall p :: 0 <= p < T.nPoint ==>
        r.solution[p] == (if p in {q} then solInf else s.solution[p])
        && r.solutionOld[p] == (if p in {q} then solInf else s.solutionOld[p]);
  }

  /** Two rounds of fixing, the second on the state the first left, fix the union of the two sets. */
  lemma FixedExactlyCompose(T: TurbLayout, s: TurbState, m: TurbState, r: TurbState, F1: set<nat>, F2: set<nat>,
                            solInf: seq<real>, implicit: bool)
    requires TurbSized(T, s) && TurbSized(T, m) && TurbSized(T, r)
    requires FixedExactly(T, s, m, F1, solInf, implicit) && FixedExactly(T, m, r, F2, solInf, implicit)
    ensures FixedExactly(T, s, r, F1 + F2, solInf, implicit)
  {
    forall p, i, c: nat | 0 <= p < T.nPoint && 0 <= i < T.nVar
      ensures r.jac(T.Index(p, i), c)
              == (if p in F1 + F2 && implicit then (if c == T.Index(p, i) then 1.0 else 0.0) else s.jac(T.Index(p, i), c))
    {
      assert m.jac(T.Index(p, i), c)
             == (if p in F1 && implicit then (if c == T.Index(p, i) then 1.0 else 0.0) else s.jac(T.Index(p, i), c));
    }
    forall p, i | 0 <= p < T.nPoint && 0 <= i < T.nVar
      ensures r.res[T.Index(p, i)] == (if p in F1 + F2 then 0.0 else s.res[T.Index(p, i)])
    {
      assert m.res[T.Index(p, i)] == (if p in F1 then 0.0 else s.res[T.Index(p, i)]);
    }
  }

  /** A round of fixing over an empty region leaves the state as it was. */
  lemma FixedExactlyNone(T: TurbLayout, s: TurbState, solInf: seq<real>, implicit: bool)
    requires TurbSized(T, s)
    ensures FixedExactly(T, s, s, {}, solInf, implicit)
  {
    forall p, i | 0 <= p < T.nPoint && 0 <= i < T.nVar
      ensures T.Index(p, i) < |s.res|
    {
      IndexInRange(p, i, T.nPoint, T.nVar);
    }
  }

  /** The region loop fixes exactly the domain points of the region. */
  lemma {:induction false} FixRegionEffect(T: TurbLayout, s: TurbState, region: FixedRegion, coords: seq<seq<real>>,
                                           solInf: seq<real>, implicit: bool, n: nat)
    requires TurbSized(T, s) && n <= T.nPoint && n <= |coords| && |solInf| == T.nVar
    ensures FixedExactly(T, s, FixRegion(T, s, region, coords, solInf, implicit, n), RegionPoints(region, coords, n),
                         solInf, implicit)
    decreases n
  {
    if n == 0 {
      assert RegionPoints(region, coords, n) == {};
      FixedExactlyNone(T, s, solInf, implicit);
    } else {
      var prev := FixRegion(T, s, region, coords, solInf, implicit, n - 1);
      FixRegionEffect(T, s, region, coords, solInf, implicit, n - 1);
      if InRegion(region, coords[n - 1]) {
        assert RegionPoints(region, coords, n) == RegionPoints(region, coords, n - 1) + {n - 1};
        FixPointEffect(T, prev, n - 1, solInf, implicit);
        FixedExactlyCompose(T, s, prev, FixPoint(T, prev, n - 1, solInf, implicit),
                            RegionPoints(region, coords, n - 1), {n - 1}, solInf, implicit);
      } else {
        assert RegionPoints(region, coords, n) == RegionPoints(region, coords, n - 1);
      }
    }
  }

  /** The configuration Impose_Fixed_Values reads; velocityNorm is GeometryToolbox::Norm of velocityInf. */
  datatype FixedValuesConfig = FixedValuesConfig(
    rhoInf: real, velocityInf: seq<real>, velocityNorm: real, muLamInf: real, intensity: real, viscRatio: real,
    transModel: nat, transPosX: real, turbFixedValues: bool, maxScalarProd: real, timeIntScheme: nat)

  ghost predicate FixedValuesConfigOk(T: TurbLayout, cfg: FixedValuesConfig, coords: seq<seq<real>>)
  {
    |cfg.velocityInf| == T.nDim && cfg.muLamInf * cfg.viscRatio != 0.0
    && cfg.velocityNorm >= 0.0 && Square(cfg.velocityNorm) == SquaredNorm(cfg.velocityInf)
    && T.nPointDomain <= |coords| && T.nPointDomain <= T.nPoint
    && forall p :: 0 <= p < T.nPointDomain ==> |coords[p]| == T.nDim
  }

  /** Solution_Inf after its first two entries are set to the far-field k and omega. */
  function FarFieldSolution(solInf: seq<real>, cfg: FixedValuesConfig): (r: seq<real>)
    requires |solInf| >= 2 && cfg.muLamInf * cfg.viscRatio != 0.0
    ensures |r| == |solInf|
    ensures r[0] == FreestreamTurbulence(cfg.rhoInf, cfg.velocityInf, cfg.muLamInf, cfg.intensity, cfg.viscRatio).kInf
    ensures r[1] == FreestreamTurbulence(cfg.rhoInf, cfg.velocityInf, cfg.muLamInf, cfg.intensity, cfg.viscRatio).omegaInf
    ensures r[2..] == solInf[2..]
  {
    var f := FreestreamTurbulence(cfg.rhoInf, cfg.velocityInf, cfg.muLamInf, cfg.intensity, cfg.viscRatio);
    solInf[0 := f.kInf][1 := f.omegaInf]
  }

  /** The two regions, and whether each is active. */
  function TransitionRegion(cfg: FixedValuesConfig): FixedRegion
  {
    UpstreamOfTransition(cfg.transPosX)
  }

  function HalfPlaneRegion(cfg: FixedValuesConfig): FixedRegion
    requires cfg.velocityNorm != 0.0
  {
    HalfPlane(UnitVector(cfg.velocityInf, cfg.velocityNorm), cfg.maxScalarProd)
  }

  /** The state after the TS transition-model region is fixed (the first half of Impose_Fixed_Values). */
  function TransitionStage(T: TurbLayout, s: TurbState, cfg: FixedValuesConfig, coords: seq<seq<real>>,
                           solInf: seq<real>): (r: TurbState)
    requires TurbSized(T, s) && FixedValuesConfigOk(T, cfg, coords) && |solInf| == T.nVar
    ensures TurbSized(T, r)
  {
    if cfg.transModel == TS then
      FixRegion(T, s, TransitionRegion(cfg), coords, solInf, cfg.timeIntScheme == EULER_IMPLICIT, T.nPointDomain)
    else s
  }

  /**
   * Impose_Fixed_Values: the far-field state, then the TS region, then, when fixed values are
   * requested, the half-plane region; a zero far-field velocity is fatal there.
   */
  function FixedValues(T: TurbLayout, s: TurbState, cfg: FixedValuesConfig, coords: seq<seq<real>>,
                       solInf: seq<real>): (r: Result<TurbState>)
    requires TurbSized(T, s) && FixedValuesConfigOk(T, cfg, coords) && |solInf| == T.nVar && T.nVar >= 2
    ensures r.Fatal? <==> cfg.turbFixedValues && cfg.velocityNorm == 0.0
    ensures r.Fatal? ==> r.message == ZERO_FARFIELD_MESSAGE
    ensures r.Ok? ==> TurbSized(T, r.value)
  {
    var inf := FarFieldSolution(solInf, cfg);
    var stage := TransitionStage(T, s, cfg, coords, inf);
    if !cfg.turbFixedValues then Ok(stage)
    else if cfg.velocityNorm == 0.0 then Fatal(ZERO_FARFIELD_MESSAGE)
    else Ok(FixRegion(T, stage, HalfPlaneRegion(cfg), coords, inf, cfg.timeIntScheme == EULER_IMPLICIT, T.nPointDomain))
  }

  /** The domain points Impose_Fixed_Values fixes. */
  ghost function FixedValuePoints(T: TurbLayout, cfg: FixedValuesConfig, coords: seq<seq<real>>): set<nat>
    requires FixedValuesConfigOk(T, cfg, coords)
  {
    (if cfg.transModel == TS then RegionPoints(TransitionRegion(cfg), coords, T.nPointDomain) else {})
    + (if cfg.turbFixedValues && cfg.velocityNorm != 0.0
       then RegionPoints(HalfPlaneRegion(cfg), coords, T.nPointDomain) else {})
  }

  /**
   * When Impose_Fixed_Values completes, the points it fixed are exactly the domain points upstream
   * of the transition position (TS model) and those of the half-plane (fixed values on): they hold
   * the far-field state with a zero residual and, when implicit, identity Jacobian rows.
   */
  lemma FixedValuesEffect(T: TurbLayout, s: TurbState, cfg: FixedValuesConfig, coords: seq<seq<real>>, solInf: seq<real>)
    requires TurbSized(T, s) && FixedValuesConfigOk(T, cfg, coords) && |solInf| == T.nVar && T.nVar >= 2
    requires FixedValues(T, s, cfg, coords, solInf).Ok?
    ensures FixedExactly(T, s, FixedValues(T, s, cfg, coords, solInf).value, FixedValuePoints(T, cfg, coords),
                         FarFieldSolution(solInf, cfg), cfg.timeIntScheme == EULER_IMPLICIT)
  {
    var inf := FarFieldSolution(solInf, cfg);
    var implicit := cfg.timeIntScheme == EULER_IMPLICIT;
    var stage := TransitionStage(T, s, cfg, coords, inf);
    var F1: set<nat> := if cfg.transModel == TS then RegionPoints(TransitionRegion(cfg), coords, T.nPointDomain) else {};
    if cfg.transModel == TS {
      FixRegionEffect(T, s, TransitionRegion(cfg), coords, inf, implicit, T.nPointDomain);
    } else {
      FixedExactlyNone(T, s, inf, implicit);
    }
    assert FixedExactly(T, s, stage, F1, inf, implicit);
    if cfg.turbFixedValues {
      var F2 := RegionPoints(HalfPlaneRegion(cfg), coords, T.nPointDomain);
      FixRegionEffect(T, stage, HalfPlaneRegion(cfg), coords, inf, implicit, T.nPointDomain);
      FixedExactlyCompose(T, s, stage, FixedValues(T, s, cfg, coords, solInf).value, F1, F2, inf, implicit);
    } else {
      assert F1 + {} == F1;
    }
  }

  // ---------------------------------------------------------------------------------------------
  // BC_Fluid_Interface
  // ---------------------------------------------------------------------------------------------

  /** A donor of an interface vertex: its interpolation weight and the convective residual and Jacobian_i computed with it. */
  datatype DonorFlux = DonorFlux(weight: real, residual: seq<real>, jacobian: seq<seq<real>>)

  /** A vertex of an interface marker: its point, its donors, and the viscous residual and Jacobian_i at the point. */
  datatype InterfaceVertex = InterfaceVertex(node: nat, donors: seq<DonorFlux>, viscResidual: seq<real>,
                                             viscJacobian: seq<seq<real>>)

  /** A marker: its boundary-condition kind and its vertices. */
  datatype InterfaceMarker = InterfaceMarker(kindBC: nat, vertices: seq<InterfaceVertex>)

  ghost predicate DonorsOk(nVar: nat, donors: seq<DonorFlux>)
  {
    forall j :: 0 <= j < |donors| ==> |donors[j].residual| == nVar && IsSquareBlock(donors[j].jacobian, nVar)
  }

  ghost predicate InterfaceVertexOk(T: TurbLayout, v: InterfaceVertex)
  {
    v.node < T.nPoint && DonorsOk(T.nVar, v.donors)
    && |v.viscResidual| == T.nVar && IsSquareBlock(v.viscJacobian, T.nVar)
  }

  ghost predicate InterfaceMarkersOk(T: TurbLayout, isDomain: seq<bool>, markers: seq<InterfaceMarker>)
  {
    |isDomain| == T.nPoint
    && forall k, j :: 0 <= k < |markers| && 0 <= j < |markers[k].vertices| ==> InterfaceVertexOk(T, markers[k].vertices[j])
  }

  /** weight * v, entry by entry. */
  function ScaleVector(w: real, v: seq<real>): (r: seq<real>)
    ensures |r| == |v|
    ensures forall k :: 0 <= k < |v| ==> r[k] == w * v[k]
  {
    seq(|v|, k requires 0 <= k < |v| => w * v[k])
  }

  /** weight * b, entry by entry. */
  function ScaleBlock(w: real, b: seq<seq<real>>, n: nat): (r: seq<seq<real>>)
    requires IsSquareBlock(b, n)
    ensures IsSquareBlock(r, n)
    ensures forall a, c :: 0 <= a < n && 0 <= c < n ==> r[a][c] == w * b[a][c]
  {
    seq(n, a requires 0 <= a < n => ScaleVector(w, b[a]))
  }

  /** The donor loop at point p: each donor adds weight * residual to the residual block and weight * Jacobian_i to the diagonal block. */
  function AccumulateDonors(T: TurbLayout, s: TurbState, p: nat, donors: seq<DonorFlux>): (r: TurbState)
    requires TurbSized(T, s) && p < T.nPoint && DonorsOk(T.nVar, donors)
    ensures TurbSized(T, r)
    decreases |donors|
  {
    if donors == [] then s
    else
      AddDonor(T, AccumulateDonors(T, s, p, donors[..|donors| - 1]), p, donors[|donors| - 1])
  }

  /** One donor of the loop: weight * residual into the residual block of p, weight * Jacobian_i into its diagonal block. */
  function AddDonor(T: TurbLayout, s: TurbState, p: nat, d: DonorFlux): (r: TurbState)
    requires TurbSized(T, s) && p < T.nPoint && |d.residual| == T.nVar && IsSquareBlock(d.jacobian, T.nVar)
    ensures TurbSized(T, r)
  {
    BlockInRange(p, T.nPoint, T.nVar);
    s.(res := AddRange(s.res, p * T.nVar, ScaleVector(d.weight, d.residual)),
       jac := AddBlock2Diag(s.jac, p, T.nVar, ScaleBlock(d.weight, d.jacobian, T.nVar)))
  }

  /** One interface vertex: the donor loop, then the viscous residual and Jacobian_i are subtracted. */
  function InterfacePoint(T: TurbLayout, s: TurbState, v: InterfaceVertex): (r: TurbState)
    requires TurbSized(T, s) && InterfaceVertexOk(T, v)
    ensures TurbSized(T, r)
  {
    SubtractViscous(T, AccumulateDonors(T, s, v.node, v.donors), v)
  }

  /** The viscous residual and Jacobian_i of vertex v subtracted from the block of its point. */
  function SubtractViscous(T: TurbLayout, s: TurbState, v: InterfaceVertex): (r: TurbState)
    requires TurbSized(T, s) && InterfaceVertexOk(T, v)
    ensures TurbSized(T, r)
  {
    BlockInRange(v.node, T.nPoint, T.nVar);
    s.(res := SubtractRange(s.res, v.node * T.nVar, v.viscResidual),
       jac := SubtractBlock2Diag(s.jac, v.node, T.nVar, v.viscJacobian))
  }

  /** The vertex loop of one marker: halo vertices are skipped. */
  function InterfaceVertices(T: TurbLayout, s: TurbState, isDomain: seq<bool>, verts: seq<InterfaceVertex>): (r: TurbState)
    requires TurbSized(T, s) && |isDomain| == T.nPoint
    requires forall j :: 0 <= j < |verts| ==> InterfaceVertexOk(T, verts[j])
    ensures TurbSized(T, r)
    decreases |verts|
  {
    if verts == [] then s
    else
      var prev := InterfaceVertices(T, s, isDomain, verts[..|verts| - 1]);
      var v := verts[|verts| - 1];
      assert InterfaceVertexOk(T, v);
      if isDomain[v.node] then InterfacePoint(T, prev, v) else prev
  }

  /** BC_Fluid_Interface: the marker loop; markers of any other kind are skipped. */
  function FluidInterface(T: TurbLayout, s: TurbState, isDomain: seq<bool>, markers: seq<InterfaceMarker>): (r: TurbState)
    requires TurbSized(T, s) && InterfaceMarkersOk(T, isDomain, markers)
    ensures TurbSized(T, r)
    decreases |markers|
  {
    if markers == [] then s
    else
      var prefix := markers[..|markers| - 1];
      assert InterfaceMarkersOk(T, isDomain, prefix) by {
        assert forall k :: 0 <= k < |prefix| ==> prefix[k] == markers[k];
      }
      var prev := FluidInterface(T, s, isDomain, prefix);
      var m := markers[|markers| - 1];
      if m.kindBC == FLUID_INTERFACE then InterfaceVertices(T, prev, isDomain, m.vertices) else prev
  }

  /** Sum over the donors of weight * residual[i]. */
  function DonorResidualSum(donors: seq<DonorFlux>, i: nat): (sum: real)
    requires forall j :: 0 <= j < |donors| ==> i < |donors[j].residual|
    decreases |donors|
  {
    if donors == [] then 0.0
    else DonorResidualSum(donors[..|donors| - 1], i) + donors[|donors| - 1].weight * donors[|donors| - 1].residual[i]
  }

  /** Sum over the donors of weight * Jacobian_i[a][b]. */
  function DonorJacobianSum(donors: seq<DonorFlux>, nVar: nat, a: nat, b: nat): (sum: real)
    requires DonorsOk(nVar, donors) && a < nVar && b < nVar
    decreases |donors|
  {
    if donors == [] then 0.0
    else
      assert DonorsOk(nVar, donors[..|donors| - 1]) by {
        assert forall j :: 0 <= j < |donors| - 1 ==> donors[..|donors| - 1][j] == donors[j];
      }
      DonorJacobianSum(donors[..|donors| - 1], nVar, a, b)
      + donors[|donors| - 1].weight * donors[|donors| - 1].jacobian[a][b]
  }

  /** r differs from s only in the residual block and the diagonal Jacobian block of point p. */
  ghost predicate OnlyBlockOf(T: TurbLayout, s: TurbState, r: TurbState, p: nat)
    requires TurbSized(T, s) && TurbSized(T, r)
  {
    r.solution == s.solution && r.solutionOld == s.solutionOld
    && (forall k :: 0 <= k < |s.res| && !(p * T.nVar <= k < p * T.nVar + T.nVar) ==> r.res[k] == s.res[k])
    && (forall row: nat, c: nat :: !(p * T.nVar <= row < p * T.nVar + T.nVar && p * T.nVar <= c < p * T.nVar + T.nVar)
          ==> r.jac(row, c) == s.jac(row, c))
  }

  /** The donor loop changes only the residual block and the diagonal Jacobian block of p. */
  lemma {:induction false} AccumulateDonorsFrame(T: TurbLayout, s: TurbState, p: nat, donors: seq<DonorFlux>)
    requires TurbSized(T, s) && p < T.nPoint && DonorsOk(T.nVar, donors)
    ensures OnlyBlockOf(T, s, AccumulateDonors(T, s, p, donors), p)
    decreases |donors|
  {
    if donors != [] {
      var prefix := donors[..|donors| - 1];
      assert forall j :: 0 <= j < |prefix| ==> prefix[j] == donors[j];
      AccumulateDonorsFrame(T, s, p, prefix);
      BlockInRange(p, T.nPoint, T.nVar);
    }
  }

  /** The donor loop adds to the residual of each variable of p the weighted sum of the donor residuals. */
  lemma {:induction false} AccumulateDonorsResidual(T: TurbLayout, s: TurbState, p: nat, donors: seq<DonorFlux>, i: nat)
    requires TurbSized(T, s) && p < T.nPoint && DonorsOk(T.nVar, donors) && i < T.nVar
    ensures T.Index(p, i) < |s.res|
    ensures AccumulateDonors(T, s, p, donors).res[T.Index(p, i)] == s.res[T.Index(p, i)] + DonorResidualSum(donors, i)
    decreases |donors|
  {
    IndexInRange(p, i, T.nPoint, T.nVar);
    if donors != [] {
      var prefix := donors[..|donors| - 1];
      assert forall j :: 0 <= j < |prefix| ==> prefix[j] == donors[j];
      AccumulateDonorsResidual(T, s, p, prefix, i);
      var prevRes := AccumulateDonors(T, s, p, prefix).res;
      var delta := ScaleVector(donors[|donors| - 1].weight, donors[|donors| - 1].residual);
      BlockInRange(p, T.nPoint, T.nVar);
      assert AccumulateDonors(T, s, p, donors).res == AddRange(prevRes, p * T.nVar, delta);
      AddRangeAt(T, prevRes, p, delta, i);
      assert delta[i] == donors[|donors| - 1].weight * donors[|donors| - 1].residual[i];
    }
  }

  /** The donor loop adds to each diagonal Jacobian entry of p the weighted sum of the donor Jacobians. */
  lemma {:induction false} AccumulateDonorsJacobian(T: TurbLayout, s: TurbState, p: nat, donors: seq<DonorFlux>,
                                                    a: nat, b: nat)
    requires TurbSized(T, s) && p < T.nPoint && DonorsOk(T.nVar, donors) && a < T.nVar && b < T.nVar
    ensures AccumulateDonors(T, s, p, donors).jac(T.Index(p, a), T.Index(p, b))
            == s.jac(T.Index(p, a), T.Index(p, b)) + DonorJacobianSum(donors, T.nVar, a, b)
    decreases |donors|
  {
    if donors != [] {
      AccumulateDonorsJacobianStep(T, s, p, donors, a, b);
      AccumulateDonorsJacobian(T, s, p, donors[..|donors| - 1], a, b);
    }
  }

  /** AddRange and SubtractRange over the block of p, at variable i. */
  lemma AddRangeAt(T: TurbLayout, res: seq<real>, p: nat, delta: seq<real>, i: nat)
    requires |delta| == T.nVar && p * T.nVar + T.nVar <= |res| && i < T.nVar
    ensures AddRange(res, p * T.nVar, delta)[T.Index(p, i)] == res[T.Index(p, i)] + delta[i]
  {
  }

  lemma SubtractRangeAt(T: TurbLayout, res: seq<real>, p: nat, delta: seq<real>, i: nat)
    requires |delta| == T.nVar && p * T.nVar + T.nVar <= |res| && i < T.nVar
    ensures SubtractRange(res, p * T.nVar, delta)[T.Index(p, i)] == res[T.Index(p, i)] - delta[i]
  {
  }

  /** AddBlock2Diag and SubtractBlock2Diag at the entry (variable a, variable b) of the diagonal block of p. */
  lemma AddBlockAt(T: TurbLayout, m: Matrix, p: nat, blk: seq<seq<real>>, a: nat, b: nat)
    requires IsSquareBlock(blk, T.nVar) && a < T.nVar && b < T.nVar
    ensures AddBlock2Diag(m, p, T.nVar, blk)(T.Index(p, a), T.Index(p, b)) == m(T.Index(p, a), T.Index(p, b)) + blk[a][b]
  {
  }

  lemma SubtractBlockAt(T: TurbLayout, m: Matrix, p: nat, blk: seq<seq<real>>, a: nat, b: nat)
    requires IsSquareBlock(blk, T.nVar) && a < T.nVar && b < T.nVar
    ensures SubtractBlock2Diag(m, p, T.nVar, blk)(T.Index(p, a), T.Index(p, b)) == m(T.Index(p, a), T.Index(p, b)) - blk[a][b]
  {
  }

  /** One donor adds its weighted Jacobian entry to the diagonal block. */
  lemma AccumulateDonorsJacobianStep(T: TurbLayout, s: TurbState, p: nat, donors: seq<DonorFlux>, a: nat, b: nat)
    requires TurbSized(T, s) && p < T.nPoint && DonorsOk(T.nVar, donors) && donors != [] && a < T.nVar && b < T.nVar
    ensures DonorsOk(T.nVar, donors[..|donors| - 1])
    ensures AccumulateDonors(T, s, p, donors).jac(T.Index(p, a), T.Index(p, b))
            == AccumulateDonors(T, s, p, donors[..|donors| - 1]).jac(T.Index(p, a), T.Index(p, b))
               + donors[|donors| - 1].weight * donors[|donors| - 1].jacobian[a][b]
  {
    var prefix := donors[..|donors| - 1];
    assert forall j :: 0 <= j < |prefix| ==> prefix[j] == donors[j];
    var blk := ScaleBlock(donors[|donors| - 1].weight, donors[|donors| - 1].jacobian, T.nVar);
    var prevJac := AccumulateDonors(T, s, p, prefix).jac;
    assert AccumulateDonors(T, s, p, donors).jac == AddBlock2Diag(prevJac, p, T.nVar, blk);
    AddBlockAt(T, prevJac, p, blk, a, b);
    assert blk[a][b] == donors[|donors| - 1].weight * donors[|donors| - 1].jacobian[a][b];
  }

  /** An interface vertex changes only the residual block and the diagonal Jacobian block of its point. */
  lemma InterfacePointFrame(T: TurbLayout, s: TurbState, v: InterfaceVertex)
    requires TurbSized(T, s) && InterfaceVertexOk(T, v)
    ensures OnlyBlockOf(T, s, InterfacePoint(T, s, v), v.node)
  {
    AccumulateDonorsFrame(T, s, v.node, v.donors);
    BlockInRange(v.node, T.nPoint, T.nVar);
  }

  /**
   * At an interface vertex the residual of each variable of its point changes by the weighted
   * donor residuals minus the viscous residual.
   */
  lemma InterfacePointResidual(T: TurbLayout, s: TurbState, v: InterfaceVertex, i: nat)
    requires TurbSized(T, s) && InterfaceVertexOk(T, v) && i < T.nVar
    ensures T.Index(v.node, i) < |s.res|
    ensures InterfacePoint(T, s, v).res[T.Index(v.node, i)]
            == s.res[T.Index(v.node, i)] + DonorResidualSum(v.donors, i) - v.viscResidual[i]
  {
    AccumulateDonorsResidual(T, s, v.node, v.donors, i);
    var acc := AccumulateDonors(T, s, v.node, v.donors);
    BlockInRange(v.node, T.nPoint, T.nVar);
    assert InterfacePoint(T, s, v).res == SubtractRange(acc.res, v.node * T.nVar, v.viscResidual);
    SubtractRangeAt(T, acc.res, v.node, v.viscResidual, i);
  }

  /**
   * ... and each entry of its diagonal Jacobian block by the weighted donor Jacobians minus
   * the viscous Jacobian.
   */
  lemma InterfacePointJacobian(T: TurbLayout, s: TurbState, v: InterfaceVertex, a: nat, b: nat)
    requires TurbSized(T, s) && InterfaceVertexOk(T, v) && a < T.nVar && b < T.nVar
    ensures InterfacePoint(T, s, v).jac(T.Index(v.node, a), T.Index(v.node, b))
            == s.jac(T.Index(v.node, a), T.Index(v.node, b)) + DonorJacobianSum(v.donors, T.nVar, a, b)
               - v.viscJacobian[a][b]
  {
    AccumulateDonorsJacobian(T, s, v.node, v.donors, a, b);
    var acc := AccumulateDonors(T, s, v.node, v.donors);
    assert InterfacePoint(T, s, v).jac == SubtractBlock2Diag(acc.jac, v.node, T.nVar, v.viscJacobian);
    SubtractBlockAt(T, acc.jac, v.node, v.viscJacobian, a, b);
  }

  /** Point q is the point of no domain vertex of an interface marker. */
  ghost predicate OffInterface(isDomain: seq<bool>, markers: seq<InterfaceMarker>, q: nat)
  {
    forall k, j :: 0 <= k < |markers| && markers[k].kindBC == FLUID_INTERFACE && 0 <= j < |markers[k].vertices|
                   && markers[k].vertices[j].node < |isDomain| && isDomain[markers[k].vertices[j].node]
                   ==> markers[k].vertices[j].node != q
  }

  /** The states agree on the solution, on the residual entries of q and on every Jacobian row of q. */
  ghost predicate PointUnchanged(T: TurbLayout, s: TurbState, r: TurbState, q: nat)
    requires TurbSized(T, s) && TurbSized(T, r) && q < T.nPoint
  {
    r.solution == s.solution && r.solutionOld == s.solutionOld
    && (forall i :: 0 <= i < T.nVar ==> T.Index(q, i) < |s.res| && r.res[T.Index(q, i)] == s.res[T.Index(q, i)])
    && (forall i, c: nat :: 0 <= i < T.nVar ==> r.jac(T.Index(q, i), c) == s.jac(T.Index(q, i), c))
  }

  lemma PointUnchangedRefl(T: TurbLayout, s: TurbState, q: nat)
    requires TurbSized(T, s) && q < T.nPoint
    ensures PointUnchanged(T, s, s, q)
  {
    forall i | 0 <= i < T.nVar
      ensures T.Index(q, i) < |s.res|
    {
      IndexInRange(q, i, T.nPoint, T.nVar);
    }
  }

  lemma PointUnchangedTrans(T: TurbLayout, s: TurbState, m: TurbState, r: TurbState, q: nat)
    requires TurbSized(T, s) && TurbSized(T, m) && TurbSized(T, r) && q < T.nPoint
    requires PointUnchanged(T, s, m, q) && PointUnchanged(T, m, r, q)
    ensures PointUnchanged(T, s, r, q)
  {
  }

  /** An interface vertex at point p leaves every other point q untouched. */
  lemma InterfacePointKeepsOthers(T: TurbLayout, s: TurbState, v: InterfaceVertex, q: nat)
    requires TurbSized(T, s) && InterfaceVertexOk(T, v) && q < T.nPoint && q != v.node
    ensures PointUnchanged(T, s, InterfacePoint(T, s, v), q)
  {
    InterfacePointFrame(T, s, v);
    BlocksDisjoint(q, v.node, T.nVar);
    forall i | 0 <= i < T.nVar
      ensures T.Index(q, i) < T.nPoint * T.nVar
    {
      IndexInRange(q, i, T.nPoint, T.nVar);
    }
  }

  /** The vertex loop of a marker leaves a point that is none of its domain vertices untouched. */
  lemma {:induction false} InterfaceVerticesKeepOthers(T: TurbLayout, s: TurbState, isDomain: seq<bool>,
                                                       verts: seq<InterfaceVertex>, q: nat)
    requires TurbSized(T, s) && |isDomain| == T.nPoint && q < T.nPoint
    requires forall j :: 0 <= j < |verts| ==> InterfaceVertexOk(T, verts[j])
    requires forall j :: 0 <= j < |verts| && verts[j].node < |isDomain| && isDomain[verts[j].node] ==> verts[j].node != q
    ensures PointUnchanged(T, s, InterfaceVertices(T, s, isDomain, verts), q)
    decreases |verts|
  {
    if verts == [] {
      PointUnchangedRefl(T, s, q);
    } else {
      var prefix := verts[..|verts| - 1];
      assert forall j :: 0 <= j < |prefix| ==> prefix[j] == verts[j];
      InterfaceVerticesKeepOthers(T, s, isDomain, prefix, q);
      var prev := InterfaceVertices(T, s, isDomain, prefix);
      var v := verts[|verts| - 1];
      assert InterfaceVertexOk(T, v);
      if isDomain[v.node] {
        InterfacePointKeepsOthers(T, prev, v, q);
        PointUnchangedTrans(T, s, prev, InterfacePoint(T, prev, v), q);
      }
    }
  }

  /**
   * BC_Fluid_Interface never changes the solution, and a point that is not a domain vertex of
   * an interface marker keeps its residual entries and its Jacobian rows.
   */
  lemma {:induction false} FluidInterfaceKeepsOthers(T: TurbLayout, s: TurbState, isDomain: seq<bool>,
                                                     markers: seq<InterfaceMarker>, q: nat)
    requires TurbSized(T, s) && InterfaceMarkersOk(T, isDomain, markers) && q < T.nPoint
    requires OffInterface(isDomain, markers, q)
    ensures PointUnchanged(T, s, FluidInterface(T, s, isDomain, markers), q)
    decreases |markers|
  {
    if markers == [] {
      PointUnchangedRefl(T, s, q);
    } else {
      var prefix := markers[..|markers| - 1];
      assert forall k :: 0 <= k < |prefix| ==> prefix[k] == markers[k];
      assert InterfaceMarkersOk(T, isDomain, prefix);
      assert OffInterface(isDomain, prefix, q);
      FluidInterfaceKeepsOthers(T, s, isDomain, prefix, q);
      var prev := FluidInterface(T, s, isDomain, prefix);
      var m := markers[|markers| - 1];
      if m.kindBC == FLUID_INTERFACE {
        assert forall j :: 0 <= j < |m.vertices| && m.vertices[j].node < |isDomain| && isDomain[m.vertices[j].node]
                           ==> m.vertices[j].node != q by {
          assert markers[|markers| - 1] == m;
        }
        InterfaceVerticesKeepOthers(T, prev, isDomain, m.vertices, q);
        PointUnchangedTrans(T, s, prev, InterfaceVertices(T, prev, isDomain, m.vertices), q);
      }
    }
  }

  /**
   * Solution_Coarse of one coarse point: starting from 0, each child adds its fine solution
   * times its volume over the coarse volume, variable by variable.
   */
  method RestrictPoint(children: seq<nat>, fine: seq<seq<real>>, fineVolume: seq<real>, parentVolume: real, nVar: nat)
    returns (coarse: seq<real>)
    requires IsSolutionMatrix(fine, |fineVolume|, nVar) && parentVolume != 0.0
    requires forall c :: 0 <= c < |children| ==> children[c] < |fineVolume|
    ensures |coarse| == nVar
    ensures forall i :: 0 <= i < nVar ==>
              ChildrenOk(children, fine, fineVolume, i)
              && coarse[i] == RestrictedValue(children, fine, fineVolume, parentVolume, i)
  {
    ChildrenOkOfMatrix(children, fine, fineVolume, nVar);
    coarse := Zeros(nVar);
    var ic := 0;
    while ic < |children|
      invariant 0 <= ic <= |children| && |coarse| == nVar
      invariant forall i :: 0 <= i < nVar ==> coarse[i] == RestrictedValue(children[..ic], fine, fineVolume, parentVolume, i)
    {
      var i := 0;
      while i < nVar
        invariant 0 <= i <= nVar && |coarse| == nVar
        invariant forall k :: i <= k < nVar ==>
                    coarse[k] == RestrictedValue(children[..ic], fine, fineVolume, parentVolume, k)
        invariant forall k :: 0 <= k < i ==>
                    coarse[k] == RestrictedValue(children[..ic + 1], fine, fineVolume, parentVolume, k)
      {
        RestrictedValueStep(children, fine, fineVolume, parentVolume, i, ic);
        coarse := coarse[i := coarse[i] + ChildContribution(fine, fineVolume, parentVolume, children[ic], i)];
        i := i + 1;
      }
      ic := ic + 1;
    }
    assert children[..ic] == children;
  }

  // ---------------------------------------------------------------------------------------------
  // The solver object
  // ---------------------------------------------------------------------------------------------

  class CTurbSolver {
    const T: TurbLayout
    const linSysRes: array<real>
    var jacobian: Matrix
    var solution: seq<seq<real>>
    var solutionOld: seq<seq<real>>
    var solutionInf: seq<real>

    ghost predicate Valid()
      reads this, linSysRes
    {
      T.Valid() && linSysRes.Length == T.nPoint * T.nVar
      && IsSolutionMatrix(solution, T.nPoint, T.nVar) && IsSolutionMatrix(solutionOld, T.nPoint, T.nVar)
      && |solutionInf| == T.nVar
    }

    ghost function State(): (s: TurbState)
      reads this, linSysRes
      requires Valid()
      ensures TurbSized(T, s)
    {
      TurbState(solution, solutionOld, linSysRes[..], jacobian)
    }

    constructor (layout: TurbLayout, initial: seq<seq<real>>, solInf: seq<real>)
      requires layout.Valid() && IsSolutionMatrix(initial, layout.nPoint, layout.nVar) && |solInf| == layout.nVar
      ensures Valid() && T == layout && solution == initial && solutionOld == initial && solutionInf == solInf
      ensures fresh(linSysRes) && linSysRes[..] == Zeros(layout.nPoint * layout.nVar)
    {
      T := layout;
      linSysRes := new real[layout.nPoint * layout.nVar](_ => 0.0);
      jacobian := (r: nat, c: nat) => 0.0;
      solution := initial;
      solutionOld := initial;
      solutionInf := solInf;
    }

    /** SetSolution_Old, SetSolution, SetBlock_Zero and, when implicit, DeleteValsRowi on the rows of p. */
    method FixPointInPlace(p: nat, implicit: bool)
      requires Valid() && p < T.nPoint
      modifies this`solution, this`solutionOld, this`jacobian, linSysRes
      ensures Valid()
      ensures State() == FixPoint(T, old(State()), p, solutionInf, implicit)
    {
      BlockInRange(p, T.nPoint, T.nVar);
      solutionOld := solutionOld[p := solutionInf];
      solution := solution[p := solutionInf];
      SetZero(linSysRes, p * T.nVar, p * T.nVar + T.nVar);
      if implicit {
        jacobian := DeleteRowsInPlace(jacobian, p * T.nVar, p * T.nVar + T.nVar);
      }
    }

    /** One of the two point loops of Impose_Fixed_Values over the domain points. */
    method FixRegionInPlace(region: FixedRegion, coords: seq<seq<real>>, implicit: bool)
      requires Valid() && T.nPointDomain <= |coords|
      modifies this`solution, this`solutionOld, this`jacobian, linSysRes
      ensures Valid()
      ensures State() == FixRegion(T, old(State()), region, coords, solutionInf, implicit, T.nPointDomain)
    {
      ghost var s0 := State();
      var p := 0;
      while p < T.nPointDomain
        invariant 0 <= p <= T.nPointDomain
        invariant Valid()
        invariant State() == FixRegion(T, s0, region, coords, solutionInf, implicit, p)
      {
        if InRegion(region, coords[p]) {
          FixPointInPlace(p, implicit);
        }
        p := p + 1;
      }
    }

    /**
     * CTurbSolver::Impose_Fixed_Values. coords[p] is the coordinate vector of point p; the
     * far-field velocity norm is given with the configuration.
     */
    method ImposeFixedValues(cfg: FixedValuesConfig, coords: seq<seq<real>>) returns (status: Status)
      requires Valid() && T.nVar >= 2 && FixedValuesConfigOk(T, cfg, coords)
      modifies this`solution, this`solutionOld, this`jacobian, this`solutionInf, linSysRes
      ensures Valid()
      ensures solutionInf == FarFieldSolution(old(solutionInf), cfg)
      ensures status.Aborted? <==> FixedValues(T, old(State()), cfg, coords, old(solutionInf)).Fatal?
      ensures status.Aborted? ==>
                status.message == FixedValues(T, old(State()), cfg, coords, old(solutionInf)).message
                && State() == TransitionStage(T, old(State()), cfg, coords, solutionInf)
      ensures status.Completed? ==> State() == FixedValues(T, old(State()), cfg, coords, old(solutionInf)).value
    {
      var f := FreestreamTurbulence(cfg.rhoInf, cfg.velocityInf, cfg.muLamInf, cfg.intensity, cfg.viscRatio);
      solutionInf := solutionInf[0 := f.kInf][1 := f.omegaInf];
      if cfg.transModel == TS {
        FixRegionInPlace(UpstreamOfTransition(cfg.transPosX), coords, cfg.timeIntScheme == EULER_IMPLICIT);
      }
      if cfg.turbFixedValues {
        if cfg.velocityNorm == 0.0 {
          return Aborted(ZERO_FARFIELD_MESSAGE);
        }
        var unit := UnitVector(cfg.velocityInf, cfg.velocityNorm);
        FixRegionInPlace(HalfPlane(unit, cfg.maxScalarProd), coords, cfg.timeIntScheme == EULER_IMPLICIT);
      }
      status := Completed;
    }

    /** nodes->SetSolution(l, iVar, vals[iVar]) for every variable of point l. */
    method SetSolutionRow(l: nat, vals: seq<real>)
      requires Valid() && l < T.nPoint && |vals| == T.nVar
      modifies this`solution
      ensures Valid()
      ensures solution == old(solution)[l := vals]
    {
      var iVar := 0;
      while iVar < T.nVar
        invariant 0 <= iVar <= T.nVar
        invariant |solution| == T.nPoint && |solution[l]| == T.nVar
        invariant forall q :: 0 <= q < T.nPoint && q != l ==> solution[q] == old(solution)[q]
        invariant forall k :: 0 <= k < iVar ==> solution[l][k] == vals[k]
      {
        solution := solution[l := solution[l][iVar := vals[iVar]]];
        iVar := iVar + 1;
      }
      assert solution[l] == vals;
      assert solution == old(solution)[l := vals];
    }

    /**
     * One global point of the loading loop: a point this process owns (local > -1) takes the
     * nVar values of the counter-th row read so far, and the counter moves on.
     */
    method LoadPoint(local: int, counter: nat, rowWidth: nat, skipVars: nat, data: seq<real>) returns (next: nat)
      requires Valid() && local < T.nPoint
      requires local > -1 ==> RestartOffset(counter, rowWidth, skipVars) + T.nVar <= |data|
      modifies this`solution
      ensures Valid()
      ensures next == counter + (if local > -1 then 1 else 0)
      ensures solution == LoadRow(old(solution), local, counter, T.nVar, rowWidth, skipVars, data)
    {
      next := counter;
      if local > -1 {
        var index := RestartOffset(counter, rowWidth, skipVars);
        SetSolutionRow(local, data[index..index + T.nVar]);
        next := counter + 1;
      }
    }

    /**
     * The loading loop of CTurbSolver::LoadRestart: globalToLocal[g] is the local index of
     * global domain point g (-1 when another process owns it), rowWidth is Restart_Vars[1] and
     * data the restart values row after row.
     */
    method LoadRestart(globalToLocal: seq<int>, rowWidth: nat, nVarFlow: nat, incompressible: bool, energy: bool,
                       weaklyCoupledHeat: bool, data: seq<real>, fileName: string) returns (status: Status)
      requires Valid()
      requires RestartInputsOk(globalToLocal, T.nPoint, T.nVar, rowWidth,
                               RestartSkipVars(T.nDim, nVarFlow, incompressible, energy, weaklyCoupledHeat), data)
      modifies this`solution
      ensures Valid()
      ensures solution == LoadedSolution(old(solution), globalToLocal, T.nVar, rowWidth,
                                         RestartSkipVars(T.nDim, nVarFlow, incompressible, energy, weaklyCoupledHeat), data)
      ensures status.Aborted? <==> MappedCount(globalToLocal) != T.nPointDomain
      ensures status.Aborted? ==> status.message == RestartMismatchMessage(fileName)
    {
      var skipVars: nat := T.nDim + nVarFlow;
      if incompressible && (!energy && !weaklyCoupledHeat) {
        skipVars := skipVars - 1;
      }
      ghost var sol0 := solution;
      var counter: nat := 0;
      var g := 0;
      while g < |globalToLocal|
        invariant 0 <= g <= |globalToLocal|
        invariant Valid()
        invariant RestartInputsOk(globalToLocal[..g], T.nPoint, T.nVar, rowWidth, skipVars, data)
        invariant counter == MappedCount(globalToLocal[..g])
        invariant solution == LoadedSolution(sol0, globalToLocal[..g], T.nVar, rowWidth, skipVars, data)
      {
        LoadedSolutionStep(sol0, globalToLocal, T.nVar, rowWidth, skipVars, data, g);
        counter := LoadPoint(globalToLocal[g], counter, rowWidth, skipVars, data);
        g := g + 1;
      }
      assert globalToLocal[..g] == globalToLocal;
      assert skipVars == RestartSkipVars(T.nDim, nVarFlow, incompressible, energy, weaklyCoupledHeat);
      assert sol0 == old(solution);
      if counter != T.nPointDomain {
        return Aborted(RestartMismatchMessage(fileName));
      }
      status := Completed;
    }

    /**
     * The restriction loop of LoadRestart for one coarse level, on that level's solver: each
     * coarse point accumulates, over its children, the fine solution times the child volume
     * over its own volume.
     */
    method RestrictSolution(children: seq<seq<nat>>, fine: seq<seq<real>>, fineVolume: seq<real>, volume: seq<real>)
      requires Valid() && |children| == T.nPoint && |volume| == T.nPoint
      requires IsSolutionMatrix(fine, |fineVolume|, T.nVar)
      requires forall p, c :: 0 <= p < T.nPoint && 0 <= c < |children[p]| ==> children[p][c] < |fineVolume|
      requires forall p :: 0 <= p < T.nPoint ==> volume[p] != 0.0
      modifies this`solution
      ensures Valid()
      ensures forall p, i :: 0 <= p < T.nPoint && 0 <= i < T.nVar ==>
                ChildrenOk(children[p], fine, fineVolume, i)
                && solution[p][i] == RestrictedValue(children[p], fine, fineVolume, volume[p], i)
    {
      var p := 0;
      while p < T.nPoint
        invariant 0 <= p <= T.nPoint
        invariant Valid()
        invariant forall q, i :: 0 <= q < p && 0 <= i < T.nVar ==>
                    ChildrenOk(children[q], fine, fineVolume, i)
                    && solution[q][i] == RestrictedValue(children[q], fine, fineVolume, volume[q], i)
      {
        var coarse := RestrictPoint(children[p], fine, fineVolume, volume[p], T.nVar);
        solution := solution[p := coarse];
        p := p + 1;
      }
    }

    /** The donor loop and the viscous update of BC_Fluid_Interface at one domain vertex. */
    /** The body of the donor loop on the solver's arrays. */
    method AddDonorInPlace(p: nat, d: DonorFlux)
      requires Valid() && p < T.nPoint && |d.residual| == T.nVar && IsSquareBlock(d.jacobian, T.nVar)
      modifies this`jacobian, linSysRes
      ensures Valid()
      ensures State() == AddDonor(T, old(State()), p, d)
    {
      BlockInRange(p, T.nPoint, T.nVar);
      AddValues(linSysRes, p * T.nVar, ScaleVector(d.weight, d.residual));
      jacobian := AddBlock2Diag(jacobian, p, T.nVar, ScaleBlock(d.weight, d.jacobian, T.nVar));
    }

    /** The donor loop of BC_Fluid_Interface at point p. */
    method AccumulateDonorsInPlace(p: nat, donors: seq<DonorFlux>)
      requires Valid() && p < T.nPoint && DonorsOk(T.nVar, donors)
      modifies this`jacobian, linSysRes
      ensures Valid()
      ensures State() == AccumulateDonors(T, old(State()), p, donors)
    {
      ghost var s0 := State();
      var j := 0;
      while j < |donors|
        invariant 0 <= j <= |donors|
        invariant Valid()
        invariant DonorsOk(T.nVar, donors[..j])
        invariant State() == AccumulateDonors(T, s0, p, donors[..j])
      {
        assert donors[..j + 1][..j] == donors[..j];
        AddDonorInPlace(p, donors[j]);
        j := j + 1;
      }
      assert donors[..j] == donors;
    }

    /** The viscous update of BC_Fluid_Interface on the solver's arrays. */
    method SubtractViscousInPlace(v: InterfaceVertex)
      requires Valid() && InterfaceVertexOk(T, v)
      modifies this`jacobian, linSysRes
      ensures Valid()
      ensures State() == SubtractViscous(T, old(State()), v)
    {
      BlockInRange(v.node, T.nPoint, T.nVar);
      SubtractValues(linSysRes, v.node * T.nVar, v.viscResidual);
      jacobian := SubtractBlock2Diag(jacobian, v.node, T.nVar, v.viscJacobian);
    }

    /** The donor loop and the viscous update of BC_Fluid_Interface at one domain vertex. */
    method InterfaceVertexInPlace(v: InterfaceVertex)
      requires Valid() && InterfaceVertexOk(T, v)
      modifies this`jacobian, linSysRes
      ensures Valid()
      ensures State() == InterfacePoint(T, old(State()), v)
    {
      AccumulateDonorsInPlace(v.node, v.donors);
      SubtractViscousInPlace(v);
    }

    /** CTurbSolver::BC_Fluid_Interface over all markers; isDomain[p] is GetDomain(p). */
    method BCFluidInterface(isDomain: seq<bool>, markers: seq<InterfaceMarker>)
      requires Valid() && InterfaceMarkersOk(T, isDomain, markers)
      modifies this`jacobian, linSysRes
      ensures Valid()
      ensures State() == FluidInterface(T, old(State()), isDomain, markers)
    {
      ghost var s0 := State();
      var k := 0;
      while k < |markers|
        invariant 0 <= k <= |markers|
        invariant Valid()
        invariant InterfaceMarkersOk(T, isDomain, markers[..k])
        invariant State() == FluidInterface(T, s0, isDomain, markers[..k])
      {
        assert markers[..k + 1][..k] == markers[..k];
        var m := markers[k];
        if m.kindBC == FLUID_INTERFACE {
          ghost var sm := State();
          var j := 0;
          while j < |m.vertices|
            invariant 0 <= j <= |m.vertices|
            invariant Valid()
            invariant State() == InterfaceVertices(T, sm, isDomain, m.vertices[..j])
          {
            assert m.vertices[..j + 1][..j] == m.vertices[..j];
            var v := m.vertices[j];
            assert InterfaceVertexOk(T, v);
            if isDomain[v.node] {
              InterfaceVertexInPlace(v);
            }
            j := j + 1;
          }
          assert m.vertices[..j] == m.vertices;
        }
        k := k + 1;
      }
      assert markers[..k] == markers;
    }
  }
}
