/**
 * The compressible Navier-Stokes solver object (CNSSolver) as far as its wall
 * boundary conditions, its wall function and its primitive-variable update
 * change it: LinSysRes, Solution_Old and the truncation-error residual are
 * arrays of nPoint * nVar entries, the Jacobian a matrix field, and the node
 * data, Tau_Wall, the DES length scale and the per-vertex wall-function values
 * are fields the methods reassign.
 */
module CNSSolverModel {
  import opened LinearSystem
  import opened WallBC
  import opened Outcome
  import opened ConjugateHeat
  import opened CNSWall
  import opened WallFunction
  import opened PointCount

  // TURB_MODEL::NONE, NO_HYBRIDRANSLES and WALL_FUNCTIONS::STANDARD_FUNCTION
  const TURB_MODEL_NONE: nat := 0
  const NO_HYBRIDRANSLES: nat := 0
  const STANDARD_FUNCTION: nat := 1

  /** A vertex of a wall-function marker: its point, its normal neighbour, |WallDist|, the starting friction velocity and its wall laws. */
  datatype WallFunctionVertexData = WallFunctionVertexData(
    node: nat, normalNeighbor: nat, wallDist: real, shearVelocity: real, law: WallLaw)

  /** A marker as SetTau_Wall_WF sees it: whether it is a viscous wall, its wall-function treatment, its BC kind and vertices. */
  datatype WallFunctionMarker = WallFunctionMarker(
    viscousWall: bool, wallFunction: nat, kind: nat, verts: seq<WallFunctionVertexData>)

  /** What SetTau_Wall_WF reads and writes, and its two counters. */
  datatype WallFunctionState = WallFunctionState(
    nodes: CNSNodes,
    tauWall: seq<real>,
    yPlus: map<(nat, nat), real>,
    eddyViscWall: map<(nat, nat), real>,
    uTau: map<(nat, nat), real>,
    notConverged: nat,
    smallYPlus: nat)

  /** The options of SetTau_Wall_WF shared by every marker: R, the minimum y+ and the iteration cap. */
  datatype WallModelOptions = WallModelOptions(gasConstant: real, minYPlus: real, maxIter: nat)

  function MarkerConfig(opt: WallModelOptions, m: WallFunctionMarker): WallFunctionConfig
  {
    WallFunctionConfig(opt.gasConstant, opt.minYPlus, opt.maxIter, m.kind == ISOTHERMAL)
  }

  predicate UsesWallFunction(m: WallFunctionMarker)
  {
    m.viscousWall && m.wallFunction == STANDARD_FUNCTION
  }

  /** The marker data the wall function needs: non-zero R and wall distances, and vertices inside the mesh. */
  ghost predicate MarkersReady(L: Layout, opt: WallModelOptions, isDomain: seq<bool>, markers: seq<WallFunctionMarker>)
  {
    |isDomain| == L.nPoint && opt.gasConstant != 0.0
    && forall i, j :: 0 <= i < |markers| && 0 <= j < |markers[i].verts| ==>
         markers[i].verts[j].node < L.nPoint && markers[i].verts[j].normalNeighbor < L.nPoint
         && markers[i].verts[j].wallDist != 0.0
  }

  /** The node data the wall function needs: non-zero temperatures, pressures and viscosities. */
  ghost predicate StateReady(L: Layout, st: WallFunctionState)
  {
    NodesSized(L, st.nodes) && |st.tauWall| == L.nPoint
    && forall p :: 0 <= p < L.nPoint ==>
         st.nodes.temperature[p] != 0.0 && st.nodes.pressure[p] != 0.0 && st.nodes.laminarViscosity[p] != 0.0
  }

  ghost predicate WallFunctionReady(L: Layout, opt: WallModelOptions, isDomain: seq<bool>, markers: seq<WallFunctionMarker>,
                                    st: WallFunctionState)
  {
    MarkersReady(L, opt, isDomain, markers) && StateReady(L, st)
  }

  /** The values of one vertex read from the current node data. */
  function VertexInput(L: Layout, nodes: CNSNodes, v: WallFunctionVertexData): WallFunctionInput
    requires NodesSized(L, nodes) && v.node < L.nPoint && v.normalNeighbor < L.nPoint
  {
    WallFunctionInput(nodes.pressure[v.normalNeighbor], nodes.temperature[v.normalNeighbor],
                      nodes.temperature[v.node], nodes.laminarViscosity[v.node], v.wallDist,
                      v.shearVelocity, v.law)
  }

  /** One vertex of SetTau_Wall_WF. */
  ghost function WallFunctionStep(L: Layout, opt: WallModelOptions, isDomain: seq<bool>, markers: seq<WallFunctionMarker>,
                                  iMarker: nat, iVertex: nat, st: WallFunctionState): (t: WallFunctionState)
    requires WallFunctionReady(L, opt, isDomain, markers, st)
    requires iMarker < |markers| && iVertex < |markers[iMarker].verts|
    ensures StateReady(L, t)
  {
    var m := markers[iMarker];
    var v := m.verts[iVertex];
    if !isDomain[v.node] then st
    else
      var input := VertexInput(L, st.nodes, v);
      var cfg := MarkerConfig(opt, m);
      WallFunctionOutcome(cfg, input);
      match WallFunctionSpec(cfg, input)
      case SmallYPlus => st.(smallYPlus := st.smallYPlus + 1)
      case Solved(yPlus, eddy, uTau, tWall, tau, converged, _) =>
        var key := (iMarker, iVertex);
        st.(nodes := st.nodes.(temperature := st.nodes.temperature[v.node := tWall]),
            tauWall := st.tauWall[v.node := tau],
            yPlus := st.yPlus[key := yPlus],
            eddyViscWall := st.eddyViscWall[key := eddy],
            uTau := st.uTau[key := uTau],
            notConverged := st.notConverged + (if converged then 0 else 1))
  }

  /** The first n vertices of marker iMarker. */
  ghost function WallFunctionMarkerFold(L: Layout, opt: WallModelOptions, isDomain: seq<bool>, markers: seq<WallFunctionMarker>,
                                        iMarker: nat, st: WallFunctionState, n: nat): (t: WallFunctionState)
    requires WallFunctionReady(L, opt, isDomain, markers, st)
    requires iMarker < |markers| && n <= |markers[iMarker].verts|
    ensures StateReady(L, t)
    decreases n
  {
    if n == 0 then st
    else WallFunctionStep(L, opt, isDomain, markers, iMarker, n - 1,
                          WallFunctionMarkerFold(L, opt, isDomain, markers, iMarker, st, n - 1))
  }

  /** The first n markers; markers that are not viscous walls with the standard wall function are skipped. */
  ghost function WallFunctionFold(L: Layout, opt: WallModelOptions, isDomain: seq<bool>, markers: seq<WallFunctionMarker>,
                                  st: WallFunctionState, n: nat): (t: WallFunctionState)
    requires WallFunctionReady(L, opt, isDomain, markers, st) && n <= |markers|
    ensures StateReady(L, t)
    decreases n
  {
    if n == 0 then st
    else
      var before := WallFunctionFold(L, opt, isDomain, markers, st, n - 1);
      if UsesWallFunction(markers[n - 1])
      then WallFunctionMarkerFold(L, opt, isDomain, markers, n - 1, before, |markers[n - 1].verts|)
      else before
  }

  /** The vertices of the markers, among the first n, that use the standard wall function. */
  function WallFunctionVertexCount(markers: seq<WallFunctionMarker>, n: nat): (count: nat)
    requires n <= |markers|
    ensures n > 0 && UsesWallFunction(markers[n - 1]) ==> count >= |markers[n - 1].verts|
    decreases n
  {
    if n == 0 then 0
    else WallFunctionVertexCount(markers, n - 1) + (if UsesWallFunction(markers[n - 1]) then |markers[n - 1].verts| else 0)
  }

  /** Every stored wall eddy viscosity is at least 1e-6. */
  ghost predicate EddyViscosityClipped(st: WallFunctionState)
  {
    forall k :: k in st.eddyViscWall ==> st.eddyViscWall[k] >= CLIP
  }

  /** Whether SetTau_Wall_WF writes the wall values of vertex key.1 of marker key.0. */
  ghost predicate WrittenByWallFunction(isDomain: seq<bool>, markers: seq<WallFunctionMarker>, key: (nat, nat))
  {
    key.0 < |markers| && UsesWallFunction(markers[key.0]) && key.1 < |markers[key.0].verts|
    && markers[key.0].verts[key.1].node < |isDomain| && isDomain[markers[key.0].verts[key.1].node]
  }

  /** The three per-vertex maps agree at key. */
  ghost predicate SameWallValues(st: WallFunctionState, t: WallFunctionState, key: (nat, nat))
  {
    (key in t.yPlus <==> key in st.yPlus) && (key in st.yPlus ==> t.yPlus[key] == st.yPlus[key])
    && (key in t.eddyViscWall <==> key in st.eddyViscWall) && (key in st.eddyViscWall ==> t.eddyViscWall[key] == st.eddyViscWall[key])
    && (key in t.uTau <==> key in st.uTau) && (key in st.uTau ==> t.uTau[key] == st.uTau[key])
  }

  /**
   * One vertex: a halo vertex changes nothing; a vertex whose starting y+ is below the
   * minimum only increments the small-y+ counter; otherwise its wall values are written, the
   * eddy viscosity is at least 1e-6, a vertex that hit the iteration cap gets the safe values
   * and increments the not-converged counter, and an isothermal wall keeps its temperatures.
   */
  lemma WallFunctionStepEffect(L: Layout, opt: WallModelOptions, isDomain: seq<bool>, markers: seq<WallFunctionMarker>,
                               iMarker: nat, iVertex: nat, st: WallFunctionState)
    requires WallFunctionReady(L, opt, isDomain, markers, st)
    requires iMarker < |markers| && iVertex < |markers[iMarker].verts|
    ensures var t := WallFunctionStep(L, opt, isDomain, markers, iMarker, iVertex, st);
            var v := markers[iMarker].verts[iVertex];
            var key := (iMarker, iVertex);
            (!isDomain[v.node] ==> t == st)
            && (isDomain[v.node] && YPlusStart(MarkerConfig(opt, markers[iMarker]), VertexInput(L, st.nodes, v)) < opt.minYPlus
                ==> t == st.(smallYPlus := st.smallYPlus + 1))
            && (isDomain[v.node] && YPlusStart(MarkerConfig(opt, markers[iMarker]), VertexInput(L, st.nodes, v)) >= opt.minYPlus
                ==> key in t.yPlus && key in t.uTau && t.eddyViscWall.Keys == st.eddyViscWall.Keys + {key}
                    && t.eddyViscWall[key] >= CLIP
                    && t.smallYPlus == st.smallYPlus
                    && st.notConverged <= t.notConverged <= st.notConverged + 1
                    && (t.notConverged == st.notConverged + 1 ==>
                          t.yPlus[key] == FALLBACK_Y_PLUS && t.eddyViscWall[key] == FALLBACK_EDDY_VISCOSITY
                          && t.uTau[key] == FALLBACK_U_TAU)
                    && (markers[iMarker].kind == ISOTHERMAL ==> t.nodes == st.nodes))
  {
    var v := markers[iMarker].verts[iVertex];
    if isDomain[v.node] {
      var input := VertexInput(L, st.nodes, v);
      WallFunctionOutcome(MarkerConfig(opt, markers[iMarker]), input);
      if markers[iMarker].kind == ISOTHERMAL && YPlusStart(MarkerConfig(opt, markers[iMarker]), input) >= opt.minYPlus {
        var t := WallFunctionStep(L, opt, isDomain, markers, iMarker, iVertex, st);
        assert t.nodes.temperature == st.nodes.temperature;
      }
    }
  }

  /** One vertex adds at most one to the two counters together, and never lowers either. */
  lemma WallFunctionStepCounters(L: Layout, opt: WallModelOptions, isDomain: seq<bool>, markers: seq<WallFunctionMarker>,
                                 iMarker: nat, iVertex: nat, st: WallFunctionState)
    requires WallFunctionReady(L, opt, isDomain, markers, st)
    requires iMarker < |markers| && iVertex < |markers[iMarker].verts|
    ensures st.notConverged <= WallFunctionStep(L, opt, isDomain, markers, iMarker, iVertex, st).notConverged
    ensures st.smallYPlus <= WallFunctionStep(L, opt, isDomain, markers, iMarker, iVertex, st).smallYPlus
    ensures WallFunctionStep(L, opt, isDomain, markers, iMarker, iVertex, st).notConverged
            + WallFunctionStep(L, opt, isDomain, markers, iMarker, iVertex, st).smallYPlus
            <= st.notConverged + st.smallYPlus + 1
  {
  }

  /** One vertex writes only its own wall values, and none for a halo vertex; its eddy viscosity is clipped. */
  lemma WallFunctionStepFrame(L: Layout, opt: WallModelOptions, isDomain: seq<bool>, markers: seq<WallFunctionMarker>,
                              iMarker: nat, iVertex: nat, st: WallFunctionState)
    requires WallFunctionReady(L, opt, isDomain, markers, st)
    requires iMarker < |markers| && iVertex < |markers[iMarker].verts|
    ensures EddyViscosityClipped(st) ==> EddyViscosityClipped(WallFunctionStep(L, opt, isDomain, markers, iMarker, iVertex, st))
    ensures forall key: (nat, nat) :: key != (iMarker, iVertex) || !isDomain[markers[iMarker].verts[iVertex].node]
              ==> SameWallValues(st, WallFunctionStep(L, opt, isDomain, markers, iMarker, iVertex, st), key)
  {
    var v := markers[iMarker].verts[iVertex];
    if isDomain[v.node] {
      WallFunctionOutcome(MarkerConfig(opt, markers[iMarker]), VertexInput(L, st.nodes, v));
    }
  }

  /** The first n vertices of a marker: each counter grows, and together by at most n. */
  lemma {:induction false} WallFunctionMarkerFoldCounters(L: Layout, opt: WallModelOptions, isDomain: seq<bool>,
                                                          markers: seq<WallFunctionMarker>, iMarker: nat,
                                                          st: WallFunctionState, n: nat)
    requires WallFunctionReady(L, opt, isDomain, markers, st)
    requires iMarker < |markers| && n <= |markers[iMarker].verts|
    ensures st.notConverged <= WallFunctionMarkerFold(L, opt, isDomain, markers, iMarker, st, n).notConverged
    ensures st.smallYPlus <= WallFunctionMarkerFold(L, opt, isDomain, markers, iMarker, st, n).smallYPlus
    ensures WallFunctionMarkerFold(L, opt, isDomain, markers, iMarker, st, n).notConverged
            + WallFunctionMarkerFold(L, opt, isDomain, markers, iMarker, st, n).smallYPlus
            <= st.notConverged + st.smallYPlus + n
    decreases n
  {
    if n > 0 {
      var mid := WallFunctionMarkerFold(L, opt, isDomain, markers, iMarker, st, n - 1);
      assert WallFunctionStep(L, opt, isDomain, markers, iMarker, n - 1, mid)
             == WallFunctionMarkerFold(L, opt, isDomain, markers, iMarker, st, n);
      WallFunctionMarkerFoldCounters(L, opt, isDomain, markers, iMarker, st, n - 1);
      WallFunctionStepCounters(L, opt, isDomain, markers, iMarker, n - 1, mid);
    }
  }

  /** Whether the first n vertices of marker iMarker include the domain vertex key.1 of that marker. */
  ghost predicate WrittenInMarker(isDomain: seq<bool>, markers: seq<WallFunctionMarker>, iMarker: nat, n: nat,
                                  key: (nat, nat))
  {
    key.0 == iMarker && key.1 < n && iMarker < |markers| && key.1 < |markers[iMarker].verts|
    && markers[iMarker].verts[key.1].node < |isDomain| && isDomain[markers[iMarker].verts[key.1].node]
  }

  /** The first n vertices of a marker keep clipped eddy viscosities clipped. */
  lemma {:induction false} WallFunctionMarkerFoldClipped(L: Layout, opt: WallModelOptions, isDomain: seq<bool>,
                                                         markers: seq<WallFunctionMarker>, iMarker: nat,
                                                         st: WallFunctionState, n: nat)
    requires WallFunctionReady(L, opt, isDomain, markers, st) && EddyViscosityClipped(st)
    requires iMarker < |markers| && n <= |markers[iMarker].verts|
    ensures EddyViscosityClipped(WallFunctionMarkerFold(L, opt, isDomain, markers, iMarker, st, n))
    decreases n
  {
    if n > 0 {
      var mid := WallFunctionMarkerFold(L, opt, isDomain, markers, iMarker, st, n - 1);
      WallFunctionMarkerFoldClipped(L, opt, isDomain, markers, iMarker, st, n - 1);
      WallFunctionStepFrame(L, opt, isDomain, markers, iMarker, n - 1, mid);
    }
  }

  /** The first n vertices of a marker give new wall values only to the domain vertices among them. */
  lemma {:induction false} WallFunctionMarkerFoldFrame(L: Layout, opt: WallModelOptions, isDomain: seq<bool>,
                                                       markers: seq<WallFunctionMarker>, iMarker: nat,
                                                       st: WallFunctionState, n: nat)
    requires WallFunctionReady(L, opt, isDomain, markers, st)
    requires iMarker < |markers| && n <= |markers[iMarker].verts|
    ensures forall key: (nat, nat) :: !WrittenInMarker(isDomain, markers, iMarker, n, key)
              ==> SameWallValues(st, WallFunctionMarkerFold(L, opt, isDomain, markers, iMarker, st, n), key)
    decreases n
  {
    if n > 0 {
      var mid := WallFunctionMarkerFold(L, opt, isDomain, markers, iMarker, st, n - 1);
      var t := WallFunctionStep(L, opt, isDomain, markers, iMarker, n - 1, mid);
      assert t == WallFunctionMarkerFold(L, opt, isDomain, markers, iMarker, st, n);
      WallFunctionMarkerFoldFrame(L, opt, isDomain, markers, iMarker, st, n - 1);
      WallFunctionStepFrame(L, opt, isDomain, markers, iMarker, n - 1, mid);
      forall key: (nat, nat) | !WrittenInMarker(isDomain, markers, iMarker, n, key)
        ensures SameWallValues(st, t, key)
      {
        assert !WrittenInMarker(isDomain, markers, iMarker, n - 1, key);
        assert SameWallValues(st, mid, key);
        assert SameWallValues(mid, t, key);
        SameWallValuesTrans(st, mid, t, key);
      }
    }
  }

  lemma SameWallValuesTrans(a: WallFunctionState, b: WallFunctionState, c: WallFunctionState, key: (nat, nat))
    requires SameWallValues(a, b, key) && SameWallValues(b, c, key)
    ensures SameWallValues(a, c, key)
  {
  }

  /**
   * SetTau_Wall_WF over the first n markers: together the two counters grow by at most the
   * number of wall-function vertices, clipped eddy viscosities stay clipped, and only the
   * domain vertices of viscous walls with the standard wall function get new wall values.
   */
  lemma {:induction false} WallFunctionFoldProperties(L: Layout, opt: WallModelOptions, isDomain: seq<bool>,
                                                      markers: seq<WallFunctionMarker>, st: WallFunctionState, n: nat)
    requires WallFunctionReady(L, opt, isDomain, markers, st) && n <= |markers|
    ensures st.notConverged <= WallFunctionFold(L, opt, isDomain, markers, st, n).notConverged
    ensures st.smallYPlus <= WallFunctionFold(L, opt, isDomain, markers, st, n).smallYPlus
    ensures WallFunctionFold(L, opt, isDomain, markers, st, n).notConverged
            + WallFunctionFold(L, opt, isDomain, markers, st, n).smallYPlus
            <= st.notConverged + st.smallYPlus + WallFunctionVertexCount(markers, n)
    ensures EddyViscosityClipped(st) ==> EddyViscosityClipped(WallFunctionFold(L, opt, isDomain, markers, st, n))
    ensures forall key: (nat, nat) :: !WrittenByWallFunction(isDomain, markers, key)
              ==> SameWallValues(st, WallFunctionFold(L, opt, isDomain, markers, st, n), key)
    decreases n
  {
    if n > 0 {
      var before := WallFunctionFold(L, opt, isDomain, markers, st, n - 1);
      WallFunctionFoldProperties(L, opt, isDomain, markers, st, n - 1);
      if UsesWallFunction(markers[n - 1]) {
        WallFunctionMarkerFoldCounters(L, opt, isDomain, markers, n - 1, before, |markers[n - 1].verts|);
        if EddyViscosityClipped(st) {
          WallFunctionMarkerFoldClipped(L, opt, isDomain, markers, n - 1, before, |markers[n - 1].verts|);
        }
        WallFunctionMarkerFoldFrame(L, opt, isDomain, markers, n - 1, before, |markers[n - 1].verts|);
        var t := WallFunctionFold(L, opt, isDomain, markers, st, n);
        forall key: (nat, nat) | !WrittenByWallFunction(isDomain, markers, key)
          ensures SameWallValues(st, t, key)
        {
          assert !WrittenInMarker(isDomain, markers, n - 1, |markers[n - 1].verts|, key);
          SameWallValuesTrans(st, before, t, key);
        }
      }
    }
  }

  class CNSSolver {
    const L: Layout
    const linSysRes: array<real>
    const solutionOld: array<real>
    const resTruncError: array<real>
    var jacobian: Matrix
    var nodes: CNSNodes
    var tauWall: seq<real>
    var desLengthScale: seq<real>
    var yPlus: map<(nat, nat), real>
    var eddyViscWall: map<(nat, nat), real>
    var uTau: map<(nat, nat), real>

    ghost predicate Valid()
      reads this, linSysRes, solutionOld, resTruncError
    {
      L.Valid()
      && linSysRes != solutionOld && linSysRes != resTruncError && solutionOld != resTruncError
      && linSysRes.Length == L.nPoint * L.nVar && solutionOld.Length == L.nPoint * L.nVar
      && resTruncError.Length == L.nPoint * L.nVar
      && NodesSized(L, nodes) && |tauWall| == L.nPoint && |desLengthScale| == L.nPoint
    }

    /** The part of the solver the wall loops change. */
    ghost function State(): (s: FlowState)
      reads this, linSysRes, solutionOld, resTruncError
      requires Valid()
      ensures Sized(L, s)
    {
      FlowState(linSysRes[..], solutionOld[..], resTruncError[..], jacobian)
    }

    /** The part of the solver the wall function changes. */
    ghost function WallFunctionView(notConverged: nat, smallYPlus: nat): WallFunctionState
      reads this
    {
      WallFunctionState(nodes, tauWall, yPlus, eddyViscWall, uTau, notConverged, smallYPlus)
    }

    constructor (layout: Layout, initialNodes: CNSNodes)
      requires layout.Valid() && NodesSized(layout, initialNodes)
      ensures Valid() && L == layout && nodes == initialNodes
      ensures fresh(linSysRes) && fresh(solutionOld) && fresh(resTruncError)
    {
      L := layout;
      linSysRes := new real[layout.nPoint * layout.nVar](_ => 0.0);
      solutionOld := new real[layout.nPoint * layout.nVar](_ => 0.0);
      resTruncError := new real[layout.nPoint * layout.nVar](_ => 0.0);
      jacobian := (r: nat, c: nat) => 0.0;
      nodes := initialNodes;
      tauWall := Zeros(layout.nPoint);
      desLengthScale := Zeros(layout.nPoint);
      yPlus := map[];
      eddyViscWall := map[];
      uTau := map[];
    }

    /**
     * Strong no-slip at point p: SetVelocity_Old, LinSysRes(p, 1..nDim) = 0 and
     * SetVel_ResTruncError_Zero.
     */
    method NoSlipPoint(p: nat, wallVel: seq<real>)
      requires Valid() && p < L.nPoint && |wallVel| == L.nDim
      modifies linSysRes, solutionOld, resTruncError
      ensures Valid()
      ensures State() == NoSlip(L, old(State()), p, wallVel)
    {
      ApplyNoSlip(L, linSysRes, solutionOld, resTruncError, jacobian, p, wallVel);
    }

    /**
     * LinSysRes(p, nDim + 1) += delta and, under implicit integration, AddBlock2Diag of
     * the energy row (when addRow) followed by DeleteValsRowi of the velocity rows of p.
     */
    method EnergyPoint(p: nat, delta: real, implicit: bool, addRow: bool, row: seq<real>)
      requires Valid() && p < L.nPoint && |row| == L.nVar
      modifies this`jacobian, linSysRes
      ensures Valid()
      ensures State() == EnergyUpdate(L, old(State()), p, delta, implicit, addRow, row)
    {
      jacobian := ApplyEnergyUpdate(L, linSysRes, solutionOld, resTruncError, jacobian, p, delta, implicit, addRow, row);
    }

    /** CNSSolver::BC_HeatFlux_Wall_Generic on one marker (HEAT_FLUX or HEAT_TRANSFER). */
    method BCHeatFluxWallGeneric(g: WallGeometry, cfg: HeatFluxConfig, verts: seq<WallVertex>)
      requires Valid() && HeatFluxMarkerOk(L, g, cfg, nodes, verts)
      modifies this`jacobian, linSysRes, solutionOld, resTruncError
      ensures Valid()
      ensures State() == HeatFluxWall(L, g, cfg, nodes, old(State()), verts)
    {
      ghost var s0 := State();
      ghost var step := HeatFluxStep(L, g, cfg, nodes);
      var i := 0;
      while i < |verts|
        invariant 0 <= i <= |verts|
        invariant Valid()
        invariant State() == WallFold(step, s0, verts[..i])
      {
        var v := verts[i];
        assert verts[..i + 1][..i] == verts[..i];
        if g.isDomain[v.node] {
          assert HeatFluxReady(L, g, cfg, nodes, v);
          var wallVel := WallVelocity(L, cfg.dynamicGrid, g.gridVel[v.node]);
          NoSlipPoint(v.node, wallVel);
          var delta := HeatFluxEnergyResidual(L, cfg, nodes, v);
          var row := HeatFluxRowOrZero(L, g, cfg, nodes, v);
          EnergyPoint(v.node, delta, cfg.implicit, HeatFluxAddsRow(cfg), row);
        }
        i := i + 1;
      }
      assert verts[..i] == verts;
    }

    /** The body of the vertex loop of BC_Isothermal_Wall_Generic for a domain vertex v. */
    method IsothermalVertexUpdate(g: WallGeometry, cfg: IsothermalConfig, v: WallVertex) returns (status: Status)
      requires Valid() && IsothermalReady(L, g, cfg, nodes, v)
      modifies this`jacobian, linSysRes, solutionOld, resTruncError
      ensures Valid()
      ensures status.Aborted? <==> IsothermalWallTemperature(L, cfg, nodes, v).Fatal?
      ensures status.Aborted? ==> status.message == IsothermalWallTemperature(L, cfg, nodes, v).message
      ensures status.Completed? ==> State() == IsothermalVertex(L, g, cfg, nodes, old(State()), v)
    {
      var wallVel := WallVelocity(L, cfg.dynamicGrid, g.gridVel[v.node]);
      NoSlipPoint(v.node, wallVel);
      var twall := IsothermalWallTemperature(L, cfg, nodes, v);
      if twall.Fatal? {
        return Aborted(twall.message);
      }
      var delta := IsothermalEnergyResidual(L, cfg, nodes, v, twall.value);
      var row := IsothermalRowOrZero(L, g, cfg, nodes, v, twall.value);
      EnergyPoint(v.node, delta, cfg.implicit, cfg.implicit, row);
      status := Completed;
    }

    /**
     * CNSSolver::BC_Isothermal_Wall_Generic on one marker; with chtMode it is
     * BC_ConjugateHeat_Interface. An unknown coupling mode stops the run at the first
     * domain vertex.
     */
    method BCIsothermalWallGeneric(g: WallGeometry, cfg: IsothermalConfig, verts: seq<WallVertex>) returns (status: Status)
      requires Valid() && IsothermalMarkerOk(L, g, cfg, nodes, verts)
      modifies this`jacobian, linSysRes, solutionOld, resTruncError
      ensures Valid()
      ensures status.Aborted? <==> !WallTemperatureDefined(cfg) && AnyDomainVertex(L, g, verts)
      ensures status.Aborted? ==> status.message == UNKNOWN_CHT_MESSAGE
      ensures status.Completed? ==> State() == IsothermalWall(L, g, cfg, nodes, old(State()), verts)
    {
      ghost var s0 := State();
      ghost var step := IsothermalStep(L, g, cfg, nodes);
      var i := 0;
      while i < |verts|
        invariant 0 <= i <= |verts|
        invariant Valid()
        invariant State() == WallFold(step, s0, verts[..i])
        invariant !WallTemperatureDefined(cfg) ==> !AnyDomainVertex(L, g, verts[..i])
      {
        var v := verts[i];
        assert verts[..i + 1][..i] == verts[..i];
        if g.isDomain[v.node] {
          assert IsothermalReady(L, g, cfg, nodes, v);
          status := IsothermalVertexUpdate(g, cfg, v);
          if status.Aborted? {
            assert IsDomainVertex(L, g, verts[i]);
            AnyDomainVertexExists(L, g, verts);
            return;
          }
        }
        i := i + 1;
      }
      assert verts[..i] == verts;
      status := Completed;
    }

    /** The body of the vertex loop of SetTau_Wall_WF for vertex iVertex of marker iMarker. */
    method WallFunctionVertexUpdate(opt: WallModelOptions, isDomain: seq<bool>, markers: seq<WallFunctionMarker>,
                                    iMarker: nat, iVertex: nat, notConverged0: nat, smallYPlus0: nat)
      returns (notConverged: nat, smallYPlus: nat)
      requires Valid() && WallFunctionReady(L, opt, isDomain, markers, WallFunctionView(notConverged0, smallYPlus0))
      requires iMarker < |markers| && iVertex < |markers[iMarker].verts|
      modifies this`nodes, this`tauWall, this`yPlus, this`eddyViscWall, this`uTau
      ensures Valid()
      ensures WallFunctionView(notConverged, smallYPlus)
              == WallFunctionStep(L, opt, isDomain, markers, iMarker, iVertex, old(WallFunctionView(notConverged0, smallYPlus0)))
    {
      notConverged, smallYPlus := notConverged0, smallYPlus0;
      var v := markers[iMarker].verts[iVertex];
      if isDomain[v.node] {
        var input := VertexInput(L, nodes, v);
        var r := WallFunctionVertex(MarkerConfig(opt, markers[iMarker]), input);
        if r.SmallYPlus? {
          smallYPlus := smallYPlus + 1;
        } else {
          nodes := nodes.(temperature := nodes.temperature[v.node := r.tWall]);
          tauWall := tauWall[v.node := r.tauWall];
          yPlus := yPlus[(iMarker, iVertex) := r.yPlus];
          eddyViscWall := eddyViscWall[(iMarker, iVertex) := r.eddyVisc];
          uTau := uTau[(iMarker, iVertex) := r.uTau];
          if !r.converged {
            notConverged := notConverged + 1;
          }
        }
      }
    }

    /** The vertex loop of SetTau_Wall_WF over marker iMarker. */
    method WallFunctionMarkerPass(opt: WallModelOptions, isDomain: seq<bool>, markers: seq<WallFunctionMarker>,
                                  iMarker: nat, notConverged0: nat, smallYPlus0: nat)
      returns (notConverged: nat, smallYPlus: nat)
      requires Valid() && WallFunctionReady(L, opt, isDomain, markers, WallFunctionView(notConverged0, smallYPlus0))
      requires iMarker < |markers|
      modifies this`nodes, this`tauWall, this`yPlus, this`eddyViscWall, this`uTau
      ensures Valid()
      ensures WallFunctionView(notConverged, smallYPlus)
              == WallFunctionMarkerFold(L, opt, isDomain, markers, iMarker,
                                        old(WallFunctionView(notConverged0, smallYPlus0)), |markers[iMarker].verts|)
    {
      ghost var before := WallFunctionView(notConverged0, smallYPlus0);
      notConverged, smallYPlus := notConverged0, smallYPlus0;
      var iVertex := 0;
      while iVertex < |markers[iMarker].verts|
        invariant 0 <= iVertex <= |markers[iMarker].verts|
        invariant Valid()
        invariant WallFunctionReady(L, opt, isDomain, markers, WallFunctionView(notConverged, smallYPlus))
        invariant WallFunctionView(notConverged, smallYPlus)
                  == WallFunctionMarkerFold(L, opt, isDomain, markers, iMarker, before, iVertex)
      {
        notConverged, smallYPlus := WallFunctionVertexUpdate(opt, isDomain, markers, iMarker, iVertex, notConverged, smallYPlus);
        iVertex := iVertex + 1;
      }
    }

    /**
     * CNSSolver::SetTau_Wall_WF, run sequentially: for every domain vertex of every viscous
     * wall with the standard wall function, the wall function of that vertex, its y+, eddy
     * viscosity, U_Tau, Tau_Wall and wall temperature stored, and the two warning counters.
     */
    method SetTauWallWF(opt: WallModelOptions, isDomain: seq<bool>, markers: seq<WallFunctionMarker>)
      returns (notConverged: nat, smallYPlus: nat)
      requires Valid() && WallFunctionReady(L, opt, isDomain, markers, WallFunctionView(0, 0))
      modifies this`nodes, this`tauWall, this`yPlus, this`eddyViscWall, this`uTau
      ensures Valid()
      ensures WallFunctionView(notConverged, smallYPlus)
              == WallFunctionFold(L, opt, isDomain, markers, old(WallFunctionView(0, 0)), |markers|)
      ensures notConverged + smallYPlus <= WallFunctionVertexCount(markers, |markers|)
      ensures EddyViscosityClipped(old(WallFunctionView(0, 0))) ==> EddyViscosityClipped(WallFunctionView(notConverged, smallYPlus))
    {
      ghost var st0 := WallFunctionView(0, 0);
      WallFunctionFoldProperties(L, opt, isDomain, markers, st0, |markers|);
      notConverged, smallYPlus := 0, 0;
      var iMarker := 0;
      while iMarker < |markers|
        invariant 0 <= iMarker <= |markers|
        invariant Valid()
        invariant WallFunctionReady(L, opt, isDomain, markers, WallFunctionView(notConverged, smallYPlus))
        invariant WallFunctionView(notConverged, smallYPlus) == WallFunctionFold(L, opt, isDomain, markers, st0, iMarker)
      {
        if UsesWallFunction(markers[iMarker]) {
          notConverged, smallYPlus := WallFunctionMarkerPass(opt, isDomain, markers, iMarker, notConverged, smallYPlus);
        }
        iMarker := iMarker + 1;
      }
    }

    /**
     * CNSSolver::SetPrimitive_Variables: physical[p] is what SetPrimVar reports for point p.
     * The DES length scale is copied from the turbulence solver only for a hybrid RANS/LES
     * run with a turbulence model and solver.
     */
    method SetPrimitiveVariables(turbModel: nat, hasTurbSolver: bool, hybridRansLes: nat,
                                 turbDesLengthScale: seq<real>, physical: seq<bool>) returns (nonPhysicalPoints: nat)
      requires Valid() && |physical| == L.nPoint && |turbDesLengthScale| == L.nPoint
      modifies this`desLengthScale
      ensures Valid()
      ensures nonPhysicalPoints == CountNonPhysical(physical)
      ensures nonPhysicalPoints <= L.nPoint
      ensures desLengthScale == if turbModel != TURB_MODEL_NONE && hasTurbSolver && hybridRansLes != NO_HYBRIDRANSLES
                                then turbDesLengthScale else old(desLengthScale)
    {
      var copyDes := turbModel != TURB_MODEL_NONE && hasTurbSolver && hybridRansLes != NO_HYBRIDRANSLES;
      ghost var des0 := desLengthScale;
      nonPhysicalPoints := 0;
      var p := 0;
      while p < L.nPoint
        invariant 0 <= p <= L.nPoint && |desLengthScale| == L.nPoint
        invariant nonPhysicalPoints == CountNonPhysical(physical[..p])
        invariant !copyDes ==> desLengthScale == des0
        invariant copyDes ==> forall k :: 0 <= k < p ==> desLengthScale[k] == turbDesLengthScale[k]
      {
        if copyDes {
          desLengthScale := desLengthScale[p := turbDesLengthScale[p]];
        }
        assert physical[..p + 1][..p] == physical[..p];
        if !physical[p] {
          nonPhysicalPoints := nonPhysicalPoints + 1;
        }
        p := p + 1;
      }
      assert physical[..p] == physical;
    }
  }
}
