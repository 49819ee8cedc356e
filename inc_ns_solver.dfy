/**
 * The incompressible Navier-Stokes solver object (CIncNSSolver) as far as its wall boundary
 * conditions and its primitive-variable update change it: LinSysRes, Solution_Old and the
 * truncation-error residual are arrays of nPoint * nVar entries, the Jacobian a matrix field,
 * and the DES length scale a field the update reassigns.
 */
module IncNSSolverModel {
  import opened LinearSystem
  import opened WallBC
  import opened Outcome
  import opened ConjugateHeat
  import opened IncNSWall
  import opened PointCount

  // TURB_MODEL::NONE and NO_HYBRIDRANSLES
  const TURB_MODEL_NONE: nat := 0
  const NO_HYBRIDRANSLES: nat := 0

  class CIncNSSolver {
    const L: Layout
    const linSysRes: array<real>
    const solutionOld: array<real>
    const resTruncError: array<real>
    var jacobian: Matrix
    var nodes: IncNodes
    var desLengthScale: seq<real>

    ghost predicate Valid()
      reads this, linSysRes, solutionOld, resTruncError
    {
      L.Valid()
      && linSysRes != solutionOld && linSysRes != resTruncError && solutionOld != resTruncError
      && linSysRes.Length == L.nPoint * L.nVar && solutionOld.Length == L.nPoint * L.nVar
      && resTruncError.Length == L.nPoint * L.nVar
      && IncNodesSized(L, nodes) && |desLengthScale| == L.nPoint
    }

    /** The part of the solver the wall loops change. */
    ghost function State(): (s: FlowState)
      reads this, linSysRes, solutionOld, resTruncError
      requires Valid()
      ensures Sized(L, s)
    {
      FlowState(linSysRes[..], solutionOld[..], resTruncError[..], jacobian)
    }

    constructor (layout: Layout, initialNodes: IncNodes)
      requires layout.Valid() && IncNodesSized(layout, initialNodes)
      ensures Valid() && L == layout && nodes == initialNodes
      ensures fresh(linSysRes) && fresh(solutionOld) && fresh(resTruncError)
    {
      L := layout;
      linSysRes := new real[layout.nPoint * layout.nVar](_ => 0.0);
      solutionOld := new real[layout.nPoint * layout.nVar](_ => 0.0);
      resTruncError := new real[layout.nPoint * layout.nVar](_ => 0.0);
      jacobian := (r: nat, c: nat) => 0.0;
      nodes := initialNodes;
      desLengthScale := Zeros(layout.nPoint);
    }

    /** Strong no-slip at p and, under implicit integration, DeleteValsRowi of its velocity rows (and energy row when withEnergy). */
    method NoSlipPoint(p: nat, wallVel: seq<real>, implicit: bool, withEnergy: bool)
      requires Valid() && p < L.nPoint && |wallVel| == L.nDim
      modifies this`jacobian, linSysRes, solutionOld, resTruncError
      ensures Valid()
      ensures State() == NoSlipDeleted(L, old(State()), p, wallVel, implicit, withEnergy)
    {
      ApplyNoSlip(L, linSysRes, solutionOld, resTruncError, jacobian, p, wallVel);
      if implicit {
        jacobian := DeleteRowsInPlace(jacobian, L.VelocityLo(p), L.VelocityHi(p));
        if withEnergy {
          jacobian := DeleteValsRowi(jacobian, L.EnergyIndex(p));
        }
      }
    }

    /** LinSysRes(p, nDim + 1) += delta and, when addDiag, AddVal2Diag of diag on the energy entry of p. */
    method EnergyPoint(p: nat, delta: real, addDiag: bool, diag: real)
      requires Valid() && p < L.nPoint
      modifies this`jacobian, linSysRes
      ensures Valid()
      ensures State() == EnergyAndDiagonal(L, old(State()), p, delta, addDiag, diag)
    {
      IndexInRange(p, L.nDim + 1, L.nPoint, L.nVar);
      var e := L.EnergyIndex(p);
      linSysRes[e] := linSysRes[e] + delta;
      if addDiag {
        jacobian := AddVal2Diag(jacobian, p, L.nDim + 1, L.nVar, diag);
      }
    }

    /** The body of the vertex loop of BC_Wall_Generic for a domain vertex v; value is the wall heat flux or temperature. */
    method WallVertexUpdate(g: WallGeometry, cfg: IncWallConfig, value: real, v: WallVertex)
      requires Valid() && IncWallReady(L, g, cfg, nodes, v)
      modifies this`jacobian, linSysRes, solutionOld, resTruncError
      ensures Valid()
      ensures State() == IncWallVertex(L, g, cfg, nodes, value, old(State()), v)
    {
      var p := v.node;
      NoSlipPoint(p, WallVelocity(L, cfg.dynamicGrid, g.gridVel[p]), cfg.implicit, false);
      if cfg.energy {
        EnergyPoint(p, IncWallEnergyResidual(L, cfg, nodes, value, v), cfg.implicit && cfg.kind != HEAT_FLUX,
                    IsothermalDiagonal(L, nodes, v));
      }
    }

    /** CIncNSSolver::BC_Wall_Generic on one marker of the given kind. */
    method BCWallGeneric(g: WallGeometry, cfg: IncWallConfig, verts: seq<WallVertex>) returns (status: Status)
      requires Valid() && IncWallMarkerOk(L, g, cfg, nodes, verts)
      modifies this`jacobian, linSysRes, solutionOld, resTruncError
      ensures Valid()
      ensures status.Aborted? <==> WallGenericValue(cfg).Fatal?
      ensures status.Aborted? ==> status.message == WallGenericValue(cfg).message && State() == old(State())
      ensures status.Completed? ==>
                State() == IncWall(L, g, cfg, nodes, WallGenericValue(cfg).value, old(State()), verts)
    {
      var value := WallGenericValue(cfg);
      if value.Fatal? {
        return Aborted(value.message);
      }
      ghost var s0 := State();
      ghost var step := IncWallStep(L, g, cfg, nodes, value.value);
      var i := 0;
      while i < |verts|
        invariant 0 <= i <= |verts|
        invariant Valid()
        invariant State() == WallFold(step, s0, verts[..i])
      {
        var v := verts[i];
        assert verts[..i + 1][..i] == verts[..i];
        if g.isDomain[v.node] {
          assert IncWallReady(L, g, cfg, nodes, v);
          WallVertexUpdate(g, cfg, value.value, v);
        }
        i := i + 1;
      }
      assert verts[..i] == verts;
      status := Completed;
    }

    /** The body of the vertex loop of BC_ConjugateHeat_Interface for a domain vertex v. */
    method ChtVertexUpdate(g: WallGeometry, cfg: IncChtConfig, v: WallVertex) returns (status: Status)
      requires Valid() && IncChtReady(L, g, cfg, nodes, v)
      modifies this`jacobian, linSysRes, solutionOld, resTruncError
      ensures Valid()
      ensures status.Aborted? <==> cfg.energy && !ChtModeKnown(cfg.chtMode)
      ensures status.Aborted? ==> status.message == UNKNOWN_CHT_MESSAGE
      ensures status.Completed? ==> State() == IncChtVertex(L, g, cfg, nodes, old(State()), v)
    {
      var p := v.node;
      NoSlipPoint(p, WallVelocity(L, cfg.dynamicGrid, g.gridVel[p]), cfg.implicit, cfg.energy);
      if cfg.energy {
        var twall := IncChtWallTemperature(L, cfg, nodes, v);
        if twall.Fatal? {
          return Aborted(twall.message);
        }
        IndexInRange(p, L.nDim + 1, L.nPoint, L.nVar);
        var e := L.EnergyIndex(p);
        linSysRes[e] := 0.0;
        solutionOld[e] := twall.value;
        resTruncError[e] := 0.0;
      }
      status := Completed;
    }

    /**
     * CIncNSSolver::BC_ConjugateHeat_Interface on one marker. A wall-function treatment stops the
     * run before the loop; with energy, an unknown coupling mode stops it at the first domain vertex.
     */
    method BCConjugateHeatInterface(g: WallGeometry, cfg: IncChtConfig, verts: seq<WallVertex>) returns (status: Status)
      requires Valid() && IncChtMarkerOk(L, g, cfg, nodes, verts)
      modifies this`jacobian, linSysRes, solutionOld, resTruncError
      ensures Valid()
      ensures status.Aborted? <==>
                cfg.wallFunction != NO_WALL_FUNCTION
                || (cfg.energy && !ChtModeKnown(cfg.chtMode) && AnyDomainVertex(L, g, verts))
      ensures status.Aborted? && cfg.wallFunction != NO_WALL_FUNCTION ==>
                status.message == WALL_FUNCTION_MESSAGE && State() == old(State())
      ensures status.Aborted? && cfg.wallFunction == NO_WALL_FUNCTION ==> status.message == UNKNOWN_CHT_MESSAGE
      ensures status.Completed? ==> State() == IncChtWall(L, g, cfg, nodes, old(State()), verts)
    {
      if cfg.wallFunction != NO_WALL_FUNCTION {
        return Aborted(WALL_FUNCTION_MESSAGE);
      }
      ghost var s0 := State();
      ghost var step := IncChtStep(L, g, cfg, nodes);
      var i := 0;
      while i < |verts|
        invariant 0 <= i <= |verts|
        invariant Valid()
        invariant State() == WallFold(step, s0, verts[..i])
        invariant cfg.energy && !ChtModeKnown(cfg.chtMode) ==> !AnyDomainVertex(L, g, verts[..i])
      {
        var v := verts[i];
        assert verts[..i + 1][..i] == verts[..i];
        if g.isDomain[v.node] {
          assert IncChtReady(L, g, cfg, nodes, v);
          status := ChtVertexUpdate(g, cfg, v);
          if status.Aborted? {
            assert IsDomainVertex(L, g, verts[i]);
            AnyDomainVertexExists(L, g, verts);
            return;
          }
        }
        i := i + 1;
      }
      assert verts[..i] == verts;
      status := Completed;
    }

    /**
     * CIncNSSolver::SetPrimitive_Variables: physical[p] is what SetPrimVar reports for point p.
     * The DES length scale of every point is written: the turbulence solver's value for a hybrid
     * RANS/LES run with a turbulence model and solver, 0 otherwise.
     */
    method SetPrimitiveVariables(turbModel: nat, hasTurbSolver: bool, hybridRansLes: nat,
                                 turbDesLengthScale: seq<real>, physical: seq<bool>) returns (nonPhysicalPoints: nat)
      requires Valid() && |physical| == L.nPoint && |turbDesLengthScale| == L.nPoint
      modifies this`desLengthScale
      ensures Valid()
      ensures nonPhysicalPoints == CountNonPhysical(physical)
      ensures nonPhysicalPoints <= L.nPoint
      ensures desLengthScale == if turbModel != TURB_MODEL_NONE && hasTurbSolver && hybridRansLes != NO_HYBRIDRANSLES
                                then turbDesLengthScale else Zeros(L.nPoint)
    {
      var copyDes := turbModel != TURB_MODEL_NONE && hasTurbSolver && hybridRansLes != NO_HYBRIDRANSLES;
      nonPhysicalPoints := 0;
      var p := 0;
      while p < L.nPoint
        invariant 0 <= p <= L.nPoint && |desLengthScale| == L.nPoint
        invariant nonPhysicalPoints == CountNonPhysical(physical[..p])
        invariant forall k :: 0 <= k < p ==> desLengthScale[k] == if copyDes then turbDesLengthScale[k] else 0.0
      {
        var des := 0.0;
        if copyDes {
          des := turbDesLengthScale[p];
        }
        assert physical[..p + 1][..p] == physical[..p];
        if !physical[p] {
          nonPhysicalPoints := nonPhysicalPoints + 1;
        }
        desLengthScale := desLengthScale[p := des];
        p := p + 1;
      }
      assert physical[..p] == physical;
    }
  }
}
