/**
 * What the viscous-wall boundary conditions of both flow solvers share:
 * the slice of solver state a wall loop changes, the strong no-slip
 * enforcement done at every domain vertex, the vertex loop as a fold of a
 * per-vertex step, and the facts that hold for every such loop whose step
 * only touches its own point's block.
 */
module WallBC {
  import opened LinearSystem

  // BC_TYPE codes of the wall markers
  const ISOTHERMAL: nat := 25
  const HEAT_FLUX: nat := 26
  const HEAT_TRANSFER: nat := 27

  /** nDim space dimensions, nVar unknowns per point (density or pressure, nDim momenta/velocities, energy or temperature). */
  datatype Layout = Layout(nDim: nat, nVar: nat, nPoint: nat)
  {
    ghost predicate Valid()
    {
      nVar == nDim + 2
    }

    function BlockLo(p: nat): nat { p * nVar }
    function BlockHi(p: nat): nat { p * nVar + nVar }
    /** Velocity (or momentum) entries of point p: BlockLo(p) + 1 ..< BlockLo(p) + 1 + nDim. */
    function VelocityLo(p: nat): nat { p * nVar + 1 }
    function VelocityHi(p: nat): nat { p * nVar + 1 + nDim }
    /** The energy (or temperature) entry of point p, iVar = nDim + 1. */
    function EnergyIndex(p: nat): nat { p * nVar + nDim + 1 }
  }

  /** LinSysRes, the Solution_Old snapshot, the truncation-error residual and the Jacobian, all point-major. */
  datatype FlowState = FlowState(res: seq<real>, solOld: seq<real>, truncErr: seq<real>, jac: Matrix)

  ghost predicate Sized(L: Layout, s: FlowState)
  {
    |s.res| == L.nPoint * L.nVar && |s.solOld| == L.nPoint * L.nVar && |s.truncErr| == L.nPoint * L.nVar
  }

  /** Contribution of a moving wall (AddDynamicGridResidualContribution), taken as given. */
  datatype DynamicWallTerms = DynamicWallTerms(conv: real, visc: real, jacRow: seq<real>)

  /**
   * One vertex of a wall marker together with the values the solver reads for it:
   * node (iPoint), normalNeighbor (Point_Normal), area (|Normal|), dist (distance from node
   * to normalNeighbor), dist2 and edgeDotNormal (|Edge|^2 and Edge . Normal of the incompressible
   * isothermal wall), custom (the user-defined heat flux or wall temperature of this vertex),
   * conjTemperature and conjFactor (conjugate heat variables 0 and 2), periodicTerm (the
   * streamwise-periodic heat-flux correction of this vertex) and dyn (the moving-wall terms).
   */
  datatype WallVertex = WallVertex(
    node: nat,
    normalNeighbor: nat,
    area: real,
    dist: real,
    dist2: real,
    edgeDotNormal: real,
    custom: real,
    conjTemperature: real,
    conjFactor: real,
    periodicTerm: real,
    dyn: DynamicWallTerms)

  /** Per-point mesh data read by the wall loops: GetDomain (false for halo points) and GetGridVel. */
  datatype WallGeometry = WallGeometry(isDomain: seq<bool>, gridVel: seq<seq<real>>)

  ghost predicate GeometrySized(L: Layout, g: WallGeometry)
  {
    |g.isDomain| == L.nPoint && |g.gridVel| == L.nPoint
    && forall p :: 0 <= p < L.nPoint ==> |g.gridVel[p]| == L.nDim
  }

  /** The vertex sits on a point owned by this rank (not a halo point). */
  predicate IsDomainVertex(L: Layout, g: WallGeometry, v: WallVertex)
  {
    v.node < L.nPoint && v.node < |g.isDomain| && g.isDomain[v.node]
  }

  /** Some vertex of the marker sits on a domain point: the loops that abort do so at the first one. */
  predicate AnyDomainVertex(L: Layout, g: WallGeometry, verts: seq<WallVertex>)
    decreases |verts|
  {
    verts != [] && (AnyDomainVertex(L, g, verts[..|verts| - 1]) || IsDomainVertex(L, g, verts[|verts| - 1]))
  }

  lemma {:induction false} AnyDomainVertexExists(L: Layout, g: WallGeometry, verts: seq<WallVertex>)
    ensures AnyDomainVertex(L, g, verts) <==> exists i :: 0 <= i < |verts| && IsDomainVertex(L, g, verts[i])
    decreases |verts|
  {
    if verts != [] {
      var prefix := verts[..|verts| - 1];
      AnyDomainVertexExists(L, g, prefix);
      if AnyDomainVertex(L, g, prefix) {
        var i :| 0 <= i < |prefix| && IsDomainVertex(L, g, prefix[i]);
        assert verts[i] == prefix[i];
      }
      if exists i :: 0 <= i < |verts| && IsDomainVertex(L, g, verts[i]) {
        var i :| 0 <= i < |verts| && IsDomainVertex(L, g, verts[i]);
        if i < |prefix| {
          assert prefix[i] == verts[i];
        }
      }
    }
  }

  /** Every vertex of the marker refers to a point of the mesh. */
  predicate VerticesOnMesh(L: Layout, verts: seq<WallVertex>)
  {
    forall i :: 0 <= i < |verts| ==> verts[i].node < L.nPoint && verts[i].normalNeighbor < L.nPoint
  }

  /** t agrees with s everywhere except possibly in entries and Jacobian rows lo ..< hi. */
  ghost predicate UnchangedOutside(s: FlowState, t: FlowState, lo: nat, hi: nat)
  {
    |t.res| == |s.res| && |t.solOld| == |s.solOld| && |t.truncErr| == |s.truncErr|
    && (forall k :: 0 <= k < |s.res| && !(lo <= k < hi) ==> t.res[k] == s.res[k])
    && (forall k :: 0 <= k < |s.solOld| && !(lo <= k < hi) ==> t.solOld[k] == s.solOld[k])
    && (forall k :: 0 <= k < |s.truncErr| && !(lo <= k < hi) ==> t.truncErr[k] == s.truncErr[k])
    && (forall r: nat, c: nat :: !(lo <= r < hi) ==> t.jac(r, c) == s.jac(r, c))
  }

  /** t agrees with s in entries and Jacobian rows lo ..< hi. */
  ghost predicate UnchangedInside(s: FlowState, t: FlowState, lo: nat, hi: nat)
  {
    hi <= |s.res| && hi <= |s.solOld| && hi <= |s.truncErr|
    && hi <= |t.res| && hi <= |t.solOld| && hi <= |t.truncErr|
    && (forall k :: lo <= k < hi ==> t.res[k] == s.res[k])
    && (forall k :: lo <= k < hi ==> t.solOld[k] == s.solOld[k])
    && (forall k :: lo <= k < hi ==> t.truncErr[k] == s.truncErr[k])
    && RowsAgree(s.jac, t.jac, lo, hi)
  }

  /**
   * Strong no-slip at point p: zero velocity residual and truncation error, Solution_Old velocity
   * equal to the wall velocity and, under implicit integration, identity Jacobian rows.
   */
  ghost predicate NoSlipHolds(L: Layout, s: FlowState, p: nat, wallVel: seq<real>, implicit: bool)
  {
    L.VelocityHi(p) <= |s.res| && L.VelocityHi(p) <= |s.solOld| && L.VelocityHi(p) <= |s.truncErr|
    && |wallVel| == L.nDim
    && (forall k :: L.VelocityLo(p) <= k < L.VelocityHi(p) ==> s.res[k] == 0.0)
    && (forall k :: L.VelocityLo(p) <= k < L.VelocityHi(p) ==> s.truncErr[k] == 0.0)
    && (forall k :: L.VelocityLo(p) <= k < L.VelocityHi(p) ==> s.solOld[k] == wallVel[k - L.VelocityLo(p)])
    && (implicit ==> forall r: nat :: L.VelocityLo(p) <= r < L.VelocityHi(p) ==> IsIdentityRow(s.jac, r))
  }

  /** Velocity_Old of a wall point: the grid velocity on a moving mesh, zero otherwise. */
  function WallVelocity(L: Layout, dynamicGrid: bool, gridVel: seq<real>): (w: seq<real>)
    requires |gridVel| == L.nDim
    ensures |w| == L.nDim
    ensures dynamicGrid ==> w == gridVel
    ensures !dynamicGrid ==> forall d :: 0 <= d < L.nDim ==> w[d] == 0.0
  {
    if dynamicGrid then gridVel else Zeros(L.nDim)
  }

  /**
   * The velocity part of a wall vertex: SetVelocity_Old, LinSysRes(iPoint, 1..nDim) = 0 and
   * SetVel_ResTruncError_Zero. Nothing outside the velocity entries of p changes.
   */
  function NoSlip(L: Layout, s: FlowState, p: nat, wallVel: seq<real>): (t: FlowState)
    requires L.Valid() && Sized(L, s) && p < L.nPoint && |wallVel| == L.nDim
    ensures Sized(L, t)
    ensures NoSlipHolds(L, t, p, wallVel, false)
    ensures t.jac == s.jac
    ensures UnchangedOutside(s, t, L.VelocityLo(p), L.VelocityHi(p))
  {
    IndexInRange(p, L.nDim + 1, L.nPoint, L.nVar);
    var lo := L.VelocityLo(p);
    var hi := L.VelocityHi(p);
    FlowState(ZeroRange(s.res, lo, hi), WriteRange(s.solOld, lo, wallVel), ZeroRange(s.truncErr, lo, hi), s.jac)
  }

  /**
   * The no-slip part of a wall loop body on the solver's own arrays: SetVelocity_Old,
   * LinSysRes(p, 1..nDim) = 0 and SetVel_ResTruncError_Zero. jac is the Jacobian that goes
   * with the arrays; it is not changed.
   */
  method ApplyNoSlip(L: Layout, res: array<real>, solOld: array<real>, truncErr: array<real>, ghost jac: Matrix,
                     p: nat, wallVel: seq<real>)
    requires L.Valid() && res != solOld && res != truncErr && solOld != truncErr
    requires res.Length == L.nPoint * L.nVar && solOld.Length == L.nPoint * L.nVar && truncErr.Length == L.nPoint * L.nVar
    requires p < L.nPoint && |wallVel| == L.nDim
    modifies res, solOld, truncErr
    ensures FlowState(res[..], solOld[..], truncErr[..], jac)
            == NoSlip(L, FlowState(old(res[..]), old(solOld[..]), old(truncErr[..]), jac), p, wallVel)
  {
    IndexInRange(p, L.nDim + 1, L.nPoint, L.nVar);
    SetValues(solOld, L.VelocityLo(p), wallVel);
    SetZero(res, L.VelocityLo(p), L.VelocityHi(p));
    SetZero(truncErr, L.VelocityLo(p), L.VelocityHi(p));
  }

  /** dT/dn at the wall from the temperature of the normal neighbour and the wall temperature. */
  function WallNormalGradient(there: real, twall: real, dist: real): (g: real)
    requires dist != 0.0
    ensures g * dist == twall - there
  {
    -(there - twall) / dist
  }

  /** The Velocity_Old of every point: grid velocity on a moving mesh, zero otherwise. */
  ghost function WallVelocities(L: Layout, g: WallGeometry, dynamicGrid: bool): (w: seq<seq<real>>)
    requires GeometrySized(L, g)
    ensures |w| == L.nPoint
    ensures forall p :: 0 <= p < L.nPoint ==> w[p] == WallVelocity(L, dynamicGrid, g.gridVel[p])
  {
    seq(L.nPoint, p requires 0 <= p < L.nPoint => WallVelocity(L, dynamicGrid, g.gridVel[p]))
  }

  /** An nVar x nVar block that is zero except for its energy row (row nDim + 1). */
  function EnergyBlock(L: Layout, row: seq<real>): (b: seq<seq<real>>)
    requires L.Valid() && |row| == L.nVar
    ensures IsSquareBlock(b, L.nVar)
    ensures b[L.nDim + 1] == row
    ensures forall a, c :: 0 <= a < L.nVar && a != L.nDim + 1 && 0 <= c < L.nVar ==> b[a][c] == 0.0
  {
    var z := Zeros(L.nVar);
    var b := seq(L.nVar, a => if a == L.nDim + 1 then row else z);
    assert forall a :: 0 <= a < L.nVar ==> b[a] == if a == L.nDim + 1 then row else z;
    b
  }

  /** Adding an energy-row block to the diagonal of point p leaves every other row as it was. */
  lemma AddEnergyBlockOtherRows(L: Layout, m: Matrix, p: nat, row: seq<real>)
    requires L.Valid() && |row| == L.nVar
    ensures var m2 := AddBlock2Diag(m, p, L.nVar, EnergyBlock(L, row));
            forall r: nat, c: nat :: r != L.EnergyIndex(p) ==> m2(r, c) == m(r, c)
  {
    var blk := EnergyBlock(L, row);
    var m2 := AddBlock2Diag(m, p, L.nVar, blk);
    var base := p * L.nVar;
    forall r: nat, c: nat | r != L.EnergyIndex(p)
      ensures m2(r, c) == m(r, c)
    {
      if base <= r < base + L.nVar && base <= c < base + L.nVar {
        var a := r - base;
        var b := c - base;
        assert blk[a][b] == 0.0;
        assert m2(base + a, base + b) == m(base + a, base + b) + blk[a][b];
      }
    }
  }

  /** Entry c of a row laid over the columns of point p; 0 in every other column. */
  function BlockRowEntry(L: Layout, p: nat, row: seq<real>, c: nat): real
    requires |row| == L.nVar
  {
    if L.BlockLo(p) <= c < L.BlockHi(p) then row[c - L.BlockLo(p)] else 0.0
  }

  /** ... and adds the row to the energy row of p, in the columns of p only. */
  lemma AddEnergyBlockEnergyRow(L: Layout, m: Matrix, p: nat, row: seq<real>, c: nat)
    requires L.Valid() && |row| == L.nVar
    ensures var m2 := AddBlock2Diag(m, p, L.nVar, EnergyBlock(L, row));
            m2(L.EnergyIndex(p), c) == m(L.EnergyIndex(p), c) + BlockRowEntry(L, p, row, c)
  {
    var blk := EnergyBlock(L, row);
    assert blk[L.nDim + 1] == row;
  }

  /**
   * The energy part shared by the compressible wall loops: delta is added to the energy
   * residual of p and, under implicit integration, row (when addRow) is added to the energy
   * row of the diagonal block of p before the velocity rows of p are deleted.
   */
  function EnergyUpdate(L: Layout, s: FlowState, p: nat, delta: real, implicit: bool, addRow: bool, row: seq<real>): (t: FlowState)
    requires L.Valid() && Sized(L, s) && p < L.nPoint && |row| == L.nVar
    ensures Sized(L, t)
    ensures t.solOld == s.solOld && t.truncErr == s.truncErr
    ensures L.EnergyIndex(p) < |s.res|
    ensures forall k :: 0 <= k < |s.res| ==> t.res[k] == if k == L.EnergyIndex(p) then s.res[k] + delta else s.res[k]
    ensures !implicit ==> t.jac == s.jac
  {
    IndexInRange(p, L.nDim + 1, L.nPoint, L.nVar);
    var e := L.EnergyIndex(p);
    var s1 := s.(res := s.res[e := s.res[e] + delta]);
    if !implicit then s1
    else
      var jac1 := if addRow then AddBlock2Diag(s1.jac, p, L.nVar, EnergyBlock(L, row)) else s1.jac;
      s1.(jac := DeleteRows(jac1, L.VelocityLo(p), L.VelocityHi(p)))
  }

  /**
   * The energy part of a wall loop body on the solver's arrays: LinSysRes(p, nDim + 1) += delta
   * and, under implicit integration, AddBlock2Diag of the energy row (when addRow) followed by
   * DeleteValsRowi of the velocity rows of p. Returns the new Jacobian.
   */
  method ApplyEnergyUpdate(L: Layout, res: array<real>, solOld: array<real>, truncErr: array<real>, jac: Matrix,
                           p: nat, delta: real, implicit: bool, addRow: bool, row: seq<real>) returns (jac2: Matrix)
    requires L.Valid() && res != solOld && res != truncErr
    requires res.Length == L.nPoint * L.nVar && solOld.Length == L.nPoint * L.nVar && truncErr.Length == L.nPoint * L.nVar
    requires p < L.nPoint && |row| == L.nVar
    modifies res
    ensures FlowState(res[..], solOld[..], truncErr[..], jac2)
            == EnergyUpdate(L, FlowState(old(res[..]), solOld[..], truncErr[..], jac), p, delta, implicit, addRow, row)
  {
    IndexInRange(p, L.nDim + 1, L.nPoint, L.nVar);
    var e := L.EnergyIndex(p);
    res[e] := res[e] + delta;
    jac2 := jac;
    if implicit {
      if addRow {
        jac2 := AddBlock2Diag(jac2, p, L.nVar, EnergyBlock(L, row));
      }
      jac2 := DeleteRowsInPlace(jac2, L.VelocityLo(p), L.VelocityHi(p));
    }
  }

  /** The energy part changes nothing outside the block of p. */
  lemma EnergyUpdateLocal(L: Layout, s: FlowState, p: nat, delta: real, implicit: bool, addRow: bool, row: seq<real>)
    requires L.Valid() && Sized(L, s) && p < L.nPoint && |row| == L.nVar
    ensures UnchangedOutside(s, EnergyUpdate(L, s, p, delta, implicit, addRow, row), L.BlockLo(p), L.BlockHi(p))
  {
    var t := EnergyUpdate(L, s, p, delta, implicit, addRow, row);
    if implicit && addRow {
      AddEnergyBlockOtherRows(L, s.jac, p, row);
    }
  }

  /** Strong no-slip of p survives the energy part, which then also makes the velocity rows identity rows. */
  lemma EnergyUpdateKeepsNoSlip(L: Layout, s: FlowState, p: nat, wallVel: seq<real>,
                                delta: real, implicit: bool, addRow: bool, row: seq<real>)
    requires L.Valid() && Sized(L, s) && p < L.nPoint && |row| == L.nVar
    requires NoSlipHolds(L, s, p, wallVel, false)
    ensures NoSlipHolds(L, EnergyUpdate(L, s, p, delta, implicit, addRow, row), p, wallVel, implicit)
  {
  }

  /**
   * Jacobian rows of p after the energy part under implicit integration: the density row is
   * kept and the energy row gains row in the columns of p (when addRow).
   */
  lemma EnergyUpdateJacobian(L: Layout, s: FlowState, p: nat, delta: real, addRow: bool, row: seq<real>, c: nat)
    requires L.Valid() && Sized(L, s) && p < L.nPoint && |row| == L.nVar
    ensures var t := EnergyUpdate(L, s, p, delta, true, addRow, row);
            t.jac(L.BlockLo(p), c) == s.jac(L.BlockLo(p), c)
            && t.jac(L.EnergyIndex(p), c)
               == s.jac(L.EnergyIndex(p), c) + (if addRow then BlockRowEntry(L, p, row, c) else 0.0)
  {
    if addRow {
      AddEnergyBlockOtherRows(L, s.jac, p, row);
      AddEnergyBlockEnergyRow(L, s.jac, p, row, c);
    }
  }

  /** The same two Jacobian rows when the energy part follows strong no-slip, which leaves the Jacobian alone. */
  lemma NoSlipThenEnergyJacobian(L: Layout, s: FlowState, p: nat, wallVel: seq<real>, delta: real, addRow: bool,
                                 row: seq<real>, c: nat)
    requires L.Valid() && Sized(L, s) && p < L.nPoint && |row| == L.nVar && |wallVel| == L.nDim
    ensures var t := EnergyUpdate(L, NoSlip(L, s, p, wallVel), p, delta, true, addRow, row);
            t.jac(L.BlockLo(p), c) == s.jac(L.BlockLo(p), c)
            && t.jac(L.EnergyIndex(p), c)
               == s.jac(L.EnergyIndex(p), c) + (if addRow then BlockRowEntry(L, p, row, c) else 0.0)
  {
    var s1 := NoSlip(L, s, p, wallVel);
    assert s1.jac == s.jac;
    EnergyUpdateJacobian(L, s1, p, delta, addRow, row, c);
  }

  /**
   * A compressible wall vertex: strong no-slip at p, then the energy part. It changes only the
   * block of p, leaves no-slip holding there and adds delta to the energy residual of p.
   */
  lemma NoSlipThenEnergy(L: Layout, s: FlowState, p: nat, wallVel: seq<real>,
                         delta: real, implicit: bool, addRow: bool, row: seq<real>)
    requires L.Valid() && Sized(L, s) && p < L.nPoint && |row| == L.nVar && |wallVel| == L.nDim
    ensures var t := EnergyUpdate(L, NoSlip(L, s, p, wallVel), p, delta, implicit, addRow, row);
            Sized(L, t)
            && UnchangedOutside(s, t, L.BlockLo(p), L.BlockHi(p))
            && NoSlipHolds(L, t, p, wallVel, implicit)
            && t.res[L.EnergyIndex(p)] == s.res[L.EnergyIndex(p)] + delta
  {
    var s1 := NoSlip(L, s, p, wallVel);
    var t := EnergyUpdate(L, s1, p, delta, implicit, addRow, row);
    UnchangedOutsideWiden(s, s1, L.VelocityLo(p), L.VelocityHi(p), L.BlockLo(p), L.BlockHi(p));
    EnergyUpdateLocal(L, s1, p, delta, implicit, addRow, row);
    UnchangedOutsideTrans(s, s1, t, L.BlockLo(p), L.BlockHi(p));
    EnergyUpdateKeepsNoSlip(L, s1, p, wallVel, delta, implicit, addRow, row);
  }

  /** A narrower changed range is also a wider one. */
  lemma UnchangedOutsideWiden(s: FlowState, t: FlowState, lo: nat, hi: nat, lo2: nat, hi2: nat)
    requires UnchangedOutside(s, t, lo, hi)
    requires lo2 <= lo && hi <= hi2
    ensures UnchangedOutside(s, t, lo2, hi2)
  {
  }

  lemma UnchangedOutsideTrans(s: FlowState, t: FlowState, u: FlowState, lo: nat, hi: nat)
    requires UnchangedOutside(s, t, lo, hi) && UnchangedOutside(t, u, lo, hi)
    ensures UnchangedOutside(s, u, lo, hi)
  {
  }

  // ---------------------------------------------------------------------------------------------
  // The vertex loop of a wall marker as a fold of a per-vertex step.

  type Step = (FlowState, WallVertex) -> FlowState

  /** The state after the loop `for iVertex in verts: step` has run from s. */
  ghost function WallFold(step: Step, s: FlowState, verts: seq<WallVertex>): FlowState
    decreases |verts|
  {
    if verts == [] then s else step(WallFold(step, s, verts[..|verts| - 1]), verts[|verts| - 1])
  }

  /**
   * A step that leaves inactive (halo) vertices alone and, at an active vertex, keeps the
   * state sized and changes nothing outside the block of that vertex's point.
   */
  ghost predicate IsLocalStep(L: Layout, step: Step, active: WallVertex -> bool)
  {
    (forall v: WallVertex :: active(v) ==> v.node < L.nPoint)
    && forall s: FlowState, v: WallVertex :: Sized(L, s) ==>
         Sized(L, step(s, v))
         && (!active(v) ==> step(s, v) == s)
         && (active(v) ==> UnchangedOutside(s, step(s, v), L.BlockLo(v.node), L.BlockHi(v.node)))
  }

  /** At every active vertex the step leaves strong no-slip holding at its point. */
  ghost predicate EnforcesNoSlip(L: Layout, step: Step, active: WallVertex -> bool, wallVel: seq<seq<real>>, implicit: bool)
  {
    forall s: FlowState, v: WallVertex :: Sized(L, s) && active(v) && v.node < |wallVel| ==>
      NoSlipHolds(L, step(s, v), v.node, wallVel[v.node], implicit)
  }

  /** At every active vertex the step adds contrib(v) to the energy entry of its point. */
  ghost predicate AddsToEnergy(L: Layout, step: Step, active: WallVertex -> bool, contrib: WallVertex -> real)
  {
    forall s: FlowState, v: WallVertex ::
      Sized(L, s) && active(v) && L.EnergyIndex(v.node) < |s.res| && L.EnergyIndex(v.node) < |step(s, v).res| ==>
        step(s, v).res[L.EnergyIndex(v.node)] == s.res[L.EnergyIndex(v.node)] + contrib(v)
  }

  /** No active vertex of verts sits on point p. */
  ghost predicate NoActiveVertexAt(verts: seq<WallVertex>, active: WallVertex -> bool, p: nat)
  {
    forall i :: 0 <= i < |verts| && active(verts[i]) ==> verts[i].node != p
  }

  /** Sum of the contributions of the active vertices of verts that sit on point p. */
  ghost function EnergySum(verts: seq<WallVertex>, active: WallVertex -> bool, contrib: WallVertex -> real, p: nat): real
    decreases |verts|
  {
    if verts == [] then 0.0
    else
      var last := verts[|verts| - 1];
      EnergySum(verts[..|verts| - 1], active, contrib, p) + (if active(last) && last.node == p then contrib(last) else 0.0)
  }

  /** Points without active vertices gain nothing. */
  lemma {:induction false} EnergySumAbsent(verts: seq<WallVertex>, active: WallVertex -> bool, contrib: WallVertex -> real, p: nat)
    requires NoActiveVertexAt(verts, active, p)
    ensures EnergySum(verts, active, contrib, p) == 0.0
    decreases |verts|
  {
    if verts != [] {
      var prefix := verts[..|verts| - 1];
      assert NoActiveVertexAt(prefix, active, p) by {
        forall i | 0 <= i < |prefix| && active(prefix[i]) ensures prefix[i].node != p {
          assert prefix[i] == verts[i];
        }
      }
      EnergySumAbsent(prefix, active, contrib, p);
    }
  }

  /** Contributions that are all zero sum to zero. */
  lemma {:induction false} EnergySumZero(verts: seq<WallVertex>, active: WallVertex -> bool, contrib: WallVertex -> real, p: nat)
    requires forall v :: contrib(v) == 0.0
    ensures EnergySum(verts, active, contrib, p) == 0.0
    decreases |verts|
  {
    if verts != [] {
      EnergySumZero(verts[..|verts| - 1], active, contrib, p);
    }
  }

  /** A point with a single active vertex gains exactly that vertex's contribution. */
  lemma {:induction false} EnergySumUnique(verts: seq<WallVertex>, active: WallVertex -> bool, contrib: WallVertex -> real,
                                           p: nat, i: nat)
    requires i < |verts| && verts[i].node == p && active(verts[i])
    requires forall j :: 0 <= j < |verts| && j != i ==> verts[j].node != p
    ensures EnergySum(verts, active, contrib, p) == contrib(verts[i])
    decreases |verts|
  {
    var prefix := verts[..|verts| - 1];
    if i == |verts| - 1 {
      assert NoActiveVertexAt(prefix, active, p) by {
        forall j | 0 <= j < |prefix| && active(prefix[j]) ensures prefix[j].node != p {
          assert prefix[j] == verts[j];
        }
      }
      EnergySumAbsent(prefix, active, contrib, p);
    } else {
      assert prefix[i] == verts[i];
      forall j | 0 <= j < |prefix| && j != i ensures prefix[j].node != p {
        assert prefix[j] == verts[j];
      }
      EnergySumUnique(prefix, active, contrib, p, i);
    }
  }

  lemma {:induction false} WallFoldSized(L: Layout, step: Step, active: WallVertex -> bool, s: FlowState, verts: seq<WallVertex>)
    requires Sized(L, s) && IsLocalStep(L, step, active)
    ensures Sized(L, WallFold(step, s, verts))
    decreases |verts|
  {
    if verts != [] {
      WallFoldSized(L, step, active, s, verts[..|verts| - 1]);
    }
  }

  /** Strong no-slip of point p survives a step at another point q. */
  lemma NoSlipSurvivesOtherPoint(L: Layout, s: FlowState, t: FlowState, p: nat, q: nat, wallVel: seq<real>, implicit: bool)
    requires L.Valid() && p != q
    requires NoSlipHolds(L, s, p, wallVel, implicit)
    requires UnchangedOutside(s, t, L.BlockLo(q), L.BlockHi(q))
    ensures NoSlipHolds(L, t, p, wallVel, implicit)
  {
    BlocksDisjoint(p, q, L.nVar);
    if implicit {
      forall r: nat | L.VelocityLo(p) <= r < L.VelocityHi(p)
        ensures IsIdentityRow(t.jac, r)
      {
        assert IsIdentityRow(s.jac, r);
      }
    }
  }

  /** After the loop, strong no-slip holds at the point of every active vertex. */
  lemma {:induction false} WallFoldEnforcesNoSlip(L: Layout, step: Step, active: WallVertex -> bool,
                                                  wallVel: seq<seq<real>>, implicit: bool,
                                                  s: FlowState, verts: seq<WallVertex>)
    requires L.Valid() && Sized(L, s) && |wallVel| == L.nPoint
    requires IsLocalStep(L, step, active) && EnforcesNoSlip(L, step, active, wallVel, implicit)
    ensures forall i :: 0 <= i < |verts| && active(verts[i]) ==>
              NoSlipHolds(L, WallFold(step, s, verts), verts[i].node, wallVel[verts[i].node], implicit)
    decreases |verts|
  {
    if verts != [] {
      var prefix := verts[..|verts| - 1];
      var last := verts[|verts| - 1];
      var mid := WallFold(step, s, prefix);
      var fin := WallFold(step, s, verts);
      WallFoldEnforcesNoSlip(L, step, active, wallVel, implicit, s, prefix);
      WallFoldSized(L, step, active, s, prefix);
      assert fin == step(mid, last);
      forall i | 0 <= i < |verts| && active(verts[i])
        ensures NoSlipHolds(L, fin, verts[i].node, wallVel[verts[i].node], implicit)
      {
        var p := verts[i].node;
        if i == |verts| - 1 || (active(last) && last.node == p) {
          assert NoSlipHolds(L, step(mid, last), last.node, wallVel[last.node], implicit);
        } else {
          assert prefix[i] == verts[i];
          assert NoSlipHolds(L, mid, p, wallVel[p], implicit);
          if active(last) {
            NoSlipSurvivesOtherPoint(L, mid, fin, p, last.node, wallVel[p], implicit);
          } else {
            assert fin == mid;
          }
        }
      }
    }
  }

  /** After the loop, the block of a point without active vertices is exactly as before. */
  lemma {:induction false} WallFoldFrame(L: Layout, step: Step, active: WallVertex -> bool,
                                         s: FlowState, verts: seq<WallVertex>, p: nat)
    requires L.Valid() && Sized(L, s) && p < L.nPoint
    requires IsLocalStep(L, step, active)
    requires NoActiveVertexAt(verts, active, p)
    ensures UnchangedInside(s, WallFold(step, s, verts), L.BlockLo(p), L.BlockHi(p))
    decreases |verts|
  {
    IndexInRange(p, 0, L.nPoint, L.nVar);
    if verts != [] {
      var prefix := verts[..|verts| - 1];
      var last := verts[|verts| - 1];
      var mid := WallFold(step, s, prefix);
      assert NoActiveVertexAt(prefix, active, p) by {
        forall i | 0 <= i < |prefix| && active(prefix[i]) ensures prefix[i].node != p {
          assert prefix[i] == verts[i];
        }
      }
      WallFoldFrame(L, step, active, s, prefix, p);
      WallFoldSized(L, step, active, s, prefix);
      if active(last) {
        assert last.node != p by { assert verts[|verts| - 1] == last; }
        BlocksDisjoint(p, last.node, L.nVar);
        assert UnchangedOutside(mid, step(mid, last), L.BlockLo(last.node), L.BlockHi(last.node));
      }
    }
  }

  /** After the loop, the energy entry of point p has gained the contributions of its active vertices. */
  lemma {:induction false} WallFoldEnergy(L: Layout, step: Step, active: WallVertex -> bool, contrib: WallVertex -> real,
                                          s: FlowState, verts: seq<WallVertex>, p: nat)
    requires L.Valid() && Sized(L, s) && p < L.nPoint
    requires IsLocalStep(L, step, active) && AddsToEnergy(L, step, active, contrib)
    ensures L.EnergyIndex(p) < |s.res| && Sized(L, WallFold(step, s, verts))
    ensures WallFold(step, s, verts).res[L.EnergyIndex(p)] == s.res[L.EnergyIndex(p)] + EnergySum(verts, active, contrib, p)
    decreases |verts|
  {
    IndexInRange(p, L.nDim + 1, L.nPoint, L.nVar);
    WallFoldSized(L, step, active, s, verts);
    if verts != [] {
      var prefix := verts[..|verts| - 1];
      var last := verts[|verts| - 1];
      var mid := WallFold(step, s, prefix);
      WallFoldEnergy(L, step, active, contrib, s, prefix, p);
      if active(last) {
        if last.node != p {
          BlocksDisjoint(p, last.node, L.nVar);
          assert UnchangedOutside(mid, step(mid, last), L.BlockLo(last.node), L.BlockHi(last.node));
        }
      }
    }
  }

  /**
   * The whole marker loop of a local step that enforces no-slip and adds to the energy:
   * no-slip at every active vertex, untouched blocks at points without active vertices,
   * and the energy residual of each point increased by its vertices' contributions.
   */
  lemma WallFoldProperties(L: Layout, step: Step, active: WallVertex -> bool, contrib: WallVertex -> real,
                           wallVel: seq<seq<real>>, implicit: bool, s: FlowState, verts: seq<WallVertex>)
    requires L.Valid() && Sized(L, s) && |wallVel| == L.nPoint
    requires IsLocalStep(L, step, active) && EnforcesNoSlip(L, step, active, wallVel, implicit)
    requires AddsToEnergy(L, step, active, contrib)
    ensures Sized(L, WallFold(step, s, verts))
    ensures forall p :: 0 <= p < L.nPoint ==> L.EnergyIndex(p) < |s.res|
    ensures forall i :: 0 <= i < |verts| && active(verts[i]) ==>
              NoSlipHolds(L, WallFold(step, s, verts), verts[i].node, wallVel[verts[i].node], implicit)
    ensures forall p :: 0 <= p < L.nPoint && NoActiveVertexAt(verts, active, p) ==>
              UnchangedInside(s, WallFold(step, s, verts), L.BlockLo(p), L.BlockHi(p))
    ensures forall p :: 0 <= p < L.nPoint ==>
              WallFold(step, s, verts).res[L.EnergyIndex(p)] == s.res[L.EnergyIndex(p)] + EnergySum(verts, active, contrib, p)
  {
    WallFoldSized(L, step, active, s, verts);
    WallFoldEnforcesNoSlip(L, step, active, wallVel, implicit, s, verts);
    forall p | 0 <= p < L.nPoint
      ensures L.EnergyIndex(p) < |s.res|
    {
      IndexInRange(p, L.nDim + 1, L.nPoint, L.nVar);
    }
    forall p | 0 <= p < L.nPoint && NoActiveVertexAt(verts, active, p)
      ensures UnchangedInside(s, WallFold(step, s, verts), L.BlockLo(p), L.BlockHi(p))
    {
      WallFoldFrame(L, step, active, s, verts, p);
    }
    forall p | 0 <= p < L.nPoint
      ensures WallFold(step, s, verts).res[L.EnergyIndex(p)] == s.res[L.EnergyIndex(p)] + EnergySum(verts, active, contrib, p)
    {
      WallFoldEnergy(L, step, active, contrib, s, verts, p);
    }
  }
}
