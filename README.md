# SU2 wall boundary conditions, wall functions, turbulence-solver rules and iteration control in Dafny

This project models the discrete rules in the core of the SU2 flow solvers. It covers both solvers:

- the compressible Navier-Stokes solver, `CNSSolver`;
- the incompressible Navier-Stokes solver, `CIncNSSolver`.

The model covers these parts of SU2:

- **Wall boundaries.** The wall boundary conditions change three things:
  - the residual vector `LinSysRes`;
  - the `Solution_Old` snapshot, which holds the old velocity and temperature;
  - the rows of the sparse Jacobian.

  The wall conditions modelled are:
  - the compressible heat-flux wall (`BC_HeatFlux_Wall_Generic`);
  - the compressible isothermal and conjugate-heat walls (`BC_Isothermal_Wall_Generic`);
  - the incompressible generic wall (`BC_Wall_Generic`);
  - the incompressible conjugate-heat interface (`BC_ConjugateHeat_Interface`).
- **Conjugate-heat wall temperature.** The coupling-mode rule `GetCHTWallTemperature`.
- **Wall-function control flow.** In `SetTau_Wall_WF`:
  - the small-y+ skip;
  - the Newton loop capped at `max_iter`;
  - the fallback values;
  - the two counters;
  - the clipping of the eddy viscosity.
- **Non-physical point count.** `SetPrimitive_Variables` in both solvers.
- **Turbulence solver (`CTurbSolver`).**
  - The Riemann and Giles boundary dispatch.
  - The restart loader:
    - its column skipping;
    - its point count and row offset;
    - its fatal mismatch check;
    - the restriction of the solution to a coarse multigrid level.
  - `Impose_Fixed_Values`: the TS transition-model region and the half-plane of fixed far-field values.
  - `BC_Fluid_Interface`: the donor-weighted accumulation.
- **Fluid iteration driver (`CFluidIteration`).**
  - `Solve`: the bounded inner loop.
  - `Iterate`: the solver-kind dispatch and the sub-solve conditions.
  - `Monitor`: the fixed-CL override.
  - The gust wavelength check.
- **Lookup tables (`option_structure.hpp`).**
  - The element-type tables.
  - The output-format predicates.
  - The two option-checking messages.

## How the model is built

**State and arrays.**
- The solver state is one object per solver.
  - `CNSSolverModel.CNSSolver`, `IncNSSolverModel.CIncNSSolver` and `TurbSolverModel.CTurbSolver` are classes.
  - Their residual, old-solution and truncation-error arrays are `array<real>`, indexed by `iPoint * nVar + iVar`.
  - The Jacobian is a matrix-valued field that the methods reassign.
- Each change the SU2 sparse matrix makes is a function in `LinearSystem`:
  - `DeleteValsRowi`
  - `AddBlock2Diag`
  - `SubtractBlock2Diag`
  - `AddVal2Diag`

**Vertex loops.**
- Every vertex loop is a `while` loop in a method.
- Its specification is a fold of a per-vertex step over the vertex list: `WallBC.WallFold` for the walls.
- The lemmas about the fold state what SU2 promises for the whole marker:
  - no-slip at every domain vertex;
  - halo vertices and points off the marker are untouched;
  - the energy row gains the sum of the weak heat-flux contributions.

**Values and inputs.**
- Values are `real`.
- Enumerations are `nat` codes with the values of `option_structure.hpp`, so unknown codes stay reachable.
- These formulas become per-vertex inputs or uninterpreted parameters:
  - the physics SU2 computes with transcendental functions: the law of the wall, square roots, norms;
  - the numerics classes;
  - the fluid model.

**Errors.**
- A call to `SU2_MPI::Error` is modelled in one of two ways:
  - a `Fatal(message)` result on a function;
  - an `Aborted(message)` status on a method.

## Model

| member | source | states |
|---|---|---|
| OptionStructure.NFacesOfElementType | Common/include/option_structure.hpp:160-171 | The face count is at most N_FACES_MAXIMUM. It is non-zero exactly for the seven element codes of the table. |
| OptionStructure.NPointsOfElementType | Common/include/option_structure.hpp:178-189 | The point count is at most N_POINTS_MAXIMUM. It is non-zero exactly for the seven element codes. |
| OptionStructure.ElementTableEntries | Common/include/option_structure.hpp:137-153 | The table gives each element type its point and face counts: LINE 2/1, TRIANGLE 3/3, QUADRILATERAL 4/4, TETRAHEDRON 4/4, HEXAHEDRON 8/6, PYRAMID 5/5, PRISM 6/5. VERTEX gives 0/0. |
| OptionStructure.FacesNotMoreThanPoints | Common/include/option_structure.hpp:137-153 | No element has more faces than points. Faces equal points for the triangle and the quadrilateral. |
| OptionStructure.ExactlyNElemTypesKnown | Common/include/option_structure.hpp:135-189 | N_ELEM_TYPES is 7. Exactly that many codes have a non-zero point count, and exactly that many have a non-zero face count. |
| OptionStructure.OutputCode | Common/include/option_structure.hpp:1646-1667 | Every output format has a code in 1..20. |
| OptionStructure.OutputCodeInjective | Common/include/option_structure.hpp:1646-1667 | Two different output formats never share a code. |
| OptionStructure.FormatFamiliesByCode | Common/include/option_structure.hpp:1693-1721 | isTecplot holds exactly for the Tecplot formats (codes 1..4). isParaview holds exactly for the Paraview formats (codes 7..10 and 16..18). |
| OptionStructure.FormatFamiliesDisjoint | Common/include/option_structure.hpp:1693-1721 | No format is both Tecplot and Paraview. CSV, STL, CGNS, the restart formats and the mesh format are neither. |
| OptionStructure.OptionCheckMultipleValues | Common/include/option_structure.hpp:2309-2318 | The message is empty iff exactly one value was given. Otherwise it is the option name, then ": multiple values for type ", then the type name. |
| OptionStructure.BadValue | Common/include/option_structure.hpp:2320-2326 | The message is never empty. It is the option name, then ": improper option value for type ", then the type name, whatever the values. |
| OptionStructure.OptionMessagesDistinct | Common/include/option_structure.hpp:2309-2326 | A bad-value message for an option never equals the multiple-values message for the same option. |
| PointCount.CountNonPhysical | SU2_CFD/src/solvers/CNSSolver.cpp:128-168 | The number of non-physical points is at most the number of points. |
| PointCount.CountIsCardinality | SU2_CFD/src/solvers/CNSSolver.cpp:128-168 | The counter equals the size of the set of points whose primitive recovery failed. |
| PointCount.CountZeroIffAllPhysical | SU2_CFD/src/solvers/CIncNSSolver.cpp:148-186 | The count is zero iff every point is physical. |
| ConjugateHeat.GetCHTWallTemperature | SU2_CFD/src/solvers/CNSSolver.cpp:534-561 | Any mode other than the two averaged and the two direct modes is fatal, with the coupling-mode message. A direct mode returns the conjugate temperature over the reference temperature. An averaged mode returns T with T·(f_h + f_c) = T_here·f_h + T_conj·f_c. |
| ConjugateHeat.AveragedWallTemperatureBetween | SU2_CFD/src/solvers/CNSSolver.cpp:543-558 | With positive factors f_h and f_c, the averaged wall temperature lies between T_here and T_conj. |
| WallBC.WallVelocity | SU2_CFD/src/solvers/CNSSolver.cpp:464-469 | The wall velocity is the grid velocity on a moving mesh and zero otherwise. It always has nDim entries. |
| WallBC.NoSlip | SU2_CFD/src/solvers/CNSSolver.cpp:464-472 | At the point, the velocity residual rows and truncation errors become 0, and the old velocity becomes the wall velocity. Every entry outside those rows is unchanged, and the Jacobian is unchanged. |
| WallBC.ApplyNoSlip | SU2_CFD/src/solvers/CNSSolver.cpp:464-472 | The in-place updates of the residual, old-solution and truncation-error arrays leave exactly the state NoSlip describes. |
| WallBC.WallNormalGradient | SU2_CFD/src/solvers/CNSSolver.cpp:977 | The wall-normal temperature gradient times the distance equals T_wall − T_normal. |
| WallBC.WallVelocities | SU2_CFD/src/solvers/CNSSolver.cpp:464-469 | Each vertex gets the wall velocity of its own point, with nDim entries. |
| WallBC.EnergyBlock | SU2_CFD/src/solvers/CNSSolver.cpp:496-519 | The Jacobian block has nVar×nVar entries. Only its energy row is non-zero, and that row holds the given entries. |
| WallBC.AddEnergyBlockOtherRows | SU2_CFD/src/solvers/CNSSolver.cpp:517-519 | Adding the energy block leaves every Jacobian row other than the energy row of the point unchanged. |
| WallBC.AddEnergyBlockEnergyRow | SU2_CFD/src/solvers/CNSSolver.cpp:517-519 | Adding the energy block adds the given row entries to the energy row of the point, inside its own block. |
| WallBC.EnergyUpdate | SU2_CFD/src/solvers/CNSSolver.cpp:490-524 | The residual changes only at the energy index of the point, by the given delta. The old solution and the truncation error are unchanged. Without implicit integration the Jacobian is unchanged. |
| WallBC.ApplyEnergyUpdate | SU2_CFD/src/solvers/CNSSolver.cpp:490-524 | The in-place energy update leaves exactly the state EnergyUpdate describes. |
| WallBC.EnergyUpdateLocal | SU2_CFD/src/solvers/CNSSolver.cpp:490-524 | The energy update touches no residual, old-solution or truncation-error entry outside the energy index of the point. |
| WallBC.EnergyUpdateKeepsNoSlip | SU2_CFD/src/solvers/CNSSolver.cpp:464-524 | The energy update after the no-slip condition keeps the no-slip condition at the point. |
| WallBC.EnergyUpdateJacobian | SU2_CFD/src/solvers/CNSSolver.cpp:517-524 | The density row of the Jacobian is unchanged. With an energy block, the energy row gains the block's entries. |
| WallBC.NoSlipThenEnergyJacobian | SU2_CFD/src/solvers/CNSSolver.cpp:517-524 | Under implicit integration, after the no-slip and energy updates of a point, its density Jacobian row is unchanged. Its energy row is not deleted: it gains exactly the energy block entries. |
| WallBC.NoSlipThenEnergy | SU2_CFD/src/solvers/CNSSolver.cpp:464-524 | After both updates, nothing outside the block of the point has changed and the no-slip condition holds, with identity velocity rows when implicit. The energy residual gained exactly the delta. |
| WallBC.AnyDomainVertexExists | SU2_CFD/src/solvers/CNSSolver.cpp:433 | The recursive "some vertex lies in the domain" test holds exactly when some vertex of the list lies in the domain. |
| WallBC.EnergySumAbsent | SU2_CFD/src/solvers/CNSSolver.cpp:425-531 | A point that no domain vertex of the marker reaches receives no energy contribution. |
| WallBC.EnergySumZero | SU2_CFD/src/solvers/CNSSolver.cpp:425-531 | When every vertex contributes zero, no point receives an energy contribution. |
| WallBC.EnergySumUnique | SU2_CFD/src/solvers/CNSSolver.cpp:425-531 | A point reached by exactly one domain vertex receives exactly that vertex's contribution. |
| WallBC.WallFoldSized | SU2_CFD/src/solvers/CNSSolver.cpp:425-531 | The vertex loop keeps the sizes of all arrays. |
| WallBC.WallFoldEnforcesNoSlip | SU2_CFD/src/solvers/CNSSolver.cpp:464-472 | After the marker loop, the point of every domain vertex has a zero velocity residual and truncation error, and its wall velocity as old velocity. Under implicit integration its velocity Jacobian rows are identity rows. |
| WallBC.WallFoldFrame | SU2_CFD/src/solvers/CNSSolver.cpp:433 | A point with no domain vertex of the marker keeps its residual, old solution, truncation error and Jacobian rows. This covers halo vertices and points off the marker. |
| WallBC.WallFoldEnergy | SU2_CFD/src/solvers/CNSSolver.cpp:490 | After the marker loop, each point's energy residual is its old value plus the sum of its domain vertices' contributions. |
| WallBC.WallFoldProperties | SU2_CFD/src/solvers/CNSSolver.cpp:425-531 | The four wall properties (sizes, no-slip, frame, energy sum) hold together for any per-vertex step that satisfies the wall-step contract. |
| LinearSystem.Zeros | SU2_CFD/src/solvers/CIncNSSolver.cpp:151 | The vector has the requested length and every entry is zero. |
| LinearSystem.DeleteValsRowi | SU2_CFD/src/solvers/CNSSolver.cpp:521-524 | The row becomes an identity row: 1 on the diagonal and 0 elsewhere. Every other row is unchanged. |
| LinearSystem.DeleteRows | SU2_CFD/src/solvers/CNSSolver.cpp:1020-1023 | Every row in the range becomes an identity row. Rows outside the range are unchanged. |
| LinearSystem.DeleteRowsInPlace | SU2_CFD/src/solvers/CNSSolver.cpp:1020-1023 | The loop that deletes row after row gives exactly DeleteRows. |
| LinearSystem.AddBlock2Diag | SU2_CFD/src/solvers/CNSSolver.cpp:517-519 | The block is added to the diagonal block of the point. All entries outside that block are unchanged. |
| LinearSystem.SubtractBlock2Diag | SU2_CFD/src/solvers/CTurbSolver.cpp:202 | The block is subtracted from the diagonal block of the point. All entries outside that block are unchanged. |
| LinearSystem.AddVal2Diag | SU2_CFD/src/solvers/CIncNSSolver.cpp:321 | The value is added to one diagonal entry. All other entries are unchanged. |
| LinearSystem.ZeroRange | SU2_CFD/src/solvers/CTurbSolver.cpp:364 | The entries of the range become zero. The length and all other entries are unchanged. |
| LinearSystem.SetZero | SU2_CFD/src/solvers/CTurbSolver.cpp:364 | The in-place loop gives exactly ZeroRange. |
| LinearSystem.WriteRange | SU2_CFD/src/solvers/CTurbSolver.cpp:362-363 | The range holds the written values. All other entries are unchanged. |
| LinearSystem.SetValues | SU2_CFD/src/solvers/CTurbSolver.cpp:362-363 | The in-place loop gives exactly WriteRange. |
| LinearSystem.AddRange | SU2_CFD/src/solvers/CTurbSolver.cpp:166-167 | Each entry of the range gains the matching value. All other entries are unchanged. |
| LinearSystem.AddValues | SU2_CFD/src/solvers/CTurbSolver.cpp:166-167 | The in-place loop gives exactly AddRange. |
| LinearSystem.SubtractRange | SU2_CFD/src/solvers/CTurbSolver.cpp:198 | Each entry of the range loses the matching value. All other entries are unchanged. |
| LinearSystem.SubtractValues | SU2_CFD/src/solvers/CTurbSolver.cpp:198 | The in-place loop gives exactly SubtractRange. |
| LinearSystem.SquaredNorm | SU2_CFD/src/solvers/CTurbSolver.cpp:342 | The squared Euclidean norm is never negative. |
| CNSWall.VertexHeatFlux | SU2_CFD/src/solvers/CNSSolver.cpp:404-442 | The wall heat flux depends on the marker: a Python-customised marker uses its custom value; HEAT_FLUX uses the configured flux over the reference flux; HEAT_TRANSFER uses h·(T∞ − T_wall); any other kind has 0. |
| CNSWall.HeatFluxEnergyResidual | SU2_CFD/src/solvers/CNSSolver.cpp:457-490 | The energy residual change is −q·Area on a static grid. On a moving grid it is the convective term minus (q·Area + the viscous term). |
| CNSWall.HeatFluxEnergyOnStaticWall | SU2_CFD/src/solvers/CNSSolver.cpp:457-490 | On a static grid, a HEAT_FLUX marker lowers the energy row by q·Area. A HEAT_TRANSFER marker lowers it by h·(T∞ − T)·Area. |
| CNSWall.HeatFluxVertexEffect | SU2_CFD/src/solvers/CNSSolver.cpp:464-490 | One domain vertex: the no-slip condition at its point, then its energy residual change. |
| CNSWall.HeatFluxVertexUnfold | SU2_CFD/src/solvers/CNSSolver.cpp:464-524 | One vertex step equals the no-slip update followed by the energy update with that vertex's data. |
| CNSWall.HeatFluxVertexJacobian | SU2_CFD/src/solvers/CNSSolver.cpp:496-524 | Under implicit integration, the density row of the point is unchanged. Its energy row gains the heat-flux Jacobian row exactly when the marker adds one. |
| CNSWall.HeatFluxStepIsWallStep | SU2_CFD/src/solvers/CNSSolver.cpp:425-531 | The heat-flux vertex step satisfies the wall-step contract, so the WallBC fold lemmas apply to it. |
| CNSWall.HeatFluxWallProperties | SU2_CFD/src/solvers/CNSSolver.cpp:393-532 | For the whole marker: the sizes are kept and every domain vertex has no-slip. Halo vertices and points off the marker are unchanged. Each energy residual gains the sum of its vertices' contributions. |
| CNSWall.IsothermalWallTemperature | SU2_CFD/src/solvers/CNSSolver.cpp:969-973 | It is fatal iff the marker is a conjugate-heat interface with an unknown coupling mode. A direct mode gives the conjugate temperature over the reference. An averaged mode gives T with T·(f_h + f_c) = T_here·f_h + T_conj·f_c, where f_h = k·μref/dist as the signature prescribes (see Findings). Otherwise a Python-customised marker uses its custom value, and an isothermal marker its configured temperature over the reference temperature. |
| CNSWall.ChtWallTemperatureAsCalled | SU2_CFD/src/solvers/CNSSolver.cpp:970 | The call as written computes the averaged temperature with the fluid factor dist·μref/k: the distance and the conductivity are swapped. |
| CNSWall.ChtSwappedArgumentsCounterexample | SU2_CFD/src/solvers/CNSSolver.cpp:970 | Under the averaged Neumann mode, with k = 2, dist = 1, μref = 1, T_here = 1, T_conj = 0 and f_c = 1: the intended rule gives 2/3, and the call as written gives 1/3. |
| CNSWall.IsothermalEnergyResidual | SU2_CFD/src/solvers/CNSSolver.cpp:977-1011 | The energy residual change is −k·(dT/dn)·Area, plus the moving-wall term only on a moving grid. |
| CNSWall.IsothermalEnergyOnStaticWall | SU2_CFD/src/solvers/CNSSolver.cpp:977-983 | On a static grid, the energy row changes by k·Area·(T_normal − T_wall)/dist. |
| CNSWall.IsothermalJacobianRow | SU2_CFD/src/solvers/CNSSolver.cpp:987-999 | The isothermal energy Jacobian row has nVar entries. The density entry is k/dist·dT/dρ·Area, with dT/dρ = (−T_wall + (γ−1)/R·|v|²/2)/ρ (IsothermalDensityDerivative). The momentum entries are 0. The energy entry is k/dist·(γ−1)/(R·ρ)·Area (IsothermalEnergyDerivative). On a moving grid each entry also gains the moving-grid Jacobian entry. |
| CNSWall.IsothermalVertexEffect | SU2_CFD/src/solvers/CNSSolver.cpp:1016-1024 | One domain vertex: the no-slip condition at its point, then its isothermal energy change. |
| CNSWall.IsothermalVertexJacobian | SU2_CFD/src/solvers/CNSSolver.cpp:1017-1024 | Under implicit integration, the density row of the point is unchanged. Its energy row gains the isothermal Jacobian row. |
| CNSWall.IsothermalStepIsWallStep | SU2_CFD/src/solvers/CNSSolver.cpp:955-1025 | The isothermal vertex step satisfies the wall-step contract. |
| CNSWall.IsothermalWallProperties | SU2_CFD/src/solvers/CNSSolver.cpp:883-1031 | For the whole marker, the sizes are kept and every domain vertex has no-slip. |
| CNSWall.IsothermalWallFrame | SU2_CFD/src/solvers/CNSSolver.cpp:955-964 | Halo vertices and points off the marker keep their residual, old solution and truncation error. |
| CNSWall.IsothermalWallEnergy | SU2_CFD/src/solvers/CNSSolver.cpp:1004-1011 | Each point's energy residual gains the sum of its domain vertices' isothermal contributions. |
| CNSSolverModel.CNSSolver.NoSlipPoint | SU2_CFD/src/solvers/CNSSolver.cpp:464-472 | The in-place no-slip update of one point (SetVelocity_Old, zero velocity residual and truncation error) equals NoSlip. |
| CNSSolverModel.CNSSolver.EnergyPoint | SU2_CFD/src/solvers/CNSSolver.cpp:490-524 | The in-place energy update of one point, with the energy row added and the velocity Jacobian rows deleted when implicit, equals WallBC.EnergyUpdate. |
| CNSSolverModel.CNSSolver.BCHeatFluxWallGeneric | SU2_CFD/src/solvers/CNSSolver.cpp:393-532 | The solver state after the vertex loop is the heat-flux marker fold of the state before it. |
| CNSSolverModel.CNSSolver.IsothermalVertexUpdate | SU2_CFD/src/solvers/CNSSolver.cpp:955-1025 | One domain vertex aborts iff its wall temperature is fatal, with that message. Otherwise the in-place update equals the isothermal vertex step. |
| CNSSolverModel.CNSSolver.BCIsothermalWallGeneric | SU2_CFD/src/solvers/CNSSolver.cpp:883-1031 | The run aborts, with the coupling-mode message, iff the marker is a conjugate-heat interface with an unknown coupling mode and has a domain vertex. Otherwise the new state is the isothermal marker fold of the old one. On an averaged conjugate-heat interface the fold uses the wall temperature with the corrected argument order (see Findings). |
| CNSSolverModel.CNSSolver.SetPrimitiveVariables | SU2_CFD/src/solvers/CNSSolver.cpp:128-168 | The returned count is the number of points whose primitive recovery failed, so it is at most nPoint. The DES length scale is copied from the turbulence solver in a hybrid RANS/LES run and kept otherwise. |
| WallFunction.InitialFrictionVelocity | SU2_CFD/src/solvers/CNSSolver.cpp:1172 | The initial friction velocity is at least 1e-6. It equals the shear velocity whenever that is at least 1e-6. |
| WallFunction.InitialNewtonState | SU2_CFD/src/solvers/CNSSolver.cpp:1170-1174 | The Newton loop starts with counter 0, a difference of 1, a friction velocity of at least 1e-6 and the wall temperature of the input. |
| WallFunction.NewtonIteration | SU2_CFD/src/solvers/CNSSolver.cpp:1187-1253 | One Newton pass raises the counter by one and keeps the eddy viscosity at least 1e-6. An isothermal wall keeps its temperature. The density is P/(R·T_wall). |
| WallFunction.NewtonLoopOutcome | SU2_CFD/src/solvers/CNSSolver.cpp:1187-1262 | The loop ends after at most max_iter + 1 passes, and it converged iff it stopped within max_iter. A converged loop has a difference within the tolerance, and one that did not converge has the fallback values. The eddy viscosity stays at least 1e-6, the density follows the wall temperature, and an isothermal wall keeps its temperature. |
| WallFunction.WallFunctionOutcome | SU2_CFD/src/solvers/CNSSolver.cpp:1172-1272 | Small y+ is reported iff the starting y+ is below the minimum. Otherwise the loop runs 1 to max_iter + 1 passes, and it converged iff it ran at most max_iter. A loop that did not converge gives y+ = 30, eddy viscosity 1 and U_τ = 1. The eddy viscosity is at least 1e-6, and an isothermal wall keeps its temperature. |
| WallFunction.WallFunctionVertex | SU2_CFD/src/solvers/CNSSolver.cpp:1146-1276 | The while loop for one vertex returns exactly the outcome WallFunctionOutcome describes. |
| CNSSolverModel.WallFunctionStepEffect | SU2_CFD/src/solvers/CNSSolver.cpp:1085-1276 | A halo vertex changes nothing. A small starting y+ only increments the small-y+ counter. Otherwise y+, U_τ and the eddy viscosity are written for the vertex with the viscosity at least 1e-6; the not-converged counter rises by at most one, and when it does the fallback values are written. An isothermal marker keeps the nodes. |
| CNSSolverModel.WallFunctionStepCounters | SU2_CFD/src/solvers/CNSSolver.cpp:1180-1261 | Both counters never decrease. Together they rise by at most one per vertex. |
| CNSSolverModel.WallFunctionStepFrame | SU2_CFD/src/solvers/CNSSolver.cpp:1085-1276 | The step keeps every eddy viscosity at least 1e-6. The values of every other vertex are unchanged. |
| CNSSolverModel.WallFunctionMarkerFoldCounters | SU2_CFD/src/solvers/CNSSolver.cpp:1071-1277 | Over n vertices of one marker, the counters never decrease and together rise by at most n. |
| CNSSolverModel.WallFunctionMarkerFoldClipped | SU2_CFD/src/solvers/CNSSolver.cpp:1234 | Over a marker, every stored eddy viscosity stays at least 1e-6. |
| CNSSolverModel.WallFunctionMarkerFoldFrame | SU2_CFD/src/solvers/CNSSolver.cpp:1071-1277 | Over a marker, vertices that were not written keep their values. |
| CNSSolverModel.WallFunctionFoldProperties | SU2_CFD/src/solvers/CNSSolver.cpp:1071-1277 | Over all markers: the counters are monotone, and their sum is at most the number of wall-function vertices. Clipping is preserved, and unwritten vertices keep their values. |
| CNSSolverModel.CNSSolver.WallFunctionVertexUpdate | SU2_CFD/src/solvers/CNSSolver.cpp:1085-1276 | The in-place update of one vertex equals the wall-function step. |
| CNSSolverModel.CNSSolver.WallFunctionMarkerPass | SU2_CFD/src/solvers/CNSSolver.cpp:1071-1277 | The loop over the vertices of one marker equals the marker fold. |
| CNSSolverModel.CNSSolver.SetTauWallWF | SU2_CFD/src/solvers/CNSSolver.cpp:1048-1309 | The state after the marker loop is the wall-function fold. The not-converged and small-y+ counters sum to at most the number of wall-function vertices, and clipping is preserved. |
| IncNSWall.WallGenericValue | SU2_CFD/src/solvers/CIncNSSolver.cpp:209-222 | It is fatal iff the wall kind is neither HEAT_FLUX nor ISOTHERMAL, or a wall-function treatment is set. The wall-kind message wins when both hold. Otherwise value·reference equals the configured heat flux or temperature. |
| IncNSWall.NoSlipDeleted | SU2_CFD/src/solvers/CIncNSSolver.cpp:244-261 | The no-slip condition holds at the point, with identity velocity Jacobian rows when implicit. When energy rows are deleted too and the integration is implicit, the energy row is an identity row. Nothing outside these rows changes. |
| IncNSWall.EnergyAndDiagonal | SU2_CFD/src/solvers/CIncNSSolver.cpp:270-321 | Only the energy residual of the point changes, by the delta; the old solution and truncation error are unchanged. Only the energy diagonal entry of the Jacobian can change, and it gains the diagonal term exactly when it is asked for. |
| IncNSWall.EnergyAndDiagonalKeepsNoSlip | SU2_CFD/src/solvers/CIncNSSolver.cpp:244-321 | The energy update keeps the no-slip condition and the deleted velocity rows. |
| IncNSWall.IncWallVertexEffect | SU2_CFD/src/solvers/CIncNSSolver.cpp:244-322 | One domain vertex changes only its own block. It leaves no-slip at its point, and its energy residual gains the vertex contribution. |
| IncNSWall.IncWallVertexJacobian | SU2_CFD/src/solvers/CIncNSSolver.cpp:258-322 | When implicit, the density row of the point is unchanged. The energy row changes only on its diagonal, and only on ISOTHERMAL with energy, by k·proj when dist² > 0 and by 0 otherwise. |
| IncNSWall.IncWallEnergyResidualValue | SU2_CFD/src/solvers/CIncNSSolver.cpp:270-313 | On HEAT_FLUX without streamwise periodicity, the change is −q·Area. On ISOTHERMAL, the change times dist equals k·(T_normal − T_wall)·Area. |
| IncNSWall.IncWallEnergyOff | SU2_CFD/src/solvers/CIncNSSolver.cpp:263 | Without the energy equation, no energy residual changes. |
| IncNSWall.IncWallStepIsWallStep | SU2_CFD/src/solvers/CIncNSSolver.cpp:225-324 | The incompressible wall step satisfies the wall-step contract. |
| IncNSWall.IncWallProperties | SU2_CFD/src/solvers/CIncNSSolver.cpp:188-325 | For the whole marker: the sizes are kept and every domain vertex has no-slip. Other points are unchanged, and each energy residual gains the sum of its vertices' contributions. |
| IncNSWall.IncChtWallTemperature | SU2_CFD/src/solvers/CIncNSSolver.cpp:392-426 | An unknown coupling mode is fatal, with the coupling-mode message. A direct mode gives the conjugate temperature over the reference. An averaged mode gives the conductance-weighted average with f_h = k·μref/dist. |
| IncNSWall.ImposeTemperature | SU2_CFD/src/solvers/CIncNSSolver.cpp:430-432 | The energy residual and the truncation error of the point become 0, and the old temperature becomes the wall temperature. Nothing else changes. |
| IncNSWall.IncChtVertexEffect | SU2_CFD/src/solvers/CIncNSSolver.cpp:364-388 | One vertex changes only its own block and leaves the no-slip condition at its point. |
| IncNSWall.IncChtVertexTemperature | SU2_CFD/src/solvers/CIncNSSolver.cpp:390-432 | With energy and a known mode, the energy residual and truncation error of the point are 0 and its old temperature is the wall temperature; when implicit, its energy Jacobian row is an identity row. Without energy, the energy entries are untouched. |
| IncNSWall.IncChtStepIsWallStep | SU2_CFD/src/solvers/CIncNSSolver.cpp:346-433 | The conjugate-heat vertex step satisfies the wall-step contract. |
| IncNSWall.IncChtFoldImposes | SU2_CFD/src/solvers/CIncNSSolver.cpp:384-432 | After the marker loop, the point of the last domain vertex on each point has the imposed wall temperature, with a zero energy residual. |
| IncNSWall.IncChtWallProperties | SU2_CFD/src/solvers/CIncNSSolver.cpp:339-434 | For the whole marker: the sizes are kept, every domain vertex has no-slip, and points with no domain vertex are unchanged. With energy and a known mode, the wall temperature is imposed as in IncChtFoldImposes. |
| IncNSSolverModel.CIncNSSolver.NoSlipPoint | SU2_CFD/src/solvers/CIncNSSolver.cpp:244-261 | The in-place no-slip update, with the velocity rows (and the energy row when asked) deleted, equals NoSlipDeleted. |
| IncNSSolverModel.CIncNSSolver.EnergyPoint | SU2_CFD/src/solvers/CIncNSSolver.cpp:270-321 | The in-place energy update equals EnergyAndDiagonal. |
| IncNSSolverModel.CIncNSSolver.WallVertexUpdate | SU2_CFD/src/solvers/CIncNSSolver.cpp:225-324 | The in-place update of one domain vertex equals the incompressible wall step. |
| IncNSSolverModel.CIncNSSolver.BCWallGeneric | SU2_CFD/src/solvers/CIncNSSolver.cpp:188-325 | The run aborts iff WallGenericValue is fatal, with its message and the state untouched. Otherwise the new state is the marker fold of the old one. |
| IncNSSolverModel.CIncNSSolver.ChtVertexUpdate | SU2_CFD/src/solvers/CIncNSSolver.cpp:346-433 | One domain vertex aborts iff the energy equation is on and the coupling mode is unknown. Otherwise it equals the conjugate-heat step. |
| IncNSSolverModel.CIncNSSolver.BCConjugateHeatInterface | SU2_CFD/src/solvers/CIncNSSolver.cpp:339-434 | The run aborts iff a wall-function treatment is set (before any change), or energy is on with an unknown coupling mode and the marker has a domain vertex. Otherwise the new state is the conjugate-heat marker fold. |
| IncNSSolverModel.CIncNSSolver.SetPrimitiveVariables | SU2_CFD/src/solvers/CIncNSSolver.cpp:148-186 | The returned count is the number of non-physical points, at most nPoint. Every DES length scale is written: the turbulence value in a hybrid RANS/LES run with a turbulence model and solver, 0 otherwise. |
| TurbRules.RiemannHandler | SU2_CFD/src/solvers/CTurbSolver.cpp:52-60 | TOTAL_CONDITIONS_PT, STATIC_SUPERSONIC_INFLOW_PT, STATIC_SUPERSONIC_INFLOW_PD and DENSITY_VELOCITY go to the inlet. STATIC_PRESSURE goes to the outlet. Every other kind has no handler. |
| TurbRules.TurboRiemannHandler | SU2_CFD/src/solvers/CTurbSolver.cpp:67-75 | The turbomachinery Riemann condition routes the same inlet kinds to the turbo inlet and STATIC_PRESSURE to the outlet. |
| TurbRules.TurboRiemannFollowsRiemann | SU2_CFD/src/solvers/CTurbSolver.cpp:48-76 | The turbomachinery Riemann dispatch is the Riemann dispatch with the inlet handler replaced by the turbo inlet. |
| TurbRules.GilesHandler | SU2_CFD/src/solvers/CTurbSolver.cpp:83-100 | MIXING_IN goes to the mixing-plane inlet iff the mixing-plane flag is set, and to the turbo inlet otherwise. STATIC_PRESSURE, MIXING_OUT, STATIC_PRESSURE_1D and RADIAL_EQUILIBRIUM go to the outlet. |
| TurbRules.GilesAgreesWithRiemann | SU2_CFD/src/solvers/CTurbSolver.cpp:48-101 | Every Riemann outlet kind is a Giles outlet kind. Riemann inlet kinds other than the two supersonic-inflow kinds go to the Giles turbo inlet. Those two kinds have no Giles handler. |
| TurbRules.UnhandledKinds | SU2_CFD/src/solvers/CTurbSolver.cpp:52-100 | TOTAL_SUPERSONIC_INFLOW, SUPERSONIC_OUTFLOW, MIXING_IN_1D and MIXING_OUT_1D have no handler in either dispatch. |
| TurbRules.RestartSkipVars | SU2_CFD/src/solvers/CTurbSolver.cpp:235-247 | skipVars is nDim + nVar_flow, minus one exactly when the run is incompressible with neither the energy equation nor weakly coupled heat. |
| TurbRules.IncompressibleSkipVarsCountsWrittenColumns | SU2_CFD/src/solvers/CTurbSolver.cpp:235-247 | In an incompressible run, skipVars counts the coordinate columns plus the flow columns actually written. |
| TurbRules.CompressibleSkipVarsIsFullRow | SU2_CFD/src/solvers/CTurbSolver.cpp:235-247 | In a compressible run, skipVars is the whole coordinate and flow block. |
| TurbRules.MappedCount | SU2_CFD/src/solvers/CTurbSolver.cpp:252-267 | The counter is the number of global points that map to a local index, so it is at most the number of global points. |
| TurbRules.MappedCountZero | SU2_CFD/src/solvers/CTurbSolver.cpp:252-267 | The counter is zero iff no global point maps to this rank. |
| TurbRules.RestartOffset | SU2_CFD/src/solvers/CTurbSolver.cpp:262 | The offset minus skipVars equals counter·Restart_Vars[1]. |
| TurbRules.RestartRow | SU2_CFD/src/solvers/CTurbSolver.cpp:262-263 | The row read has nVar entries, and entry i is the datum at offset + i. |
| TurbRules.LoadedSolutionIsMatrix | SU2_CFD/src/solvers/CTurbSolver.cpp:251-268 | Loading keeps the solution an nPoint×nVar matrix. |
| TurbRules.LoadedSolutionStep | SU2_CFD/src/solvers/CTurbSolver.cpp:251-268 | One more global point increments the counter iff it is mapped, and it applies one LoadRow step at the current count. |
| TurbRules.LoadedSolutionReadsOwnRow | SU2_CFD/src/solvers/CTurbSolver.cpp:251-268 | When the global-to-local map is injective on its mapped points, the local point of the k-th mapped global point holds the row at offset k·Restart_Vars[1] + skipVars. |
| TurbRules.LoadedPrefixReadsOwnRow | SU2_CFD/src/solvers/CTurbSolver.cpp:251-268 | The same holds after any prefix of the loop. |
| TurbRules.LoadedSolutionLastRow | SU2_CFD/src/solvers/CTurbSolver.cpp:251-268 | After a mapped global point, its local point holds its own row. |
| TurbRules.LoadedSolutionKeepsRow | SU2_CFD/src/solvers/CTurbSolver.cpp:251-268 | The last global point leaves the row of every other local point unchanged. |
| TurbRules.LoadedSolutionLast | SU2_CFD/src/solvers/CTurbSolver.cpp:251-268 | The loaded solution is the loaded prefix followed by one LoadRow step for the last global point, with the count of the prefix. |
| TurbRules.LoadedSolutionKeepsOthers | SU2_CFD/src/solvers/CTurbSolver.cpp:251-268 | Local points that no global point maps to keep their solution. |
| TurbRules.ChildrenOkOfMatrix | SU2_CFD/src/solvers/CTurbSolver.cpp:296-306 | A fine solution matrix gives valid child data for every variable. |
| TurbRules.RestrictedValueStep | SU2_CFD/src/solvers/CTurbSolver.cpp:296-306 | One more child adds its volume-weighted value to the sum. |
| TurbRules.RestrictedValueIsWeightedSum | SU2_CFD/src/solvers/CTurbSolver.cpp:296-306 | The coarse value times the parent volume equals the sum of the children's volume-weighted fine values. |
| TurbRules.WeightedChildSumBounds | SU2_CFD/src/solvers/CTurbSolver.cpp:296-306 | If all child values lie in [lo, hi], the weighted sum lies between lo and hi times the total child volume. |
| TurbRules.RestrictionIsConvex | SU2_CFD/src/solvers/CTurbSolver.cpp:296-306 | When the parent volume is the positive sum of the child volumes, the coarse value lies within the range of the child values. |
| TurbRules.FreestreamTurbulence | SU2_CFD/src/solvers/CTurbSolver.cpp:342-348 | k∞ is not negative and 2·k∞ = 3·\|V∞\|²·I². Also ω∞·μ∞·viscRatio = ρ∞·k∞. |
| TurbRules.FreestreamEddyViscosityRatio | SU2_CFD/src/solvers/CTurbSolver.cpp:342-348 | The freestream eddy viscosity ρ∞·k∞/ω∞ equals μ∞·viscRatio. |
| TurbRules.FreestreamKineticEnergyZero | SU2_CFD/src/solvers/CTurbSolver.cpp:342-348 | k∞ is zero iff the freestream velocity or the turbulence intensity is zero. |
| TurbRules.SquaredNormZeroIff | SU2_CFD/src/solvers/CTurbSolver.cpp:409-411 | The squared norm is zero iff every component is zero. |
| TurbRules.NormZeroIff | SU2_CFD/src/solvers/CTurbSolver.cpp:409-411 | The velocity norm is zero iff the velocity is the zero vector, which is exactly the fatal case. |
| TurbSolverModel.RestartMismatchMessage | SU2_CFD/src/solvers/CTurbSolver.cpp:272-275 | The mismatch message contains the file name and more. |
| TurbSolverModel.FixPointEffect | SU2_CFD/src/solvers/CTurbSolver.cpp:421-427 | Fixing one point gives it the given solution as Solution and Solution_Old and zeroes its residual block. When implicit, its nVar Jacobian rows become identity rows; everything else is unchanged. |
| TurbSolverModel.FixedExactlyCompose | SU2_CFD/src/solvers/CTurbSolver.cpp:416-430 | Fixing one set of points and then another fixes exactly their union. |
| TurbSolverModel.FixedExactlyNone | SU2_CFD/src/solvers/CTurbSolver.cpp:416-430 | Fixing no point changes nothing. |
| TurbSolverModel.FixRegionEffect | SU2_CFD/src/solvers/CTurbSolver.cpp:416-430 | The point loop fixes exactly the domain points in the region, and every other point is unchanged. |
| TurbSolverModel.FarFieldSolution | SU2_CFD/src/solvers/CTurbSolver.cpp:344-348 | Solution_Inf[0] is k∞ and Solution_Inf[1] is ω∞. The other entries are kept. |
| TurbSolverModel.FixedValues | SU2_CFD/src/solvers/CTurbSolver.cpp:403-431 | It is fatal, with the zero-far-field message, iff turbulent fixed values are asked for and the freestream velocity norm is zero. |
| TurbSolverModel.FixedValuesEffect | SU2_CFD/src/solvers/CTurbSolver.cpp:353-431 | When successful, exactly the fixed-value points receive the far-field solution. These are the points of the transition region and, when asked, the domain points with coord·û∞ < MaxScalarProd. Jacobian rows are deleted iff the time integration is implicit. |
| TurbSolverModel.ScaleVector | SU2_CFD/src/solvers/CTurbSolver.cpp:166-167 | Each entry is multiplied by the weight. |
| TurbSolverModel.ScaleBlock | SU2_CFD/src/solvers/CTurbSolver.cpp:168-169 | Each block entry is multiplied by the weight. |
| TurbSolverModel.AccumulateDonorsFrame | SU2_CFD/src/solvers/CTurbSolver.cpp:135-170 | Accumulating donors changes only the residual entries and the Jacobian diagonal block of the point. |
| TurbSolverModel.AccumulateDonorsResidual | SU2_CFD/src/solvers/CTurbSolver.cpp:135-170 | Residual row iVar of the point gains Σ_j weight_j·residual_j[iVar] over the donors. |
| TurbSolverModel.AccumulateDonorsJacobian | SU2_CFD/src/solvers/CTurbSolver.cpp:135-170 | Each entry of the Jacobian diagonal block gains Σ_j weight_j·Jacobian_j over the donors. |
| TurbSolverModel.InterfacePointFrame | SU2_CFD/src/solvers/CTurbSolver.cpp:135-202 | One interface vertex changes only its own point's residual entries and diagonal block. |
| TurbSolverModel.InterfacePointResidual | SU2_CFD/src/solvers/CTurbSolver.cpp:135-202 | Residual row iVar becomes its old value, plus the donor-weighted sum, minus the viscous residual. |
| TurbSolverModel.InterfacePointJacobian | SU2_CFD/src/solvers/CTurbSolver.cpp:135-202 | Each diagonal block entry gains the donor-weighted Jacobian sum minus the viscous Jacobian. |
| TurbSolverModel.InterfacePointKeepsOthers | SU2_CFD/src/solvers/CTurbSolver.cpp:135-202 | Every other point is unchanged. |
| TurbSolverModel.InterfaceVerticesKeepOthers | SU2_CFD/src/solvers/CTurbSolver.cpp:113-205 | Over a marker, points that are not domain interface vertices are unchanged. |
| TurbSolverModel.FluidInterfaceKeepsOthers | SU2_CFD/src/solvers/CTurbSolver.cpp:103-210 | Over all interface markers, points off every interface are unchanged. |
| TurbSolverModel.RestrictPoint | SU2_CFD/src/solvers/CTurbSolver.cpp:296-306 | The child loop for one coarse point returns the restricted value. |
| TurbSolverModel.CTurbSolver.FixPointInPlace | SU2_CFD/src/solvers/CTurbSolver.cpp:421-427 | The in-place fixing of one point equals FixPoint. |
| TurbSolverModel.CTurbSolver.FixRegionInPlace | SU2_CFD/src/solvers/CTurbSolver.cpp:416-430 | The point loop equals FixRegion. |
| TurbSolverModel.CTurbSolver.ImposeFixedValues | SU2_CFD/src/solvers/CTurbSolver.cpp:331-434 | The run aborts iff FixedValues is fatal, and then only the transition stage was applied. Otherwise the state is FixedValues, and Solution_Inf is the far-field solution. |
| TurbSolverModel.CTurbSolver.SetSolutionRow | SU2_CFD/src/solvers/CTurbSolver.cpp:262-263 | The row of the point becomes the given values. No other point changes. |
| TurbSolverModel.CTurbSolver.LoadPoint | SU2_CFD/src/solvers/CTurbSolver.cpp:256-266 | One global point loads its row iff it maps to a local index. |
| TurbSolverModel.CTurbSolver.LoadRestart | SU2_CFD/src/solvers/CTurbSolver.cpp:212-329 | The solution becomes LoadedSolution. The run aborts with the mismatch message iff the mapped count differs from nPointDomain. |
| TurbSolverModel.CTurbSolver.RestrictSolution | SU2_CFD/src/solvers/CTurbSolver.cpp:293-307 | Every coarse point's solution is the volume-weighted restriction of its children. |
| TurbSolverModel.CTurbSolver.AddDonorInPlace | SU2_CFD/src/solvers/CTurbSolver.cpp:160-170 | Adding one donor in place equals AddDonor. |
| TurbSolverModel.CTurbSolver.AccumulateDonorsInPlace | SU2_CFD/src/solvers/CTurbSolver.cpp:135-170 | The donor loop equals AccumulateDonors. |
| TurbSolverModel.CTurbSolver.SubtractViscousInPlace | SU2_CFD/src/solvers/CTurbSolver.cpp:176-202 | Subtracting the viscous residual and Jacobian in place equals SubtractViscous. |
| TurbSolverModel.CTurbSolver.InterfaceVertexInPlace | SU2_CFD/src/solvers/CTurbSolver.cpp:113-203 | One interface vertex in place equals InterfacePoint. |
| TurbSolverModel.CTurbSolver.BCFluidInterface | SU2_CFD/src/solvers/CTurbSolver.cpp:103-210 | The marker and vertex loops equal FluidInterface. |
| FluidIteration.FlowSystemParam | SU2_CFD/src/iteration/CFluidIteration.cpp:75-98 | The EULER family maps to EULER, the NAVIER_STOKES family to NAVIER_STOKES and the RANS family to RANS, each in both directions. Every other kind maps to no flow system. |
| FluidIteration.SolverFamiliesDisjoint | SU2_CFD/src/iteration/CFluidIteration.cpp:75-98 | No solver kind is in two families. |
| FluidIteration.FlowSystemParamIdempotent | SU2_CFD/src/iteration/CFluidIteration.cpp:75-98 | The parameter of a family is itself in that family. |
| FluidIteration.NoFlowSystemForOtherKinds | SU2_CFD/src/iteration/CFluidIteration.cpp:75-98 | HEAT_EQUATION and the other non-flow kinds get no flow system. |
| FluidIteration.FrozenViscosity | SU2_CFD/src/iteration/CFluidIteration.cpp:63-64 | Viscosity is never frozen outside an adjoint run, and only a frozen-viscosity flag can freeze it. In a continuous-only or discrete-only adjoint run it is frozen iff that run's own flag is set. |
| FluidIteration.RunningActions | SU2_CFD/src/iteration/CFluidIteration.cpp:100-160 | An action is run iff it is in the schedule and its condition holds. |
| FluidIteration.RunningActionsDistinct | SU2_CFD/src/iteration/CFluidIteration.cpp:100-160 | No action runs twice. |
| FluidIteration.IterateActions | SU2_CFD/src/iteration/CFluidIteration.cpp:55-160 | The actions of one Iterate are exactly the scheduled actions whose conditions hold. |
| FluidIteration.IterateActionsFlowFirst | SU2_CFD/src/iteration/CFluidIteration.cpp:102-103 | The flow multigrid iteration always runs first, and no action runs twice. |
| FluidIteration.IterateActionsSubSolves | SU2_CFD/src/iteration/CFluidIteration.cpp:107-123 | The turbulence sub-solve runs iff the solver is in the RANS family and viscosity is not frozen. The transition sub-solve also needs the LM model. |
| FluidIteration.IterateActionsCoupledSystems | SU2_CFD/src/iteration/CFluidIteration.cpp:125-145 | The heat sub-solve runs iff heat is weakly coupled. Radiation runs iff it is enabled. CFL adaptation runs iff it is enabled outside a discrete-adjoint run. |
| FluidIteration.IterateActionsGridMotion | SU2_CFD/src/iteration/CFluidIteration.cpp:149-159 | The grid moves iff there is aeroelastic grid movement in an unsteady run. The gust field is reapplied iff the inner iteration is a non-zero multiple of the aeroelastic iteration. |
| FluidIteration.MonitorResult | SU2_CFD/src/iteration/CFluidIteration.cpp:236-245 | In fixed-CL mode, the stop decision is the fixed-CL convergence. Otherwise it is the output convergence. |
| FluidIteration.StopFlags | SU2_CFD/src/iteration/CFluidIteration.cpp:236-245 | Each iteration's stop flag is that iteration's Monitor result. |
| FluidIteration.IterationsRunProperties | SU2_CFD/src/iteration/CFluidIteration.cpp:284-303 | At most nInner_Iter iterations run. None before the last one asked to stop. Stopping early means the last one did ask, and a non-empty budget runs at least one. |
| FluidIteration.IterationsRunWithoutStop | SU2_CFD/src/iteration/CFluidIteration.cpp:284-303 | With no stop flag set, all nInner_Iter iterations run. |
| FluidIteration.IterationsRunFrom | SU2_CFD/src/iteration/CFluidIteration.cpp:284-303 | An iteration that does not stop is followed by the rest of the loop. |
| FluidIteration.SolveConvergenceReset | SU2_CFD/src/iteration/CFluidIteration.cpp:305-315 | The convergence data is reset iff the run is multizone and steady. For the heat equation, the heat solver's data is reset. |
| FluidIteration.GustLengthCheck | SU2_CFD/src/iteration/CFluidIteration.cpp:382-384 | The run aborts, with the gust message, iff the gust wavelength is at most 0 and the gust type is not VORTEX. |
| FluidIteration.IterateLog | SU2_CFD/src/iteration/CFluidIteration.cpp:284-303 | n iterations record n action lists. |
| FluidIteration.IterateLogEntries | SU2_CFD/src/iteration/CFluidIteration.cpp:284-303 | Entry i is the action list of inner iteration i. |
| FluidIteration.CFluidIteration.constructor | SU2_CFD/src/iteration/CFluidIteration.cpp:262-268 | A fresh iteration has inner iteration 0 and nothing performed. |
| FluidIteration.CFluidIteration.Iterate | SU2_CFD/src/iteration/CFluidIteration.cpp:55-160 | One Iterate appends the actions of the current inner iteration. |
| FluidIteration.CFluidIteration.Solve | SU2_CFD/src/iteration/CFluidIteration.cpp:262-317 | The loop runs IterationsRun of the stop flags, at most nInner_Iter, and InnerIter is the last index run. StopCalc is set iff the last iteration run asked to stop. The actions are appended in iteration order, and the convergence reset follows SolveConvergenceReset. |

## Left out

- OpenMP worksharing, atomics and the MPI reductions of the counters: the loops are modelled sequentially, with the counters as plain sums, because concurrency is not modelled.
- Floating point: values are exact reals. IEEE rounding, infinities and NaN are not modelled, and every divisor SU2 divides by is required to be non-zero.
- Square roots, exp, asin, the Spalding and White–Christoph laws and all norms and distances: these are given inputs. The law-of-the-wall terms and the Newton update of the friction velocity are a parameter `WallLaw(terms, update)`. The model decides convergence itself, from |diff| <= 1e-12 and the iteration counter against the maximum.
- The numerics classes (`ComputeResidual`), the fluid model, the geometry queries and the variable classes: their results are per-vertex inputs.
- `AddDynamicGridResidualContribution` and the streamwise-periodic heat term: they are given per-vertex contributions to the residual and the Jacobian.
- `SetVelocity_Old` writes the velocity itself into the old-solution rows; a density scaling inside the compressible variable class is not part of this model.
- `SetPrimVar` internals: the point's physical flag is an input to `SetPrimitive_Variables`.
- `BC_Isothermal_Wall_Generic_Blowing`: it reads the file `blowingTemperature.dat`, so it is left out as I/O.
- `Buffet_Monitoring`, the gust field shapes and the vortex file reader: trigonometric numerics and I/O.
- Restart file reading and console output: the restart data is given as a sequence of reals.
- The multigrid restriction of coarse levels beyond the one modelled, and the communication (`InitiateComms`) after loading.
- In `CFluidIteration`: `Preprocess`, `Postprocess`, `Update`, `SetDualTime_Aeroelastic`, `Output` and the internals of `MonitorFixed_CL`. The integrations are recorded as action names, without their effect on the solution.
- The state after an abort: `SU2_MPI::Error` ends the program, so the model only reports `Fatal`/`Aborted` with the message.
- SU2_CFD/include/numerics/turbulent/turb_sources.hpp and Common/include/toolboxes/MMS/CRinglebSolution.hpp: declarations and a floating-point formula, with no discrete behaviour.
- `NO_WALL_FUNCTION` in `CIncNSSolver` is read as the code 0 of `WALL_FUNCTIONS::NONE`.
- HeatTransferJacobianRow: states only the length of the row; its entries are the physics of the heat-transfer derivative, given as computed.
- HeatFluxJacobianRow: states only the length of the row; its value is used through HeatFluxVertexJacobian.
- HeatFluxRowOrZero: states only the length of the row; which entries are zero is stated by HeatFluxVertexJacobian.
- IsothermalRowOrZero: states only the length of the row. Under implicit integration it is IsothermalJacobianRow, which states every entry; otherwise it is the zero row.
- NFacesOfElementType and NPointsOfElementType: the debug-build `assert(false && "Invalid element type.")` in the default branch of option_structure.hpp:169 and :187 is not modelled. The model returns 0 for an unknown code, as a release build does.
- FarFieldSolution, FixedValues and CTurbSolver.ImposeFixedValues require a turbulence model with at least two variables. CTurbSolver.cpp:347-348 writes `Solution_Inf[0]` and `Solution_Inf[1]` without checking nVar, so that is an unchecked assumption of the source. For a one-equation model the writes would be out of bounds.
- The `dist` and `dist2` of an incompressible wall vertex are independent inputs. In CIncNSSolver.cpp:297-300, `dist2` is the squared length of the edge vector and `dist` its square root. The model does not relate them, because square roots are not modelled.
- UnitVector: states only the length of the freestream unit vector, because its components need a square root.
- WallFunctionVertexCount: states only a lower bound per marker; the sum it computes is used by WallFunctionFoldProperties.

## Findings

| source | as written | input that shows it | evidently intended | confidence | as-written member | corrected member |
|---|---|---|---|---|---|---|
| SU2_CFD/src/solvers/CNSSolver.cpp:970 | The callee's signature at lines 534-536 takes the conductivity before the distance. The call passes `dist_ij` first and `thermal_conductivity` second, so the averaged temperature uses the fluid factor dist·μref/k instead of k·μref/dist. | Averaged Neumann mode, k = 2, dist = 1, μref = 1, T_here = 1, T_conj = 0, f_c = 1: the call gives 1/3. | 2/3, the same average with the arguments in the declared order. | not executed | CNSWall.ChtWallTemperatureAsCalled (counterexample: CNSWall.ChtSwappedArgumentsCounterexample) | CNSWall.IsothermalWallTemperature |
