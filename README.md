# MiniSAPR rod system calculator, modelled in Dafny

MiniSAPR analyses a straight chain of axially loaded rods with the finite
element method. Nodes are numbered 1..n in the calculator's public interface
and 0..n-1 inside it. Rod p joins node p to node p+1. Each rod has a length L,
a cross-section area A, an elastic modulus E, a distributed load q and an
allowable stress. Each node carries a concentrated force. Either end can be
anchored.

`RodSystemCalculator` works in four steps:

1. It assembles the global stiffness matrix from the 2×2 stencil `k·[[1,-1],[-1,1]]`, where k = E·A/L.
2. It assembles the load vector. Each entry is the node's force, plus q·L/2 for every rod that touches the node.
3. It applies the anchors. An anchored node gets a unit row and a unit column with a zero right-hand side. The system is then solved by Gaussian elimination with partial pivoting, followed by back substitution.
4. It recovers the rod forces N = k·(u[p+1] − u[p]) − q·L/2 and the nodal stresses.

The model has six modules:

- `LinAlg` (`linalg.dfy`): vectors and matrices as sequences of reals, with sums, dot products and the products M·x.
- `Outcomes` (`outcomes.dfy`): the two failure kinds and a result type. The source throws them as runtime errors.
- `Gauss` (`gauss.dfy`): `solveLinearSystem`.
  - The elimination step is the function `ForwardStep`, and `ForwardFrom` composes the steps.
  - Each loop of the source is a method, proved to compute exactly those functions.
  - Lemmas prove the rest: the pivot is the first entry of largest magnitude; every step keeps the set of solutions; the end form is unit upper triangular; back substitution solves it; a successful elimination means the solution is unique; a system with a non-zero kernel always fails.
- `Assembly` (`assembly.dfy`): the assembly, support and recovery phases of `calculate`.
  - Each phase is a specification function, plus a method with the source's loops proved to produce it.
  - Lemmas cover the stiffness matrix (symmetric, tridiagonal, entries, zero row sums), the loads (entries, conservation of the total load), the supports, and nodal equilibrium of the recovered forces.
- `Calculator` (`calculator.dfy`): the class `RodSystemCalculator`.
  - Its fields are `rods`, `F` and `n`.
  - Its members are the bounds-checked 1-based setters, the 0-based accessors, and `Calculate`.
  - Failures are returned as `Outcomes.Result` values.
- `Scenarios` (`scenarios.dfy`): closed-form results for a single pulled rod, for a pulled two-rod chain, and for a two-rod chain anchored at both ends under a distributed load.

Two consequences of the code's conventions, which the model pins down:

- **Interior stresses.** An interior node's stress is the plain mean of the stresses of the two rods around it. In a chain of two unit rods, anchored on the left and pulled with force 10 at the middle node, the stresses are therefore 10, 5 and 0 (`Scenarios.TwoRodPullScenario`). The middle node reports 5, the mean of the first rod's 10 and the second rod's 0, which is the stress of neither rod.
- **Symmetric chain anchored at both ends.** Take two equal rods anchored at both ends with a distributed load q. The middle node moves by (q·L/2)/(E·A/L), the exact value. The stiffness term k·Δu alone gives +q·L/2 and −q·L/2, equal and opposite as symmetry requires. The recovered forces subtract q·L/2 from that term and so are each rod's right-end force instead: 0 and −q·L, which are opposite only when q = 0 (`Scenarios.SymmetricSupportedScenario`). This follows from the source's conventions: +q·L/2 is added at both ends of each rod, and q·L/2 is subtracted from k·Δu.

## Model

| member | source | states |
|---|---|---|
| Calculator.RodSystemCalculator.constructor | src/app/rodsystemcalculator.cpp:4-7 | n nodes, n zero forces and n-1 value-initialised rods |
| Calculator.RodSystemCalculator.SetRod | src/app/rodsystemcalculator.cpp:9-14 | for 1 ≤ p < n, exactly rod p-1 is replaced and then read back by the 0-based accessors; out-of-range p changes nothing; forces and n are untouched |
| Calculator.RodSystemCalculator.SetForce | src/app/rodsystemcalculator.cpp:16-20 | for 1 ≤ node ≤ n, exactly F[node-1] is replaced; an out-of-range node changes nothing; rods and n are untouched |
| Calculator.RodSystemCalculator.NodeCount | src/app/rodsystemcalculator.h:36 | the node count equals the number of forces and the number of rods plus one |
| Calculator.RodSystemCalculator.RodCount | src/app/rodsystemcalculator.h:37 | n-1 equals the size of the rod table |
| Calculator.RodSystemCalculator.RodLength | src/app/rodsystemcalculator.h:38-40 | the rod's L for an index inside the table, 0 otherwise |
| Calculator.RodSystemCalculator.RodArea | src/app/rodsystemcalculator.h:41-43 | the rod's A for an index inside the table, 0 otherwise |
| Calculator.RodSystemCalculator.Calculate | src/app/rodsystemcalculator.cpp:24-160 | no rods gives NoRods; otherwise the result fails exactly when the elimination of the supported system fails, which it always does with no anchor; a success has n displacements that are the unique solution of the supported system, anchored ends at 0, n-1 forces and n stresses recovered from them |
| Calculator.UnanchoredSystemFails | src/app/rodsystemcalculator.cpp:93-116 | with neither end anchored the elimination reports a singular system (the all-ones translation is in the kernel) |
| Calculator.ZeroModulusFails | src/app/rodsystemcalculator.cpp:93-116 | one rod of zero modulus, left end anchored: the free end's column of the supported matrix is zero, so the elimination reports a singular system |
| Assembly.StencilUpdates | src/app/rodsystemcalculator.cpp:55-58 | the four sequential `+=` updates add the rod's 2×2 stencil and nothing else |
| Assembly.StiffnessAfter | src/app/rodsystemcalculator.cpp:45-61 | the partially assembled matrix is (n)×(n) |
| Assembly.StiffnessAfterEntries | src/app/rodsystemcalculator.cpp:51-58 | after rods 0..p-1 each entry is the closed-form sum of the stencils of those rods |
| Assembly.StiffnessMatrixShape | src/app/rodsystemcalculator.cpp:45-61 | the stiffness matrix is symmetric and tridiagonal, K[p][p+1] = −E·A/L of rod p, and each diagonal entry is the sum of E·A/L of the rods at that node |
| Assembly.StiffnessRowSums | src/app/rodsystemcalculator.cpp:45-61 | every row sums to zero, so K·(1,…,1) = 0 |
| Assembly.AssembleStiffness | src/app/rodsystemcalculator.cpp:45-61 | the stiffness loop produces exactly the stiffness matrix |
| Assembly.LoadsAfter | src/app/rodsystemcalculator.cpp:72-78 | the partially assembled load vector keeps length n |
| Assembly.LoadsAfterEntries | src/app/rodsystemcalculator.cpp:72-78 | after rods 0..p-1 each entry is F[i] plus q·L/2 of each of those rods touching node i |
| Assembly.LoadVectorEntries | src/app/rodsystemcalculator.cpp:66-82 | b[i] = F[i] + q·L/2 of the rod on the left + q·L/2 of the rod on the right, same sign |
| Assembly.LoadsAfterTotal | src/app/rodsystemcalculator.cpp:72-78 | each rod adds exactly its q·L to the total |
| Assembly.LoadVectorTotal | src/app/rodsystemcalculator.cpp:66-82 | Σb = ΣF + Σ q·L |
| Assembly.AssembleLoads | src/app/rodsystemcalculator.cpp:65-82 | the copy loop and the distributed-load loop produce exactly the load vector |
| Assembly.AnchorMatrix | src/app/rodsystemcalculator.cpp:97-100 | an anchor keeps an n×n matrix |
| Assembly.SystemMatrix | src/app/rodsystemcalculator.cpp:93-111 | the supported matrix stays n×n |
| Assembly.SystemLoads | src/app/rodsystemcalculator.cpp:93-111 | the supported load vector keeps length n |
| Assembly.SupportedSystemShape | src/app/rodsystemcalculator.cpp:93-111 | an anchored node's row and column are unit vectors with load 0; all other entries are the assembled ones |
| Assembly.ApplyAnchor | src/app/rodsystemcalculator.cpp:97-101 | the anchor loop overwrites exactly row and column e with the unit vector and zeroes b[e] |
| Assembly.SupportedNodesFixed | src/app/rodsystemcalculator.cpp:93-116 | every solution of the supported system has zero displacement at each anchored end |
| Assembly.FreeRowBalance | src/app/rodsystemcalculator.cpp:93-116 | at a free node a solution balances the assembled row against the assembled load |
| Assembly.AssembledRowDot | src/app/rodsystemcalculator.cpp:51-58 | row i of K times u is k_{i-1}·(u[i]−u[i-1]) − k_i·(u[i+1]−u[i]) |
| Assembly.NodalEquilibrium | src/app/rodsystemcalculator.cpp:116-136 | at every free node, left rod force − (right rod force + its q·L) = the node's concentrated force |
| Assembly.RodForces | src/app/rodsystemcalculator.cpp:125-132 | there is one force per rod |
| Assembly.RecoverForces | src/app/rodsystemcalculator.cpp:124-136 | the force loop gives N[p] = (E·A/L)·(u[p+1]−u[p]) − q·L/2 for every rod |
| Assembly.NodeStresses | src/app/rodsystemcalculator.cpp:139-157 | there is one stress per node |
| Assembly.RecoverStresses | src/app/rodsystemcalculator.cpp:138-157 | the stress loop gives N[0]/A₀ at the first node, N[n-2]/A_{n-2} at the last, and the mean of the two neighbouring rod stresses at interior nodes |
| Gauss.PivotScan | src/app/rodsystemcalculator.cpp:192-197 | the scan returns its start row or a row it scanned |
| Gauss.PivotRowIsArgmax | src/app/rodsystemcalculator.cpp:192-197 | the pivot row is in i..size-1, has the largest magnitude in column i there, and is the first such row |
| Gauss.ForwardStepFailure | src/app/rodsystemcalculator.cpp:190-208 | step i fails exactly when every entry of column i from row i down is below 1e-15 in magnitude |
| Gauss.ForwardStep | src/app/rodsystemcalculator.cpp:190-221 | a successful step keeps a size×(size+1) matrix |
| Gauss.ForwardFrom | src/app/rodsystemcalculator.cpp:190-221 | the remaining steps keep a size×(size+1) matrix |
| Gauss.SwapStep | src/app/rodsystemcalculator.cpp:200-202 | swapping in the pivot row keeps the finished columns and the solution set |
| Gauss.ScaleShape | src/app/rodsystemcalculator.cpp:205-212 | dividing the pivot row by the pivot keeps the finished columns and makes the diagonal entry 1 |
| Gauss.ScaleKeepsSolutions | src/app/rodsystemcalculator.cpp:210-212 | dividing a row by a non-zero pivot keeps the solution set |
| Gauss.EliminateRowDot | src/app/rodsystemcalculator.cpp:216-219 | against a pivot row that is zero before column i, the partial update from column i on subtracts factor × pivot row in full |
| Gauss.EliminatedRowDot | src/app/rodsystemcalculator.cpp:215-220 | an eliminated row is the old row minus factor times the pivot row |
| Gauss.EliminateShape | src/app/rodsystemcalculator.cpp:215-220 | elimination below a unit pivot clears column i under the diagonal |
| Gauss.EliminateKeepsSolutions | src/app/rodsystemcalculator.cpp:215-220 | elimination keeps the solution set |
| Gauss.ForwardStepCorrect | src/app/rodsystemcalculator.cpp:190-221 | one full step finishes column i and keeps the solution set |
| Gauss.ForwardFromCorrect | src/app/rodsystemcalculator.cpp:190-221 | a successful elimination ends unit upper triangular with the same solutions |
| Gauss.ForwardCorrect | src/app/rodsystemcalculator.cpp:190-221 | the whole forward pass, from column 0 |
| Gauss.UnitUpperRowDot | src/app/rodsystemcalculator.cpp:224-229 | in a unit upper triangular row only the diagonal and the entries right of it contribute |
| Gauss.BackSubstitutionSolves | src/app/rodsystemcalculator.cpp:224-229 | the back-substituted vector solves the triangular system |
| Gauss.UnitUpperUniqueFrom | src/app/rodsystemcalculator.cpp:224-229 | two solutions of a unit upper triangular system agree from row i on |
| Gauss.UnitUpperUnique | src/app/rodsystemcalculator.cpp:224-229 | a unit upper triangular system has at most one solution: two solutions with the same last component are equal |
| Gauss.AugmentRowDot | src/app/rodsystemcalculator.cpp:170-179 | a row of [A \| b] dotted with (x, c) is A[r]·x + b[r]·c |
| Gauss.SolvesIffAnnihilates | src/app/rodsystemcalculator.cpp:170-179 | A·x = b exactly when every row of [A \| b] is orthogonal to (x, −1) |
| Gauss.KernelIffAnnihilates | src/app/rodsystemcalculator.cpp:170-179 | A·v = 0 exactly when every row of [A \| b] is orthogonal to (v, 0) |
| Gauss.SolutionUnique | src/app/rodsystemcalculator.cpp:162-232 | when the elimination succeeds, A·x = b has at most one solution |
| Gauss.ForwardOkKernelTrivial | src/app/rodsystemcalculator.cpp:190-221 | when the elimination succeeds, only the zero vector solves A·v = 0 |
| Gauss.SingularFails | src/app/rodsystemcalculator.cpp:205-208 | a matrix with a non-zero kernel vector always makes the elimination fail |
| Gauss.BuildAugmented | src/app/rodsystemcalculator.cpp:170-179 | the copy loops produce exactly [A \| b] |
| Gauss.FindPivot | src/app/rodsystemcalculator.cpp:191-197 | the pivot search loop returns the row of largest magnitude in column i, from row i down |
| Gauss.NormalizeRow | src/app/rodsystemcalculator.cpp:210-212 | the scaling loop divides entries i..size of the pivot row by the pivot and nothing else |
| Gauss.EliminateOneRow | src/app/rodsystemcalculator.cpp:216-219 | the inner loop subtracts factor × pivot row from row k, columns i..size, and changes nothing else |
| Gauss.EliminateColumn | src/app/rodsystemcalculator.cpp:215-220 | the nested elimination loops eliminate every row below the pivot row |
| Gauss.PivotStep | src/app/rodsystemcalculator.cpp:191-220 | one pass of the outer loop computes exactly the elimination step of the specification, including its failure |
| Gauss.ForwardEliminate | src/app/rodsystemcalculator.cpp:190-221 | the outer loop computes exactly the forward elimination, stopping with an error at the first pivot below 1e-15 |
| Gauss.BackSubstitute | src/app/rodsystemcalculator.cpp:224-229 | result[i] = aug[i][size] − Σ_{j>i} aug[i][j]·result[j] for every row |
| Gauss.SolveLinearSystem | src/app/rodsystemcalculator.cpp:162-232 | an empty system gives an empty result; it fails exactly when a pivot falls below 1e-15; a success x has length size and A·x = b |
| Scenarios.SingleRodScenario | src/app/rodsystemcalculator.cpp:24-157 | one rod anchored on the left with force f at the free end: u = (0, (f + q·L/2)·L/(E·A)), force f, stresses f/A at both nodes |
| Scenarios.TwoRodPullScenario | src/app/rodsystemcalculator.cpp:24-157 | two unit rods, left anchor, force 10 at the middle node: u = (0, 10, 10), forces (10, 0), stresses (10, 5, 0) |
| Scenarios.SymmetricSupportedScenario | src/app/rodsystemcalculator.cpp:24-157 | two equal rods anchored at both ends under load q: u = (0, (q·L/2)/k, 0), stiffness terms k·Δu = +q·L/2 and −q·L/2, recovered right-end forces (0, −q·L), which are opposite (and also equal) only when q = 0 |

## Left out

- Diagnostic output: the calculator's `std::cout` logging does not affect any result and is not modelled.
- Floating point: all quantities are exact reals and the 1e-15 tolerance is an exact real constant. Round-off, infinities, NaN and the accuracy benefit of partial pivoting are not modelled. Only exact-arithmetic facts are claimed.
- Calculate: whether the solve succeeds for an anchored chain is not stated. With E > 0 for every rod, which the caller checks at src/app/sapr.cpp:1035, the anchored system is non-singular in exact arithmetic. A rod with E = 0 can make it singular, and `Calculate` then returns `SingularSystem`. `Calculator.ZeroModulusFails` shows this for a single rod anchored at its left end. Even with E > 0 a pivot can still fall below 1e-15, for example when E·A/L is tiny. The contract states instead that failure coincides with the elimination's failure, and always happens without an anchor. That last clause holds in exact arithmetic only. In double precision the last pivot of an unanchored chain can be rounding noise above 1e-15, so the source may not throw; the caller therefore rejects a missing anchor itself, in src/app/sapr.cpp, which is not part of this model.
- Calculate: requires L > 0 and A > 0 for every rod. The source divides by both without checking, and its caller validates them beforehand. That caller is in src/app/sapr.cpp, which is not part of this model. E is not restricted; the line above says what E = 0 can lead to.
- Calculate: the reference output vectors become the fields of a returned `Solution`, and thrown errors become `Err` values. When the source throws, it leaves its output vectors as they were; the model then returns no outputs at all.
- Matrices and vectors are sequence values reassigned in the loops, not heap-allocated buffers. The source's matrices are local `std::vector`s, so no aliasing is lost.
- constructor: requires at least one node. With zero or fewer nodes the resizes at src/app/rodsystemcalculator.cpp:5-6 fail at run time. For a negative count `F.resize(n, 0.0)` fails first, and for zero nodes `rods.resize(n - 1)` does. That failure is not modelled.
- SetRod and SetForce, like Calculate, require the class invariant `Valid()` (one force per node, one rod between consecutive nodes). The constructor establishes it and no member breaks it.
- Integer widths: node and rod indices are unbounded integers, not 32-bit `int`. Sizes large enough to overflow are not modelled.
- The allowable stress of a rod is stored by `SetRod` but is not used by the calculation, as in the source.
- The user interface, the re-entrancy guard and the input checks it performs (src/app/sapr.cpp), file loading and saving (src/app/filehandler.cpp), drawing (src/app/schemawidget.cpp) and the generated form (ui_sapr.h) are not part of this model.
