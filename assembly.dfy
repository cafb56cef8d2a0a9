// The finite-element phases of RodSystemCalculator::calculate: stiffness
// assembly, load assembly, supports, and recovery of rod forces and nodal
// stresses. Each phase is a function stating what it produces and a method
// whose loops are those of the calculator, proved to produce it.
//
// Nodes are numbered 0..n-1 and rod p joins node p to node p+1, so a chain of
// |rods| rods has n = |rods| + 1 nodes.
module Assembly {
  import opened LinAlg

  /** Length, cross-section area, elastic modulus, distributed load, allowable stress. */
  datatype Rod = Rod(L: real, A: real, E: real, q: real, sigmaAllow: real)

  /** A value-initialised rod: every property zero. */
  const DefaultRod: Rod := Rod(0.0, 0.0, 0.0, 0.0, 0.0)

  /** Lengths and areas are positive, as the calculator's caller checks before calling it. */
  predicate PositiveGeometry(rods: seq<Rod>)
  {
    forall p :: 0 <= p < |rods| ==> rods[p].L > 0.0 && rods[p].A > 0.0
  }

  /** Axial stiffness k = E·A/L. */
  function Stiffness(rod: Rod): real
    requires rod.L > 0.0
  {
    rod.E * rod.A / rod.L
  }

  /** Q = q·L/2, half of the rod's total distributed load. */
  function HalfLoad(rod: Rod): real
  {
    rod.q * rod.L / 2.0
  }

  // ---------------------------------------------------------------------------
  // Stiffness matrix

  /** The 2×2 bar stencil of stiffness k placed on nodes p and p+1. */
  function StencilTerm(p: nat, k: real, r: nat, c: nat): real
  {
    if (r == p && c == p) || (r == p + 1 && c == p + 1) then k
    else if (r == p && c == p + 1) || (r == p + 1 && c == p) then -k
    else 0.0
  }

  function AddStencil(K: Matrix, p: nat, k: real): Matrix
    requires IsMatrix(K, |K|, |K|) && p + 1 < |K|
  {
    seq(|K|, r requires 0 <= r < |K| =>
      seq(|K|, c requires 0 <= c < |K| => K[r][c] + StencilTerm(p, k, r, c)))
  }

  /** The four `+=` updates of one rod's block, in the order the calculator makes them. */
  function StencilUpdated(K: Matrix, p: nat, k: real): Matrix
    requires IsMatrix(K, |K|, |K|) && p + 1 < |K|
  {
    var K1 := K[p := K[p][p := K[p][p] + k]];
    var K2 := K1[p := K1[p][p + 1 := K1[p][p + 1] + -k]];
    var K3 := K2[p + 1 := K2[p + 1][p := K2[p + 1][p] + -k]];
    K3[p + 1 := K3[p + 1][p + 1 := K3[p + 1][p + 1] + k]]
  }

  lemma StencilUpdates(K: Matrix, p: nat, k: real)
    requires IsMatrix(K, |K|, |K|) && p + 1 < |K|
    ensures StencilUpdated(K, p, k) == AddStencil(K, p, k)
  {
    var n := |K|;
    var U := StencilUpdated(K, p, k);
    var S := AddStencil(K, p, k);
    assert U[p] == K[p][p := K[p][p] + k][p + 1 := K[p][p + 1] + -k];
    assert U[p + 1] == K[p + 1][p := K[p + 1][p] + -k][p + 1 := K[p + 1][p + 1] + k];
    forall r | 0 <= r < n ensures U[r] == S[r] {
      if r != p && r != p + 1 {
        assert U[r] == K[r];
      }
      assert forall c :: 0 <= c < n ==> U[r][c] == S[r][c];
    }
  }

  /** The global matrix after the stencils of rods 0..p-1 are added to zero. */
  function StiffnessAfter(rods: seq<Rod>, p: nat): (K: Matrix)
    requires p <= |rods| && PositiveGeometry(rods)
    ensures IsMatrix(K, |rods| + 1, |rods| + 1)
  {
    if p == 0 then ZeroMatrix(|rods| + 1)
    else AddStencil(StiffnessAfter(rods, p - 1), p - 1, Stiffness(rods[p - 1]))
  }

  function StiffnessMatrix(rods: seq<Rod>): (K: Matrix)
    requires PositiveGeometry(rods)
    ensures IsMatrix(K, |rods| + 1, |rods| + 1)
  {
    StiffnessAfter(rods, |rods|)
  }

  /** Closed form of entry (r, c) once rods 0..p-1 have been assembled. */
  function PartialEntry(rods: seq<Rod>, p: nat, r: nat, c: nat): real
    requires p <= |rods| && PositiveGeometry(rods)
  {
    if r == c then
      (if 0 < r && r - 1 < p then Stiffness(rods[r - 1]) else 0.0) +
      (if r < p then Stiffness(rods[r]) else 0.0)
    else if c == r + 1 then (if r < p then -Stiffness(rods[r]) else 0.0)
    else if r == c + 1 then (if c < p then -Stiffness(rods[c]) else 0.0)
    else 0.0
  }

  lemma {:induction false} StiffnessAfterEntries(rods: seq<Rod>, p: nat)
    requires p <= |rods| && PositiveGeometry(rods)
    ensures forall r, c :: 0 <= r <= |rods| && 0 <= c <= |rods| ==>
      (StiffnessAfter(rods, p)[r][c] == PartialEntry(rods, p, r, c))
  {
    if p > 0 {
      StiffnessAfterEntries(rods, p - 1);
    }
  }

  /**
   * The assembled matrix is symmetric and tridiagonal, its off-diagonal
   * entries are -E·A/L of the rod joining the two nodes, and each diagonal
   * entry is the sum of E·A/L over the rods meeting at that node.
   */
  lemma StiffnessMatrixShape(rods: seq<Rod>)
    requires PositiveGeometry(rods)
    ensures var K := StiffnessMatrix(rods); var n := |rods| + 1;
      (forall r, c :: 0 <= r < n && 0 <= c < n ==> K[r][c] == K[c][r]) &&
      (forall r, c :: 0 <= r < n && 0 <= c < n && (r + 1 < c || c + 1 < r) ==> K[r][c] == 0.0) &&
      (forall p :: 0 <= p < |rods| ==> K[p][p + 1] == -Stiffness(rods[p])) &&
      (forall r :: 0 <= r < n ==> (K[r][r] ==
        (if r > 0 then Stiffness(rods[r - 1]) else 0.0) + (if r < |rods| then Stiffness(rods[r]) else 0.0)))
  {
    StiffnessAfterEntries(rods, |rods|);
  }

  /** Every row of the assembled matrix sums to zero: a rigid translation costs no force. */
  lemma StiffnessRowSums(rods: seq<Rod>)
    requires PositiveGeometry(rods)
    ensures var K := StiffnessMatrix(rods);
      (forall r :: 0 <= r <= |rods| ==> Sum(K[r]) == 0.0) &&
      MatVec(K, Ones(|rods| + 1)) == Zeros(|rods| + 1)
  {
    var K := StiffnessMatrix(rods);
    var n := |rods| + 1;
    StiffnessMatrixShape(rods);
    var one := Ones(n);
    forall r | 0 <= r < n ensures Sum(K[r]) == 0.0 && Dot(K[r], one) == 0.0 {
      DotTridiagonalRow(K[r], one, r);
      DotOnes(K[r]);
      var left := if r > 0 then K[r][r - 1] * one[r - 1] else 0.0;
      var right := if r + 1 < n then K[r][r + 1] * one[r + 1] else 0.0;
      assert K[r][r] * one[r] == K[r][r];
      if r > 0 {
        assert left == -Stiffness(rods[r - 1]) by {
          assert K[r][r - 1] == K[r - 1][r];
        }
      }
      if r + 1 < n {
        assert right == -Stiffness(rods[r]);
      }
    }
    assert forall r :: 0 <= r < n ==> MatVec(K, Ones(n))[r] == Zeros(n)[r];
  }

  // ---------------------------------------------------------------------------
  // Load vector

  /** Nodal forces F with the half loads of rods 0..p-1 added at both of their ends. */
  function LoadsAfter(F: Vector, rods: seq<Rod>, p: nat): (b: Vector)
    requires |F| == |rods| + 1 && p <= |rods|
    ensures |b| == |F|
  {
    if p == 0 then F
    else
      var b := LoadsAfter(F, rods, p - 1);
      var Q := HalfLoad(rods[p - 1]);
      b[p - 1 := b[p - 1] + Q][p := b[p] + Q]
  }

  function LoadVector(F: Vector, rods: seq<Rod>): (b: Vector)
    requires |F| == |rods| + 1
    ensures |b| == |F|
  {
    LoadsAfter(F, rods, |rods|)
  }

  lemma {:induction false} LoadsAfterEntries(F: Vector, rods: seq<Rod>, p: nat)
    requires |F| == |rods| + 1 && p <= |rods|
    ensures forall i {:trigger LoadsAfter(F, rods, p)[i]} :: 0 <= i < |F| ==> (LoadsAfter(F, rods, p)[i] ==
      F[i] + (if 0 < i && i - 1 < p then HalfLoad(rods[i - 1]) else 0.0) + (if i < p then HalfLoad(rods[i]) else 0.0))
  {
    if p > 0 {
      LoadsAfterEntries(F, rods, p - 1);
      var b := LoadsAfter(F, rods, p - 1);
      var Q := HalfLoad(rods[p - 1]);
      assert LoadsAfter(F, rods, p) == b[p - 1 := b[p - 1] + Q][p := b[p] + Q];
      forall i | 0 <= i < |F| ensures LoadsAfter(F, rods, p)[i] ==
        F[i] + (if 0 < i && i - 1 < p then HalfLoad(rods[i - 1]) else 0.0) + (if i < p then HalfLoad(rods[i]) else 0.0)
      {
        assert b[i] == F[i] + (if 0 < i && i - 1 < p - 1 then HalfLoad(rods[i - 1]) else 0.0) +
          (if i < p - 1 then HalfLoad(rods[i]) else 0.0);
        if i == p - 1 {
          assert LoadsAfter(F, rods, p)[i] == b[p - 1] + Q;
        } else if i == p {
          assert LoadsAfter(F, rods, p)[i] == b[p] + Q;
        } else {
          assert LoadsAfter(F, rods, p)[i] == b[i];
        }
      }
    } else {
      assert LoadsAfter(F, rods, p) == F;
    }
  }

  /** Each node carries its own force plus q·L/2 of every rod that touches it, with the same sign. */
  lemma LoadVectorEntries(F: Vector, rods: seq<Rod>)
    requires |F| == |rods| + 1
    ensures forall i :: 0 <= i < |F| ==> (LoadVector(F, rods)[i] ==
      F[i] + (if i > 0 then HalfLoad(rods[i - 1]) else 0.0) + (if i < |rods| then HalfLoad(rods[i]) else 0.0))
  {
    LoadsAfterEntries(F, rods, |rods|);
    forall i | 0 <= i < |F| ensures LoadVector(F, rods)[i] ==
      F[i] + (if i > 0 then HalfLoad(rods[i - 1]) else 0.0) + (if i < |rods| then HalfLoad(rods[i]) else 0.0)
    {
      assert LoadsAfter(F, rods, |rods|)[i] == F[i] + (if 0 < i && i - 1 < |rods| then HalfLoad(rods[i - 1]) else 0.0) +
        (if i < |rods| then HalfLoad(rods[i]) else 0.0);
    }
  }

  /** q·L summed over rods 0..p-1. */
  function DistributedTotalTo(rods: seq<Rod>, p: nat): real
    requires p <= |rods|
  {
    if p == 0 then 0.0 else DistributedTotalTo(rods, p - 1) + rods[p - 1].q * rods[p - 1].L
  }

  lemma {:induction false} LoadsAfterTotal(F: Vector, rods: seq<Rod>, p: nat)
    requires |F| == |rods| + 1 && p <= |rods|
    ensures Sum(LoadsAfter(F, rods, p)) == Sum(F) + DistributedTotalTo(rods, p)
  {
    if p > 0 {
      LoadsAfterTotal(F, rods, p - 1);
      var b := LoadsAfter(F, rods, p - 1);
      var Q := HalfLoad(rods[p - 1]);
      var b1 := b[p - 1 := b[p - 1] + Q];
      SumUpdate(b, p - 1, Q);
      assert b1[p] == b[p];
      SumUpdate(b1, p, Q);
    }
  }

  /** No load is lost or created: the load vector sums to ΣF plus the total distributed load Σq·L. */
  lemma LoadVectorTotal(F: Vector, rods: seq<Rod>)
    requires |F| == |rods| + 1
    ensures Sum(LoadVector(F, rods)) == Sum(F) + DistributedTotalTo(rods, |rods|)
  {
    LoadsAfterTotal(F, rods, |rods|);
  }

  // ---------------------------------------------------------------------------
  // Supports

  /** Row and column e become the unit vector at e; everything else is kept. */
  function AnchorMatrix(K: Matrix, e: nat): (K': Matrix)
    requires IsMatrix(K, |K|, |K|) && e < |K|
    ensures IsMatrix(K', |K|, |K|)
  {
    seq(|K|, r requires 0 <= r < |K| =>
      seq(|K|, c requires 0 <= c < |K| => if r == e || c == e then (if r == c then 1.0 else 0.0) else K[r][c]))
  }

  /** The stiffness matrix after the left (node 0) and then the right (node n-1) support. */
  function SystemMatrix(rods: seq<Rod>, leftAnchor: bool, rightAnchor: bool): (K: Matrix)
    requires PositiveGeometry(rods)
    ensures IsMatrix(K, |rods| + 1, |rods| + 1)
  {
    var K0 := StiffnessMatrix(rods);
    var K1 := if leftAnchor then AnchorMatrix(K0, 0) else K0;
    if rightAnchor then AnchorMatrix(K1, |rods|) else K1
  }

  /** The load vector with a zero right-hand side at every supported node. */
  function SystemLoads(F: Vector, rods: seq<Rod>, leftAnchor: bool, rightAnchor: bool): (b: Vector)
    requires |F| == |rods| + 1
    ensures |b| == |F|
  {
    var b0 := LoadVector(F, rods);
    var b1 := if leftAnchor then b0[0 := 0.0] else b0;
    if rightAnchor then b1[|rods| := 0.0] else b1
  }

  /** u is a displacement vector satisfying the supported system K·u = b. */
  predicate IsEquilibrium(rods: seq<Rod>, F: Vector, leftAnchor: bool, rightAnchor: bool, u: Vector)
    requires PositiveGeometry(rods) && |F| == |rods| + 1
  {
    |u| == |rods| + 1 &&
    MatVec(SystemMatrix(rods, leftAnchor, rightAnchor), u) == SystemLoads(F, rods, leftAnchor, rightAnchor)
  }

  /**
   * A supported node's row and column are unit vectors and its load is zero;
   * every other entry is the assembled one.
   */
  lemma SupportedSystemShape(rods: seq<Rod>, F: Vector, leftAnchor: bool, rightAnchor: bool)
    requires PositiveGeometry(rods) && |F| == |rods| + 1
    ensures var K := SystemMatrix(rods, leftAnchor, rightAnchor);
      var b := SystemLoads(F, rods, leftAnchor, rightAnchor);
      var n := |rods| + 1;
      (forall e, c :: 0 <= e < n && 0 <= c < n && ((leftAnchor && e == 0) || (rightAnchor && e == n - 1)) ==>
        K[e][c] == (if e == c then 1.0 else 0.0) && K[c][e] == (if e == c then 1.0 else 0.0) && b[e] == 0.0) &&
      (forall r, c :: (0 <= r < n && 0 <= c < n &&
        !((leftAnchor && r == 0) || (rightAnchor && r == n - 1)) &&
        !((leftAnchor && c == 0) || (rightAnchor && c == n - 1))) ==>
        K[r][c] == StiffnessMatrix(rods)[r][c]) &&
      (forall i :: 0 <= i < n && !((leftAnchor && i == 0) || (rightAnchor && i == n - 1)) ==>
        b[i] == LoadVector(F, rods)[i])
  {
  }

  /** A supported end is not displaced in any solution of the supported system. */
  lemma SupportedNodesFixed(rods: seq<Rod>, F: Vector, leftAnchor: bool, rightAnchor: bool, u: Vector)
    requires PositiveGeometry(rods) && |F| == |rods| + 1
    requires IsEquilibrium(rods, F, leftAnchor, rightAnchor, u)
    ensures leftAnchor ==> u[0] == 0.0
    ensures rightAnchor ==> u[|rods|] == 0.0
  {
    var K := SystemMatrix(rods, leftAnchor, rightAnchor);
    var b := SystemLoads(F, rods, leftAnchor, rightAnchor);
    SupportedSystemShape(rods, F, leftAnchor, rightAnchor);
    if leftAnchor {
      DotTridiagonalRow(K[0], u, 0);
      assert MatVec(K, u)[0] == b[0];
    }
    if rightAnchor {
      DotTridiagonalRow(K[|rods|], u, |rods|);
      assert MatVec(K, u)[|rods|] == b[|rods|];
    }
  }

  // ---------------------------------------------------------------------------
  // Recovery

  /** N_p = (E·A/L)·(u[p+1] − u[p]) − q·L/2 for every rod p. */
  function RodForces(rods: seq<Rod>, u: Vector): (N: Vector)
    requires |u| == |rods| + 1 && PositiveGeometry(rods)
    ensures |N| == |rods|
  {
    seq(|rods|, p requires 0 <= p < |rods| => Stiffness(rods[p]) * (u[p + 1] - u[p]) - HalfLoad(rods[p]))
  }

  /**
   * End nodes take the stress N/A of their one rod; an interior node the plain
   * mean of the stresses of the two rods meeting there.
   */
  function NodeStress(rods: seq<Rod>, N: Vector, i: nat): real
    requires |N| == |rods| && PositiveGeometry(rods) && i <= |rods|
  {
    var n := |rods| + 1;
    if i == 0 && n > 1 then N[0] / rods[0].A
    else if i == n - 1 && n > 1 then N[n - 2] / rods[n - 2].A
    else if 0 < i < n - 1 then (N[i - 1] / rods[i - 1].A + N[i] / rods[i].A) / 2.0
    else 0.0
  }

  function NodeStresses(rods: seq<Rod>, N: Vector): (s: Vector)
    requires |N| == |rods| && PositiveGeometry(rods)
    ensures |s| == |rods| + 1
  {
    seq(|rods| + 1, i requires 0 <= i <= |rods| => NodeStress(rods, N, i))
  }

  /** At a node without a support the supported row acts on a solution exactly as the assembled row does. */
  lemma FreeRowBalance(rods: seq<Rod>, F: Vector, leftAnchor: bool, rightAnchor: bool, u: Vector, i: nat)
    requires PositiveGeometry(rods) && |F| == |rods| + 1
    requires IsEquilibrium(rods, F, leftAnchor, rightAnchor, u)
    requires i <= |rods| && !(leftAnchor && i == 0) && !(rightAnchor && i == |rods|)
    ensures Dot(StiffnessMatrix(rods)[i], u) == LoadVector(F, rods)[i]
  {
    var n := |rods| + 1;
    var K := StiffnessMatrix(rods);
    var S := SystemMatrix(rods, leftAnchor, rightAnchor);
    var b := SystemLoads(F, rods, leftAnchor, rightAnchor);
    SupportedSystemShape(rods, F, leftAnchor, rightAnchor);
    SupportedNodesFixed(rods, F, leftAnchor, rightAnchor, u);
    forall c | 0 <= c < n ensures S[i][c] * u[c] == K[i][c] * u[c] {
      if (leftAnchor && c == 0) || (rightAnchor && c == n - 1) {
        assert u[c] == 0.0;
      }
    }
    RangeDotPointwise(S[i], u, K[i], u, 0, n);
    assert MatVec(S, u)[i] == b[i];
  }

  /** Row i of the assembled matrix times u: the elongation terms of the rods meeting at node i. */
  lemma AssembledRowDot(rods: seq<Rod>, u: Vector, i: nat)
    requires PositiveGeometry(rods) && |u| == |rods| + 1 && i <= |rods|
    ensures Dot(StiffnessMatrix(rods)[i], u) ==
      (if i > 0 then Stiffness(rods[i - 1]) * (u[i] - u[i - 1]) else 0.0) -
      (if i < |rods| then Stiffness(rods[i]) * (u[i + 1] - u[i]) else 0.0)
  {
    var K := StiffnessMatrix(rods);
    var row := K[i];
    StiffnessAfterEntries(rods, |rods|);
    DotTridiagonalRow(row, u, i);
    var kl := if i > 0 then Stiffness(rods[i - 1]) else 0.0;
    var kr := if i < |rods| then Stiffness(rods[i]) else 0.0;
    var ul := if i > 0 then u[i - 1] else u[i];
    var ur := if i < |rods| then u[i + 1] else u[i];
    assert row[i] == kl + kr;
    assert (if i > 0 then row[i - 1] * u[i - 1] else 0.0) == -kl * ul;
    assert (if i < |rods| then row[i + 1] * u[i + 1] else 0.0) == -kr * ur;
    assert -kl * ul + (kl + kr) * u[i] + -kr * ur == kl * (u[i] - ul) - kr * (ur - u[i]);
  }

  /**
   * Nodal equilibrium of the recovered forces: at every node without a
   * support, the force of the rod on its left, less the force of the rod on
   * its right and that rod's whole distributed load q·L, is the node's
   * concentrated force (an absent rod contributes nothing).
   */
  lemma NodalEquilibrium(rods: seq<Rod>, F: Vector, leftAnchor: bool, rightAnchor: bool, u: Vector, i: nat)
    requires PositiveGeometry(rods) && |F| == |rods| + 1
    requires IsEquilibrium(rods, F, leftAnchor, rightAnchor, u)
    requires i <= |rods| && !(leftAnchor && i == 0) && !(rightAnchor && i == |rods|)
    ensures var N := RodForces(rods, u);
      (if i > 0 then N[i - 1] else 0.0) - (if i < |rods| then N[i] + rods[i].q * rods[i].L else 0.0) == F[i]
  {
    FreeRowBalance(rods, F, leftAnchor, rightAnchor, u, i);
    AssembledRowDot(rods, u, i);
    LoadVectorEntries(F, rods);
    assert LoadVector(F, rods)[i] ==
      F[i] + (if i > 0 then HalfLoad(rods[i - 1]) else 0.0) + (if i < |rods| then HalfLoad(rods[i]) else 0.0);
    if i < |rods| {
      assert rods[i].q * rods[i].L == 2.0 * HalfLoad(rods[i]);
    }
  }

  // ---------------------------------------------------------------------------
  // The loops of calculate

  /** The stiffness loop: for each rod, += k and -k on its 2×2 block. */
  method AssembleStiffness(rods: seq<Rod>) returns (K: Matrix)
    requires PositiveGeometry(rods)
    ensures K == StiffnessMatrix(rods)
  {
    var n := |rods| + 1;
    K := ZeroMatrix(n);
    var p := 0;
    while p < n - 1
      invariant 0 <= p <= n - 1
      invariant K == StiffnessAfter(rods, p)
    {
      var rod := rods[p];
      var k := rod.E * rod.A / rod.L;
      assert k == Stiffness(rods[p]);
      ghost var before := K;
      K := K[p := K[p][p := K[p][p] + k]];
      K := K[p := K[p][p + 1 := K[p][p + 1] + -k]];
      K := K[p + 1 := K[p + 1][p := K[p + 1][p] + -k]];
      K := K[p + 1 := K[p + 1][p + 1 := K[p + 1][p + 1] + k]];
      assert K == StencilUpdated(before, p, k);
      StencilUpdates(before, p, k);
      p := p + 1;
    }
  }

  /** The load loops: copy the nodal forces, then add q·L/2 at both ends of every rod. */
  method AssembleLoads(F: Vector, rods: seq<Rod>) returns (b: Vector)
    requires |F| == |rods| + 1
    ensures b == LoadVector(F, rods)
  {
    var n := |rods| + 1;
    b := Zeros(n);
    var i := 0;
    while i < n
      invariant 0 <= i <= n && |b| == n
      invariant forall t :: 0 <= t < i ==> b[t] == F[t]
    {
      b := b[i := F[i]];
      i := i + 1;
    }
    assert b == LoadsAfter(F, rods, 0);
    var p := 0;
    while p < n - 1
      invariant 0 <= p <= n - 1
      invariant b == LoadsAfter(F, rods, p)
    {
      var rod := rods[p];
      var Q := rod.q * rod.L / 2.0;
      assert Q == HalfLoad(rods[p]);
      b := b[p := b[p] + Q];
      b := b[p + 1 := b[p + 1] + Q];
      p := p + 1;
    }
  }

  /** One support: overwrite row and column e with the unit vector, then zero b[e]. */
  method ApplyAnchor(K: Matrix, b: Vector, e: nat) returns (K': Matrix, b': Vector)
    requires IsMatrix(K, |K|, |K|) && |b| == |K| && e < |K|
    ensures K' == AnchorMatrix(K, e)
    ensures b' == b[e := 0.0]
  {
    var n := |K|;
    K' := K;
    var i := 0;
    while i < n
      invariant 0 <= i <= n
      invariant IsMatrix(K', n, n)
      invariant forall r, c :: 0 <= r < n && 0 <= c < n ==> (K'[r][c] ==
        (if (r == e && c < i) || (c == e && r < i) then (if r == c then 1.0 else 0.0) else K[r][c]))
    {
      K' := K'[e := K'[e][i := if i == e then 1.0 else 0.0]];
      K' := K'[i := K'[i][e := if i == e then 1.0 else 0.0]];
      i := i + 1;
    }
    forall r | 0 <= r < n ensures K'[r] == AnchorMatrix(K, e)[r] {
      assert forall c :: 0 <= c < n ==> K'[r][c] == AnchorMatrix(K, e)[r][c];
    }
    b' := b[e := 0.0];
  }

  /** The force loop. */
  method RecoverForces(rods: seq<Rod>, u: Vector) returns (N: Vector)
    requires |u| == |rods| + 1 && PositiveGeometry(rods)
    ensures N == RodForces(rods, u)
  {
    var n := |rods| + 1;
    N := Zeros(n - 1);
    var p := 0;
    while p < n - 1
      invariant 0 <= p <= n - 1 && |N| == n - 1
      invariant forall t :: 0 <= t < p ==> N[t] == RodForces(rods, u)[t]
    {
      var rod := rods[p];
      var deltaU := u[p + 1] - u[p];
      N := N[p := (rod.E * rod.A / rod.L) * deltaU - (rod.q * rod.L / 2.0)];
      p := p + 1;
    }
  }

  /** The stress loop, with its four cases per node. */
  method RecoverStresses(rods: seq<Rod>, N: Vector) returns (s: Vector)
    requires |N| == |rods| && PositiveGeometry(rods)
    ensures s == NodeStresses(rods, N)
  {
    var n := |rods| + 1;
    s := Zeros(n);
    var i := 0;
    while i < n
      invariant 0 <= i <= n && |s| == n
      invariant forall t :: 0 <= t < i ==> s[t] == NodeStress(rods, N, t)
    {
      if i == 0 && n > 1 {
        s := s[i := N[0] / rods[0].A];
      } else if i == n - 1 && n > 1 {
        s := s[i := N[n - 2] / rods[n - 2].A];
      } else if i > 0 && i < n - 1 {
        var stress1 := N[i - 1] / rods[i - 1].A;
        var stress2 := N[i] / rods[i].A;
        s := s[i := (stress1 + stress2) / 2.0];
      } else {
        s := s[i := 0.0];
      }
      i := i + 1;
    }
  }
}
