// The RodSystemCalculator object: a chain of n nodes joined by n-1 rods,
// nodal forces, setters that silently ignore out-of-range indices, getters,
// and `Calculate`, which runs the phases modelled in Assembly and Gauss in
// the calculator's order and returns displacements, rod forces and nodal
// stresses, or the reason it failed.
module Calculator {
  import opened LinAlg
  import opened Outcomes
  import opened Gauss
  import opened Assembly

  datatype Solution = Solution(displacements: Vector, forces: Vector, stresses: Vector)

  /** With neither end supported the system is singular, so the elimination fails. */
  lemma UnanchoredSystemFails(rods: seq<Rod>, F: Vector)
    requires PositiveGeometry(rods) && |F| == |rods| + 1
    ensures Forward(Augment(SystemMatrix(rods, false, false), SystemLoads(F, rods, false, false))).Err?
  {
    var n := |rods| + 1;
    StiffnessRowSums(rods);
    assert Ones(n)[0] != Zeros(n)[0];
    SingularFails(SystemMatrix(rods, false, false), SystemLoads(F, rods, false, false), Ones(n));
  }

  /**
   * A rod of zero elastic modulus has zero stiffness, so even with the left end
   * anchored its free end is not held: the system is singular and the
   * elimination fails.
   */
  lemma ZeroModulusFails(rod: Rod, F: Vector)
    requires rod.L > 0.0 && rod.A > 0.0 && rod.E == 0.0 && |F| == 2
    ensures Forward(Augment(SystemMatrix([rod], true, false), SystemLoads(F, [rod], true, false))).Err?
  {
    var rods := [rod];
    var S := SystemMatrix(rods, true, false);
    var v := [0.0, 1.0];
    StiffnessMatrixShape(rods);
    assert Stiffness(rod) == 0.0;
    assert S[0][1] == 0.0 && S[1][1] == 0.0;
    assert Dot(S[0], v) == 0.0 && Dot(S[1], v) == 0.0;
    assert MatVec(S, v) == Zeros(2);
    assert v[1] != Zeros(2)[1];
    SingularFails(S, SystemLoads(F, rods, true, false), v);
  }

  class RodSystemCalculator {
    var rods: seq<Rod>
    /** Concentrated force at each node. */
    var F: Vector
    /** Number of nodes. */
    var n: int

    /** There is one force per node and one rod between consecutive nodes. */
    ghost predicate Valid()
      reads this
    {
      n >= 1 && |F| == n && |rods| == n - 1
    }

    /** All forces zero, all rods value-initialised. */
    constructor (numNodes: int)
      requires numNodes >= 1
      ensures Valid() && n == numNodes
      ensures F == Zeros(numNodes)
      ensures rods == seq(numNodes - 1, _ => DefaultRod)
    {
      n := numNodes;
      F := Zeros(numNodes);
      rods := seq(numNodes - 1, _ => DefaultRod);
    }

    /** Rod p (1-based, between nodes p and p+1) gets new properties; any other p changes nothing. */
    method SetRod(p: int, L: real, A: real, E: real, q: real, sigmaAllow: real)
      requires Valid()
      modifies this
      ensures Valid() && F == old(F) && n == old(n)
      ensures 1 <= p < n ==> rods == old(rods)[p - 1 := Rod(L, A, E, q, sigmaAllow)]
      ensures !(1 <= p < n) ==> rods == old(rods)
      ensures 1 <= p < n ==> RodLength(p - 1) == L && RodArea(p - 1) == A
    {
      if p >= 1 && p < n {
        rods := rods[p - 1 := Rod(L, A, E, q, sigmaAllow)];
      }
    }

    /** Node `node` (1-based) gets a new concentrated force; any other index changes nothing. */
    method SetForce(node: int, force: real)
      requires Valid()
      modifies this
      ensures Valid() && rods == old(rods) && n == old(n)
      ensures 1 <= node <= n ==> F == old(F)[node - 1 := force]
      ensures !(1 <= node <= n) ==> F == old(F)
    {
      if node >= 1 && node <= n {
        F := F[node - 1 := force];
      }
    }

    function NodeCount(): (r: int)
      reads this
      ensures Valid() ==> r == |F| && r == |rods| + 1
    {
      n
    }

    function RodCount(): (r: int)
      reads this
      ensures Valid() ==> r == |rods| && r == NodeCount() - 1
    {
      n - 1
    }

    /** The length of rod `index` (0-based), or 0 for an index outside the table. */
    function RodLength(index: int): (r: real)
      reads this
      ensures 0 <= index < |rods| ==> r == rods[index].L
      ensures !(0 <= index < |rods|) ==> r == 0.0
    {
      if 0 <= index < |rods| then rods[index].L else 0.0
    }

    /** The cross-section area of rod `index` (0-based), or 0 for an index outside the table. */
    function RodArea(index: int): (r: real)
      reads this
      ensures 0 <= index < |rods| ==> r == rods[index].A
      ensures !(0 <= index < |rods|) ==> r == 0.0
    {
      if 0 <= index < |rods| then rods[index].A else 0.0
    }

    /**
     * Assemble, support, solve and recover. The displacements are the one
     * solution of the supported system, the forces and stresses are recovered
     * from them, and a supported end does not move. The calculation fails
     * exactly when there is no rod or the elimination meets a pivot below the
     * tolerance, which always happens when neither end is supported.
     */
    method Calculate(leftAnchor: bool, rightAnchor: bool) returns (r: Result<Solution>)
      requires Valid() && PositiveGeometry(rods)
      ensures rods == [] ==> r == Err(NoRods)
      ensures rods != [] ==>
        (r.Err? <==> Forward(Augment(SystemMatrix(rods, leftAnchor, rightAnchor),
                                     SystemLoads(F, rods, leftAnchor, rightAnchor))).Err?)
      ensures r.Err? ==> r.error == (if rods == [] then NoRods else SingularSystem)
      ensures !leftAnchor && !rightAnchor ==> r.Err?
      ensures r.Ok? ==>
        |r.value.displacements| == n && |r.value.forces| == n - 1 && |r.value.stresses| == n &&
        IsEquilibrium(rods, F, leftAnchor, rightAnchor, r.value.displacements) &&
        r.value.forces == RodForces(rods, r.value.displacements) &&
        r.value.stresses == NodeStresses(rods, r.value.forces)
      ensures r.Ok? ==> forall u :: IsEquilibrium(rods, F, leftAnchor, rightAnchor, u) ==> u == r.value.displacements
      ensures r.Ok? && leftAnchor ==> r.value.displacements[0] == 0.0
      ensures r.Ok? && rightAnchor ==> r.value.displacements[n - 1] == 0.0
    {
      if rods == [] {
        return Err(NoRods);
      }
      var K := AssembleStiffness(rods);
      var b := AssembleLoads(F, rods);
      if leftAnchor {
        K, b := ApplyAnchor(K, b, 0);
      }
      if rightAnchor {
        K, b := ApplyAnchor(K, b, n - 1);
      }
      assert K == SystemMatrix(rods, leftAnchor, rightAnchor);
      assert b == SystemLoads(F, rods, leftAnchor, rightAnchor);
      if !leftAnchor && !rightAnchor {
        UnanchoredSystemFails(rods, F);
      }
      var solved := SolveLinearSystem(K, b);
      if solved.Err? {
        return Err(solved.error);
      }
      var u := solved.value;
      SupportedNodesFixed(rods, F, leftAnchor, rightAnchor, u);
      forall u' | IsEquilibrium(rods, F, leftAnchor, rightAnchor, u') ensures u' == u {
        SolutionUnique(K, b, u, u');
      }
      var forces := RecoverForces(rods, u);
      var stresses := RecoverStresses(rods, forces);
      r := Ok(Solution(u, forces, stresses));
    }
  }
}
