// Worked cases of the supported system: for each, every displacement vector
// in equilibrium, and hence every result Calculate can return, is given in
// closed form together with the rod forces and nodal stresses recovered from it.
module Scenarios {
  import opened LinAlg
  import opened Assembly

  /**
   * One rod, left end supported, force f at the free end: the free end moves
   * (f + q·L/2)·L/(E·A), the rod carries f and both nodes report f/A.
   */
  lemma SingleRodScenario(rod: Rod, f0: real, f: real, u: Vector)
    requires rod.L > 0.0 && rod.A > 0.0 && rod.E > 0.0
    requires IsEquilibrium([rod], [f0, f], true, false, u)
    ensures u == [0.0, (f + HalfLoad(rod)) * rod.L / (rod.E * rod.A)]
    ensures RodForces([rod], u) == [f]
    ensures NodeStresses([rod], RodForces([rod], u)) == [f / rod.A, f / rod.A]
  {
    var rods := [rod];
    var k := Stiffness(rod);
    SupportedNodesFixed(rods, [f0, f], true, false, u);
    NodalEquilibrium(rods, [f0, f], true, false, u, 1);
    var N := RodForces(rods, u);
    assert N[0] == f;
    assert k * u[1] == f + HalfLoad(rod);
    assert k != 0.0 by {
      assert rod.E * rod.A > 0.0;
    }
    calc {
      u[1];
      (f + HalfLoad(rod)) / k;
      (f + HalfLoad(rod)) * rod.L / (rod.E * rod.A);
    }
    assert u == [0.0, (f + HalfLoad(rod)) * rod.L / (rod.E * rod.A)];
    assert N == [f];
  }

  /**
   * Two unit rods, left end supported, force 10 at the middle node: the
   * displacements are 0, 10, 10, the forces 10 and 0, and the nodal stresses
   * 10, 5 and 0 (the middle node averages the stresses of both rods).
   */
  lemma TwoRodPullScenario(s1: real, s2: real, u: Vector)
    requires IsEquilibrium([Rod(1.0, 1.0, 1.0, 0.0, s1), Rod(1.0, 1.0, 1.0, 0.0, s2)], [0.0, 10.0, 0.0], true, false, u)
    ensures u == [0.0, 10.0, 10.0]
    ensures RodForces([Rod(1.0, 1.0, 1.0, 0.0, s1), Rod(1.0, 1.0, 1.0, 0.0, s2)], u) == [10.0, 0.0]
    ensures NodeStresses([Rod(1.0, 1.0, 1.0, 0.0, s1), Rod(1.0, 1.0, 1.0, 0.0, s2)], [10.0, 0.0]) == [10.0, 5.0, 0.0]
  {
    var rods := [Rod(1.0, 1.0, 1.0, 0.0, s1), Rod(1.0, 1.0, 1.0, 0.0, s2)];
    var F := [0.0, 10.0, 0.0];
    SupportedNodesFixed(rods, F, true, false, u);
    NodalEquilibrium(rods, F, true, false, u, 1);
    NodalEquilibrium(rods, F, true, false, u, 2);
    var N := RodForces(rods, u);
    assert N[1] == 0.0;
    assert N[0] == 10.0;
    assert u == [0.0, 10.0, 10.0];
    assert N == [10.0, 0.0];
    var s := NodeStresses(rods, [10.0, 0.0]);
    assert s[0] == 10.0 && s[1] == 5.0 && s[2] == 0.0;
  }

  /**
   * Two equal rods, both ends supported, no concentrated forces, distributed
   * load q: the middle node moves Q/k with Q = q·L/2 and k = E·A/L, the exact
   * value. The stiffness terms k·Δu alone are +Q and -Q, equal and opposite as
   * the symmetry demands. Subtracting Q gives each rod's right-end force
   * instead: the first rod carries 0 and the second -q·L, which are opposite
   * only when q = 0.
   */
  lemma SymmetricSupportedScenario(rod: Rod, u: Vector)
    requires rod.L > 0.0 && rod.A > 0.0 && rod.E > 0.0
    requires IsEquilibrium([rod, rod], [0.0, 0.0, 0.0], true, true, u)
    ensures u == [0.0, HalfLoad(rod) / Stiffness(rod), 0.0]
    ensures RodForces([rod, rod], u) == [0.0, -(rod.q * rod.L)]
    ensures RodForces([rod, rod], u)[0] == RodForces([rod, rod], u)[1] <==> rod.q == 0.0
    ensures Stiffness(rod) * (u[1] - u[0]) == HalfLoad(rod) && Stiffness(rod) * (u[2] - u[1]) == -HalfLoad(rod)
    ensures RodForces([rod, rod], u)[0] == -RodForces([rod, rod], u)[1] <==> rod.q == 0.0
  {
    var rods := [rod, rod];
    var F := [0.0, 0.0, 0.0];
    var k := Stiffness(rod);
    var Q := HalfLoad(rod);
    SupportedNodesFixed(rods, F, true, true, u);
    NodalEquilibrium(rods, F, true, true, u, 1);
    assert k != 0.0 by {
      assert rod.E * rod.A > 0.0;
    }
    assert 2.0 * k * u[1] == 2.0 * Q;
    assert u[1] == Q / k;
    assert u == [0.0, Q / k, 0.0];
    var N := RodForces(rods, u);
    assert N[0] == 0.0;
    assert N[1] == -(rod.q * rod.L);
    assert N == [0.0, -(rod.q * rod.L)];
  }
}
