/**
 * The count of non-physical points returned by SetPrimitive_Variables of both
 * flow solvers: SetPrimVar reports, per point, whether the recovered primitive
 * state is physical, and the solver returns how many points were not.
 */
module PointCount {

  /** The number of false entries, counted from the first point to the last. */
  function CountNonPhysical(physical: seq<bool>): (n: nat)
    ensures n <= |physical|
    decreases |physical|
  {
    if physical == [] then 0
    else CountNonPhysical(physical[..|physical| - 1]) + (if physical[|physical| - 1] then 0 else 1)
  }

  /** The set of points whose primitive recovery failed. */
  function NonPhysicalPoints(physical: seq<bool>): set<nat>
  {
    set p: nat | p < |physical| && !physical[p]
  }

  /** The count is the size of the set of non-physical points. */
  lemma {:induction false} CountIsCardinality(physical: seq<bool>)
    ensures CountNonPhysical(physical) == |NonPhysicalPoints(physical)|
    decreases |physical|
  {
    if physical != [] {
      var n := |physical| - 1;
      var prefix := physical[..n];
      CountIsCardinality(prefix);
      var before := NonPhysicalPoints(prefix);
      assert NonPhysicalPoints(physical) == if physical[n] then before else before + {n} by {
        forall p: nat ensures p in NonPhysicalPoints(physical) <==> p in (if physical[n] then before else before + {n}) {
          if p < n { assert prefix[p] == physical[p]; }
        }
      }
      assert n !in before;
    }
  }

  /** No point is reported non-physical exactly when every point is physical. */
  lemma {:induction false} CountZeroIffAllPhysical(physical: seq<bool>)
    ensures CountNonPhysical(physical) == 0 <==> forall p :: 0 <= p < |physical| ==> physical[p]
    decreases |physical|
  {
    if physical != [] {
      var n := |physical| - 1;
      var prefix := physical[..n];
      CountZeroIffAllPhysical(prefix);
      assert forall p :: 0 <= p < n ==> prefix[p] == physical[p];
    }
  }
}
