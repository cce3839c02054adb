/** The drop neighbourhood: one move per chosen set whose removal the
    exploration judges to keep coverage at 90% or more. */
module RemoveNeighborhood {
  import opened Coverage
  import opened Instance
  import opened Solution
  import opened Neighborhood

  /** The floating-point test `x / (double) n >= 0.9`. With `n == 0` the
      quotient is NaN and the comparison is false. */
  predicate MeetsFraction(x: nat, n: nat): (r: bool)
    ensures r <==> n > 0 && x >= MinCovered(n)
  {
    FractionIsThreshold(x, n);
    n > 0 && 10 * x >= 9 * n
  }

  /** `explore` emits `Remove(s)` exactly when `s` is chosen and the covered
      points outside `cov[s]` still meet the threshold. */
  ghost predicate Emits(cov: seq<set<int>>, nPoints: nat, chosen: set<int>, s: int)
  {
    s in chosen && 0 <= s < |cov| && MeetsFraction(|Union(cov, chosen) - cov[s]|, nPoints)
  }

  method Explore(sol: PsscSolution) returns (moves: seq<Move>)
    requires sol.Valid()
    ensures forall m :: m in moves ==> m.Remove?
    ensures forall s :: Remove(s) in moves <==> Emits(sol.inst.coverage, sol.inst.nPoints, sol.chosen, s)
    ensures Ascending(moves)
  {
    var cov, nPoints := sol.inst.coverage, sol.inst.nPoints;
    var covered := ComputeCovered(sol);
    moves := [];
    var s := 0;
    while s < sol.inst.nSets
      invariant 0 <= s <= sol.inst.nSets
      invariant forall m :: m in moves ==> m.Remove? && m.setId < s
      invariant forall t :: Remove(t) in moves <==> t < s && Emits(cov, nPoints, sol.chosen, t)
      invariant Ascending(moves)
    {
      if s in sol.chosen {
        var afterRemoval := covered - cov[s];
        if MeetsFraction(|afterRemoval|, nPoints) {
          moves := moves + [Remove(s)];
        }
      }
      s := s + 1;
    }
  }

  /** Soundness: removing an emitted set keeps the solution at the threshold,
      because the points tested are all still covered by the other sets. */
  lemma RemoveKeepsThreshold(cov: seq<set<int>>, nPoints: nat, chosen: set<int>, s: int)
    requires Emits(cov, nPoints, chosen, s)
    ensures Covers(cov, nPoints, Apply(Remove(s), chosen))
  {
    var rest := chosen - {s};
    forall p | p in Union(cov, chosen) - cov[s] ensures p in Union(cov, rest) {
      var t :| t in chosen && 0 <= t < |cov| && p in cov[t];
      UnionContains(cov, rest, t, p);
    }
    CardMono(Union(cov, chosen) - cov[s], Union(cov, rest));
    FractionIsThreshold(|Union(cov, chosen) - cov[s]|, nPoints);
  }

  /** The test is conservative: with two copies of the single point's only
      set, dropping either keeps full coverage, yet no drop is emitted. */
  lemma RemoveIsConservative()
    ensures Covers([{0}, {0}], 1, Apply(Remove(1), {0, 1}))
    ensures !Emits([{0}, {0}], 1, {0, 1}, 1)
    ensures !Emits([{0}, {0}], 1, {0, 1}, 0)
  {
    var cov: seq<set<int>> := [{0}, {0}];
    UnionContains(cov, {0}, 0, 0);
    assert {0, 1} - {1} == {0};
    assert Union(cov, {0, 1}) - cov[1] == {};
    assert Union(cov, {0, 1}) - cov[0] == {};
  }
}
