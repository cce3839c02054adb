/** The add neighbourhood: one move per unselected set that covers at least
    one currently uncovered point. */
module AddNeighborhood {
  import opened Coverage
  import opened Instance
  import opened Solution
  import opened Neighborhood

  /** `explore` emits `Add(s)` exactly when `s` is unselected and covers a
      point no chosen set covers. */
  ghost predicate Emits(cov: seq<set<int>>, chosen: set<int>, s: int)
  {
    0 <= s < |cov| && s !in chosen && cov[s] - Union(cov, chosen) != {}
  }

  method Explore(sol: PsscSolution) returns (moves: seq<Move>)
    requires sol.Valid()
    ensures forall m :: m in moves ==> m.Add? && m.setId !in sol.chosen
    ensures forall s :: Add(s) in moves <==> Emits(sol.inst.coverage, sol.chosen, s)
    ensures Ascending(moves)
  {
    var cov := sol.inst.coverage;
    var covered := ComputeCovered(sol);
    moves := [];
    var s := 0;
    while s < sol.inst.nSets
      invariant 0 <= s <= sol.inst.nSets
      invariant forall m :: m in moves ==> m.Add? && m.setId < s && m.setId !in sol.chosen
      invariant forall t :: Add(t) in moves <==> t < s && Emits(cov, sol.chosen, t)
      invariant Ascending(moves)
    {
      if s !in sol.chosen {
        var candidate := cov[s];
        var gain := candidate - covered;
        if gain != {} {
          moves := moves + [Add(s)];
        }
      }
      s := s + 1;
    }
  }

  /** An emitted add strictly enlarges the covered point set. */
  lemma AddGrowsCoverage(cov: seq<set<int>>, chosen: set<int>, s: int)
    requires Emits(cov, chosen, s)
    ensures Union(cov, chosen) < Union(cov, Apply(Add(s), chosen))
    ensures |Union(cov, chosen)| < |Union(cov, Apply(Add(s), chosen))|
  {
    UnionAdd(cov, chosen, s);
    var p :| p in cov[s] - Union(cov, chosen);
    CardAdd(Union(cov, chosen), cov[s]);
  }
}
