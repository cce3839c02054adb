/** The moves of the three neighbourhoods as one tagged union, with what they
    do to a solution, and the covered-point computation every exploration
    starts with. */
module Neighborhood {
  import opened Coverage
  import opened Instance
  import opened Solution

  datatype Move =
    | Remove(setId: int)
    | Swap(outSet: int, inSet: int)
    | Add(setId: int)

  /** `getScoreChange` of each move kind. */
  function ScoreChange(m: Move): (r: int)
    ensures r < 0 <==> m.Remove?
    ensures r > 0 <==> m.Add?
    ensures -1 <= r <= 1
  {
    match m
    case Remove(_) => -1
    case Swap(_, _) => 0
    case Add(_) => 1
  }

  /** `equals` of each move kind: same kind and same set indices. */
  function Equals(a: Move, b: Move): (r: bool)
    ensures r <==> a == b
  {
    match a
    case Remove(s) => b.Remove? && b.setId == s
    case Swap(o, i) => b.Swap? && b.outSet == o && b.inSet == i
    case Add(s) => b.Add? && b.setId == s
  }

  /** The preconditions of `removeSet` / `addSet` that executing `m` meets. */
  predicate Executable(m: Move, nSets: nat, chosen: set<int>)
  {
    match m
    case Remove(s) => s in chosen
    case Swap(o, i) => o in chosen && 0 <= i < nSets && i !in chosen
    case Add(s) => 0 <= s < nSets && s !in chosen
  }

  /** The chosen sets after executing `m`. */
  function Apply(m: Move, chosen: set<int>): set<int>
  {
    match m
    case Remove(s) => chosen - {s}
    case Swap(o, i) => chosen - {o} + {i}
    case Add(s) => chosen + {s}
  }

  /** Executing a move changes the number of chosen sets by its score change. */
  lemma ApplyScore(m: Move, nSets: nat, chosen: set<int>)
    requires Executable(m, nSets, chosen)
    ensures |Apply(m, chosen)| == |chosen| + ScoreChange(m)
  {
    match m
    case Remove(s) =>
      assert chosen == (chosen - {s}) + {s};
    case Swap(o, i) =>
      assert chosen == (chosen - {o}) + {o};
    case Add(s) =>
  }

  /** An executed move is undone by its inverse: adding a set then removing it
      restores the chosen sets. */
  lemma AddThenRemove(s: int, nSets: nat, chosen: set<int>)
    requires Executable(Add(s), nSets, chosen)
    ensures Executable(Remove(s), nSets, Apply(Add(s), chosen))
    ensures Apply(Remove(s), Apply(Add(s), chosen)) == chosen
  {
  }

  /** `_execute` of each move kind. */
  method Execute(m: Move, sol: PsscSolution)
    requires sol.Valid() && Executable(m, sol.inst.nSets, sol.chosen)
    modifies sol
    ensures sol.Valid() && sol.chosen == Apply(m, old(sol.chosen))
    ensures sol.Score() == old(sol.Score()) + ScoreChange(m)
  {
    match m
    case Remove(s) =>
      sol.RemoveSet(s);
    case Swap(o, i) =>
      sol.RemoveSet(o);
      sol.AddSet(i);
    case Add(s) =>
      sol.AddSet(s);
  }

  /** The points covered by the chosen sets, built by or-ing the coverage of
      each chosen set in ascending order. */
  method ComputeCovered(sol: PsscSolution) returns (covered: set<int>)
    requires sol.Valid()
    ensures covered == Union(sol.inst.coverage, sol.chosen)
  {
    var cov := sol.inst.coverage;
    covered := {};
    var s := 0;
    while s < sol.inst.nSets
      invariant 0 <= s <= sol.inst.nSets
      invariant covered == Union(cov, Below(sol.chosen, s))
    {
      if s in sol.chosen {
        assert Below(sol.chosen, s + 1) == Below(sol.chosen, s) + {s};
        UnionAdd(cov, Below(sol.chosen, s), s);
        covered := covered + cov[s];
      } else {
        assert Below(sol.chosen, s + 1) == Below(sol.chosen, s);
      }
      s := s + 1;
    }
    assert Below(sol.chosen, s) == sol.chosen;
  }

  /** Moves are listed strictly ascending by their first set index, then by
      their second one. */
  predicate Ascending(moves: seq<Move>)
  {
    forall a, b :: 0 <= a < b < |moves| ==> Precedes(moves[a], moves[b])
  }

  predicate Precedes(m: Move, n: Move)
  {
    Key(m) < Key(n) || (Key(m) == Key(n) && m.Swap? && n.Swap? && m.inSet < n.inSet)
  }

  function Key(m: Move): int
  {
    if m.Swap? then m.outSet else m.setId
  }
}
