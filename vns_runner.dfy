/** The variable neighbourhood search: drop, swap and add neighbourhoods tried
    in turn with first improvement, a shake after a full cycle of empty
    neighbourhoods, and a stop after `MaxPlateau` non-improving iterations. */
module VnsRunner {
  import opened Coverage
  import opened Instance
  import opened Solution
  import opened Neighborhood
  import RemoveNeighborhood
  import SwapNeighborhood
  import AddNeighborhood
  import GreedyConstructive
  import Shake

  /** Non-improving iterations allowed before the search stops. */
  const MaxPlateau := 200

  /** The neighbourhood list: 0 drop, 1 swap, 2 add. */
  const NumNeighborhoods := 3

  /** The index of the neighbourhood tried after `k`; it wraps to the drop
      neighbourhood exactly after the add neighbourhood, which is when the
      search shakes. */
  function NextNeighborhood(k: int): (r: int)
    requires 0 <= k < NumNeighborhoods
    ensures 0 <= r < NumNeighborhoods
    ensures r == 0 <==> k == NumNeighborhoods - 1
    ensures r != 0 ==> r == k + 1
  {
    (k + 1) % NumNeighborhoods
  }

  /** The controller state of the main loop: the neighbourhood index, the
      count of non-improving iterations and the best score seen. */
  datatype Control = Control(k: int, plateau: int, bestScore: int)

  /** What one iteration observed: a move was applied and the solution now
      has `score`, or the neighbourhood offered no move. */
  datatype Outcome = Moved(score: nat) | Empty

  /** The controller update after one iteration. Only an applied move that
      beats the best score changes it, and that resets `k` and `plateau`;
      anything else moves to the next neighbourhood and spends one plateau
      step. */
  function Step(c: Control, o: Outcome): (r: Control)
    requires 0 <= c.k < NumNeighborhoods
    ensures 0 <= r.k < NumNeighborhoods
    ensures r.bestScore <= c.bestScore
    ensures r.bestScore < c.bestScore <==> o.Moved? && o.score < c.bestScore
    ensures r.bestScore < c.bestScore ==> r == Control(0, 0, o.score)
    ensures r.bestScore == c.bestScore ==> r.plateau == c.plateau + 1 && r.k == NextNeighborhood(c.k)
  {
    if o.Moved? && o.score < c.bestScore then Control(0, 0, o.score)
    else Control(NextNeighborhood(c.k), c.plateau + 1, c.bestScore)
  }

  /** The shake runs exactly when a neighbourhood came back empty and the
      index wrapped around to the drop neighbourhood, i.e. after an empty
      add neighbourhood. */
  predicate ShakesAfter(c: Control, o: Outcome)
    requires 0 <= c.k < NumNeighborhoods
  {
    o.Empty? && Step(c, o).k == 0
  }

  lemma ShakeOnlyAfterAdd(c: Control, o: Outcome)
    requires 0 <= c.k < NumNeighborhoods
    ensures ShakesAfter(c, o) <==> o.Empty? && c.k == NumNeighborhoods - 1
  {
  }

  /** The termination measure: each step lowers the best score, or keeps it
      and brings the plateau counter closer to `MaxPlateau`. */
  lemma StepDecreases(c: Control, o: Outcome)
    requires 0 <= c.k < NumNeighborhoods && 0 <= c.plateau < MaxPlateau
    ensures Step(c, o).bestScore < c.bestScore
      || (Step(c, o).bestScore == c.bestScore
          && 0 <= MaxPlateau - Step(c, o).plateau < MaxPlateau - c.plateau)
  {
  }

  /** `explore` of neighbourhood `k`, which is the drop, swap or add
      exploration: it offers exactly the moves that exploration emits. Every
      offered move is executable, and none takes a solution meeting the 90%
      threshold below it. */
  method Explore(k: int, sol: PsscSolution) returns (moves: seq<Move>)
    requires sol.Valid() && 0 <= k < NumNeighborhoods
    ensures Ascending(moves)
    ensures forall m :: m in moves ==> Executable(m, sol.inst.nSets, sol.chosen)
    ensures forall m :: m in moves ==>
      (Covers(sol.inst.coverage, sol.inst.nPoints, sol.chosen) ==>
       Covers(sol.inst.coverage, sol.inst.nPoints, Apply(m, sol.chosen)))
    ensures forall m :: m in moves ==> (k == 0 <==> m.Remove?) && (k == 1 <==> m.Swap?) && (k == 2 <==> m.Add?)
    ensures k == 0 ==> forall s :: Remove(s) in moves <==>
      RemoveNeighborhood.Emits(sol.inst.coverage, sol.inst.nPoints, sol.chosen, s)
    ensures k == 1 ==> forall o, i :: Swap(o, i) in moves <==>
      SwapNeighborhood.Emits(sol.inst.coverage, sol.chosen, o, i)
    ensures k == 2 ==> forall s :: Add(s) in moves <==>
      AddNeighborhood.Emits(sol.inst.coverage, sol.chosen, s)
  {
    var cov, nPoints := sol.inst.coverage, sol.inst.nPoints;
    if k == 0 {
      moves := RemoveNeighborhood.Explore(sol);
      forall m | m in moves
        ensures Covers(cov, nPoints, Apply(m, sol.chosen))
      {
        RemoveNeighborhood.RemoveKeepsThreshold(cov, nPoints, sol.chosen, m.setId);
      }
    } else if k == 1 {
      moves := SwapNeighborhood.Explore(sol);
      forall m | m in moves
        ensures Covers(cov, nPoints, sol.chosen) ==> Covers(cov, nPoints, Apply(m, sol.chosen))
      {
        SwapNeighborhood.SwapKeepsCoverage(cov, nPoints, sol.chosen, m.outSet, m.inSet);
      }
    } else {
      moves := AddNeighborhood.Explore(sol);
      forall m | m in moves
        ensures Union(cov, sol.chosen) <= Union(cov, Apply(m, sol.chosen))
      {
        AddNeighborhood.AddGrowsCoverage(cov, sol.chosen, m.setId);
      }
      forall m | m in moves
        ensures Covers(cov, nPoints, sol.chosen) ==> Covers(cov, nPoints, Apply(m, sol.chosen))
      {
        UnionMono(cov, sol.chosen, Apply(m, sol.chosen));
      }
    }
  }

  /** The main loop of `algorithm`, from the constructed solution. It stops
      with the plateau counter at `MaxPlateau`; the best score never rises;
      the solution returned is the live one, which may score worse than the
      best, and a solution meeting the threshold keeps meeting it. */
  method Search(sol: PsscSolution) returns (ctl: Control)
    requires sol.Valid() && sol.inst.nSets > 0
    modifies sol
    ensures sol.Valid()
    ensures ctl.plateau == MaxPlateau && 0 <= ctl.k < NumNeighborhoods
    ensures 0 <= ctl.bestScore <= old(sol.Score())
    ensures Covers(sol.inst.coverage, sol.inst.nPoints, old(sol.chosen)) ==>
      Covers(sol.inst.coverage, sol.inst.nPoints, sol.chosen)
  {
    var cov, nPoints := sol.inst.coverage, sol.inst.nPoints;
    ghost var start := sol.chosen;
    ctl := Control(0, 0, sol.Score());
    while ctl.plateau < MaxPlateau
      invariant sol.Valid() && sol.inst.nSets > 0
      invariant 0 <= ctl.k < NumNeighborhoods
      invariant 0 <= ctl.plateau <= MaxPlateau
      invariant 0 <= ctl.bestScore <= |start|
      invariant Covers(cov, nPoints, start) ==> Covers(cov, nPoints, sol.chosen)
      decreases ctl.bestScore, MaxPlateau - ctl.plateau
    {
      var moves := Explore(ctl.k, sol);
      var outcome;
      if |moves| > 0 {
        var m := moves[0];
        assert m in moves;
        Execute(m, sol);
        outcome := Moved(sol.Score());
      } else {
        outcome := Empty;
      }
      var prev := ctl;
      ctl := Step(prev, outcome);
      if ShakesAfter(prev, outcome) {
        Shake.Shake(sol, 1);
      }
    }
  }

  /** `algorithm`: the greedy construction followed by the search. `ok` is
      false where the Java `algorithm` fails: the construction finds no feasible
      solution, or an instance without sets reaches the shake's random draw. */
  method Algorithm(inst: PsscInstance) returns (sol: PsscSolution, ok: bool)
    requires inst.Valid()
    ensures fresh(sol) && sol.inst == inst && sol.Valid()
    ensures ok <==> Feasible(inst.coverage, inst.nPoints) && inst.nSets > 0
    ensures ok ==> Covers(inst.coverage, inst.nPoints, sol.chosen)
  {
    sol := new PsscSolution(inst);
    ok := GreedyConstructive.Construct(sol);
    if !ok || inst.nSets == 0 {
      ok := false;
      return;
    }
    var _ := Search(sol);
  }
}
