/** The shake: add `k` random unselected sets, then apply the first drop move
    of the drop neighbourhood until it offers none. */
module Shake {
  import opened Coverage
  import opened Instance
  import opened Solution
  import opened Neighborhood
  import RemoveNeighborhood

  /** The number of random draws allowed to find an unselected set. */
  const MaxTries := 10

  /** The retry loop drawing a random set index: it stops at the first
      unselected draw or after `MaxTries` draws. Every draw in range is a
      possible outcome. */
  method DrawUnselected(nSets: nat, chosen: set<int>) returns (sel: int, draws: nat)
    requires nSets > 0
    ensures 0 <= sel < nSets
    ensures 1 <= draws <= MaxTries
    ensures sel in chosen ==> draws == MaxTries
    ensures draws < MaxTries ==> sel !in chosen
  {
    sel :| 0 <= sel < nSets;
    draws := 1;
    while sel in chosen && draws < MaxTries
      invariant 0 <= sel < nSets
      invariant 1 <= draws <= MaxTries
    {
      sel :| 0 <= sel < nSets;
      draws := draws + 1;
    }
  }

  /** `shake`. The random draw needs at least one set whenever `k` is positive.
      Afterwards no drop move is left, the solution grew by at most `k` sets,
      and a solution meeting the 90% threshold still meets it. */
  method Shake(sol: PsscSolution, k: int)
    requires sol.Valid() && (k <= 0 || sol.inst.nSets > 0)
    modifies sol
    ensures sol.Valid()
    ensures forall s :: !RemoveNeighborhood.Emits(sol.inst.coverage, sol.inst.nPoints, sol.chosen, s)
    ensures |sol.chosen| <= |old(sol.chosen)| + (if k <= 0 then 0 else k)
    ensures |sol.chosen - old(sol.chosen)| <= (if k <= 0 then 0 else k)
    ensures !Covers(sol.inst.coverage, sol.inst.nPoints, sol.chosen) ==> old(sol.chosen) <= sol.chosen
    ensures Covers(sol.inst.coverage, sol.inst.nPoints, old(sol.chosen)) ==>
      Covers(sol.inst.coverage, sol.inst.nPoints, sol.chosen)
  {
    var cov, nPoints := sol.inst.coverage, sol.inst.nPoints;
    ghost var start := sol.chosen;

    // 1. Add up to k random unselected sets.
    var i := 0;
    while i < k
      invariant sol.Valid()
      invariant 0 <= i <= (if k <= 0 then 0 else k)
      invariant start <= sol.chosen
      invariant |sol.chosen| <= |start| + i
      invariant |sol.chosen - start| <= i
    {
      var sel, _ := DrawUnselected(sol.inst.nSets, sol.chosen);
      if sel !in sol.chosen {
        sol.AddSet(sel);
      }
      i := i + 1;
    }
    UnionMono(cov, start, sol.chosen);
    ghost var grown := sol.chosen;

    // 2. Drop redundant sets, one first move at a time.
    var moves := RemoveNeighborhood.Explore(sol);
    while |moves| > 0
      invariant sol.Valid()
      invariant forall m :: m in moves ==> m.Remove?
      invariant forall s :: Remove(s) in moves <==> RemoveNeighborhood.Emits(cov, nPoints, sol.chosen, s)
      invariant |sol.chosen| <= |grown|
      invariant sol.chosen <= grown
      invariant sol.chosen == grown || Covers(cov, nPoints, sol.chosen)
      invariant Covers(cov, nPoints, start) ==> Covers(cov, nPoints, sol.chosen)
      decreases |sol.chosen|
    {
      var m := moves[0];
      assert m in moves;
      RemoveNeighborhood.RemoveKeepsThreshold(cov, nPoints, sol.chosen, m.setId);
      Execute(m, sol);
      moves := RemoveNeighborhood.Explore(sol);
    }
    CardMono(sol.chosen - start, grown - start);
  }
}
