/** The swap neighbourhood: exchange a chosen set for an unselected one that
    covers every point the chosen one covers. */
module SwapNeighborhood {
  import opened Coverage
  import opened Instance
  import opened Solution
  import opened Neighborhood

  /** `explore` emits `Swap(o, i)` exactly when `o` is chosen with a non-empty
      coverage, `i` is unselected, and `cov[i]` contains all of `cov[o]`. */
  ghost predicate Emits(cov: seq<set<int>>, chosen: set<int>, o: int, i: int)
  {
    o in chosen && 0 <= o < |cov| && 0 <= i < |cov| && i !in chosen
    && cov[o] != {} && cov[o] <= cov[i]
  }

  /** The set the Java `explore` calls "points uniquely covered by out" is the whole
      coverage of `out`: nothing of `out` survives in `covered - out`. */
  lemma UniqueIsWholeCover(outCover: set<int>, covered: set<int>)
    ensures outCover - (covered - outCover) == outCover
  {
  }

  method Explore(sol: PsscSolution) returns (moves: seq<Move>)
    requires sol.Valid()
    ensures forall m :: m in moves ==> m.Swap?
    ensures forall o, i :: Swap(o, i) in moves <==> Emits(sol.inst.coverage, sol.chosen, o, i)
    ensures Ascending(moves)
  {
    var cov, n := sol.inst.coverage, sol.inst.nSets;
    var covered := ComputeCovered(sol);
    moves := [];
    var o := 0;
    while o < n
      invariant 0 <= o <= n
      invariant forall m :: m in moves ==> m.Swap? && m.outSet < o
      invariant forall o', i' :: Swap(o', i') in moves <==> o' < o && Emits(cov, sol.chosen, o', i')
      invariant Ascending(moves)
    {
      if o in sol.chosen {
        var outCover := cov[o];
        var unique := outCover;
        var coveredMinusOut := covered - outCover;
        unique := unique - coveredMinusOut;
        UniqueIsWholeCover(outCover, covered);
        if unique != {} {
          var i := 0;
          while i < n
            invariant 0 <= i <= n
            invariant unique == cov[o]
            invariant forall m :: m in moves ==> m.Swap? && (m.outSet < o || (m.outSet == o && m.inSet < i))
            invariant forall o', i' :: Swap(o', i') in moves <==>
              (o' < o || (o' == o && i' < i)) && Emits(cov, sol.chosen, o', i')
            invariant Ascending(moves)
          {
            if i !in sol.chosen {
              var inCover := cov[i];
              var missing := unique - inCover;
              assert missing == {} <==> cov[o] <= cov[i] by {
                if missing == {} {
                  forall p | p in cov[o] ensures p in cov[i] { assert p !in missing; }
                }
              }
              if missing == {} {
                moves := moves + [Swap(o, i)];
              }
            }
            i := i + 1;
          }
        }
      }
      o := o + 1;
    }
  }

  /** An emitted swap never uncovers a point, so it keeps feasibility. */
  lemma SwapKeepsCoverage(cov: seq<set<int>>, nPoints: nat, chosen: set<int>, o: int, i: int)
    requires Emits(cov, chosen, o, i)
    ensures Union(cov, chosen) <= Union(cov, Apply(Swap(o, i), chosen))
    ensures Covers(cov, nPoints, chosen) ==> Covers(cov, nPoints, Apply(Swap(o, i), chosen))
  {
    var after := Apply(Swap(o, i), chosen);
    forall p | p in Union(cov, chosen) ensures p in Union(cov, after) {
      var t :| t in chosen && 0 <= t < |cov| && p in cov[t];
      if t == o {
        UnionContains(cov, after, i, p);
      } else {
        UnionContains(cov, after, t, p);
      }
    }
    CardMono(Union(cov, chosen), Union(cov, after));
  }
}
