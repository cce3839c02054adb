/** The greedy constructive: add the set with the largest number of newly
    covered points until 90% of the universe is covered, then make one
    ascending pass dropping every set whose removal keeps the threshold.
    `coverCount[p]` counts the chosen sets covering `p`, and `covered` counts
    the points whose count is positive; both are kept up to date incrementally. */
module GreedyConstructive {
  import opened Coverage
  import opened Instance
  import opened Solution

  /** The bookkeeping invariant: every point's count is the number of chosen
      sets that cover it. */
  ghost predicate CountsAgree(cov: seq<set<int>>, nPoints: nat, chosen: set<int>, coverCount: seq<int>)
  {
    |coverCount| == nPoints
    && forall p :: 0 <= p < nPoints ==> coverCount[p] == |CoveredBy(cov, chosen, p)|
  }

  /** The number of points set `s` would newly cover. */
  ghost function NewPoints(cov: seq<set<int>>, chosen: set<int>, s: int): nat
    requires 0 <= s < |cov|
  {
    |cov[s] - Union(cov, chosen)|
  }

  /** A point's count is zero exactly when no chosen set covers it. */
  lemma UncoveredIffZero(cov: seq<set<int>>, chosen: set<int>, p: int, count: int)
    requires count == |CoveredBy(cov, chosen, p)|
    ensures count == 0 <==> p !in Union(cov, chosen)
  {
    InUnion(cov, chosen, p);
  }

  /** A point of a chosen set `s` has count one exactly when no other chosen set
      covers it, i.e. when dropping `s` uncovers it. */
  lemma LostIffCountOne(cov: seq<set<int>>, chosen: set<int>, s: int, p: int)
    requires s in chosen && 0 <= s < |cov| && p in cov[s]
    ensures |CoveredBy(cov, chosen, p)| >= 1
    ensures |CoveredBy(cov, chosen, p)| == 1 <==> p !in Union(cov, chosen - {s})
  {
    CoveredByRemove(cov, chosen, s, p);
    InUnion(cov, chosen - {s}, p);
  }

  /** The covered points of a choice containing `s` split into those still
      covered without `s` and those only `s` covers. */
  lemma SplitCovered(cov: seq<set<int>>, chosen: set<int>, s: int)
    requires s in chosen && 0 <= s < |cov|
    ensures |Union(cov, chosen)| == |Union(cov, chosen - {s})| + |cov[s] - Union(cov, chosen - {s})|
  {
    UnionAdd(cov, chosen - {s}, s);
    assert chosen - {s} + {s} == chosen;
    CardAdd(Union(cov, chosen - {s}), cov[s]);
  }

  /** The gain scan of one unselected set (the inner loop of the greedy phase). */
  method Gain(inst: PsscInstance, coverCount: array<int>, s: int, ghost chosen: set<int>) returns (gain: int)
    requires inst.Valid() && 0 <= s < inst.nSets
    requires CountsAgree(inst.coverage, inst.nPoints, chosen, coverCount[..])
    ensures gain == NewPoints(inst.coverage, chosen, s)
  {
    var cov := inst.coverage;
    ghost var u := Union(cov, chosen);
    gain := 0;
    var p := 0;
    while p < inst.nPoints
      invariant 0 <= p <= inst.nPoints
      invariant gain == |Below(cov[s], p) - u|
    {
      if p in cov[s] {
        UncoveredIffZero(cov, chosen, p, coverCount[p]);
        if coverCount[p] == 0 {
          gain := gain + 1;
        }
      }
      BelowStep(cov[s], u, p);
      p := p + 1;
    }
    BelowAll(cov, inst.nPoints, s);
  }

  /** The scan for the best unselected set. Ties with a positive gain let a
      later set replace the current pick on a coin flip; any outcome of the
      flip is allowed. */
  method SelectBest(inst: PsscInstance, coverCount: array<int>, chosen: set<int>) returns (bestSet: int)
    requires inst.Valid()
    requires CountsAgree(inst.coverage, inst.nPoints, chosen, coverCount[..])
    ensures bestSet == -1 <==> forall t :: 0 <= t < inst.nSets ==> t in chosen
    ensures bestSet != -1 ==> 0 <= bestSet < inst.nSets && bestSet !in chosen
    ensures bestSet != -1 ==> forall t :: 0 <= t < inst.nSets && t !in chosen ==>
      NewPoints(inst.coverage, chosen, t) <= NewPoints(inst.coverage, chosen, bestSet)
    ensures bestSet != -1 && NewPoints(inst.coverage, chosen, bestSet) == 0 ==>
      forall t :: 0 <= t < bestSet ==> t in chosen
  {
    var cov := inst.coverage;
    bestSet := -1;
    var bestGain := -1;
    var s := 0;
    while s < inst.nSets
      invariant 0 <= s <= inst.nSets
      invariant -1 <= bestSet < s
      invariant bestSet == -1 <==> bestGain == -1
      invariant bestSet == -1 ==> forall t :: 0 <= t < s ==> t in chosen
      invariant bestSet != -1 ==> bestSet !in chosen && bestGain == NewPoints(cov, chosen, bestSet)
      invariant forall t :: 0 <= t < s && t !in chosen ==> NewPoints(cov, chosen, t) <= bestGain
      invariant bestGain == 0 ==> forall t :: 0 <= t < bestSet ==> t in chosen
    {
      if s !in chosen {
        var gain := Gain(inst, coverCount, s, chosen);
        if gain > bestGain {
          bestGain := gain;
          bestSet := s;
        } else if gain == bestGain && gain > 0 {
          var coin: bool :| true;
          if coin {
            bestSet := s;
          }
        }
      }
      s := s + 1;
    }
  }

  /** The fallback: the first unselected set, or -1 when every set is chosen. */
  method FirstUnselected(nSets: nat, chosen: set<int>) returns (r: int)
    ensures r == -1 <==> forall t :: 0 <= t < nSets ==> t in chosen
    ensures r != -1 ==> 0 <= r < nSets && r !in chosen && forall t :: 0 <= t < r ==> t in chosen
  {
    r := -1;
    var s := 0;
    while s < nSets
      invariant 0 <= s <= nSets
      invariant forall t :: 0 <= t < s ==> t in chosen
    {
      if s !in chosen {
        r := s;
        break;
      }
      s := s + 1;
    }
  }

  /** The count scan after adding a set with points `pts`: each of its points
      gains one coverer, and `newly` counts those that had none. */
  method BumpPoints(coverCount: array<int>, pts: set<int>, ghost u: set<int>) returns (newly: int)
    requires forall q :: q in pts ==> 0 <= q < coverCount.Length
    requires forall q :: 0 <= q < coverCount.Length ==> (coverCount[q] == 0 <==> q !in u)
    modifies coverCount
    ensures forall q :: 0 <= q < coverCount.Length ==>
      coverCount[q] == old(coverCount[q]) + (if q in pts then 1 else 0)
    ensures newly == |pts - u|
  {
    newly := 0;
    var p := 0;
    while p < coverCount.Length
      invariant 0 <= p <= coverCount.Length
      invariant forall q :: 0 <= q < coverCount.Length ==>
        coverCount[q] == old(coverCount[q]) + (if q < p && q in pts then 1 else 0)
      invariant newly == |Below(pts, p) - u|
    {
      BelowStep(pts, u, p);
      if p in pts {
        if coverCount[p] == 0 {
          newly := newly + 1;
        }
        coverCount[p] := coverCount[p] + 1;
      }
      p := p + 1;
    }
    assert Below(pts, p) == pts;
  }

  /** The count update after adding set `b`. */
  method AddCounts(inst: PsscInstance, coverCount: array<int>, b: int, covered: int, ghost chosen: set<int>)
    returns (covered': int)
    requires inst.Valid() && 0 <= b < inst.nSets && b !in chosen
    requires CountsAgree(inst.coverage, inst.nPoints, chosen, coverCount[..])
    requires covered == |Union(inst.coverage, chosen)|
    modifies coverCount
    ensures CountsAgree(inst.coverage, inst.nPoints, chosen + {b}, coverCount[..])
    ensures covered' == |Union(inst.coverage, chosen + {b})|
  {
    var cov, n := inst.coverage, inst.nPoints;
    ghost var u := Union(cov, chosen);
    forall q | 0 <= q < n ensures coverCount[q] == 0 <==> q !in u {
      UncoveredIffZero(cov, chosen, q, coverCount[q]);
    }
    var newly := BumpPoints(coverCount, inst.CoveredPoints(b), u);
    covered' := covered + newly;
    UnionAdd(cov, chosen, b);
    CardAdd(u, cov[b]);
    forall q | 0 <= q < n ensures coverCount[q] == |CoveredBy(cov, chosen + {b}, q)| {
      CoveredByAdd(cov, chosen, b, q);
    }
  }

  /** The loss scan of a chosen set, with its early exit once the threshold is
      already missed. The decision it supports is exact: dropping `s` is judged
      safe iff the other chosen sets still meet the threshold. */
  method WouldLose(inst: PsscInstance, coverCount: array<int>, s: int, covered: int, minCovered: int, ghost chosen: set<int>)
    returns (wouldLose: int)
    requires inst.Valid() && 0 <= s < inst.nSets && s in chosen
    requires CountsAgree(inst.coverage, inst.nPoints, chosen, coverCount[..])
    requires covered == |Union(inst.coverage, chosen)|
    ensures covered - wouldLose >= minCovered <==> |Union(inst.coverage, chosen - {s})| >= minCovered
  {
    var cov, n := inst.coverage, inst.nPoints;
    ghost var rest := Union(cov, chosen - {s});
    SplitCovered(cov, chosen, s);
    BelowAll(cov, n, s);
    wouldLose := 0;
    var p := 0;
    while p < n
      invariant 0 <= p <= n
      invariant wouldLose == |Below(cov[s], p) - rest|
    {
      BelowStep(cov[s], rest, p);
      if p in cov[s] {
        LostIffCountOne(cov, chosen, s, p);
        if coverCount[p] == 1 {
          wouldLose := wouldLose + 1;
          if covered - wouldLose < minCovered {
            CardMono(Below(cov[s], p + 1) - rest, cov[s] - rest);
            break;
          }
        }
      }
      p := p + 1;
    }
  }

  /** The count scan after dropping a set with points `pts`: each of its points
      loses one coverer, and `lost` counts those left with none. */
  method DropPoints(coverCount: array<int>, pts: set<int>, ghost rest: set<int>) returns (lost: int)
    requires forall q :: q in pts ==> 0 <= q < coverCount.Length
    requires forall q :: q in pts ==> coverCount[q] >= 1 && (coverCount[q] == 1 <==> q !in rest)
    modifies coverCount
    ensures forall q :: 0 <= q < coverCount.Length ==>
      coverCount[q] == old(coverCount[q]) - (if q in pts then 1 else 0)
    ensures lost == |pts - rest|
  {
    lost := 0;
    var p := 0;
    while p < coverCount.Length
      invariant 0 <= p <= coverCount.Length
      invariant forall q :: 0 <= q < coverCount.Length ==>
        coverCount[q] == old(coverCount[q]) - (if q < p && q in pts then 1 else 0)
      invariant lost == |Below(pts, p) - rest|
    {
      BelowStep(pts, rest, p);
      if p in pts {
        coverCount[p] := coverCount[p] - 1;
        if coverCount[p] == 0 {
          lost := lost + 1;
        }
      }
      p := p + 1;
    }
    assert Below(pts, p) == pts;
  }

  /** The count update after dropping set `s`. */
  method RemoveCounts(inst: PsscInstance, coverCount: array<int>, s: int, covered: int, ghost chosen: set<int>)
    returns (covered': int)
    requires inst.Valid() && 0 <= s < inst.nSets && s in chosen
    requires CountsAgree(inst.coverage, inst.nPoints, chosen, coverCount[..])
    requires covered == |Union(inst.coverage, chosen)|
    modifies coverCount
    ensures CountsAgree(inst.coverage, inst.nPoints, chosen - {s}, coverCount[..])
    ensures covered' == |Union(inst.coverage, chosen - {s})|
  {
    var cov, n := inst.coverage, inst.nPoints;
    ghost var rest := Union(cov, chosen - {s});
    forall q | q in cov[s] ensures coverCount[q] >= 1 && (coverCount[q] == 1 <==> q !in rest) {
      LostIffCountOne(cov, chosen, s, q);
    }
    SplitCovered(cov, chosen, s);
    var lost := DropPoints(coverCount, inst.CoveredPoints(s), rest);
    covered' := covered - lost;
    forall q | 0 <= q < n ensures coverCount[q] == |CoveredBy(cov, chosen - {s}, q)| {
      CoveredByRemove(cov, chosen, s, q);
    }
  }

  /** Phase 1 of `construct`: add the best set until the threshold is met.
      `ok` is false when every set is chosen and the threshold is still
      missed. */
  method AddPhase(sol: PsscSolution, coverCount: array<int>, covered0: int) returns (covered: int, ok: bool)
    requires sol.Valid()
    requires CountsAgree(sol.inst.coverage, sol.inst.nPoints, sol.chosen, coverCount[..])
    requires covered0 == |Union(sol.inst.coverage, sol.chosen)|
    modifies sol, coverCount
    ensures sol.Valid() && old(sol.chosen) <= sol.chosen
    ensures CountsAgree(sol.inst.coverage, sol.inst.nPoints, sol.chosen, coverCount[..])
    ensures covered == |Union(sol.inst.coverage, sol.chosen)|
    ensures ok <==> covered >= MinCovered(sol.inst.nPoints)
    ensures !ok ==> sol.chosen == Range(sol.inst.nSets)
  {
    var inst := sol.inst;
    var cov, nPoints, nSets := inst.coverage, inst.nPoints, inst.nSets;
    var minCovered := MinCovered(nPoints);
    ghost var start := sol.chosen;
    covered := covered0;
    while covered < minCovered
      invariant sol.Valid() && start <= sol.chosen
      invariant CountsAgree(cov, nPoints, sol.chosen, coverCount[..])
      invariant covered == |Union(cov, sol.chosen)|
      decreases Range(nSets) - sol.chosen
    {
      var bestSet := SelectBest(inst, coverCount, sol.chosen);
      if bestSet == -1 {
        bestSet := FirstUnselected(nSets, sol.chosen);
      }
      if bestSet == -1 {
        assert sol.chosen == Range(nSets);
        return covered, false;
      }
      ghost var before := sol.chosen;
      sol.AddSet(bestSet);
      covered := AddCounts(inst, coverCount, bestSet, covered, before);
    }
    ok := true;
  }

  /** The result of the ascending redundancy pass from index `s` on: each
      chosen set, in increasing order, is dropped when the sets still chosen
      at that moment meet the threshold without it. */
  ghost function Pass(cov: seq<set<int>>, nPoints: nat, chosen: set<int>, s: int, nSets: int): set<int>
    decreases nSets - s
  {
    if s >= nSets then chosen
    else if s in chosen && Covers(cov, nPoints, chosen - {s}) then Pass(cov, nPoints, chosen - {s}, s + 1, nSets)
    else Pass(cov, nPoints, chosen, s + 1, nSets)
  }

  /** The pass is first-fit, not any minimal cover: with two copies of the
      only set of a one-point universe it drops the first copy and keeps the
      second. */
  lemma PassDropsFirstCopy()
    ensures Pass([{0}, {0}], 1, {0, 1}, 0, 2) == {1}
  {
    var cov: seq<set<int>> := [{0}, {0}];
    assert {0, 1} - {0} == {1};
    UnionContains(cov, {1}, 1, 0);
    assert Union(cov, {1}) == {0};
    assert {1} - {1} == {};
    assert Union(cov, {}) == {};
  }

  /** Phase 2 of `construct`: one ascending pass over the chosen sets,
      dropping each one the loss scan judges safe. Only drops happen, the
      threshold is kept, and afterwards no kept set can be dropped alone. */
  method RemovePhase(sol: PsscSolution, coverCount: array<int>, covered0: int)
    requires sol.Valid()
    requires CountsAgree(sol.inst.coverage, sol.inst.nPoints, sol.chosen, coverCount[..])
    requires covered0 == |Union(sol.inst.coverage, sol.chosen)| >= MinCovered(sol.inst.nPoints)
    modifies sol, coverCount
    ensures sol.Valid() && sol.chosen <= old(sol.chosen)
    ensures sol.chosen == Pass(sol.inst.coverage, sol.inst.nPoints, old(sol.chosen), 0, sol.inst.nSets)
    ensures Covers(sol.inst.coverage, sol.inst.nPoints, sol.chosen)
    ensures forall t :: t in sol.chosen ==> !Covers(sol.inst.coverage, sol.inst.nPoints, sol.chosen - {t})
  {
    var inst := sol.inst;
    var cov, nPoints, nSets := inst.coverage, inst.nPoints, inst.nSets;
    var minCovered := MinCovered(nPoints);
    var covered := covered0;
    ghost var picked := sol.chosen;
    var s := 0;
    while s < nSets
      invariant 0 <= s <= nSets
      invariant sol.Valid()
      invariant CountsAgree(cov, nPoints, sol.chosen, coverCount[..])
      invariant covered == |Union(cov, sol.chosen)| && covered >= minCovered
      invariant sol.chosen <= picked
      invariant Pass(cov, nPoints, sol.chosen, s, nSets) == Pass(cov, nPoints, picked, 0, nSets)
      invariant forall t :: t in picked && s <= t ==> t in sol.chosen
      invariant forall t :: t in sol.chosen && t < s ==> !Covers(cov, nPoints, sol.chosen - {t})
    {
      if s in sol.chosen {
        var wouldLose := WouldLose(inst, coverCount, s, covered, minCovered, sol.chosen);
        if covered - wouldLose >= minCovered {
          ghost var before := sol.chosen;
          sol.RemoveSet(s);
          covered := RemoveCounts(inst, coverCount, s, covered, before);
          forall t | t in sol.chosen && t < s ensures !Covers(cov, nPoints, sol.chosen - {t}) {
            UnionMono(cov, sol.chosen - {t}, before - {t});
          }
        }
      }
      s := s + 1;
    }
  }

  /** `construct`, started from the empty solution. `ok` is false when every
      set has been added and coverage is still short of the threshold: there
      the Java `construct` goes on with set index -1 and fails. */
  method Construct(sol: PsscSolution) returns (ok: bool)
    requires sol.Valid() && sol.chosen == {}
    modifies sol
    ensures sol.Valid()
    ensures ok <==> Feasible(sol.inst.coverage, sol.inst.nPoints)
    ensures !ok ==> sol.chosen == Range(sol.inst.nSets)
    ensures ok ==> Covers(sol.inst.coverage, sol.inst.nPoints, sol.chosen)
    ensures ok ==> forall t :: t in sol.chosen ==> !Covers(sol.inst.coverage, sol.inst.nPoints, sol.chosen - {t})
  {
    var cov, nPoints := sol.inst.coverage, sol.inst.nPoints;
    var coverCount := new int[nPoints](_ => 0);
    forall p | 0 <= p < nPoints ensures coverCount[p] == |CoveredBy(cov, sol.chosen, p)| {
      assert CoveredBy(cov, sol.chosen, p) == {};
    }
    assert Union(cov, sol.chosen) == {};
    var covered;
    covered, ok := AddPhase(sol, coverCount, 0);
    if !ok {
      return;
    }
    UnionMono(cov, sol.chosen, Range(sol.inst.nSets));
    RemovePhase(sol, coverCount, covered);
  }
}
