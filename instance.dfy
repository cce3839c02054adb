/** The problem instance: the coverage table and the dominance metadata
    derived from it once, when the instance is built. */
module Instance {
  import opened Coverage

  /** Set `j` covers nothing, or its points are all covered by another set. */
  ghost predicate IsUseless(cov: seq<set<int>>, j: int)
    requires 0 <= j < |cov|
  {
    cov[j] == {} || exists i :: 0 <= i < |cov| && i != j && cov[j] <= cov[i]
  }

  /** Set `s` is the only set of the table that covers point `p`. */
  ghost predicate SoleCoverer(cov: seq<set<int>>, s: int, p: int)
  {
    0 <= s < |cov| && p in cov[s] && forall t :: 0 <= t < |cov| && t != s ==> p !in cov[t]
  }

  /** Set `s` is needed to cover some point of the universe. */
  ghost predicate IsSupport(cov: seq<set<int>>, nPoints: nat, s: int)
  {
    exists p :: 0 <= p < nPoints && SoleCoverer(cov, s, p)
  }

  /** What iteration `i` of the dominance pass flags: `i` itself when it is
      empty, otherwise every other set it contains. */
  ghost predicate FlaggedBy(cov: seq<set<int>>, i: int, j: int)
    requires 0 <= i < |cov| && 0 <= j < |cov|
  {
    if cov[i] == {} then j == i else i != j && cov[j] <= cov[i]
  }

  /** Some of the first `n` iterations of the dominance pass flags `j`. */
  ghost predicate FlaggedBefore(cov: seq<set<int>>, n: int, j: int)
    requires n <= |cov| && 0 <= j < |cov|
  {
    exists i :: 0 <= i < n && FlaggedBy(cov, i, j)
  }

  lemma FlaggedBeforeStep(cov: seq<set<int>>, n: int, j: int)
    requires 0 <= n < |cov| && 0 <= j < |cov|
    ensures FlaggedBefore(cov, n + 1, j) <==> FlaggedBefore(cov, n, j) || FlaggedBy(cov, n, j)
  {
    if FlaggedBefore(cov, n + 1, j) {
      var i :| 0 <= i < n + 1 && FlaggedBy(cov, i, j);
      if i < n { assert FlaggedBefore(cov, n, j); }
    }
  }

  /** The dominance pass flags exactly the useless sets. */
  lemma FlaggedIffUseless(cov: seq<set<int>>, j: int)
    requires 0 <= j < |cov|
    ensures FlaggedBefore(cov, |cov|, j) <==> IsUseless(cov, j)
  {
    if cov[j] == {} {
      assert FlaggedBy(cov, j, j);
    } else if IsUseless(cov, j) {
      var i :| 0 <= i < |cov| && i != j && cov[j] <= cov[i];
      assert cov[i] != {};
      assert FlaggedBy(cov, i, j);
    }
  }

  /** The dominance pass (the nested loops filling `uselessSets`). */
  method ComputeUselessSets(cov: seq<set<int>>, nSets: nat) returns (useless: set<int>)
    requires |cov| == nSets
    ensures forall j :: j in useless <==> 0 <= j < nSets && IsUseless(cov, j)
  {
    useless := {};
    var i := 0;
    while i < nSets
      invariant 0 <= i <= nSets
      invariant forall j :: j in useless <==> 0 <= j < nSets && FlaggedBefore(cov, i, j)
    {
      var s := cov[i];
      if s == {} {
        useless := useless + {i};
      } else {
        var j := 0;
        while j < nSets
          invariant 0 <= j <= nSets
          invariant forall j' :: j' in useless <==>
            0 <= j' < nSets && (FlaggedBefore(cov, i, j') || (j' < j && FlaggedBy(cov, i, j')))
        {
          if i != j && cov[j] <= s {
            useless := useless + {j};
          }
          j := j + 1;
        }
      }
      forall j | 0 <= j < nSets ensures FlaggedBefore(cov, i + 1, j) <==> FlaggedBefore(cov, i, j) || FlaggedBy(cov, i, j) {
        FlaggedBeforeStep(cov, i, j);
      }
      i := i + 1;
    }
    forall j | 0 <= j < nSets ensures j in useless <==> IsUseless(cov, j) {
      FlaggedIffUseless(cov, j);
    }
  }

  /** A point has a single coverer exactly when that set is its sole coverer. */
  lemma SingleCoverer(cov: seq<set<int>>, p: int, s: int)
    ensures CoveredBy(cov, Range(|cov|), p) == {s} <==> SoleCoverer(cov, s, p)
  {
    if SoleCoverer(cov, s, p) {
      assert CoveredBy(cov, Range(|cov|), p) == {s};
    }
    if CoveredBy(cov, Range(|cov|), p) == {s} {
      assert s in CoveredBy(cov, Range(|cov|), p);
      forall t | 0 <= t < |cov| && t != s ensures p !in cov[t] {
        assert t !in CoveredBy(cov, Range(|cov|), p);
      }
    }
  }

  /** A set of cardinality one is the singleton of any of its members. */
  lemma CardOne(c: set<int>, s: int)
    requires |c| == 1 && s in c
    ensures c == {s}
  {
    assert |c - {s}| == 0;
  }

  /** The support pass (the per-point loops filling `supportSets`). */
  method ComputeSupportSets(cov: seq<set<int>>, nSets: nat, nPoints: nat) returns (support: set<int>)
    requires |cov| == nSets
    ensures forall s :: s in support <==> 0 <= s < nSets && IsSupport(cov, nPoints, s)
  {
    support := {};
    var i := 0;
    while i < nPoints
      invariant 0 <= i <= nPoints
      invariant forall s :: s in support <==> 0 <= s < nSets && exists p :: 0 <= p < i && SoleCoverer(cov, s, p)
    {
      var coveredBy: set<int> := {};
      var j := 0;
      while j < nSets
        invariant 0 <= j <= nSets
        invariant coveredBy == set j' | 0 <= j' < j && i in cov[j']
      {
        if i in cov[j] {
          coveredBy := coveredBy + {j};
        }
        j := j + 1;
      }
      assert coveredBy == CoveredBy(cov, Range(|cov|), i);
      if |coveredBy| == 1 {
        // the lowest (and only) member of the singleton
        var s :| s in coveredBy;
        CardOne(coveredBy, s);
        SingleCoverer(cov, i, s);
        forall t | t != s ensures !SoleCoverer(cov, t, i) {
          SingleCoverer(cov, i, t);
        }
        support := support + {s};
      } else {
        forall t ensures !SoleCoverer(cov, t, i) {
          SingleCoverer(cov, i, t);
        }
      }
      i := i + 1;
    }
  }

  class PsscInstance {
    const nSets: nat
    const nPoints: nat
    /** For each set, the points it covers. */
    const coverage: seq<set<int>>
    /** Sets that cover nothing or are contained in another set. */
    const uselessSets: set<int>
    /** Sets that are the only coverer of some point. */
    const supportSets: set<int>

    ghost predicate Valid()
    {
      |coverage| == nSets && InUniverse(coverage, nPoints)
    }

    constructor (nSets: nat, nPoints: nat, coverage: seq<set<int>>)
      requires |coverage| == nSets && InUniverse(coverage, nPoints)
      ensures Valid()
      ensures this.nSets == nSets && this.nPoints == nPoints && this.coverage == coverage
      ensures forall j :: j in uselessSets <==> 0 <= j < nSets && IsUseless(coverage, j)
      ensures forall s :: s in supportSets <==> 0 <= s < nSets && IsSupport(coverage, nPoints, s)
    {
      var useless := ComputeUselessSets(coverage, nSets);
      var support := ComputeSupportSets(coverage, nSets, nPoints);
      this.nSets := nSets;
      this.nPoints := nPoints;
      this.coverage := coverage;
      uselessSets := useless;
      supportSets := support;
    }

    /** The points covered by set `s`. */
    function CoveredPoints(s: int): (r: set<int>)
      requires Valid() && 0 <= s < nSets
      ensures forall p :: p in r ==> 0 <= p < nPoints
    {
      coverage[s]
    }

    /** Instances are ordered by their number of sets (`Integer.compare`). */
    function CompareTo(other: PsscInstance): (r: int)
      ensures r == -1 || r == 0 || r == 1
      ensures r < 0 <==> nSets < other.nSets
      ensures r > 0 <==> nSets > other.nSets
    {
      if nSets < other.nSets then -1 else if nSets == other.nSets then 0 else 1
    }
  }

  /** The comparison is antisymmetric. */
  lemma CompareAntisymmetric(a: PsscInstance, b: PsscInstance)
    ensures a.CompareTo(b) == -b.CompareTo(a)
  {
  }

  /** Two distinct sets with the same non-empty coverage are both useless. */
  lemma DuplicatesBothUseless(cov: seq<set<int>>, i: int, j: int)
    requires 0 <= i < |cov| && 0 <= j < |cov| && i != j && cov[i] == cov[j]
    ensures IsUseless(cov, i) && IsUseless(cov, j)
  {
  }

  /** A set strictly contained in another is useless, and the larger one is not
      flagged because of it: with B = {0, 1} inside A = {0, 1, 2}, only B is useless. */
  lemma ContainedSetUseless()
    ensures IsUseless([{0, 1, 2}, {0, 1}], 1)
    ensures !IsUseless([{0, 1, 2}, {0, 1}], 0)
  {
    var cov: seq<set<int>> := [{0, 1, 2}, {0, 1}];
    assert 2 in cov[0] && 2 !in cov[1];
  }
}
