/** Point sets and the coverage algebra shared by every component.
    A coverage table is a sequence of point sets, one per candidate set;
    the dense bit-sets of the system are modelled as `set<int>`. */
module Coverage {

  /** The index domain [0, n). */
  function Range(n: nat): (r: set<int>)
    ensures forall i :: i in r <==> 0 <= i < n
  {
    if n == 0 then {} else Range(n - 1) + {n - 1}
  }

  /** Every set of the table covers only points of the universe [0, nPoints). */
  ghost predicate InUniverse(cov: seq<set<int>>, nPoints: nat)
  {
    forall i, p :: 0 <= i < |cov| && p in cov[i] ==> 0 <= p < nPoints
  }

  /** The points covered by at least one chosen set. */
  function Union(cov: seq<set<int>>, chosen: set<int>): set<int>
  {
    set s, p | s in chosen && 0 <= s < |cov| && p in cov[s] :: p
  }

  /** The chosen sets that cover point `p`. */
  function CoveredBy(cov: seq<set<int>>, chosen: set<int>, p: int): set<int>
  {
    set s | s in chosen && 0 <= s < |cov| && p in cov[s]
  }

  /** The points of `s` visited by an ascending scan that has reached `p`. */
  function Below(s: set<int>, p: int): set<int>
  {
    set q | q in s && q < p
  }

  /** ceil(0.9 * nPoints), the least number of covered points of a feasible solution. */
  function MinCovered(nPoints: nat): (r: nat)
    ensures 10 * r >= 9 * nPoints && 10 * (r - 1) < 9 * nPoints
  {
    (9 * nPoints + 9) / 10
  }

  /** A choice of sets covers at least 90% of the universe. */
  ghost predicate Covers(cov: seq<set<int>>, nPoints: nat, chosen: set<int>)
  {
    |Union(cov, chosen)| >= MinCovered(nPoints)
  }

  /** The whole pool reaches the threshold: the instance has a feasible solution. */
  ghost predicate Feasible(cov: seq<set<int>>, nPoints: nat)
  {
    Covers(cov, nPoints, Range(|cov|))
  }

  /** The fraction test `x / n >= 0.9` is exactly the integer threshold. */
  lemma FractionIsThreshold(x: int, n: nat)
    ensures 10 * x >= 9 * n <==> x >= MinCovered(n)
  {
    var m := MinCovered(n);
    assert 10 * m <= 9 * n + 9 < 10 * m + 10;
  }

  lemma CardMono<T>(a: set<T>, b: set<T>)
    requires a <= b
    ensures |a| <= |b|
  {
    assert b == a + (b - a);
  }

  /** Adding the points of `b` adds exactly those not already present. */
  lemma CardAdd<T>(a: set<T>, b: set<T>)
    ensures |a + b| == |a| + |b - a|
  {
    assert a + b == a + (b - a);
  }

  /** A point is covered iff some chosen set covers it. */
  lemma InUnion(cov: seq<set<int>>, chosen: set<int>, p: int)
    ensures p in Union(cov, chosen) <==> CoveredBy(cov, chosen, p) != {}
  {
    if p in Union(cov, chosen) {
      var s :| s in chosen && 0 <= s < |cov| && p in cov[s];
      assert s in CoveredBy(cov, chosen, p);
    }
    if CoveredBy(cov, chosen, p) != {} {
      var s :| s in CoveredBy(cov, chosen, p);
      assert s in chosen && 0 <= s < |cov| && p in cov[s];
    }
  }

  lemma UnionContains(cov: seq<set<int>>, chosen: set<int>, s: int, p: int)
    requires s in chosen && 0 <= s < |cov| && p in cov[s]
    ensures p in Union(cov, chosen)
  {
    assert s in CoveredBy(cov, chosen, p);
    InUnion(cov, chosen, p);
  }

  /** Adding a set to the choice adds exactly its points. */
  lemma UnionAdd(cov: seq<set<int>>, chosen: set<int>, b: int)
    requires 0 <= b < |cov|
    ensures Union(cov, chosen + {b}) == Union(cov, chosen) + cov[b]
  {
    var l, r := Union(cov, chosen + {b}), Union(cov, chosen) + cov[b];
    forall p | p in l ensures p in r {
      var s :| s in chosen + {b} && 0 <= s < |cov| && p in cov[s];
      if s != b { UnionContains(cov, chosen, s, p); }
    }
    forall p | p in r ensures p in l {
      if p in cov[b] {
        UnionContains(cov, chosen + {b}, b, p);
      } else {
        var s :| s in chosen && 0 <= s < |cov| && p in cov[s];
        UnionContains(cov, chosen + {b}, s, p);
      }
    }
  }

  /** Choosing more sets never uncovers a point. */
  lemma UnionMono(cov: seq<set<int>>, a: set<int>, b: set<int>)
    requires a <= b
    ensures Union(cov, a) <= Union(cov, b)
    ensures |Union(cov, a)| <= |Union(cov, b)|
  {
    forall p | p in Union(cov, a) ensures p in Union(cov, b) {
      var s :| s in a && 0 <= s < |cov| && p in cov[s];
      UnionContains(cov, b, s, p);
    }
    CardMono(Union(cov, a), Union(cov, b));
  }

  /** Choosing one more set raises the cover count of each of its points by one. */
  lemma CoveredByAdd(cov: seq<set<int>>, chosen: set<int>, b: int, p: int)
    requires 0 <= b < |cov| && b !in chosen
    ensures |CoveredBy(cov, chosen + {b}, p)| == |CoveredBy(cov, chosen, p)| + (if p in cov[b] then 1 else 0)
  {
    if p in cov[b] {
      assert CoveredBy(cov, chosen + {b}, p) == CoveredBy(cov, chosen, p) + {b};
    } else {
      assert CoveredBy(cov, chosen + {b}, p) == CoveredBy(cov, chosen, p);
    }
  }

  /** Dropping a chosen set lowers the cover count of each of its points by one. */
  lemma CoveredByRemove(cov: seq<set<int>>, chosen: set<int>, b: int, p: int)
    requires 0 <= b < |cov| && b in chosen
    ensures |CoveredBy(cov, chosen - {b}, p)| == |CoveredBy(cov, chosen, p)| - (if p in cov[b] then 1 else 0)
  {
    CoveredByAdd(cov, chosen - {b}, b, p);
    assert chosen - {b} + {b} == chosen;
  }

  /** Extending a scan by one point adds that point iff it is in `s` and not in `u`. */
  lemma BelowStep(s: set<int>, u: set<int>, p: int)
    ensures |Below(s, p + 1) - u| == |Below(s, p) - u| + (if p in s && p !in u then 1 else 0)
  {
    if p in s && p !in u {
      assert Below(s, p + 1) - u == (Below(s, p) - u) + {p};
    } else {
      assert Below(s, p + 1) - u == Below(s, p) - u;
    }
  }

  /** A completed scan of the universe visits every point of a set of the table. */
  lemma BelowAll(cov: seq<set<int>>, nPoints: nat, s: int)
    requires InUniverse(cov, nPoints) && 0 <= s < |cov|
    ensures Below(cov[s], nPoints) == cov[s]
  {
  }
}
