// The connection ladder reduced to its headline: summarizeSaturation of benchmarks/driver/parse.ts.
module Saturation {
  import opened Options
  import opened Seqs
  import opened StableSort
  import opened Samples

  datatype Level = Level(connections: nat, sample: Sample)

  // None for maxSustainableAt and peakSample is the source's null.
  datatype Summary = Summary(
    levels: seq<Level>, maxSustainableRps: real, maxSustainableAt: Option<nat>, peakSample: Option<Sample>, saturated: bool)

  predicate FewerConnections(a: Level, b: Level) {
    a.connections <= b.connections
  }

  predicate Holds(l: Level, threshold: real) {
    l.sample.successRate >= threshold
  }

  function Rps(l: Level): real {
    l.sample.requestsPerSec
  }

  // The headline of the rungs seen so far: the highest positive rate at a rung that held, at the
  // first such rung; nothing when there is none.
  ghost predicate Headline(levels: seq<Level>, threshold: real, rps: real, at: Option<nat>, peak: Option<Sample>) {
    if at.None? then
      peak.None? && rps == 0.0 && forall i :: 0 <= i < |levels| && Holds(levels[i], threshold) ==> Rps(levels[i]) <= 0.0
    else
      exists k :: 0 <= k < |levels| && PeakAt(levels, threshold, k)
        && at.value == levels[k].connections && peak == Some(levels[k].sample) && rps == Rps(levels[k]) > 0.0
  }

  ghost predicate PeakAt(levels: seq<Level>, threshold: real, k: nat)
    requires k < |levels|
  {
    Holds(levels[k], threshold) && forall i :: 0 <= i < |levels| && Holds(levels[i], threshold) ==>
      Rps(levels[i]) <= Rps(levels[k]) && (i < k ==> Rps(levels[i]) < Rps(levels[k]))
  }

  // The first rung with the highest rate of all, held or not.
  ghost predicate FastestAt(levels: seq<Level>, k: nat)
    requires k < |levels|
  {
    forall i :: 0 <= i < |levels| ==> Rps(levels[i]) <= Rps(levels[k]) && (i < k ==> Rps(levels[i]) < Rps(levels[k]))
  }

  ghost predicate Summarizes(r: Summary, levels: seq<Level>, threshold: real) {
    && r.levels == Sort(FewerConnections, levels) && r.levels != []
    && Headline(r.levels, threshold, r.maxSustainableRps, r.maxSustainableAt, r.peakSample)
    && exists k :: 0 <= k < |r.levels| && FastestAt(r.levels, k)
         && (r.saturated <==> (exists i :: 0 <= i < |r.levels| && !Holds(r.levels[i], threshold))
                              || r.levels[k].connections != r.levels[|r.levels| - 1].connections)
  }

  // Throws, here None, on an empty ladder.
  method SummarizeSaturation(levels: seq<Level>, threshold: real) returns (r: Option<Summary>)
    ensures r.None? <==> levels == []
    ensures r.Some? ==> Summarizes(r.value, levels, threshold)
  {
    if levels == [] {
      return None;
    }
    var sorted := Sort(FewerConnections, levels);
    SortedLength(FewerConnections, levels);
    var rps, at, peak := SustainedPeak(sorted, threshold);
    var best := Fastest(sorted);
    var sheddedLoad := exists i :: 0 <= i < |sorted| && !Holds(sorted[i], threshold);
    var turnedOver := sorted[best].connections != sorted[|sorted| - 1].connections;
    r := Some(Summary(sorted, rps, at, peak, sheddedLoad || turnedOver));
  }

  method SustainedPeak(sorted: seq<Level>, threshold: real) returns (rps: real, at: Option<nat>, peak: Option<Sample>)
    ensures Headline(sorted, threshold, rps, at, peak)
  {
    rps, at, peak := 0.0, None, None;
    var n := 0;
    while n < |sorted|
      invariant n <= |sorted| && Headline(sorted[..n], threshold, rps, at, peak)
    {
      var level := sorted[n];
      HeadlineStep(sorted, n, threshold, rps, at, peak);
      if Holds(level, threshold) && Rps(level) > rps {
        rps, at, peak := Rps(level), Some(level.connections), Some(level.sample);
      }
      n := n + 1;
    }
    assert sorted[..n] == sorted;
  }

  lemma HeadlineStep(s: seq<Level>, n: nat, threshold: real, rps: real, at: Option<nat>, peak: Option<Sample>)
    requires n < |s| && Headline(s[..n], threshold, rps, at, peak)
    ensures if Holds(s[n], threshold) && Rps(s[n]) > rps
            then Headline(s[..n + 1], threshold, Rps(s[n]), Some(s[n].connections), Some(s[n].sample))
            else Headline(s[..n + 1], threshold, rps, at, peak)
  {
    var t := s[..n + 1];
    assert forall i :: 0 <= i < n ==> t[i] == s[..n][i];
    if at.Some? {
      var k :| 0 <= k < n && PeakAt(s[..n], threshold, k) && at.value == s[..n][k].connections
               && peak == Some(s[..n][k].sample) && rps == Rps(s[..n][k]) > 0.0;
      if Holds(s[n], threshold) && Rps(s[n]) > rps {
        assert PeakAt(t, threshold, n);
      } else {
        assert PeakAt(t, threshold, k);
      }
    } else if Holds(s[n], threshold) && Rps(s[n]) > rps {
      assert PeakAt(t, threshold, n);
    }
  }

  // The reduce that keeps the first of the fastest rungs.
  method Fastest(sorted: seq<Level>) returns (best: nat)
    requires sorted != []
    ensures best < |sorted| && FastestAt(sorted, best)
  {
    best := 0;
    var n := 1;
    while n < |sorted|
      invariant 1 <= n <= |sorted| && best < n
      invariant forall i :: 0 <= i < n ==> Rps(sorted[i]) <= Rps(sorted[best]) && (i < best ==> Rps(sorted[i]) < Rps(sorted[best]))
    {
      if Rps(sorted[n]) > Rps(sorted[best]) {
        best := n;
      }
      n := n + 1;
    }
  }

  // ---- What the headline means.

  ghost predicate DistinctRungs(levels: seq<Level>) {
    forall i, j :: 0 <= i < j < |levels| ==> levels[i].connections != levels[j].connections
  }

  ghost predicate Ascending(levels: seq<Level>) {
    forall i, j :: 0 <= i < j < |levels| ==> levels[i].connections < levels[j].connections
  }

  lemma {:induction false} SortedAscends(levels: seq<Level>)
    requires DistinctRungs(levels)
    ensures Ascending(Sort(FewerConnections, levels)) && multiset(Sort(FewerConnections, levels)) == multiset(levels)
  {
    var s := Sort(FewerConnections, levels);
    SortFacts(FewerConnections, levels);
    forall i, j | 0 <= i < j < |s| ensures s[i].connections < s[j].connections {
      assert FewerConnections(s[i], s[j]);
      SamePlaces(levels, s, i, j);
    }
  }

  // Two places of a permutation come from two places.
  lemma SamePlaces(levels: seq<Level>, s: seq<Level>, i: nat, j: nat)
    requires multiset(s) == multiset(levels) && DistinctRungs(levels) && i < j < |s|
    ensures s[i].connections != s[j].connections
  {
    assert s[i] in multiset(s) && s[j] in multiset(s);
    var a :| 0 <= a < |levels| && levels[a] == s[i];
    var b :| 0 <= b < |levels| && levels[b] == s[j];
    if a == b {
      CountTwice(s, i, j);
      CountOnce(levels, s[i]);
    }
  }

  // With distinct connection counts the summary does not depend on the order of the ladder.
  lemma SummaryIgnoresOrder(l1: seq<Level>, l2: seq<Level>, threshold: real, r1: Summary, r2: Summary)
    requires DistinctRungs(l1) && multiset(l1) == multiset(l2)
    requires Summarizes(r1, l1, threshold) && Summarizes(r2, l2, threshold)
    ensures r1 == r2
  {
    assert Antisymmetric(FewerConnections, l1) by {
      forall x, y | x in l1 && y in l1 && Ties(FewerConnections, x, y) ensures x == y {
        var i :| 0 <= i < |l1| && l1[i] == x;
        var j :| 0 <= j < |l1| && l1[j] == y;
        assert i == j;
      }
    }
    SortOfPermutation(FewerConnections, l1, l2);
    assert r1.levels == r2.levels;
    HeadlineUnique(r1.levels, threshold, r1, r2);
    FastestUnique(r1, r2, l1, l2, threshold);
  }

  lemma HeadlineUnique(levels: seq<Level>, threshold: real, r1: Summary, r2: Summary)
    requires Headline(levels, threshold, r1.maxSustainableRps, r1.maxSustainableAt, r1.peakSample)
    requires Headline(levels, threshold, r2.maxSustainableRps, r2.maxSustainableAt, r2.peakSample)
    ensures r1.maxSustainableRps == r2.maxSustainableRps
    ensures r1.maxSustainableAt == r2.maxSustainableAt && r1.peakSample == r2.peakSample
  {
    if r1.maxSustainableAt.Some? && r2.maxSustainableAt.Some? {
      var k1 :| 0 <= k1 < |levels| && PeakAt(levels, threshold, k1) && r1.maxSustainableAt.value == levels[k1].connections
                && r1.peakSample == Some(levels[k1].sample) && r1.maxSustainableRps == Rps(levels[k1]);
      var k2 :| 0 <= k2 < |levels| && PeakAt(levels, threshold, k2) && r2.maxSustainableAt.value == levels[k2].connections
                && r2.peakSample == Some(levels[k2].sample) && r2.maxSustainableRps == Rps(levels[k2]);
      assert k1 == k2;
    }
  }

  lemma FastestUnique(r1: Summary, r2: Summary, l1: seq<Level>, l2: seq<Level>, threshold: real)
    requires Summarizes(r1, l1, threshold) && Summarizes(r2, l2, threshold) && r1.levels == r2.levels
    ensures r1.saturated == r2.saturated
  {
    forall i, j | 0 <= i < |r1.levels| && 0 <= j < |r1.levels| && FastestAt(r1.levels, i) && FastestAt(r1.levels, j)
      ensures i == j
    {
    }
  }

  // Some rung of the ladder that held and runs at the headline.
  ghost predicate IsPeak(l: Level, r: Summary, threshold: real) {
    && Holds(l, threshold) && Rps(l) == r.maxSustainableRps
    && r.maxSustainableAt == Some(l.connections) && r.peakSample == Some(l.sample)
  }

  // The headline is the highest rate of any rung that held (0 if none is positive), and it was
  // reached at a rung of the ladder.
  lemma HeadlineIsMaximum(r: Summary, levels: seq<Level>, threshold: real)
    requires Summarizes(r, levels, threshold)
    ensures forall l :: l in levels && Holds(l, threshold) ==> Rps(l) <= r.maxSustainableRps
    ensures r.maxSustainableAt.None? <==> r.maxSustainableRps == 0.0
    ensures r.maxSustainableAt.Some? ==> exists l :: l in levels && IsPeak(l, r, threshold)
  {
    SortFacts(FewerConnections, levels);
    assert forall l :: l in levels <==> l in multiset(r.levels);
    if r.maxSustainableAt.Some? {
      var k :| 0 <= k < |r.levels| && PeakAt(r.levels, threshold, k)
               && r.maxSustainableAt.value == r.levels[k].connections && r.peakSample == Some(r.levels[k].sample)
               && r.maxSustainableRps == Rps(r.levels[k]) > 0.0;
      assert r.levels[k] in levels && IsPeak(r.levels[k], r, threshold);
    }
  }

  // Ties keep the rung with fewer connections.
  lemma HeadlineAtLowestRung(r: Summary, levels: seq<Level>, threshold: real, l: Level)
    requires Summarizes(r, levels, threshold) && r.maxSustainableAt.Some?
    requires l in levels && Holds(l, threshold) && Rps(l) == r.maxSustainableRps
    ensures r.maxSustainableAt.value <= l.connections
  {
    SortFacts(FewerConnections, levels);
    assert l in multiset(r.levels);
    var i :| 0 <= i < |r.levels| && r.levels[i] == l;
    FirstPeak(r, threshold, i);
  }

  lemma FirstPeak(r: Summary, threshold: real, i: nat)
    requires Headline(r.levels, threshold, r.maxSustainableRps, r.maxSustainableAt, r.peakSample)
    requires Sorted(FewerConnections, r.levels) && r.maxSustainableAt.Some? && i < |r.levels|
    requires Holds(r.levels[i], threshold) && Rps(r.levels[i]) == r.maxSustainableRps
    ensures r.maxSustainableAt.value <= r.levels[i].connections
  {
    var k :| 0 <= k < |r.levels| && PeakAt(r.levels, threshold, k)
             && r.maxSustainableAt.value == r.levels[k].connections && r.maxSustainableRps == Rps(r.levels[k]);
    assert i >= k;
    assert i > k ==> FewerConnections(r.levels[k], r.levels[i]);
  }

  // "Still climbing": not saturated means exactly that every rung held and the top rung strictly
  // beats every lower one. Then the headline, if positive, is the top rung's rate.
  lemma NotSaturatedIff(r: Summary, levels: seq<Level>, threshold: real)
    requires Summarizes(r, levels, threshold) && DistinctRungs(levels)
    ensures var top := r.levels[|r.levels| - 1];
      && (!r.saturated <==>
            (forall l :: l in r.levels ==> Holds(l, threshold)) && forall i :: 0 <= i < |r.levels| - 1 ==> Rps(r.levels[i]) < Rps(top))
      && (!r.saturated && Rps(top) > 0.0 ==> r.maxSustainableRps == Rps(top) && r.maxSustainableAt == Some(top.connections))
  {
    SortedAscends(levels);
    var n := |r.levels| - 1;
    var top := r.levels[n];
    var k :| 0 <= k < |r.levels| && FastestAt(r.levels, k)
      && (r.saturated <==> (exists i :: 0 <= i < |r.levels| && !Holds(r.levels[i], threshold)) || r.levels[k].connections != top.connections);
    assert k != n ==> r.levels[k].connections < top.connections;
    if forall i :: 0 <= i < n ==> Rps(r.levels[i]) < Rps(top) {
      assert k == n;
    }
    if !r.saturated && Rps(top) > 0.0 {
      assert Holds(r.levels[n], threshold);
    }
  }

  // The rungs of a summary are those of the ladder, by ascending connections.
  lemma RungsInPlainTerms(r: Summary, levels: seq<Level>, threshold: real)
    requires Summarizes(r, levels, threshold)
    ensures multiset(r.levels) == multiset(levels) && forall l :: l in levels <==> l in r.levels
    ensures forall i, j :: 0 <= i < j < |r.levels| ==> r.levels[i].connections <= r.levels[j].connections
  {
    SortFacts(FewerConnections, levels);
    forall i, j | 0 <= i < j < |r.levels| ensures r.levels[i].connections <= r.levels[j].connections {
      assert FewerConnections(r.levels[i], r.levels[j]);
    }
    SameMembers(r.levels, levels);
  }

  lemma SameMembers(a: seq<Level>, b: seq<Level>)
    requires multiset(a) == multiset(b)
    ensures forall l :: l in b <==> l in a
  {
    assert forall l :: l in a <==> l in multiset(a);
    assert forall l :: l in b <==> l in multiset(b);
  }

  // The headline in plain terms: of the rungs whose success rate reached the threshold the highest
  // positive rate, with its rung and its sample; zero with neither if there is none.
  lemma HeadlineInPlainTerms(r: Summary, levels: seq<Level>, threshold: real)
    requires Summarizes(r, levels, threshold)
    ensures forall l :: l in levels && l.sample.successRate >= threshold ==> l.sample.requestsPerSec <= r.maxSustainableRps
    ensures r.maxSustainableAt.None? ==> r.maxSustainableRps == 0.0 && r.peakSample.None?
    ensures r.maxSustainableAt.Some? ==> exists l ::
      && l in levels && l.sample.successRate >= threshold && l.sample.requestsPerSec == r.maxSustainableRps > 0.0
      && r.maxSustainableAt == Some(l.connections) && r.peakSample == Some(l.sample)
  {
    RungsInPlainTerms(r, levels, threshold);
    if r.maxSustainableAt.Some? {
      var k :| 0 <= k < |r.levels| && PeakAt(r.levels, threshold, k)
               && r.maxSustainableAt.value == r.levels[k].connections && r.peakSample == Some(r.levels[k].sample)
               && r.maxSustainableRps == Rps(r.levels[k]) > 0.0;
      assert r.levels[k] in levels;
    }
  }

  // A ladder that is not saturated reached the threshold at every rung.
  lemma NotSaturatedHeld(r: Summary, levels: seq<Level>, threshold: real)
    requires Summarizes(r, levels, threshold) && !r.saturated
    ensures forall l :: l in levels ==> l.sample.successRate >= threshold
  {
    RungsInPlainTerms(r, levels, threshold);
    assert forall i :: 0 <= i < |r.levels| ==> Holds(r.levels[i], threshold);
  }

  // Saturated or not, in plain terms, for distinct rungs.
  lemma SaturatedInPlainTerms(r: Summary, levels: seq<Level>, threshold: real)
    requires Summarizes(r, levels, threshold) && DistinctRungs(levels)
    ensures r.saturated <==>
      || (exists l :: l in levels && l.sample.successRate < threshold)
      || (exists i :: 0 <= i < |r.levels| - 1 && r.levels[i].sample.requestsPerSec >= r.levels[|r.levels| - 1].sample.requestsPerSec)
  {
    RungsInPlainTerms(r, levels, threshold);
    NotSaturatedIff(r, levels, threshold);
    assert forall l :: Holds(l, threshold) <==> l.sample.successRate >= threshold;
  }
}
