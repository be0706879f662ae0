// Order statistics of repeated runs: median and medianSample of benchmarks/driver/parse.ts.
module Samples {
  import opened Options
  import opened Seqs
  import opened StableSort

  // One measured run; `latencies` stands for its percentiles.
  datatype Sample = Sample(requestsPerSec: real, successRate: real, latencies: seq<real>)

  predicate LowerReal(a: real, b: real) {
    a <= b
  }

  predicate Slower(a: Sample, b: Sample) {
    a.requestsPerSec <= b.requestsPerSec
  }

  function Rates(samples: seq<Sample>): (r: seq<real>)
    ensures |r| == |samples| && forall i :: 0 <= i < |r| ==> r[i] == samples[i].requestsPerSec
  {
    Map(samples, (s: Sample) => s.requestsPerSec)
  }

  // None where the source throws: the median of nothing is a bug in the caller.
  function Median(values: seq<real>): Option<real> {
    SortedLength(LowerReal, values);
    if values == [] then None else Some(Middle(Sort(LowerReal, values)))
  }

  function Middle(sorted: seq<real>): real
    requires sorted != []
  {
    var mid := |sorted| / 2;
    if |sorted| % 2 == 0 then (sorted[mid - 1] + sorted[mid]) / 2.0 else sorted[mid]
  }

  // The run at the lower-middle place by throughput, returned whole.
  function MedianSample(samples: seq<Sample>): Option<Sample> {
    SortedLength(Slower, samples);
    if samples == [] then None
    else
      var sorted := Sort(Slower, samples);
      Some(sorted[(|sorted| - 1) / 2])
  }

  // Permuted runs have permuted throughputs.
  lemma RatesBag(a: seq<Sample>, b: seq<Sample>)
    requires multiset(a) == multiset(b)
    ensures multiset(Rates(a)) == multiset(Rates(b))
  {
    MapBag(a, b, (s: Sample) => s.requestsPerSec);
  }

  // The throughputs of the sorted runs are the sorted throughputs.
  lemma SortedRates(samples: seq<Sample>)
    ensures Rates(Sort(Slower, samples)) == Sort(LowerReal, Rates(samples))
  {
    SortFacts(Slower, samples);
    SortFacts(LowerReal, Rates(samples));
    RatesBag(Sort(Slower, samples), samples);
    SortedBagUnique(LowerReal, Rates(Sort(Slower, samples)), Sort(LowerReal, Rates(samples)));
  }

  lemma LowerMiddle(sorted: seq<real>)
    requires sorted != [] && forall i, j :: 0 <= i < j < |sorted| ==> sorted[i] <= sorted[j]
    ensures sorted[(|sorted| - 1) / 2] <= Middle(sorted)
    ensures |sorted| % 2 == 1 ==> sorted[(|sorted| - 1) / 2] == Middle(sorted)
  {
    if |sorted| % 2 == 0 {
      assert (|sorted| - 1) / 2 == |sorted| / 2 - 1;
    }
  }

  lemma MedianSampleIsARun(samples: seq<Sample>)
    requires samples != []
    ensures MedianSample(samples).Some? && MedianSample(samples).value in samples
  {
    var sorted := Sort(Slower, samples);
    SortFacts(Slower, samples);
    assert sorted[(|samples| - 1) / 2] in multiset(sorted);
  }

  // The throughput medianSample reports, among the sorted throughputs.
  lemma MedianRate(samples: seq<Sample>)
    requires samples != []
    ensures MedianSample(samples).Some? && |Sort(LowerReal, Rates(samples))| == |samples|
    ensures MedianSample(samples).value.requestsPerSec == Sort(LowerReal, Rates(samples))[(|samples| - 1) / 2]
  {
    SortedRates(samples);
    SortedLength(Slower, samples);
  }

  lemma SortedReals(values: seq<real>)
    ensures var s := Sort(LowerReal, values); |s| == |values| && forall i, j :: 0 <= i < j < |s| ==> s[i] <= s[j]
  {
    SortFacts(LowerReal, values);
    var s := Sort(LowerReal, values);
    forall i, j | 0 <= i < j < |s| ensures s[i] <= s[j] {
      assert LowerReal(s[i], s[j]);
    }
  }

  // medianSample picks one of the runs. Its throughput is at most the median, and is the median
  // for an odd number of runs.
  lemma MedianSampleAgainstMedian(samples: seq<Sample>)
    requires samples != []
    ensures MedianSample(samples).Some? && MedianSample(samples).value in samples
    ensures MedianSample(samples).value.requestsPerSec <= Median(Rates(samples)).value
    ensures |samples| % 2 == 1 ==> MedianSample(samples).value.requestsPerSec == Median(Rates(samples)).value
  {
    MedianSampleIsARun(samples);
    MedianRate(samples);
    SortedReals(Rates(samples));
    LowerMiddle(Sort(LowerReal, Rates(samples)));
  }

  lemma SortRealsOfPermutation(a: seq<real>, b: seq<real>)
    requires multiset(a) == multiset(b)
    ensures Sort(LowerReal, a) == Sort(LowerReal, b)
  {
    SortOfPermutation(LowerReal, a, b);
  }

  // Twice the median is the sum of the two middle values of an even number; the median of an odd
  // number is the middle one.
  lemma MedianIsMiddle(values: seq<real>) returns (sorted: seq<real>)
    requires values != []
    ensures multiset(sorted) == multiset(values) && |sorted| == |values|
    ensures forall i, j :: 0 <= i < j < |sorted| ==> sorted[i] <= sorted[j]
    ensures Median(values).Some?
    ensures |values| % 2 == 0 ==> Median(values).value * 2.0 == sorted[|values| / 2 - 1] + sorted[|values| / 2]
    ensures |values| % 2 == 1 ==> Median(values).value == sorted[|values| / 2]
  {
    sorted := Sort(LowerReal, values);
    SortFacts(LowerReal, values);
    SortedReals(values);
  }

  // The reported throughput depends on the runs alone, not on their order.
  lemma MedianRateOfPermutation(a: seq<Sample>, b: seq<Sample>)
    requires multiset(a) == multiset(b) && a != []
    ensures b != [] && MedianSample(a).value.requestsPerSec == MedianSample(b).value.requestsPerSec
  {
    assert |a| == |b| by {
      assert |multiset(a)| == |multiset(b)|;
    }
    assert Sort(LowerReal, Rates(a)) == Sort(LowerReal, Rates(b)) by {
      RatesBag(a, b);
      SortRealsOfPermutation(Rates(a), Rates(b));
    }
    MedianRate(a);
    MedianRate(b);
  }
}
