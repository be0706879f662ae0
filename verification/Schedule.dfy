// The randomized schedule of benchmarks/driver/run.ts and the buckets its trials fall into.
module Schedule {
  import opened Digits
  import opened Seqs
  import opened Samples
  import opened Shuffle

  datatype TrialUnit = TrialUnit(workload: string, connections: nat)

  // A trial with what it measured.
  datatype Trial = Trial(unit: TrialUnit, sample: Sample)

  function CellKey(workload: string, connections: nat): string {
    workload + "|" + Decimal(connections)
  }

  lemma DecimalHasNoBar(n: nat)
    ensures forall i :: 0 <= i < |Decimal(n)| ==> Decimal(n)[i] != '|'
  {
    ParseDecimal(n);
    ParsesIff(Decimal(n));
  }

  // Whatever the workload's name holds: the last bar of a key separates.
  lemma CellKeyInjective(w: string, c: nat, w': string, c': nat)
    requires CellKey(w, c) == CellKey(w', c')
    ensures w == w' && c == c'
  {
    var k, k' := CellKey(w, c), CellKey(w', c');
    DecimalHasNoBar(c);
    DecimalHasNoBar(c');
    assert k[|w|] == '|' && k'[|w'|] == '|';
    assert forall i :: |w| < i < |k| ==> k[i] == Decimal(c)[i - |w| - 1] != '|';
    assert forall i :: |w'| < i < |k'| ==> k'[i] == Decimal(c')[i - |w'| - 1] != '|';
    assert |w| == |w'|;
    assert k[..|w|] == w && k'[..|w'|] == w';
    assert k[|w| + 1..] == Decimal(c) && k'[|w'| + 1..] == Decimal(c');
    ParseDecimal(c);
    ParseDecimal(c');
  }

  // ---- Building the schedule.

  function Repeat(u: TrialUnit, runs: nat): (r: seq<TrialUnit>)
    ensures |r| == runs
  {
    seq(runs, _ => u)
  }

  function RungUnits(workload: string, connections: seq<nat>, runs: nat): seq<TrialUnit> {
    if connections == [] then []
    else RungUnits(workload, connections[..|connections| - 1], runs)
         + Repeat(TrialUnit(workload, connections[|connections| - 1]), runs)
  }

  function Units(workloads: seq<string>, connections: seq<nat>, runs: nat): seq<TrialUnit> {
    if workloads == [] then []
    else Units(workloads[..|workloads| - 1], connections, runs) + RungUnits(workloads[|workloads| - 1], connections, runs)
  }

  method BuildUnits(workloads: seq<string>, connections: seq<nat>, runs: nat) returns (units: seq<TrialUnit>)
    ensures units == Units(workloads, connections, runs)
  {
    units := [];
    for w := 0 to |workloads|
      invariant units == Units(workloads[..w], connections, runs)
    {
      assert workloads[..w + 1][..w] == workloads[..w];
      ghost var before := units;
      assert connections[..0] == [];
      for c := 0 to |connections|
        invariant units == before + RungUnits(workloads[w], connections[..c], runs)
      {
        assert connections[..c + 1][..c] == connections[..c];
        ghost var rungs := units;
        for t := 0 to runs
          invariant units == rungs + Repeat(TrialUnit(workloads[w], connections[c]), t)
        {
          units := units + [TrialUnit(workloads[w], connections[c])];
        }
      }
      assert connections[..|connections|] == connections;
    }
    assert workloads[..|workloads|] == workloads;
  }

  lemma {:induction false} RepeatCount(u: TrialUnit, runs: nat, v: TrialUnit)
    ensures multiset(Repeat(u, runs))[v] == if u == v then runs else 0
  {
    if runs > 0 {
      assert Repeat(u, runs) == Repeat(u, runs - 1) + [u];
      RepeatCount(u, runs - 1, v);
    }
  }

  lemma BagPush<T>(s: seq<T>, x: T)
    requires s != []
    ensures var n := |s| - 1; multiset(s)[x] == multiset(s[..n])[x] + if s[n] == x then 1 else 0
  {
    assert s == s[..|s| - 1] + [s[|s| - 1]];
  }

  lemma BagConcat<T>(a: seq<T>, b: seq<T>, x: T)
    ensures multiset(a + b)[x] == multiset(a)[x] + multiset(b)[x]
  {
  }

  lemma {:induction false} RungCount(w: string, connections: seq<nat>, runs: nat, v: TrialUnit)
    ensures multiset(RungUnits(w, connections, runs))[v]
         == if w == v.workload then runs * multiset(connections)[v.connections] else 0
  {
    if connections != [] {
      var n := |connections| - 1;
      RungCount(w, connections[..n], runs, v);
      RepeatCount(TrialUnit(w, connections[n]), runs, v);
      BagConcat(RungUnits(w, connections[..n], runs), Repeat(TrialUnit(w, connections[n]), runs), v);
      BagPush(connections, v.connections);
      OneMore(runs, multiset(connections[..n])[v.connections], multiset(connections)[v.connections]);
    }
  }

  lemma OneMore(factor: nat, m: nat, m': nat)
    requires m' == m || m' == m + 1
    ensures factor * m' == factor * m + (if m' == m then 0 else factor)
    ensures m' * factor == m * factor + (if m' == m then 0 else factor)
  {
  }

  // `per` units of a cell for each listing of its workload.
  lemma {:induction false} WorkloadCount(workloads: seq<string>, connections: seq<nat>, runs: nat, v: TrialUnit, per: nat)
    requires forall w :: multiset(RungUnits(w, connections, runs))[v] == if w == v.workload then per else 0
    ensures multiset(Units(workloads, connections, runs))[v] == multiset(workloads)[v.workload] * per
  {
    if workloads != [] {
      var n := |workloads| - 1;
      WorkloadCount(workloads[..n], connections, runs, v, per);
      BagConcat(Units(workloads[..n], connections, runs), RungUnits(workloads[n], connections, runs), v);
      BagPush(workloads, v.workload);
      OneMore(per, multiset(workloads[..n])[v.workload], multiset(workloads)[v.workload]);
    }
  }

  // Each cell is scheduled `runs` times for each time its workload and its rung are listed.
  lemma UnitsCount(workloads: seq<string>, connections: seq<nat>, runs: nat, v: TrialUnit)
    ensures multiset(Units(workloads, connections, runs))[v]
         == multiset(workloads)[v.workload] * (runs * multiset(connections)[v.connections])
  {
    var per := runs * multiset(connections)[v.connections];
    forall w ensures multiset(RungUnits(w, connections, runs))[v] == if w == v.workload then per else 0 {
      RungCount(w, connections, runs, v);
    }
    WorkloadCount(workloads, connections, runs, v, per);
  }

  // ---- The buckets.

  function KeyOf(t: Trial): string {
    CellKey(t.unit.workload, t.unit.connections)
  }

  function InCell(key: string): Trial -> bool {
    (t: Trial) => KeyOf(t) == key
  }

  function SamplesOf(trials: seq<Trial>): (r: seq<Sample>)
    ensures |r| == |trials|
  {
    Map(trials, (t: Trial) => t.sample)
  }

  // The samples of a cell; none when it has no bucket yet.
  function Cell(byCell: map<string, seq<Sample>>, key: string): seq<Sample> {
    if key in byCell then byCell[key] else []
  }

  method BucketTrials(trials: seq<Trial>) returns (byCell: map<string, seq<Sample>>)
    ensures forall key :: Cell(byCell, key) == SamplesOf(Filter(trials, InCell(key)))
  {
    byCell := map[];
    var k := 0;
    while k < |trials|
      invariant k <= |trials|
      invariant forall key :: Cell(byCell, key) == SamplesOf(Filter(trials[..k], InCell(key)))
    {
      var key := KeyOf(trials[k]);
      ghost var before := byCell;
      byCell := byCell[key := Cell(byCell, key) + [trials[k].sample]];
      forall x ensures Cell(byCell, x) == SamplesOf(Filter(trials[..k + 1], InCell(x))) {
        OneMoreTrial(trials, k, x);
        assert Cell(before, x) == SamplesOf(Filter(trials[..k], InCell(x)));
      }
      k := k + 1;
    }
    assert trials[..k] == trials;
  }

  lemma OneMoreTrial(trials: seq<Trial>, k: nat, key: string)
    requires k < |trials|
    ensures SamplesOf(Filter(trials[..k + 1], InCell(key)))
         == SamplesOf(Filter(trials[..k], InCell(key))) + if KeyOf(trials[k]) == key then [trials[k].sample] else []
  {
    assert trials[..k + 1] == trials[..k] + [trials[k]];
    FilterPush(trials[..k], trials[k], InCell(key));
    assert Filter(trials[..k], InCell(key)) + [] == Filter(trials[..k], InCell(key));
  }

  function UnitsOf(trials: seq<Trial>): (r: seq<TrialUnit>)
    ensures |r| == |trials|
  {
    Map(trials, (t: Trial) => t.unit)
  }

  // A cell collects the trials of its own unit and no other's.
  lemma {:induction false} CellSize(trials: seq<Trial>, u: TrialUnit)
    ensures |Filter(trials, InCell(CellKey(u.workload, u.connections)))| == multiset(UnitsOf(trials))[u]
  {
    if trials != [] {
      CellSize(trials[1..], u);
      assert UnitsOf(trials) == [trials[0].unit] + UnitsOf(trials[1..]);
      if KeyOf(trials[0]) == CellKey(u.workload, u.connections) {
        CellKeyInjective(trials[0].unit.workload, trials[0].unit.connections, u.workload, u.connections);
      }
    }
  }

  // Whatever the seed: every cell gets exactly the trials the plain schedule gives it.
  lemma ShuffledCellsKeepTheirTrials(workloads: seq<string>, connections: seq<nat>, runs: nat, js: seq<nat>, trials: seq<Trial>, u: TrialUnit)
    requires ValidChoices(js, |Units(workloads, connections, runs)|)
    requires UnitsOf(trials) == FisherYates(Units(workloads, connections, runs), js)
    ensures |Filter(trials, InCell(CellKey(u.workload, u.connections)))|
         == multiset(workloads)[u.workload] * (runs * multiset(connections)[u.connections])
    ensures runs >= 1 && u.workload in workloads && u.connections in connections ==>
      MedianSample(SamplesOf(Filter(trials, InCell(CellKey(u.workload, u.connections))))).Some?
  {
    CellSize(trials, u);
    ShuffleIsPermutation(Units(workloads, connections, runs), js);
    UnitsCount(workloads, connections, runs, u);
    if runs >= 1 && u.workload in workloads && u.connections in connections {
      assert u.workload in multiset(workloads) && u.connections in multiset(connections);
      ProductPositive(multiset(workloads)[u.workload], runs, multiset(connections)[u.connections]);
    }
  }

  lemma ProductPositive(a: nat, b: nat, c: nat)
    requires a > 0 && b > 0 && c > 0
    ensures a * (b * c) > 0
  {
    assert b * c > 0;
  }

  // ---- Order does not show.

  lemma SamplesBag(a: seq<Trial>, b: seq<Trial>)
    requires multiset(a) == multiset(b)
    ensures multiset(SamplesOf(a)) == multiset(SamplesOf(b))
  {
    MapBag(a, b, (t: Trial) => t.sample);
  }

  // The same trials in another order report the same throughput for every cell.
  lemma ReportedRateIgnoresOrder(a: seq<Trial>, b: seq<Trial>, key: string)
    requires multiset(a) == multiset(b)
    ensures var ca, cb := MedianSample(SamplesOf(Filter(a, InCell(key)))), MedianSample(SamplesOf(Filter(b, InCell(key))));
      ca.Some? == cb.Some? && (ca.Some? ==> ca.value.requestsPerSec == cb.value.requestsPerSec)
  {
    var fa, fb := Filter(a, InCell(key)), Filter(b, InCell(key));
    FilterKeepsBag(a, b, InCell(key));
    SamplesBag(fa, fb);
    assert |multiset(fa)| == |multiset(fb)|;
    if fa != [] {
      MedianRateOfPermutation(SamplesOf(fa), SamplesOf(fb));
    }
  }
}
