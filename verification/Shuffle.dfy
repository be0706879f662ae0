// The seeded Fisher-Yates shuffle of benchmarks/driver/parse.ts, and that it is fair: choice
// vectors and permutations correspond one to one.
module Shuffle {
  import opened Mulberry
  import opened Seqs

  // js[k] is the partner drawn at index k + 1: any index up to k + 1.
  ghost predicate ValidChoices(js: seq<nat>, n: nat) {
    |js| == (if n == 0 then 0 else n - 1) && forall k :: 0 <= k < |js| ==> js[k] <= k + 1
  }

  function Swapped<T>(s: seq<T>, i: nat, j: nat): (r: seq<T>)
    requires i < |s| && j < |s|
    ensures |r| == |s|
  {
    s[i := s[j]][j := s[i]]
  }

  // The shuffle as a function of its choices, from the last index down.
  function FisherYates<T>(s: seq<T>, js: seq<nat>): (r: seq<T>)
    requires ValidChoices(js, |s|)
    ensures |r| == |s|
    decreases |s|
  {
    if |s| <= 1 then s
    else
      var n := |s| - 1;
      var t := Swapped(s, n, js[n - 1]);
      FisherYates(t[..n], js[..n - 1]) + [t[n]]
  }

  // The choices a generator in state `a` makes for n items: index n - 1 is served first.
  function Drawn(a: nat, n: nat): (js: seq<nat>)
    ensures ValidChoices(js, n)
    decreases n
  {
    if n <= 1 then []
    else
      DrawInRange(Output(NextState(a)), n - 1);
      Drawn(NextState(a), n - 1) + [Scaled(Output(NextState(a)), n - 1)]
  }

  lemma DrawInRange(u: nat, i: nat)
    requires u < TWO32
    ensures Scaled(u, i) <= i
  {
    ScaledIsFair(i, 0);
  }

  lemma {:induction false} StateAfterNext(a: nat, n: nat)
    requires a < TWO32
    ensures StateAfter(NextState(a), n) == StateAfter(a, n + 1)
  {
    if n > 0 {
      StateAfterNext(a, n - 1);
    } else {
      assert StateAfter(a, 0) == a && StateAfter(NextState(a), 0) == NextState(a);
    }
  }

  lemma DrawnLast(a: nat, n: nat)
    requires n > 1
    ensures |Drawn(a, n)| == n - 1 && Drawn(a, n)[n - 2] == Scaled(Output(NextState(a)), n - 1)
    ensures Drawn(a, n)[..n - 2] == Drawn(NextState(a), n - 1)
  {
  }

  // With the indices above i served, the choices to come are those for i + 1 items.
  lemma {:induction false} DrawnBelow(a: nat, n: nat, i: nat)
    requires a < TWO32 && i < n
    ensures i <= |Drawn(a, n)| && Drawn(a, n)[..i] == Drawn(StateAfter(a, n - 1 - i), i + 1)
    decreases n
  {
    if i == n - 1 {
      assert StateAfter(a, 0) == a;
      assert Drawn(a, n)[..i] == Drawn(a, n);
    } else {
      DrawnLast(a, n);
      DrawnBelow(NextState(a), n - 1, i);
      StateAfterNext(a, n - 2 - i);
      PrefixOfPrefix(Drawn(a, n), n - 2, i);
    }
  }

  lemma PrefixOfPrefix<T>(s: seq<T>, k: nat, i: nat)
    requires i <= k <= |s|
    ensures s[..k][..i] == s[..i]
  {
  }

  // Of n items, index i is served by call number n - i of the generator.
  lemma DrawnAt(a: nat, n: nat, i: nat)
    requires a < TWO32 && 0 < i < n
    ensures |Drawn(a, n)| == n - 1 && Drawn(a, n)[i - 1] == Scaled(Output(StateAfter(a, n - i)), i)
  {
    DrawnBelow(a, n, i);
    DrawnLast(StateAfter(a, n - 1 - i), i + 1);
    assert Drawn(a, n)[i - 1] == Drawn(a, n)[..i][i - 1];
    assert StateAfter(a, n - i) == NextState(StateAfter(a, n - 1 - i));
  }

  method Shuffle<T>(items: array<T>, rng: Mulberry32) returns (a: array<T>)
    modifies rng
    ensures fresh(a) && a[..] == FisherYates(items[..], Drawn(old(rng.a), items.Length))
  {
    ghost var goal := FisherYates(items[..], Drawn(rng.a, items.Length));
    a := Copy(items);
    var i := a.Length - 1;
    WholeSlices(a[..]);
    while i > 0
      invariant -1 <= i < a.Length
      invariant Remaining(a[..], i, rng.a, goal)
    {
      Round(a, i, rng, goal);
      i := i - 1;
    }
    AllServed(a[..], i, rng.a, goal);
  }

  // One round of the loop: draws the partner of index i and exchanges the two.
  method Round<T>(a: array<T>, i: nat, rng: Mulberry32, ghost goal: seq<T>)
    requires 0 < i < a.Length && Remaining(a[..], i, rng.a, goal)
    modifies a, rng
    ensures Remaining(a[..], i - 1, rng.a, goal)
  {
    StepDown(a[..], i, rng.a, goal);
    ghost var after := Swapped(a[..], i, Scaled(Output(NextState(rng.a)), i));
    var u := rng.Next();
    var j := Scaled(u, i);
    a[i], a[j] := a[j], a[i];
    assert a[..] == after;
  }

  // A new array with the same items.
  method Copy<T>(items: array<T>) returns (a: array<T>)
    ensures fresh(a) && a[..] == items[..]
  {
    if items.Length == 0 {
      a := new T[0];
    } else {
      var filler := items[0];
      a := new T[items.Length](_ => filler);
      var k := 0;
      while k < items.Length
        invariant k <= items.Length && a[..k] == items[..k]
        invariant items[..] == old(items[..])
      {
        a[k] := items[k];
        k := k + 1;
      }
    }
  }

  // With the indices above i served, shuffling the rest with the draws to come gives the goal.
  ghost predicate Remaining<T>(s: seq<T>, i: int, state: nat, goal: seq<T>)
    requires -1 <= i < |s|
  {
    goal == FisherYates(s[..i + 1], Drawn(state, i + 1)) + s[i + 1..]
  }

  lemma WholeSlices<T>(s: seq<T>)
    ensures s[..|s|] == s && s[|s|..] == [] && forall t: seq<T> :: t + [] == t
  {
  }

  lemma AllServed<T>(s: seq<T>, i: int, state: nat, goal: seq<T>)
    requires -1 <= i < |s| && i <= 0 && Remaining(s, i, state, goal)
    ensures goal == s
  {
    assert s == s[..i + 1] + s[i + 1..];
  }

  lemma DrawnStep(state: nat, i: nat)
    requires i > 0
    ensures var j := Scaled(Output(NextState(state)), i);
      j <= i && Drawn(state, i + 1) == Drawn(NextState(state), i) + [j]
  {
    DrawInRange(Output(NextState(state)), i);
  }

  lemma ShuffleStep<T>(s: seq<T>, js: seq<nat>, j: nat)
    requires |s| > 1 && j < |s| && ValidChoices(js, |s| - 1)
    ensures var n := |s| - 1; var t := Swapped(s, n, j);
      FisherYates(s, js + [j]) == FisherYates(t[..n], js) + [t[n]]
  {
    assert (js + [j])[..|s| - 2] == js;
  }

  // One round of the loop: index i takes its final element.
  lemma StepDown<T>(s: seq<T>, i: int, state: nat, goal: seq<T>)
    requires 0 < i < |s| && Remaining(s, i, state, goal)
    ensures Scaled(Output(NextState(state)), i) <= i
    ensures Remaining(Swapped(s, i, Scaled(Output(NextState(state)), i)), i - 1, NextState(state), goal)
  {
    DrawnStep(state, i);
    var j := Scaled(Output(NextState(state)), i);
    var after := Swapped(s, i, j);
    var t := Swapped(s[..i + 1], i, j);
    ShuffleStep(s[..i + 1], Drawn(NextState(state), i), j);
    assert t[..i] == after[..i] && [t[i]] + s[i + 1..] == after[i..];
    Assoc(FisherYates(t[..i], Drawn(NextState(state), i)), [t[i]], s[i + 1..]);
  }

  // ---- A permutation.

  lemma SwappedBag<T>(s: seq<T>, i: nat, j: nat)
    requires i < |s| && j < |s|
    ensures multiset(Swapped(s, i, j)) == multiset(s)
  {
  }

  lemma LastApart<T>(s: seq<T>)
    requires s != []
    ensures multiset(s) == multiset(s[..|s| - 1]) + multiset{s[|s| - 1]}
  {
    assert s == s[..|s| - 1] + [s[|s| - 1]];
  }

  lemma {:induction false} ShuffleIsPermutation<T>(s: seq<T>, js: seq<nat>)
    requires ValidChoices(js, |s|)
    ensures multiset(FisherYates(s, js)) == multiset(s)
    decreases |s|
  {
    if |s| > 1 {
      var n := |s| - 1;
      var t := Swapped(s, n, js[n - 1]);
      SwappedBag(s, n, js[n - 1]);
      ShuffleIsPermutation(t[..n], js[..n - 1]);
      LastApart(t);
    }
  }

  // ---- A bijection between choice vectors and permutations.

  function IndexOf<T(==)>(s: seq<T>, x: T): (j: nat)
    requires x in s
    ensures j < |s| && s[j] == x
  {
    if s[0] == x then 0 else IndexOf(s[1..], x) + 1
  }

  // The choices that turn s into its permutation p, read off from the last index down.
  function ChoicesFor<T(==)>(s: seq<T>, p: seq<T>): (js: seq<nat>)
    requires multiset(s) == multiset(p)
    ensures ValidChoices(js, |s|)
    decreases |s|
  {
    SameSize(s, p);
    if |s| <= 1 then []
    else
      var n := |s| - 1;
      InBag(s, p, n);
      var j := IndexOf(s, p[n]);
      PeelLast(s, p, j);
      ChoicesFor(Swapped(s, n, j)[..n], p[..n]) + [j]
  }

  lemma SameSize<T>(s: seq<T>, p: seq<T>)
    requires multiset(s) == multiset(p)
    ensures |s| == |p|
  {
    assert |multiset(s)| == |multiset(p)|;
  }

  lemma InBag<T>(s: seq<T>, p: seq<T>, k: nat)
    requires multiset(s) == multiset(p) && k < |p|
    ensures p[k] in s
  {
    assert p[k] in multiset(s);
  }

  lemma PeelLast<T>(s: seq<T>, p: seq<T>, j: nat)
    requires multiset(s) == multiset(p) && |s| == |p| > 0 && j < |s| && s[j] == p[|p| - 1]
    ensures multiset(Swapped(s, |s| - 1, j)[..|s| - 1]) == multiset(p[..|p| - 1])
    ensures Swapped(s, |s| - 1, j)[|s| - 1] == p[|p| - 1]
  {
    var t := Swapped(s, |s| - 1, j);
    SwappedBag(s, |s| - 1, j);
    LastApart(t);
    LastApart(p);
    Cancel(multiset(t[..|s| - 1]), multiset(p[..|p| - 1]), multiset{s[j]});
  }

  lemma Cancel<T>(a: multiset<T>, b: multiset<T>, c: multiset<T>)
    requires a + c == b + c
    ensures a == b
  {
    assert a == (a + c) - c && b == (b + c) - c;
  }

  lemma ShuffleLast<T>(s: seq<T>, js: seq<nat>)
    requires ValidChoices(js, |s|) && |s| > 1
    ensures var n := |s| - 1; var r := FisherYates(s, js);
      r[n] == s[js[n - 1]] && r[..n] == FisherYates(Swapped(s, n, js[n - 1])[..n], js[..n - 1])
  {
  }

  lemma ChoicesStep<T>(s: seq<T>, p: seq<T>) returns (j: nat)
    requires multiset(s) == multiset(p) && |s| > 1
    ensures var n := |s| - 1;
      && |p| == |s| && j <= n && s[j] == p[n]
      && multiset(Swapped(s, n, j)[..n]) == multiset(p[..n])
      && ChoicesFor(s, p) == ChoicesFor(Swapped(s, n, j)[..n], p[..n]) + [j]
  {
    SameSize(s, p);
    InBag(s, p, |s| - 1);
    j := IndexOf(s, p[|s| - 1]);
    PeelLast(s, p, j);
  }

  lemma ReachStep<T>(s: seq<T>, p: seq<T>, js: seq<nat>, j: nat)
    requires |s| > 1 && |p| == |s| && j < |s| && s[j] == p[|s| - 1] && ValidChoices(js, |s| - 1)
    requires FisherYates(Swapped(s, |s| - 1, j)[..|s| - 1], js) == p[..|s| - 1]
    ensures FisherYates(s, js + [j]) == p
  {
    ShuffleStep(s, js, j);
    assert p == p[..|s| - 1] + [p[|s| - 1]];
  }

  // Every permutation is reached.
  lemma {:induction false} ChoicesReach<T>(s: seq<T>, p: seq<T>)
    requires multiset(s) == multiset(p)
    ensures FisherYates(s, ChoicesFor(s, p)) == p
    decreases |s|
  {
    SameSize(s, p);
    if |s| == 1 {
      InBag(s, p, 0);
    } else if |s| > 1 {
      var n := |s| - 1;
      var j := ChoicesStep(s, p);
      var js := ChoicesFor(Swapped(s, n, j)[..n], p[..n]);
      ChoicesReach(Swapped(s, n, j)[..n], p[..n]);
      ReachStep(s, p, js, j);
    }
  }

  lemma DistinctPrefixOfSwap<T>(s: seq<T>, j: nat)
    requires Distinct(s) && j < |s|
    ensures Distinct(Swapped(s, |s| - 1, j)[..|s| - 1])
  {
  }

  // Distinct items remember the choices: different choices give different orders.
  lemma {:induction false} ShuffleInjective<T>(s: seq<T>, js: seq<nat>, js': seq<nat>)
    requires ValidChoices(js, |s|) && ValidChoices(js', |s|) && Distinct(s)
    requires FisherYates(s, js) == FisherYates(s, js')
    ensures js == js'
    decreases |s|
  {
    if |s| > 1 {
      var n := |s| - 1;
      ShuffleLast(s, js);
      ShuffleLast(s, js');
      assert js[n - 1] == js'[n - 1];
      DistinctPrefixOfSwap(s, js[n - 1]);
      ShuffleInjective(Swapped(s, n, js[n - 1])[..n], js[..n - 1], js'[..n - 1]);
      assert js == js[..n - 1] + [js[n - 1]] && js' == js'[..n - 1] + [js'[n - 1]];
    }
  }

  // For distinct items each permutation comes from exactly one choice vector.
  lemma ShuffleIsBijection<T>(s: seq<T>, p: seq<T>, js: seq<nat>)
    requires Distinct(s) && multiset(p) == multiset(s) && ValidChoices(js, |s|)
    ensures FisherYates(s, js) == p <==> js == ChoicesFor(s, p)
  {
    ChoicesReach(s, p);
    if FisherYates(s, js) == p {
      ShuffleInjective(s, js, ChoicesFor(s, p));
    }
  }
}
