// The async FIFO semaphore of spikes/adr-0046-edge-kdf/worker.js as a protocol of steps. Between
// next() and the waiter's own `#active++` lies a window in which the slot looks free.
module Semaphore {
  import opened Options
  import opened Seqs

  // `woken` callers have had next() called and have not resumed; promise reactions run in FIFO
  // order. `overtakes` counts the callers admitted on arrival while some woken caller had yet to
  // resume. `arrived`, `started` and `done` are logs.
  datatype State = State(
    max: nat, active: int, queue: seq<nat>, woken: seq<nat>, running: seq<nat>,
    arrived: seq<nat>, started: seq<nat>, done: seq<nat>, overtakes: nat)

  datatype Step = Arrive(c: nat) | Resume | Finish(k: nat)

  function Init(max: nat): State {
    State(max, 0, [], [], [], [], [], [], 0)
  }

  // A caller arrives once; any running caller may finish.
  predicate Enabled(s: State, step: Step) {
    match step
    case Arrive(c) => c !in s.arrived
    case Resume => s.woken != []
    case Finish(k) => k < |s.running|
  }

  function Start(s: State, c: nat): State {
    s.(active := s.active + 1, running := s.running + [c], started := s.started + [c])
  }

  function After(s: State, step: Step): State
    requires Enabled(s, step)
  {
    match step
    case Arrive(c) =>
      var t := s.(arrived := s.arrived + [c]);
      if s.active >= s.max then t.(queue := s.queue + [c])
      else Start(t, c).(overtakes := if s.woken == [] then s.overtakes else s.overtakes + 1)
    case Resume =>
      Start(s.(woken := s.woken[1..]), s.woken[0])
    case Finish(k) =>
      var t := s.(active := s.active - 1, running := Removed(s.running, k), done := s.done + [s.running[k]]);
      if s.queue == [] then t else t.(queue := s.queue[1..], woken := s.woken + [s.queue[0]])
  }

  // A step that is not possible changes nothing.
  function Play(max: nat, steps: seq<Step>): State {
    if steps == [] then Init(max)
    else
      var s := Play(max, steps[..|steps| - 1]);
      if Enabled(s, steps[|steps| - 1]) then After(s, steps[|steps| - 1]) else s
  }

  // The object itself, which knows of the callers only its count and its queue.
  class Semaphore {
    const max: nat
    var active: int
    var queue: seq<nat>

    ghost predicate Represents(s: State)
      reads this
    {
      max == s.max && active == s.active && queue == s.queue
    }

    constructor (max: nat)
      ensures this.max == max && Represents(Init(max))
    {
      this.max, active, queue := max, 0, [];
    }

    // run() up to the await, or up to fn() when it is admitted at once.
    method Enter(c: nat, ghost s: State) returns (admitted: bool)
      requires Represents(s) && c !in s.arrived
      modifies this
      ensures Represents(After(s, Arrive(c)))
      ensures admitted <==> After(s, Arrive(c)).running == s.running + [c]
    {
      assert s.running != s.running + [c];
      if active >= max {
        queue := queue + [c];
        return false;
      }
      active := active + 1;
      admitted := true;
    }

    // run() from the await on.
    method Continue(ghost s: State)
      requires Represents(s) && s.woken != []
      modifies this
      ensures Represents(After(s, Resume))
    {
      active := active + 1;
    }

    // The finally block; `next` is the caller whose promise it resolves.
    method Leave(ghost s: State, ghost k: nat) returns (next: Option<nat>)
      requires Represents(s) && k < |s.running|
      modifies this
      ensures Represents(After(s, Finish(k)))
      ensures After(s, Finish(k)).woken == s.woken + if next.Some? then [next.value] else []
    {
      active := active - 1;
      next := None;
      if |queue| > 0 {
        next := Some(queue[0]);
        queue := queue[1..];
      }
    }
  }

  // ---- What every step keeps.

  ghost predicate Counted(s: State) {
    && s.active == |s.running|
    && |s.running| + |s.woken| <= s.max + s.overtakes
    && (s.queue != [] ==> |s.running| + |s.woken| >= s.max)
    && |s.started| + |s.woken| + |s.queue| == |s.arrived|
  }

  // Nobody is lost and nobody is in two places.
  ghost predicate Conserved(s: State) {
    multiset(s.arrived) == multiset(s.queue) + multiset(s.woken) + multiset(s.running) + multiset(s.done)
  }

  ghost predicate Ordered(s: State) {
    && (s.overtakes == 0 ==> s.started + s.woken + s.queue == s.arrived)
    && (s.overtakes > 0 ==> !(s.started <= s.arrived))
  }

  ghost predicate Inv(s: State) {
    Counted(s) && Conserved(s) && Ordered(s)
  }

  // Two logs of which the first is no prefix, and no longer, differ somewhere for good.
  lemma StayApart<T>(a: seq<T>, b: seq<T>, more: seq<T>, more': seq<T>)
    requires |a| <= |b| && !(a <= b)
    ensures !(a + more <= b + more')
  {
    var i :| 0 <= i < |a| && a[i] != b[i];
    assert (a + more)[i] == a[i] && (b + more')[i] == b[i];
  }

  lemma ArriveKeepsOrder(s: State, c: nat)
    requires Counted(s) && Ordered(s) && c !in s.arrived
    ensures Ordered(After(s, Arrive(c)))
  {
    if s.active >= s.max {
      assert s.started + s.woken + (s.queue + [c]) == (s.started + s.woken + s.queue) + [c];
      if s.overtakes > 0 {
        StayApart(s.started, s.arrived, [], [c]);
        assert s.started + [] == s.started;
      }
    } else if s.overtakes > 0 {
      StayApart(s.started, s.arrived, [c], [c]);
    } else if s.woken == [] {
      assert s.queue == [];
      assert s.started + [] + [] == s.arrived && (s.started + [c]) + [] + [] == s.arrived + [c];
    } else {
      OvertakeShows(s, c);
    }
  }

  // The newcomer starts where the woken caller stands in the order of arrival.
  lemma OvertakeShows(s: State, c: nat)
    requires Ordered(s) && s.overtakes == 0 && s.woken != [] && c !in s.arrived
    ensures !(s.started + [c] <= s.arrived + [c])
  {
    var i := |s.started|;
    assert (s.started + s.woken + s.queue)[i] == s.woken[0];
    assert s.arrived[i] in s.arrived;
    assert (s.started + [c])[i] == c && (s.arrived + [c])[i] == s.arrived[i];
  }

  lemma ArriveKeeps(s: State, c: nat)
    requires Inv(s) && c !in s.arrived
    ensures Inv(After(s, Arrive(c)))
  {
    ArriveKeepsOrder(s, c);
    assert Conserved(After(s, Arrive(c)));
  }

  lemma ResumeKeeps(s: State)
    requires Inv(s) && s.woken != []
    ensures Inv(After(s, Resume))
  {
    var c := s.woken[0];
    assert s.woken == [c] + s.woken[1..];
    assert s.started + s.woken + s.queue == (s.started + [c]) + s.woken[1..] + s.queue;
    if s.overtakes > 0 {
      StayApart(s.started, s.arrived, [c], []);
      assert s.arrived + [] == s.arrived;
    }
  }

  lemma FinishConserves(s: State, k: nat)
    requires Conserved(s) && k < |s.running|
    ensures Conserved(After(s, Finish(k)))
  {
    RemovedBag(s.running, k);
    assert After(s, Finish(k)).running == Removed(s.running, k);
    if s.queue != [] {
      HeadMoves(s.queue, s.woken);
    }
  }

  lemma HeadMoves(queue: seq<nat>, woken: seq<nat>)
    requires queue != []
    ensures multiset(queue[1..]) + multiset(woken + [queue[0]]) == multiset(queue) + multiset(woken)
  {
    assert queue == [queue[0]] + queue[1..];
  }

  lemma FinishKeepsOrder(s: State, k: nat)
    requires Ordered(s) && k < |s.running|
    ensures Ordered(After(s, Finish(k)))
  {
    if s.queue != [] {
      assert s.queue == [s.queue[0]] + s.queue[1..];
      assert s.started + s.woken + s.queue == s.started + (s.woken + [s.queue[0]]) + s.queue[1..];
    }
  }

  lemma FinishKeeps(s: State, k: nat)
    requires Inv(s) && k < |s.running|
    ensures Inv(After(s, Finish(k)))
  {
    FinishConserves(s, k);
    FinishKeepsOrder(s, k);
  }

  lemma {:induction false} InvAlways(max: nat, steps: seq<Step>)
    ensures Inv(Play(max, steps)) && Play(max, steps).max == max
  {
    if steps != [] {
      var s, step := Play(max, steps[..|steps| - 1]), steps[|steps| - 1];
      InvAlways(max, steps[..|steps| - 1]);
      if Enabled(s, step) {
        match step {
          case Arrive(c) => ArriveKeeps(s, c);
          case Resume => ResumeKeeps(s);
          case Finish(k) => FinishKeeps(s, k);
        }
      }
    }
  }

  // ---- Open arrivals.

  // Running and woken callers exceed max at most by the number of overtakes, and fill the
  // semaphore whenever somebody waits.
  lemma BoundWithOvertakes(max: nat, steps: seq<Step>)
    ensures var s := Play(max, steps);
      && |s.running| + |s.woken| <= max + s.overtakes
      && (s.queue != [] ==> |s.running| + |s.woken| >= max)
  {
    InvAlways(max, steps);
  }

  // A caller is let in although those running and woken already fill the semaphore.
  ghost predicate Crowds(s: State, step: Step) {
    step.Arrive? && Enabled(s, step) && s.active < s.max && |s.running| + |s.woken| >= s.max
  }

  // After every step so far at most max were running or about to.
  ghost predicate AlwaysBounded(max: nat, steps: seq<Step>) {
    forall n: nat :: n <= |steps| ==> |Play(max, steps[..n]).running| + |Play(max, steps[..n]).woken| <= max
  }

  ghost predicate NeverCrowds(max: nat, steps: seq<Step>) {
    forall n: nat :: n < |steps| ==> !Crowds(Play(max, steps[..n]), steps[n])
  }

  // The bound is passed by such an arrival and in no other way.
  lemma StepPassesBoundIff(s: State, step: Step)
    requires Inv(s) && Enabled(s, step) && |s.running| + |s.woken| <= s.max
    ensures var t := After(s, step); |t.running| + |t.woken| > s.max <==> Crowds(s, step)
  {
  }

  lemma PlayPrefix(max: nat, steps: seq<Step>, n: nat)
    requires n < |steps|
    ensures var s := Play(max, steps[..n]);
      Play(max, steps[..n + 1]) == if Enabled(s, steps[n]) then After(s, steps[n]) else s
  {
    assert steps[..n + 1] == steps[..n] + [steps[n]];
    PlayPush(max, steps[..n], steps[n]);
  }

  lemma {:induction false} NeverCrowdsIsBounded(max: nat, steps: seq<Step>, n: nat)
    requires NeverCrowds(max, steps) && n <= |steps|
    ensures |Play(max, steps[..n]).running| + |Play(max, steps[..n]).woken| <= max
  {
    if n > 0 {
      NeverCrowdsIsBounded(max, steps, n - 1);
      InvAlways(max, steps[..n - 1]);
      PlayPrefix(max, steps, n - 1);
      var s := Play(max, steps[..n - 1]);
      if Enabled(s, steps[n - 1]) {
        StepPassesBoundIff(s, steps[n - 1]);
      }
    }
  }

  // The semaphore keeps its bound throughout a run exactly when nobody is ever let in while those
  // running and woken fill it.
  lemma BoundedIffNeverCrowds(max: nat, steps: seq<Step>)
    ensures AlwaysBounded(max, steps) <==> NeverCrowds(max, steps)
  {
    if NeverCrowds(max, steps) {
      forall n: nat | n <= |steps| ensures |Play(max, steps[..n]).running| + |Play(max, steps[..n]).woken| <= max {
        NeverCrowdsIsBounded(max, steps, n);
      }
    }
    if AlwaysBounded(max, steps) {
      forall n: nat | n < |steps| ensures !Crowds(Play(max, steps[..n]), steps[n]) {
        var s := Play(max, steps[..n]);
        InvAlways(max, steps[..n]);
        PlayPrefix(max, steps, n);
        assert |Play(max, steps[..n + 1]).running| + |Play(max, steps[..n + 1]).woken| <= max;
        if Enabled(s, steps[n]) {
          StepPassesBoundIff(s, steps[n]);
        }
      }
    }
  }

  // With one slot: 0 runs and 1 waits; 0 leaves, 2 arrives before 1 resumes, and both run.
  lemma NewcomerCrowds()
    ensures var steps := [Arrive(0), Arrive(1), Finish(0), Arrive(2), Resume];
      var s := Play(1, steps);
      s.running == [2, 1] && s.arrived == [0, 1, 2] && s.started == [0, 2, 1]
  {
    PlayPush(1, [], Arrive(0));
    PlayPush(1, [] + [Arrive(0)], Arrive(1));
    PlayPush(1, [] + [Arrive(0)] + [Arrive(1)], Finish(0));
    PlayPush(1, [] + [Arrive(0)] + [Arrive(1)] + [Finish(0)], Arrive(2));
    PlayPush(1, [] + [Arrive(0)] + [Arrive(1)] + [Finish(0)] + [Arrive(2)], Resume);
    assert [] + [Arrive(0)] + [Arrive(1)] + [Finish(0)] + [Arrive(2)] + [Resume]
        == [Arrive(0), Arrive(1), Finish(0), Arrive(2), Resume];
  }

  // Callers start in the order of their arrival exactly when nobody overtakes.
  lemma FifoIffNoOvertake(max: nat, steps: seq<Step>)
    ensures var s := Play(max, steps); s.started <= s.arrived <==> s.overtakes == 0
  {
    InvAlways(max, steps);
    var s := Play(max, steps);
    if s.overtakes == 0 {
      assert s.started + s.woken + s.queue == s.started + (s.woken + s.queue);
    }
  }

  // ---- Closed arrivals: everybody has arrived before the first release, as in runDerives.

  ghost predicate ClosedArrivals(steps: seq<Step>) {
    forall i, j :: 0 <= i < j < |steps| && steps[i].Finish? ==> !steps[j].Arrive?
  }

  lemma {:induction false} ClosedNeverOvertakes(max: nat, steps: seq<Step>)
    requires ClosedArrivals(steps)
    ensures Play(max, steps).overtakes == 0
    ensures (forall i :: 0 <= i < |steps| ==> !steps[i].Finish?) ==> Play(max, steps).woken == []
  {
    if steps != [] {
      var n := |steps| - 1;
      var front := steps[..n];
      assert forall i :: 0 <= i < n ==> front[i] == steps[i];
      ClosedNeverOvertakes(max, front);
      if steps[n].Arrive? {
        assert forall i :: 0 <= i < n ==> !steps[i].Finish?;
      }
    }
  }

  // Never more than max run or are about to; while somebody waits it is exactly max; and callers
  // start in arrival order.
  lemma ClosedArrivalsAreSafe(max: nat, steps: seq<Step>)
    requires ClosedArrivals(steps)
    ensures var s := Play(max, steps);
      && |s.running| + |s.woken| <= max
      && (s.queue != [] ==> |s.running| + |s.woken| == max)
      && s.started + s.woken + s.queue == s.arrived
  {
    ClosedNeverOvertakes(max, steps);
    InvAlways(max, steps);
  }

  // ---- Everybody finishes.

  function Pending(s: State): nat {
    3 * |s.queue| + 2 * |s.woken| + |s.running|
  }

  // Once nobody arrives any more, every step brings the end nearer.
  lemma StepsCountDown(s: State, step: Step)
    requires Enabled(s, step) && !step.Arrive?
    ensures Pending(After(s, step)) < Pending(s)
  {
  }

  // The steps are all possible, one after the other, and none is an arrival.
  ghost predicate Drains(max: nat, steps: seq<Step>, rest: seq<Step>) {
    forall n: nat :: n < |rest| ==> !rest[n].Arrive? && Enabled(Play(max, steps + rest[..n]), rest[n])
  }

  lemma {:induction false} DrainCountsDown(max: nat, steps: seq<Step>, rest: seq<Step>, n: nat)
    requires Drains(max, steps, rest) && n <= |rest|
    ensures n + Pending(Play(max, steps + rest[..n])) <= Pending(Play(max, steps))
    ensures Play(max, steps + rest[..n]).arrived == Play(max, steps).arrived
  {
    if n == 0 {
      assert steps + rest[..0] == steps;
    } else {
      DrainCountsDown(max, steps, rest, n - 1);
      assert steps + rest[..n] == (steps + rest[..n - 1]) + [rest[n - 1]];
      PlayPush(max, steps + rest[..n - 1], rest[n - 1]);
      StepsCountDown(Play(max, steps + rest[..n - 1]), rest[n - 1]);
    }
  }

  // With max >= 1 a state without a possible step is one in which all callers are done.
  lemma NobodyIsStuck(max: nat, steps: seq<Step>)
    requires max >= 1
    requires !Enabled(Play(max, steps), Resume) && !Enabled(Play(max, steps), Finish(0))
    ensures var s := Play(max, steps);
      s.queue == [] && s.woken == [] && s.running == [] && multiset(s.done) == multiset(s.arrived)
  {
    InvAlways(max, steps);
  }

  // Whatever the schedule: without arrivals it has at most Pending steps, and where it cannot go
  // on, everybody who arrived has finished.
  lemma EveryScheduleFinishes(max: nat, steps: seq<Step>, rest: seq<Step>)
    requires max >= 1 && Drains(max, steps, rest)
    ensures |rest| + Pending(Play(max, steps + rest)) <= Pending(Play(max, steps))
    ensures var s := Play(max, steps + rest);
      !Enabled(s, Resume) && !Enabled(s, Finish(0)) ==>
        s.queue == [] && s.woken == [] && s.running == [] && multiset(s.done) == multiset(Play(max, steps).arrived)
  {
    assert rest[..|rest|] == rest;
    DrainCountsDown(max, steps, rest, |rest|);
    var s := Play(max, steps + rest);
    if !Enabled(s, Resume) && !Enabled(s, Finish(0)) {
      NobodyIsStuck(max, steps + rest);
    }
  }

  // And there always is a schedule that gets there.
  lemma {:induction false} EverybodyFinishes(max: nat, steps: seq<Step>) returns (rest: seq<Step>)
    requires max >= 1
    ensures forall i :: 0 <= i < |rest| ==> !rest[i].Arrive?
    ensures |rest| <= Pending(Play(max, steps))
    ensures var s := Play(max, steps + rest);
      && s.queue == [] && s.woken == [] && s.running == []
      && s.arrived == Play(max, steps).arrived && multiset(s.done) == multiset(s.arrived)
    decreases Pending(Play(max, steps))
  {
    var s := Play(max, steps);
    assert steps + [] == steps;
    if Enabled(s, Resume) || Enabled(s, Finish(0)) {
      var step := if Enabled(s, Resume) then Resume else Finish(0);
      PlayPush(max, steps, step);
      StepsCountDown(s, step);
      var more := EverybodyFinishes(max, steps + [step]);
      rest := [step] + more;
      assert steps + rest == (steps + [step]) + more;
    } else {
      rest := [];
      NobodyIsStuck(max, steps);
    }
  }

  lemma PlayPush(max: nat, steps: seq<Step>, step: Step)
    ensures var s := Play(max, steps); Play(max, steps + [step]) == if Enabled(s, step) then After(s, step) else s
  {
    assert (steps + [step])[..|steps|] == steps;
  }

  // Without slots nobody ever starts.
  lemma {:induction false} NoSlotsNoStart(steps: seq<Step>)
    ensures var s := Play(0, steps); s.max == 0 && s.started == [] && s.running == [] && s.woken == [] && s.active == 0
  {
    if steps != [] {
      NoSlotsNoStart(steps[..|steps| - 1]);
    }
  }

  // ---- The bound on overtakes is reached: the excess has no limit.

  // Only caller numbers below |arrived| are taken, so |arrived| is a fresh one.
  ghost predicate Numbered(s: State) {
    forall i :: 0 <= i < |s.arrived| ==> s.arrived[i] < |s.arrived|
  }

  lemma {:induction false} Crowd(max: nat, n: nat) returns (steps: seq<Step>)
    ensures var s := Play(max, steps);
      && s.active == |s.running| && Numbered(s) && s.woken == [] && s.overtakes == 0 && s.max == max
      && |s.running| == (if n <= max then n else max) && |s.queue| == (if n <= max then 0 else n - max)
  {
    if n == 0 {
      steps := [];
    } else {
      var before := Crowd(max, n - 1);
      var c := |Play(max, before).arrived|;
      PlayPush(max, before, Arrive(c));
      steps := before + [Arrive(c)];
    }
  }

  // k times: one finishes, waking a waiter, and a newcomer takes the slot before the waiter resumes.
  lemma {:induction false} Overtake(max: nat, n: nat, k: nat) returns (steps: seq<Step>)
    requires max >= 1 && k <= n
    ensures var s := Play(max, steps);
      && s.active == |s.running| == max && Numbered(s) && s.max == max
      && |s.woken| == k && s.overtakes == k && |s.queue| == n - k
  {
    if k == 0 {
      steps := Crowd(max, max + n);
    } else {
      var before := Overtake(max, n, k - 1);
      PlayPush(max, before, Finish(0));
      var c := |Play(max, before).arrived|;
      PlayPush(max, before + [Finish(0)], Arrive(c));
      steps := before + [Finish(0)] + [Arrive(c)];
    }
  }

  lemma {:induction false} ResumeSome(max: nat, n: nat, k: nat) returns (steps: seq<Step>)
    requires max >= 1 && k <= n
    ensures var s := Play(max, steps);
      |s.running| == max + k && |s.woken| == n - k && s.overtakes == n
  {
    if k == 0 {
      steps := Overtake(max, n, n);
    } else {
      var before := ResumeSome(max, n, k - 1);
      PlayPush(max, before, Resume);
      steps := before + [Resume];
    }
  }

  // For every n there is a run with n overtakes after which max + n callers run at once.
  lemma BoundIsTight(max: nat, n: nat) returns (steps: seq<Step>)
    requires max >= 1
    ensures |Play(max, steps).running| == max + n && Play(max, steps).overtakes == n
  {
    steps := ResumeSome(max, n, n);
  }
}
