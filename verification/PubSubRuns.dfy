// Whole runs of the room, channel by channel, against the log of what was published.
module PubSubRuns {
  import opened Options
  import opened Seqs
  import opened StableSort
  import opened PubSubRoom

  // What can happen to a room. Hibernation drops the object and keeps the durable state.
  datatype Event =
    | Publish(channel: string, data: string, at: int, health: nat -> Health)
    | Subscribe(channel: string, since: Option<nat>)
    | Close(id: nat)
    | Hibernate

  function Step(s: RoomState, e: Event): RoomState {
    match e
    case Publish(channel, data, at, health) => Published(s, channel, data, at, health).0
    case Subscribe(channel, since) => Subscribed(s, channel, since)
    case Close(id) => Closed(s, id)
    case Hibernate => s
  }

  const EMPTY := RoomState(map[], [], [], map[], 0)

  function Run(events: seq<Event>): RoomState {
    if events == [] then EMPTY else Step(Run(events[..|events| - 1]), events[|events| - 1])
  }

  // The log of a channel, a function of the events alone: entry i has sequence number i + 1.
  datatype Entry = Entry(data: string, at: int)

  function Logged(e: Event, c: string): seq<Entry> {
    if e.Publish? && e.channel == c then [Entry(e.data, e.at)] else []
  }

  function LogOf(events: seq<Event>, c: string): seq<Entry> {
    if events == [] then [] else LogOf(events[..|events| - 1], c) + Logged(events[|events| - 1], c)
  }

  lemma RunPush(events: seq<Event>, e: Event, c: string)
    ensures Run(events + [e]) == Step(Run(events), e)
    ensures LogOf(events + [e], c) == LogOf(events, c) + Logged(e, c)
  {
    assert (events + [e])[..|events|] == events;
  }

  // ---- The ring holds exactly the retention window of the log.

  // Entry i is among the newest MAX_ENTRIES, and no publish since found it too old.
  ghost predicate Kept(log: seq<Entry>, i: nat)
    requires i < |log|
  {
    i >= |log| - MAX_ENTRIES && forall k :: i <= k < |log| ==> log[i].at >= log[k].at - MAX_AGE_MS
  }

  function RowAt(c: string, log: seq<Entry>, i: nat): Row
    requires i < |log|
  {
    Row(c, i + 1, log[i].data, log[i].at)
  }

  // The kept rows from entry i on.
  ghost function KeptRows(c: string, log: seq<Entry>, i: nat): seq<Row>
    decreases |log| - i
  {
    if i >= |log| then [] else (if Kept(log, i) then [RowAt(c, log, i)] else []) + KeptRows(c, log, i + 1)
  }

  function OnChannel(c: string): Row -> bool {
    (r: Row) => r.channel == c
  }

  function RowsOf(ring: seq<Row>, c: string): seq<Row> {
    Filter(ring, OnChannel(c))
  }

  ghost predicate MatchesLog(s: RoomState, c: string, log: seq<Entry>) {
    Counter(s.counters, c) == |log| && RowsOf(s.ring, c) == KeptRows(c, log, 0)
  }

  lemma {:induction false} KeptRowsMembers(c: string, log: seq<Entry>, i: nat, r: Row)
    ensures r in KeptRows(c, log, i) <==>
      i < r.seqNo <= |log| && Kept(log, r.seqNo - 1) && r == RowAt(c, log, r.seqNo - 1)
    decreases |log| - i
  {
    if i < |log| {
      KeptRowsMembers(c, log, i + 1, r);
      FrontMember(Kept(log, i), RowAt(c, log, i), KeptRows(c, log, i + 1), r);
      if r.seqNo == i + 1 {
        assert r !in KeptRows(c, log, i + 1);
      } else {
        assert r != RowAt(c, log, i);
      }
    }
  }

  // One more publish evicts from the kept rows exactly those that the longer log does not keep.
  lemma {:induction false} EvictKeptRows(c: string, log: seq<Entry>, e: Entry, i: nat)
    requires i <= |log|
    ensures Filter(KeptRows(c, log, i), Survives(c, |log| + 1, e.at)) + [Row(c, |log| + 1, e.data, e.at)]
         == KeptRows(c, log + [e], i)
    decreases |log| - i
  {
    var keep := Survives(c, |log| + 1, e.at);
    var longer, last := log + [e], Row(c, |log| + 1, e.data, e.at);
    if i == |log| {
      assert Kept(longer, i) && KeptRows(c, longer, i + 1) == [];
    } else {
      var row, rest := RowAt(c, log, i), KeptRows(c, log, i + 1);
      EvictKeptRows(c, log, e, i + 1);
      KeptAfter(log, e, i);
      FilterFront(Kept(log, i), row, rest, keep);
      assert RowAt(c, longer, i) == row;
      assert Kept(longer, i) <==> Kept(log, i) && keep(row);
      Assoc(if Kept(longer, i) then [row] else [], Filter(rest, keep), [last]);
    }
  }

  lemma KeptAfter(log: seq<Entry>, e: Entry, i: nat)
    requires i < |log|
    ensures Kept(log + [e], i)
       <==> Kept(log, i) && i >= |log| + 1 - MAX_ENTRIES && log[i].at >= e.at - MAX_AGE_MS
  {
    var longer := log + [e];
    assert longer[|log|] == e;
    assert forall k :: i <= k < |log| ==> longer[k] == log[k];
    if Kept(longer, i) {
      forall k | i <= k < |log| ensures log[i].at >= log[k].at - MAX_AGE_MS {
        assert longer[i].at >= longer[k].at - MAX_AGE_MS;
      }
    }
  }

  lemma EvictOwnRows(ring: seq<Row>, c: string, log: seq<Entry>, e: Entry)
    requires RowsOf(ring, c) == KeptRows(c, log, 0)
    ensures RowsOf(Evict(ring + [Row(c, |log| + 1, e.data, e.at)], c, |log| + 1, e.at), c) == KeptRows(c, log + [e], 0)
  {
    var row := Row(c, |log| + 1, e.data, e.at);
    FilterSwap(ring + [row], Survives(c, |log| + 1, e.at), OnChannel(c));
    FilterPush(ring, row, OnChannel(c));
    FilterPush(KeptRows(c, log, 0), row, Survives(c, |log| + 1, e.at));
    EvictKeptRows(c, log, e, 0);
  }

  // Eviction for one channel leaves the rows of every other channel as they are.
  lemma EvictOtherRows(ring: seq<Row>, row: Row, c: string)
    requires row.channel != c
    ensures RowsOf(Evict(ring + [row], row.channel, row.seqNo, row.at), c) == RowsOf(ring, c)
  {
    var keep := Survives(row.channel, row.seqNo, row.at);
    FilterSwap(ring + [row], keep, OnChannel(c));
    FilterPush(ring, row, OnChannel(c));
    assert RowsOf(ring, c) + [] == RowsOf(ring, c);
    FilterMembers(ring, OnChannel(c));
    FilterAll(RowsOf(ring, c), keep);
  }

  lemma FreshKey(s: RoomState, c: string, log: seq<Entry>)
    requires MatchesLog(s, c, log)
    ensures !Conflicts(s.ring, c, |log| + 1)
  {
    FilterMembers(s.ring, OnChannel(c));
    forall i | 0 <= i < |s.ring| && s.ring[i].channel == c ensures s.ring[i].seqNo <= |log| {
      assert s.ring[i] in RowsOf(s.ring, c);
      KeptRowsMembers(c, log, 0, s.ring[i]);
    }
  }

  lemma MatchesLogAfter(s: RoomState, e: Event, c: string, log: seq<Entry>)
    requires MatchesLog(s, c, log)
    ensures MatchesLog(Step(s, e), c, log + Logged(e, c))
  {
    if e.Publish? {
      if e.channel == c {
        FreshKey(s, c, log);
        EvictOwnRows(s.ring, c, log, Entry(e.data, e.at));
      } else {
        EvictOtherRows(s.ring, Row(e.channel, Counter(s.counters, e.channel) + 1, e.data, e.at), c);
        assert log + [] == log;
      }
    } else {
      assert log + [] == log;
    }
  }

  // After every run, on every channel and with any clock: the counter numbers the log, and the
  // ring holds of this channel exactly the entries in both windows, in order.
  lemma {:induction false} RingIsWindow(events: seq<Event>, c: string)
    ensures MatchesLog(Run(events), c, LogOf(events, c))
  {
    if events != [] {
      RingIsWindow(events[..|events| - 1], c);
      MatchesLogAfter(Run(events[..|events| - 1]), events[|events| - 1], c, LogOf(events[..|events| - 1], c));
    }
  }

  // No publish of any run meets an existing (channel, seq) key, so none is answered with 500.
  lemma PublishNeverCollides(events: seq<Event>, channel: string, data: string, at: int, health: nat -> Health)
    ensures !Conflicts(Run(events).ring, channel, Counter(Run(events).counters, channel) + 1)
    ensures Published(Run(events), channel, data, at, health).1.Delivered?
  {
    RingIsWindow(events, channel);
    FreshKey(Run(events), channel, LogOf(events, channel));
  }

  ghost predicate SameLinks(links: map<nat, Link>, links': map<nat, Link>, c: string) {
    forall id :: id in links && links[id].channel == c ==> id in links' && links'[id] == links[id]
  }

  // What a channel has in two states is the same: its counter, its rows, its sockets' frames.
  ghost predicate Untouched(s: RoomState, t: RoomState, c: string) {
    Counter(t.counters, c) == Counter(s.counters, c) && RowsOf(t.ring, c) == RowsOf(s.ring, c) && SameLinks(s.links, t.links, c)
  }

  // An event of one channel changes nothing of another, nor which sockets the other reaches.
  lemma ChannelsAreIsolated(s: RoomState, e: Event, c: string)
    requires Registered(s) && ((e.Publish? || e.Subscribe?) ==> e.channel != c)
    ensures Untouched(s, Step(s, e), c)
    ensures !e.Close? ==> Targets(Step(s, e).live, Step(s, e).links, c) == Targets(s.live, s.links, c)
  {
    match e {
      case Publish(channel, data, at, health) => PublishIsIsolated(s, channel, data, at, health, c);
      case Subscribe(channel, since) => SubscribeIsIsolated(s, channel, since, c);
      case Close(id) =>
      case Hibernate =>
    }
  }

  lemma PublishIsIsolated(s: RoomState, channel: string, data: string, at: int, health: nat -> Health, c: string)
    requires channel != c
    ensures var t := Published(s, channel, data, at, health).0;
      Untouched(s, t, c) && Targets(t.live, t.links, c) == Targets(s.live, s.links, c)
  {
    var n := Counter(s.counters, channel) + 1;
    SpreadIsIsolated(s.(counters := s.counters[channel := n]), Row(channel, n, data, at), health, c);
  }

  lemma SpreadIsIsolated(s: RoomState, row: Row, health: nat -> Health, c: string)
    requires row.channel != c
    ensures var t := Spread(s, row, health);
      Untouched(s, t, c) && Targets(t.live, t.links, c) == Targets(s.live, s.links, c)
  {
    EvictOtherRows(s.ring, row, c);
    WritingIsIsolated(s.live, s.links, FrameOf(row), health, c);
    FanoutIsIsolated(s.live, s.links, FrameOf(row), health, c);
  }

  lemma FanoutIsIsolated(live: seq<nat>, links: map<nat, Link>, frame: Frame, health: nat -> Health, c: string)
    requires frame.channel != c
    ensures var targets := Targets(live, links, frame.channel);
      Targets(Without(live, Failed(targets, health)), Written(links, targets, frame, health), c) == Targets(live, links, c)
  {
    var targets := Targets(live, links, frame.channel);
    var links' := Written(links, targets, frame, health);
    WritingIsIsolated(live, links, frame, health, c);
    ReapingIsIsolated(live, links, frame.channel, health, c);
    FilterAgree(Without(live, Failed(targets, health)), HasTag(links', c), HasTag(links, c));
  }

  lemma WritingIsIsolated(live: seq<nat>, links: map<nat, Link>, frame: Frame, health: nat -> Health, c: string)
    requires frame.channel != c
    ensures var links' := Written(links, Targets(live, links, frame.channel), frame, health);
      && SameLinks(links, links', c) && (forall id :: Tagged(links', id, c) == Tagged(links, id, c))
  {
    FilterMembers(live, HasTag(links, frame.channel));
  }

  lemma SubscribeIsIsolated(s: RoomState, channel: string, since: Option<nat>, c: string)
    requires Registered(s) && channel != c
    ensures var t := Subscribed(s, channel, since);
      Targets(t.live, t.links, c) == Targets(s.live, s.links, c)
  {
    var t := Subscribed(s, channel, since);
    FilterPush(s.live, s.nextId, HasTag(t.links, c));
    assert !HasTag(t.links, c)(s.nextId);
    FilterAgree(s.live, HasTag(t.links, c), HasTag(s.links, c));
    assert Targets(s.live, s.links, c) + [] == Targets(s.live, s.links, c);
  }

  lemma ReapingIsIsolated(live: seq<nat>, links: map<nat, Link>, channel: string, health: nat -> Health, c: string)
    requires channel != c
    ensures Targets(Without(live, Failed(Targets(live, links, channel), health)), links, c) == Targets(live, links, c)
  {
    var targets := Targets(live, links, channel);
    var failed := Failed(targets, health);
    FilterMembers(live, HasTag(links, channel));
    FilterMembers(targets, Fails(health));
    FilterMembers(live, HasTag(links, c));
    FilterSwap(live, NotIn(failed), HasTag(links, c));
    FilterAll(Targets(live, links, c), NotIn(failed));
  }

  // ---- What sockets receive.

  // A frame is the faithful copy of an entry of the log.
  ghost predicate FromLog(f: Frame, c: string, log: seq<Entry>) {
    f.channel == c && 1 <= f.seqNo <= |log| && f.data == log[f.seqNo - 1].data
  }

  ghost predicate LinksFromLog(s: RoomState, c: string, log: seq<Entry>) {
    forall id, k :: id in s.links && s.links[id].channel == c && 0 <= k < |s.links[id].frames| ==>
      FromLog(s.links[id].frames[k], c, log)
  }

  // The rows a resume replays, before and after sorting.
  function Above(since: nat): Row -> bool {
    (r: Row) => r.seqNo > since
  }

  lemma {:induction false} KeptRowsAbove(c: string, log: seq<Entry>, i: nat, since: nat)
    ensures Filter(KeptRows(c, log, i), Above(since)) == KeptRows(c, log, if i < since then since else i)
    decreases |log| - i
  {
    if i < |log| {
      KeptRowsAbove(c, log, i + 1, since);
      FilterFront(Kept(log, i), RowAt(c, log, i), KeptRows(c, log, i + 1), Above(since));
      assert i < since ==> [] + KeptRows(c, log, since) == KeptRows(c, log, since);
    }
  }

  ghost predicate Ascending(rows: seq<Row>) {
    forall a, b :: 0 <= a < b < |rows| ==> rows[a].seqNo < rows[b].seqNo
  }

  lemma AscendingFrom(row: Row, rest: seq<Row>, kept: bool)
    requires Ascending(rest) && forall k :: 0 <= k < |rest| ==> rest[k].seqNo > row.seqNo
    ensures Ascending((if kept then [row] else []) + rest)
  {
  }

  lemma {:induction false} KeptRowsAscend(c: string, log: seq<Entry>, i: nat)
    ensures Ascending(KeptRows(c, log, i))
    decreases |log| - i
  {
    if i < |log| {
      var rest := KeptRows(c, log, i + 1);
      KeptRowsAscend(c, log, i + 1);
      forall k | 0 <= k < |rest| ensures rest[k].seqNo > i + 1 {
        KeptRowsMembers(c, log, i + 1, rest[k]);
      }
      AscendingFrom(RowAt(c, log, i), rest, Kept(log, i));
    }
  }

  // A resume replays exactly the kept entries above `since`.
  lemma MissedIsKept(s: RoomState, c: string, log: seq<Entry>, since: nat)
    requires MatchesLog(s, c, log)
    ensures Missed(s.ring, c, since) == KeptRows(c, log, since)
  {
    FilterTwice(s.ring, OnChannel(c), Above(since), Behind(c, since));
    KeptRowsAbove(c, log, 0, since);
    KeptRowsAscend(c, log, since);
    SortOfSorted(BySeq, KeptRows(c, log, since));
  }

  lemma FromLongerLog(c: string, log: seq<Entry>, more: seq<Entry>, f: Frame)
    requires FromLog(f, c, log)
    ensures FromLog(f, c, log + more)
  {
  }

  lemma PublishedFramesFromLog(s: RoomState, e: Event, c: string, log: seq<Entry>)
    requires MatchesLog(s, c, log) && LinksFromLog(s, c, log) && e.Publish?
    ensures LinksFromLog(Step(s, e), c, log + Logged(e, c))
  {
    var t := Step(s, e);
    if e.channel == c {
      FreshKey(s, c, log);
    }
    if !Conflicts(s.ring, e.channel, Counter(s.counters, e.channel) + 1) {
      FilterMembers(s.live, HasTag(s.links, e.channel));
      forall id, k | id in t.links && t.links[id].channel == c && 0 <= k < |t.links[id].frames|
        ensures FromLog(t.links[id].frames[k], c, log + Logged(e, c))
      {
        if k < |s.links[id].frames| {
          FromLongerLog(c, log, Logged(e, c), s.links[id].frames[k]);
        }
      }
    } else {
      assert log + [] == log;
    }
  }

  lemma ReplayedFramesFromLog(s: RoomState, c: string, log: seq<Entry>, since: Option<nat>)
    requires MatchesLog(s, c, log)
    ensures forall k :: 0 <= k < |Replay(s.ring, c, since)| ==> FromLog(Replay(s.ring, c, since)[k], c, log)
  {
    if since.Some? {
      MissedIsKept(s, c, log, since.value);
      var rows := KeptRows(c, log, since.value);
      forall k | 0 <= k < |rows| ensures FromLog(Frames(c, rows)[k], c, log) {
        KeptRowsMembers(c, log, since.value, rows[k]);
      }
    }
  }

  lemma LinksFromLogAfter(s: RoomState, e: Event, c: string, log: seq<Entry>)
    requires MatchesLog(s, c, log) && LinksFromLog(s, c, log)
    ensures LinksFromLog(Step(s, e), c, log + Logged(e, c))
  {
    if e.Publish? {
      PublishedFramesFromLog(s, e, c, log);
    } else {
      assert log + [] == log;
      if e.Subscribe? && e.channel == c {
        ReplayedFramesFromLog(s, c, log, e.since);
      }
    }
  }

  // Every frame a socket ever receives, replayed or live, is on its own channel and is the
  // entry of the log with that number.
  lemma {:induction false} FramesAreFaithful(events: seq<Event>, c: string)
    ensures LinksFromLog(Run(events), c, LogOf(events, c))
  {
    if events != [] {
      var before := events[..|events| - 1];
      FramesAreFaithful(before, c);
      RingIsWindow(before, c);
      LinksFromLogAfter(Run(before), events[|events| - 1], c, LogOf(before, c));
    }
  }

  lemma {:induction false} AlwaysRegistered(events: seq<Event>)
    ensures Registered(Run(events))
  {
    if events != [] {
      var s, e := Run(events[..|events| - 1]), events[|events| - 1];
      AlwaysRegistered(events[..|events| - 1]);
      match e {
        case Publish(channel, data, at, health) => PublishedRegistered(s, channel, data, at, health);
        case Subscribe(channel, since) => SubscribedRegistered(s, channel, since);
        case Close(id) => ClosedRegistered(s, id);
        case Hibernate =>
      }
    }
  }

  // ---- The window as a suffix, and the detection of loss.

  ghost predicate KeptIsSuffix(log: seq<Entry>) {
    forall i, j :: 0 <= i <= j < |log| && Kept(log, i) ==> Kept(log, j)
  }

  ghost predicate Monotone(log: seq<Entry>) {
    forall i, j :: 0 <= i <= j < |log| ==> log[i].at <= log[j].at
  }

  // With a clock that never runs backwards the window needs only the newest entry, and is a suffix.
  lemma MonotoneWindow(log: seq<Entry>)
    requires Monotone(log) && log != []
    ensures KeptIsSuffix(log)
    ensures forall i :: 0 <= i < |log| ==>
      (Kept(log, i) <==> i >= |log| - MAX_ENTRIES && log[i].at >= log[|log| - 1].at - MAX_AGE_MS)
  {
    forall i, j | 0 <= i <= j < |log| && Kept(log, i) ensures Kept(log, j) {
      forall k | j <= k < |log| ensures log[j].at >= log[k].at - MAX_AGE_MS {
        assert log[i].at >= log[k].at - MAX_AGE_MS && log[i].at <= log[j].at;
      }
    }
    forall i | 0 <= i < |log|
      ensures Kept(log, i) <==> i >= |log| - MAX_ENTRIES && log[i].at >= log[|log| - 1].at - MAX_AGE_MS
    {
      assert forall k :: i <= k < |log| ==> log[k].at <= log[|log| - 1].at;
    }
  }

  // Whatever the clock does: who is behind gets a non-empty replay that ends at the newest entry,
  // and it starts right behind `since` exactly when that next entry is still kept.
  lemma {:induction false} ReplayReachesNewest(c: string, log: seq<Entry>, since: nat)
    requires since < |log|
    ensures var rows := KeptRows(c, log, since);
      && rows != [] && rows[|rows| - 1].seqNo == |log|
      && (rows[0].seqNo == since + 1 <==> Kept(log, since))
      && rows[0].seqNo >= since + 1
    decreases |log| - since
  {
    if since + 1 < |log| {
      ReplayReachesNewest(c, log, since + 1);
    } else {
      assert KeptRows(c, log, since + 1) == [];
    }
  }

  ghost predicate LostSomething(log: seq<Entry>, since: nat) {
    exists i :: since <= i < |log| && !Kept(log, i)
  }

  // The client's test on its first replayed frame.
  ghost predicate SeesGap(c: string, log: seq<Entry>, since: nat)
    requires since < |log|
  {
    var rows := KeptRows(c, log, since);
    rows != [] && rows[0].seqNo > since + 1
  }

  // The documented test, first replayed seq > since + 1, tells every resuming client whether it
  // lost a message exactly when the retained entries are a suffix of the log.
  lemma GapTestIsExactIff(c: string, log: seq<Entry>)
    ensures (forall since :: 0 <= since < |log| ==> (LostSomething(log, since) <==> SeesGap(c, log, since)))
       <==> KeptIsSuffix(log)
  {
    forall since | 0 <= since < |log| ensures SeesGap(c, log, since) <==> !Kept(log, since) {
      ReplayReachesNewest(c, log, since);
    }
    if forall since :: 0 <= since < |log| ==> (LostSomething(log, since) <==> SeesGap(c, log, since)) {
      forall i, j | 0 <= i <= j < |log| && Kept(log, i) ensures Kept(log, j) {
        assert !SeesGap(c, log, i);
      }
    }
    if KeptIsSuffix(log) {
      forall since | 0 <= since < |log| ensures LostSomething(log, since) <==> SeesGap(c, log, since) {
      }
    }
  }

  // A clock set back between publishes leaves a hole inside the replay that the test misses:
  // of three messages the second is evicted, the first stays.
  lemma BackwardClockHidesLoss(health: nat -> Health)
    ensures
      var events := [Publish("c", "a", 1000000, health), Publish("c", "b", 0, health), Publish("c", "d", 1000001, health)];
      var log := LogOf(events, "c");
      && Missed(Run(events).ring, "c", 0) == [Row("c", 1, "a", 1000000), Row("c", 3, "d", 1000001)]
      && LostSomething(log, 0) && !SeesGap("c", log, 0)
  {
    var e1, e2, e3 := Publish("c", "a", 1000000, health), Publish("c", "b", 0, health), Publish("c", "d", 1000001, health);
    var events := [e1, e2, e3];
    var log := LogOf(events, "c");
    assert log == [Entry("a", 1000000), Entry("b", 0), Entry("d", 1000001)] by {
      assert events == ([] + [e1] + [e2]) + [e3];
      RunPush([], e1, "c");
      RunPush([] + [e1], e2, "c");
      RunPush([] + [e1] + [e2], e3, "c");
    }
    HoleInWindow(events, log);
  }

  lemma HoleInWindow(events: seq<Event>, log: seq<Entry>)
    requires log == LogOf(events, "c") == [Entry("a", 1000000), Entry("b", 0), Entry("d", 1000001)]
    ensures Missed(Run(events).ring, "c", 0) == [Row("c", 1, "a", 1000000), Row("c", 3, "d", 1000001)]
    ensures LostSomething(log, 0) && !SeesGap("c", log, 0)
  {
    RingIsWindow(events, "c");
    MissedIsKept(Run(events), "c", log, 0);
    assert Kept(log, 0) && Kept(log, 2);
    assert log[1].at < log[2].at - MAX_AGE_MS;
    assert !Kept(log, 1);
    assert KeptRows("c", log, 3) == [];
    assert KeptRows("c", log, 2) == [RowAt("c", log, 2)];
    assert KeptRows("c", log, 1) == [RowAt("c", log, 2)];
    assert KeptRows("c", log, 0) == [RowAt("c", log, 0)] + KeptRows("c", log, 1);
  }

  // ---- Eviction waits for the next publish on the channel.

  ghost predicate Silent(events: seq<Event>, c: string) {
    forall i :: 0 <= i < |events| ==> !(events[i].Publish? && events[i].channel == c)
  }

  // Nothing but a publish on c changes the rows of c, whatever the time.
  lemma OnlyPublishesEvict(s: RoomState, e: Event, c: string)
    requires !(e.Publish? && e.channel == c)
    ensures RowsOf(Step(s, e).ring, c) == RowsOf(s.ring, c)
  {
    if e.Publish? {
      EvictOtherRows(s.ring, Row(e.channel, Counter(s.counters, e.channel) + 1, e.data, e.at), c);
    }
  }

  lemma {:induction false} SilenceKeepsRows(events: seq<Event>, silence: seq<Event>, c: string)
    requires Silent(silence, c)
    ensures RowsOf(Run(events + silence).ring, c) == RowsOf(Run(events).ring, c)
    ensures LogOf(events + silence, c) == LogOf(events, c)
  {
    if silence == [] {
      assert events + silence == events;
    } else {
      var n := |silence| - 1;
      assert events + silence == (events + silence[..n]) + [silence[n]];
      SilenceKeepsRows(events, silence[..n], c);
      RunPush(events + silence[..n], silence[n], c);
      OnlyPublishesEvict(Run(events + silence[..n]), silence[n], c);
      assert LogOf(events, c) + [] == LogOf(events, c);
    }
  }

  // A channel that goes silent after one message keeps it: at every later time, and whatever
  // happens on other channels, who asks from 0 is sent it, past its age.
  lemma SilentChannelStaysStale(c: string, data: string, at: int, health: nat -> Health, silence: seq<Event>, t: int)
    requires Silent(silence, c) && t - MAX_AGE_MS > at
    ensures var ring := Run([Publish(c, data, at, health)] + silence).ring;
      && RowsOf(ring, c) == [Row(c, 1, data, at)] && !InWindow(Row(c, 1, data, at), 1, t)
      && Replay(ring, c, Some(0)) == [Frame(c, 1, data)]
  {
    var first := [Publish(c, data, at, health)];
    var log := [Entry(data, at)];
    var events := first + silence;
    RunPush([], first[0], c);
    assert [] + first == first && LogOf([], c) + log == log;
    SilenceKeepsRows(first, silence, c);
    RingIsWindow(events, c);
    MissedIsKept(Run(events), c, log, 0);
    assert Kept(log, 0) && KeptRows(c, log, 1) == [];
    assert KeptRows(c, log, 0) == [Row(c, 1, data, at)];
  }

  ghost predicate IsEntry(r: Row, c: string, log: seq<Entry>) {
    1 <= r.seqNo <= |log| && r == RowAt(c, log, r.seqNo - 1)
  }

  // The rows of c are exactly the entries inside both windows at time t.
  ghost predicate IsWindowAt(rows: seq<Row>, c: string, log: seq<Entry>, t: int) {
    forall r :: r in rows <==> IsEntry(r, c, log) && InWindow(r, |log|, t)
  }

  // With a clock that never runs backwards, and from the newest publish on: the ring is what the
  // windows of that moment say for as long as its first row has not outlived its age.
  lemma WindowHoldsIff(events: seq<Event>, c: string, t: int)
    requires var log := LogOf(events, c); Monotone(log) && log != [] && t >= log[|log| - 1].at
    ensures var rows := RowsOf(Run(events).ring, c);
      rows != [] && (IsWindowAt(rows, c, LogOf(events, c), t) <==> rows[0].at >= t - MAX_AGE_MS)
  {
    RingIsWindow(events, c);
    KeptIsWindowIff(c, LogOf(events, c), t);
  }

  lemma KeptIsWindowIff(c: string, log: seq<Entry>, t: int)
    requires Monotone(log) && log != [] && t >= log[|log| - 1].at
    ensures var rows := KeptRows(c, log, 0);
      rows != [] && (IsWindowAt(rows, c, log, t) <==> rows[0].at >= t - MAX_AGE_MS)
  {
    var rows := KeptRows(c, log, 0);
    ReplayReachesNewest(c, log, 0);
    KeptRowsMembers(c, log, 0, rows[0]);
    if rows[0].at >= t - MAX_AGE_MS {
      forall r ensures r in rows <==> IsEntry(r, c, log) && InWindow(r, |log|, t) {
        KeptWhileFirstIs(c, log, t, r);
      }
    }
  }

  lemma KeptWhileFirstIs(c: string, log: seq<Entry>, t: int, r: Row)
    requires Monotone(log) && log != [] && t >= log[|log| - 1].at
    requires var rows := KeptRows(c, log, 0); rows != [] && rows[0].at >= t - MAX_AGE_MS
    ensures r in KeptRows(c, log, 0) <==> IsEntry(r, c, log) && InWindow(r, |log|, t)
  {
    var rows := KeptRows(c, log, 0);
    KeptRowsMembers(c, log, 0, r);
    KeptRowsMembers(c, log, 0, rows[0]);
    KeptRowsAscend(c, log, 0);
    MonotoneWindow(log);
    if r in rows {
      var k :| 0 <= k < |rows| && rows[k] == r;
      assert k > 0 ==> rows[0].seqNo < rows[k].seqNo;
      assert log[rows[0].seqNo - 1].at <= log[r.seqNo - 1].at;
    }
  }
}
