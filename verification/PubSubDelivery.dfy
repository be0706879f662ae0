// What each request does, in plain terms: which sockets a publish reaches, which rows it leaves,
// what a resume is sent, and when a request is refused.
module PubSubDelivery {
  import opened Digits
  import opened Options
  import opened Seqs
  import opened StableSort
  import opened Utf16
  import opened PubSubRoom
  import opened PubSubRuns

  // A socket takes a frame if touching it does not throw and it has at most 1 MiB unsent, or does
  // not say how much.
  predicate Takes(h: Health) {
    !h.throws && (h.buffered.None? || h.buffered.value <= 1024 * 1024)
  }

  predicate Listens(s: RoomState, channel: string, id: nat) {
    id in s.live && id in s.links && s.links[id].channel == channel
  }

  // The number of the next message: one more than the last, from 1 on.
  function NextNumber(s: RoomState, channel: string): nat {
    if channel in s.counters then s.counters[channel] + 1 else 1
  }

  lemma FailedMeans(s: RoomState, channel: string, health: nat -> Health, id: nat)
    ensures id in Targets(s.live, s.links, channel) <==> Listens(s, channel, id)
    ensures id in Failed(Targets(s.live, s.links, channel), health) <==> Listens(s, channel, id) && !Takes(health(id))
    ensures Writable(health(id)) <==> Takes(health(id))
  {
    FilterMembers(s.live, HasTag(s.links, channel));
    FilterMembers(Targets(s.live, s.links, channel), Fails(health));
  }

  // Every open socket of the channel that can take the message is written it and stays open; every
  // other one of the channel is closed without it; no other socket is touched.
  lemma PublishReaches(s: RoomState, channel: string, data: string, now: int, health: nat -> Health, id: nat)
    requires !Conflicts(s.ring, channel, NextNumber(s, channel)) && id in s.links
    ensures var t := Published(s, channel, data, now, health).0;
      && id in t.links && t.links[id].channel == s.links[id].channel
      && t.links[id].frames == s.links[id].frames
           + (if Listens(s, channel, id) && Takes(health(id)) then [Frame(channel, NextNumber(s, channel), data)] else [])
      && (id in t.live <==> id in s.live && (s.links[id].channel == channel ==> Takes(health(id))))
  {
    FailedMeans(s, channel, health, id);
    FilterMembers(s.live, NotIn(Failed(Targets(s.live, s.links, channel), health)));
    assert s.links[id].frames + [] == s.links[id].frames;
  }

  function Takers(s: RoomState, channel: string, health: nat -> Health): set<nat> {
    set id | id in s.live && Listens(s, channel, id) && Takes(health(id))
  }

  // The answer counts the sockets that were reached.
  lemma PublishCounts(s: RoomState, channel: string, data: string, now: int, health: nat -> Health)
    requires !Conflicts(s.ring, channel, NextNumber(s, channel)) && Distinct(s.live)
    ensures Published(s, channel, data, now, health).1
         == Delivered(|Takers(s, channel, health)|)
  {
    var targets := Targets(s.live, s.links, channel);
    var reached := Filter(targets, Reached(health));
    FilterDistinct(s.live, HasTag(s.links, channel));
    FilterDistinct(targets, Reached(health));
    FilterMembers(targets, Reached(health));
    DistinctSize(reached);
    forall id ensures id in reached <==> Listens(s, channel, id) && Takes(health(id)) {
      FailedMeans(s, channel, health, id);
    }
    assert Elements(reached) == Takers(s, channel, health);
  }

  function Elements<T(==)>(s: seq<T>): set<T> {
    set x | x in s
  }

  lemma {:induction false} DistinctSize<T>(s: seq<T>)
    requires Distinct(s)
    ensures |s| == |Elements(s)|
  {
    if s != [] {
      DistinctSize(s[1..]);
      assert s == [s[0]] + s[1..];
      assert Elements(s) == {s[0]} + Elements(s[1..]);
      assert s[0] !in s[1..];
    }
  }

  // A publish counts its channel on and adds its row; of the channel it keeps the rows among the
  // newest 256 that are at most 5 minutes old, and it drops no row of another channel.
  lemma PublishStores(s: RoomState, channel: string, data: string, now: int, health: nat -> Health)
    requires !Conflicts(s.ring, channel, NextNumber(s, channel))
    ensures var t, n := Published(s, channel, data, now, health).0, NextNumber(s, channel);
      && t.counters == s.counters[channel := n]
      && forall r :: r in t.ring <==>
           && (r in s.ring || r == Row(channel, n, data, now))
           && (r.channel == channel ==> r.seqNo + 256 > n && r.at + 300000 >= now)
  {
    var n := NextNumber(s, channel);
    FilterMembers(s.ring + [Row(channel, n, data, now)], Survives(channel, n, now));
  }

  // In a run with a clock that never runs backwards the room holds of a channel, after its newest
  // publish, exactly the messages among the newest 256 and at most 5 minutes older than the newest.
  lemma RingInNumbers(events: seq<Event>, c: string, r: Row)
    requires Monotone(LogOf(events, c)) && LogOf(events, c) != []
    ensures var log := LogOf(events, c);
      r in Run(events).ring && r.channel == c <==>
        && IsEntry(r, c, log) && r.seqNo + 256 > |log| && r.at + 300000 >= log[|log| - 1].at
  {
    RingIsWindow(events, c);
    FilterMembers(Run(events).ring, OnChannel(c));
    KeptInNumbers(c, LogOf(events, c), r);
  }

  lemma KeptInNumbers(c: string, log: seq<Entry>, r: Row)
    requires Monotone(log) && log != []
    ensures r in KeptRows(c, log, 0) <==>
      IsEntry(r, c, log) && r.seqNo + 256 > |log| && r.at + 300000 >= log[|log| - 1].at
  {
    KeptRowsMembers(c, log, 0, r);
    if IsEntry(r, c, log) {
      MonotoneWindow(log);
    }
  }

  // In every run a resume is sent the rows of its channel above `since`, as frames, each once and
  // in ascending order.
  lemma ReplayInPlainTerms(events: seq<Event>, c: string, since: nat)
    ensures var ring, frames := Run(events).ring, Replay(Run(events).ring, c, Some(since));
      && (forall f :: f in frames <==> exists r :: r in ring && r.channel == c && r.seqNo > since && f == Frame(c, r.seqNo, r.data))
      && (forall i, j :: 0 <= i < j < |frames| ==> frames[i].seqNo < frames[j].seqNo)
  {
    var ring, log := Run(events).ring, LogOf(events, c);
    var frames, rows := Replay(ring, c, Some(since)), KeptRows(c, log, since);
    RingIsWindow(events, c);
    MissedIsKept(Run(events), c, log, since);
    KeptRowsAscend(c, log, since);
    forall f ensures f in frames <==> exists r :: r in ring && r.channel == c && r.seqNo > since && f == Frame(c, r.seqNo, r.data) {
      if f in frames {
        var k :| 0 <= k < |rows| && frames[k] == f;
        MissedMembers(ring, c, since, rows[k]);
        assert rows[k] in rows;
      }
      if exists r :: r in ring && r.channel == c && r.seqNo > since && f == Frame(c, r.seqNo, r.data) {
        var r :| r in ring && r.channel == c && r.seqNo > since && f == Frame(c, r.seqNo, r.data);
        MissedMembers(ring, c, since, r);
        var k :| 0 <= k < |rows| && rows[k] == r;
        assert frames[k] == f;
      }
    }
  }

  lemma MissedMembers(ring: seq<Row>, c: string, since: nat, r: Row)
    ensures r in Missed(ring, c, since) <==> r in ring && r.channel == c && r.seqNo > since
  {
    var rows := Filter(ring, Behind(c, since));
    FilterMembers(ring, Behind(c, since));
    SortFacts(BySeq, rows);
    assert r in rows <==> r in multiset(rows);
    assert r in Sort(BySeq, rows) <==> r in multiset(Sort(BySeq, rows));
  }

  // A subscriber is open at once, has its channel for a tag, and has been sent the replay and
  // nothing else; without `since` there is none.
  lemma SubscriberStartsWithReplay(s: RoomState, c: string, since: Option<nat>)
    requires s.nextId !in s.links
    ensures var t, id := Subscribed(s, c, since), s.nextId;
      && t.live == s.live + [id] && t.ring == s.ring && t.counters == s.counters && t.links.Keys == s.links.Keys + {id}
      && t.links[id].channel == c && t.links[id].frames == Replay(s.ring, c, since)
      && (since.None? ==> t.links[id].frames == [])
      && (forall other :: other in s.links ==> t.links[other] == s.links[other])
  {
  }

  // A socket that closes leaves the registry, and nothing else changes.
  lemma ClosedLeaves(s: RoomState, id: nat)
    ensures var t := Closed(s, id);
      && (forall other :: other in t.live <==> other in s.live && other != id)
      && t.ring == s.ring && t.counters == s.counters && t.links == s.links
  {
    FilterMembers(s.live, NotIn([id]));
  }

  // ---- Requests.

  // What `since` must be: some digits and nothing else.
  predicate IsNumeral(s: string) {
    s != "" && forall i :: 0 <= i < |s| ==> '0' <= s[i] <= '9'
  }

  // A subscribe is answered 400 without a channel of 1 to 256 units or with a `since` that is no
  // numeral, else 426 without an upgrade, and else goes through.
  lemma SubscribeIsRefusedIff(channel: Option<string>, since: Option<string>, upgrade: bool)
    ensures var wellFormed :=
        && channel.Some? && 1 <= |Encode(channel.value)| <= 256
        && (since.Some? ==> IsNumeral(since.value));
      RefuseSubscribe(channel, since, upgrade) == if !wellFormed then Some(400) else if !upgrade then Some(426) else None
  {
    if since.Some? {
      ParsesIff(since.value);
    }
    if channel.Some? && channel.value != "" {
      assert |Encode(channel.value)| >= |channel.value|;
    }
  }

  // A body is published exactly when it is an object with a non-empty text for a channel and with a message.
  lemma BodyIsPublishedIff(body: Body, channel: string, message: string)
    ensures ParseBody(body) == Some((channel, message)) <==> channel != "" && body == Fields(Some(channel), Some(message))
  {
  }
}
