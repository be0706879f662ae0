// A client that resumes with `since = lastSeen` and ignores `seq <= lastSeen`, against the room
// and everything else that happens to the room.
module PubSubClient {
  import opened Options
  import opened Seqs
  import opened PubSubRoom
  import opened PubSubRuns

  // One connection of the client: the socket, and how many of its frames the client has read.
  datatype Cursor = Cursor(id: nat, pos: nat)

  // `lossy` records each resume whose first replayed frame f showed a gap: (lastSeen, f).
  datatype Client = Client(lastSeen: Option<nat>, accepted: seq<Frame>, cursors: seq<Cursor>, lossy: seq<(nat, nat)>)

  // Server covers all that others do: publishes on any channel, other subscribers, sockets that
  // close or error (the client's own too), hibernation. FromStart: the client will ask for all that
  // is retained, with `since = 0`, when it connects for the first time.
  datatype Move = Server(e: Event) | FromStart | Connect | Read(k: nat) | Drop(k: nat)

  datatype World = World(events: seq<Event>, client: Client)

  const START := World([], Client(None, [], [], []))

  function ShownGap(lastSeen: Option<nat>, replay: seq<Frame>): seq<(nat, nat)> {
    if lastSeen.Some? && replay != [] && replay[0].seqNo > lastSeen.value + 1
    then [(lastSeen.value, replay[0].seqNo)] else []
  }

  function Accept(client: Client, f: Frame): Client {
    if client.lastSeen.Some? && f.seqNo <= client.lastSeen.value then client
    else client.(lastSeen := Some(f.seqNo), accepted := client.accepted + [f])
  }

  // A client that has seen nothing has no cursor to resume from and opens one connection only;
  // once it has one, it may resume while an older connection still has frames to read.
  predicate MayConnect(client: Client) {
    client.lastSeen.Some? || client.cursors == []
  }

  function Connected(w: World, c: string): World
    requires MayConnect(w.client)
  {
    var s := Run(w.events);
    World(w.events + [Subscribe(c, w.client.lastSeen)],
          w.client.(cursors := w.client.cursors + [Cursor(s.nextId, 0)],
                    lossy := w.client.lossy + ShownGap(w.client.lastSeen, Replay(s.ring, c, w.client.lastSeen))))
  }

  predicate MayRead(w: World, k: nat) {
    k < |w.client.cursors| &&
    var cursor := w.client.cursors[k];
    cursor.id in Run(w.events).links && cursor.pos < |Run(w.events).links[cursor.id].frames|
  }

  // Reading frame f of the k-th connection.
  function Consumed(client: Client, k: nat, f: Frame): Client
    requires k < |client.cursors|
  {
    var cursor := client.cursors[k];
    Accept(client.(cursors := client.cursors[k := cursor.(pos := cursor.pos + 1)]), f)
  }

  function HasRead(w: World, k: nat): World
    requires MayRead(w, k)
  {
    var cursor := w.client.cursors[k];
    w.(client := Consumed(w.client, k, Run(w.events).links[cursor.id].frames[cursor.pos]))
  }

  function Dropped(w: World, k: nat): World
    requires k < |w.client.cursors|
  {
    World(w.events + [Close(w.client.cursors[k].id)],
          w.client.(cursors := w.client.cursors[..k] + w.client.cursors[k + 1..]))
  }

  // A move that is not possible changes nothing.
  function Moved(w: World, m: Move, c: string): World {
    match m
    case Server(e) => w.(events := w.events + [e])
    case FromStart =>
      if w.client.lastSeen.None? && w.client.cursors == [] then w.(client := w.client.(lastSeen := Some(0))) else w
    case Connect => if MayConnect(w.client) then Connected(w, c) else w
    case Read(k) => if MayRead(w, k) then HasRead(w, k) else w
    case Drop(k) => if k < |w.client.cursors| then Dropped(w, k) else w
  }

  function Played(moves: seq<Move>, c: string): World {
    if moves == [] then START else Moved(Played(moves[..|moves| - 1], c), moves[|moves| - 1], c)
  }

  // ---- What holds of every socket of the channel.

  ghost predicate Consecutive(frames: seq<Frame>) {
    forall i :: 0 <= i < |frames| - 1 ==> frames[i + 1].seqNo == frames[i].seqNo + 1
  }

  // A socket's frames are gap-free, and an open socket has been sent the newest one.
  ghost predicate LinkInOrder(s: RoomState, id: nat, newest: nat)
    requires id in s.links
  {
    var frames := s.links[id].frames;
    Consecutive(frames) && (id in s.live && frames != [] ==> frames[|frames| - 1].seqNo == newest)
  }

  ghost predicate LinksInOrder(s: RoomState, c: string, log: seq<Entry>) {
    forall id :: id in s.links && s.links[id].channel == c ==> LinkInOrder(s, id, |log|)
  }

  lemma {:induction false} ReplayConsecutive(c: string, log: seq<Entry>, since: nat)
    requires KeptIsSuffix(log)
    ensures Consecutive(Frames(c, KeptRows(c, log, since)))
    decreases |log| - since
  {
    if since < |log| {
      ReplayConsecutive(c, log, since + 1);
      var rest, all := Frames(c, KeptRows(c, log, since + 1)), Frames(c, KeptRows(c, log, since));
      if Kept(log, since) && since + 1 < |log| {
        assert Kept(log, since + 1);
        ReplayReachesNewest(c, log, since + 1);
        assert forall i :: 0 <= i < |rest| ==> all[i + 1] == rest[i];
        forall i | 0 <= i < |all| - 1 ensures all[i + 1].seqNo == all[i].seqNo + 1 {
          assert i == 0 || rest[(i - 1) + 1].seqNo == rest[i - 1].seqNo + 1;
        }
      } else if !Kept(log, since) {
        assert KeptRows(c, log, since) == KeptRows(c, log, since + 1);
      } else {
        assert KeptRows(c, log, since + 1) == [];
      }
    }
  }

  // The frames a new connection starts with.
  lemma ReplayFacts(s: RoomState, c: string, log: seq<Entry>, since: Option<nat>)
    requires MatchesLog(s, c, log) && KeptIsSuffix(log)
    ensures var replay := Replay(s.ring, c, since);
      && Consecutive(replay)
      && (since.Some? && since.value < |log| ==>
            replay != [] && replay[|replay| - 1].seqNo == |log|
            && (replay[0].seqNo == since.value + 1 <==> Kept(log, since.value)) && replay[0].seqNo > since.value)
      && (since.None? || since.value >= |log| ==> replay == [])
  {
    if since.Some? {
      MissedIsKept(s, c, log, since.value);
      ReplayConsecutive(c, log, since.value);
      if since.value < |log| {
        ReplayReachesNewest(c, log, since.value);
      }
    }
  }

  // What one event does to a socket of the channel: nothing, or one more frame with the next
  // number. A socket still open after a publish on the channel has been sent it.
  lemma LinkAfter(s: RoomState, e: Event, c: string, log: seq<Entry>, id: nat)
    requires MatchesLog(s, c, log) && Registered(s) && id in s.links && s.links[id].channel == c
    ensures var t := Step(s, e);
      && id in t.links && t.links[id].channel == c
      && (id in t.live ==> id in s.live)
      && (t.links[id] == s.links[id]
          || (Logged(e, c) != [] && id in s.live && |t.links[id].frames| == |s.links[id].frames| + 1
              && t.links[id].frames[..|s.links[id].frames|] == s.links[id].frames
              && t.links[id].frames[|s.links[id].frames|].seqNo == |log| + 1))
      && (Logged(e, c) != [] && id in t.live ==> t.links[id] != s.links[id])
  {
    match e {
      case Publish(channel, data, at, health) =>
        if channel == c {
          FreshKey(s, c, log);
        }
        var targets := Targets(s.live, s.links, channel);
        FilterMembers(s.live, HasTag(s.links, channel));
        FilterMembers(targets, Fails(health));
        FilterMembers(s.live, NotIn(Failed(targets, health)));
      case Subscribe(channel, since) =>
      case Close(gone) =>
        FilterMembers(s.live, NotIn([gone]));
      case Hibernate =>
    }
  }

  lemma LinkInOrderAfter(s: RoomState, e: Event, c: string, log: seq<Entry>, id: nat)
    requires MatchesLog(s, c, log) && Registered(s) && id in s.links && s.links[id].channel == c
    requires LinkInOrder(s, id, |log|)
    ensures id in Step(s, e).links && LinkInOrder(Step(s, e), id, |log + Logged(e, c)|)
  {
    LinkAfter(s, e, c, log, id);
    var old', new' := s.links[id].frames, Step(s, e).links[id].frames;
    if new' != old' {
      assert forall i :: 0 <= i < |old'| ==> new'[i] == new'[..|old'|][i];
    }
  }

  lemma LinksInOrderAfter(s: RoomState, e: Event, c: string, log: seq<Entry>)
    requires MatchesLog(s, c, log) && Registered(s) && LinksInOrder(s, c, log) && KeptIsSuffix(log)
    ensures LinksInOrder(Step(s, e), c, log + Logged(e, c))
  {
    var t := Step(s, e);
    forall id | id in t.links && t.links[id].channel == c ensures LinkInOrder(t, id, |log + Logged(e, c)|) {
      if id in s.links && s.links[id].channel == c {
        assert LinkInOrder(s, id, |log|);
        LinkInOrderAfter(s, e, c, log, id);
      } else if e.Subscribe? {
        ReplayFacts(s, c, log, e.since);
      }
    }
  }

  // At no time was an entry kept while a newer one was gone. A clock that never runs backwards
  // sees to that.
  ghost predicate AlwaysSuffix(log: seq<Entry>) {
    forall n: nat :: SuffixAt(log, n)
  }

  ghost predicate SuffixAt(log: seq<Entry>, n: nat) {
    n <= |log| ==> KeptIsSuffix(log[..n])
  }

  lemma MonotoneIsSuffix(log: seq<Entry>)
    requires Monotone(log)
    ensures AlwaysSuffix(log)
  {
    forall n: nat ensures SuffixAt(log, n) {
      if 0 < n <= |log| {
        MonotoneWindow(log[..n]);
      }
    }
  }

  lemma SuffixNow(log: seq<Entry>)
    requires AlwaysSuffix(log)
    ensures KeptIsSuffix(log)
  {
    assert SuffixAt(log, |log|) && log[..|log|] == log;
  }

  lemma SuffixBefore(log: seq<Entry>, more: seq<Entry>)
    requires AlwaysSuffix(log + more)
    ensures AlwaysSuffix(log) && KeptIsSuffix(log)
  {
    forall n: nat ensures SuffixAt(log, n) {
      assert SuffixAt(log + more, n);
      assert n <= |log| ==> (log + more)[..n] == log[..n];
    }
    SuffixNow(log);
  }

  lemma {:induction false} AlwaysInOrder(events: seq<Event>, c: string)
    requires AlwaysSuffix(LogOf(events, c))
    ensures LinksInOrder(Run(events), c, LogOf(events, c))
  {
    if events != [] {
      var before, e := events[..|events| - 1], events[|events| - 1];
      SuffixBefore(LogOf(before, c), Logged(e, c));
      AlwaysInOrder(before, c);
      RingIsWindow(before, c);
      AlwaysRegistered(before);
      LinksInOrderAfter(Run(before), e, c, LogOf(before, c));
    }
  }

  // ---- The client's invariant.

  // A resume from `from`, at or below a, was shown that everything between a and b was gone.
  ghost predicate Explained(lossy: seq<(nat, nat)>, a: nat, b: nat) {
    exists i :: 0 <= i < |lossy| && lossy[i].0 <= a && lossy[i].1 == b
  }

  // What the client accepted: entries of the log in increasing order, and without a gap except
  // where a resume was shown one.
  ghost predicate Segment(accepted: seq<Frame>, lossy: seq<(nat, nat)>, c: string, log: seq<Entry>) {
    && (forall k :: 0 <= k < |accepted| ==> FromLog(accepted[k], c, log))
    && (forall k :: 0 <= k < |accepted| - 1 ==>
          accepted[k].seqNo < accepted[k + 1].seqNo
          && (accepted[k + 1].seqNo == accepted[k].seqNo + 1
              || Explained(lossy, accepted[k].seqNo, accepted[k + 1].seqNo)))
  }

  // The next frame of a connection is at most one ahead of what the client has seen, unless it
  // opens a lossy replay; a connection read to its end, and still open, leaves nothing behind.
  ghost predicate CursorOk(s: RoomState, c: string, log: seq<Entry>, client: Client, cursor: Cursor) {
    && cursor.id in s.links && s.links[cursor.id].channel == c
    && var frames := s.links[cursor.id].frames;
    && cursor.pos <= |frames|
    && (client.lastSeen.None? ==> cursor.pos == 0)
    && (client.lastSeen.Some? && cursor.pos < |frames| ==>
          || frames[cursor.pos].seqNo <= client.lastSeen.value + 1
          || Explained(client.lossy, client.lastSeen.value, frames[cursor.pos].seqNo))
    && (client.lastSeen.Some? && cursor.pos == |frames| && cursor.id in s.live ==> client.lastSeen.value == |log|)
  }

  ghost predicate ClientOk(s: RoomState, c: string, log: seq<Entry>, client: Client) {
    && Segment(client.accepted, client.lossy, c, log)
    && (client.lastSeen.None? ==> client.accepted == [] && |client.cursors| <= 1)
    && (client.lastSeen.Some? ==>
          client.lastSeen.value == if client.accepted == [] then 0 else client.accepted[|client.accepted| - 1].seqNo)
    && (forall k :: 0 <= k < |client.cursors| ==> CursorOk(s, c, log, client, client.cursors[k]))
  }

  ghost predicate RoomOk(s: RoomState, c: string, log: seq<Entry>) {
    MatchesLog(s, c, log) && Registered(s) && LinksFromLog(s, c, log) && LinksInOrder(s, c, log)
  }

  lemma RoomAlwaysOk(events: seq<Event>, c: string)
    requires AlwaysSuffix(LogOf(events, c))
    ensures RoomOk(Run(events), c, LogOf(events, c))
  {
    RingIsWindow(events, c);
    AlwaysRegistered(events);
    FramesAreFaithful(events, c);
    AlwaysInOrder(events, c);
  }

  lemma CursorAfterEvent(s: RoomState, e: Event, c: string, log: seq<Entry>, client: Client, cursor: Cursor)
    requires RoomOk(s, c, log) && CursorOk(s, c, log, client, cursor)
    ensures CursorOk(Step(s, e), c, log + Logged(e, c), client, cursor)
  {
    LinkAfter(s, e, c, log, cursor.id);
    var old', new' := s.links[cursor.id].frames, Step(s, e).links[cursor.id].frames;
    if cursor.pos < |old'| {
      assert new'[cursor.pos] == new'[..|old'|][cursor.pos] == old'[cursor.pos];
    }
  }

  lemma ClientAfterEvent(s: RoomState, e: Event, c: string, log: seq<Entry>, client: Client)
    requires RoomOk(s, c, log) && ClientOk(s, c, log, client)
    ensures ClientOk(Step(s, e), c, log + Logged(e, c), client)
  {
    forall k | 0 <= k < |client.cursors|
      ensures CursorOk(Step(s, e), c, log + Logged(e, c), client, client.cursors[k])
    {
      CursorAfterEvent(s, e, c, log, client, client.cursors[k]);
    }
    forall k | 0 <= k < |client.accepted| ensures FromLog(client.accepted[k], c, log + Logged(e, c)) {
      FromLongerLog(c, log, Logged(e, c), client.accepted[k]);
    }
  }

  lemma ExplainedByMore(lossy: seq<(nat, nat)>, more: seq<(nat, nat)>, a: nat, a': nat, b: nat)
    requires Explained(lossy, a, b) && a <= a'
    ensures Explained(lossy + more, a', b)
  {
    var i :| 0 <= i < |lossy| && lossy[i].0 <= a && lossy[i].1 == b;
    assert (lossy + more)[i] == lossy[i];
  }

  lemma SegmentMoreLossy(accepted: seq<Frame>, lossy: seq<(nat, nat)>, more: seq<(nat, nat)>, c: string, log: seq<Entry>)
    requires Segment(accepted, lossy, c, log)
    ensures Segment(accepted, lossy + more, c, log)
  {
    forall k | 0 <= k < |accepted| - 1 && Explained(lossy, accepted[k].seqNo, accepted[k + 1].seqNo)
      ensures Explained(lossy + more, accepted[k].seqNo, accepted[k + 1].seqNo)
    {
      ExplainedByMore(lossy, more, accepted[k].seqNo, accepted[k].seqNo, accepted[k + 1].seqNo);
    }
  }

  // A cursor stays in order when the client sees more, or is told of more loss.
  lemma CursorSeesMore(s: RoomState, c: string, log: seq<Entry>, client: Client, client': Client, cursor: Cursor, more: seq<(nat, nat)>)
    requires CursorOk(s, c, log, client, cursor)
    requires client'.lossy == client.lossy + more
    requires client.lastSeen.Some? && client'.lastSeen.Some?
    requires client.lastSeen.value <= client'.lastSeen.value <= |log|
    ensures CursorOk(s, c, log, client', cursor)
  {
    var frames := s.links[cursor.id].frames;
    if cursor.pos < |frames| && frames[cursor.pos].seqNo > client.lastSeen.value + 1 {
      ExplainedByMore(client.lossy, more, client.lastSeen.value, client'.lastSeen.value, frames[cursor.pos].seqNo);
    }
  }

  lemma AcceptedInLog(s: RoomState, c: string, log: seq<Entry>, client: Client)
    requires ClientOk(s, c, log, client) && client.lastSeen.Some?
    ensures client.lastSeen.value <= |log|
  {
    assert client.accepted != [] ==> FromLog(client.accepted[|client.accepted| - 1], c, log);
  }

  lemma ClientTakesCursor(s: RoomState, c: string, log: seq<Entry>, client: Client, cursor: Cursor, more: seq<(nat, nat)>)
    requires ClientOk(s, c, log, client) && MayConnect(client) && (more != [] ==> client.lastSeen.Some?)
    requires CursorOk(s, c, log, client.(lossy := client.lossy + more), cursor)
    ensures ClientOk(s, c, log, client.(cursors := client.cursors + [cursor], lossy := client.lossy + more))
  {
    var client' := client.(cursors := client.cursors + [cursor], lossy := client.lossy + more);
    SegmentMoreLossy(client.accepted, client.lossy, more, c, log);
    if client.lastSeen.Some? {
      AcceptedInLog(s, c, log, client);
      forall k | 0 <= k < |client.cursors| ensures CursorOk(s, c, log, client', client.cursors[k]) {
        CursorSeesMore(s, c, log, client, client', client.cursors[k], more);
      }
    }
  }

  // The connection a resume opens is in order from the start.
  lemma NewCursorOk(s: RoomState, c: string, log: seq<Entry>, client: Client)
    requires RoomOk(s, c, log) && KeptIsSuffix(log) && ClientOk(s, c, log, client)
    ensures var more := ShownGap(client.lastSeen, Replay(s.ring, c, client.lastSeen));
      CursorOk(Subscribed(s, c, client.lastSeen), c, log, client.(lossy := client.lossy + more), Cursor(s.nextId, 0))
  {
    var replay := Replay(s.ring, c, client.lastSeen);
    var more := ShownGap(client.lastSeen, replay);
    ReplayFacts(s, c, log, client.lastSeen);
    if client.lastSeen.Some? {
      AcceptedInLog(s, c, log, client);
      if more != [] {
        assert (client.lossy + more)[|client.lossy|] == (client.lastSeen.value, replay[0].seqNo);
      }
    }
  }

  lemma ClientAfterConnect(s: RoomState, c: string, log: seq<Entry>, client: Client)
    requires RoomOk(s, c, log) && KeptIsSuffix(log) && ClientOk(s, c, log, client) && MayConnect(client)
    ensures var more := ShownGap(client.lastSeen, Replay(s.ring, c, client.lastSeen));
      ClientOk(Subscribed(s, c, client.lastSeen), c, log,
               client.(cursors := client.cursors + [Cursor(s.nextId, 0)], lossy := client.lossy + more))
  {
    assert log + [] == log;
    ClientAfterEvent(s, Subscribe(c, client.lastSeen), c, log, client);
    NewCursorOk(s, c, log, client);
    ClientTakesCursor(Subscribed(s, c, client.lastSeen), c, log, client, Cursor(s.nextId, 0),
                      ShownGap(client.lastSeen, Replay(s.ring, c, client.lastSeen)));
  }

  lemma SegmentAfterAccept(s: RoomState, c: string, log: seq<Entry>, client: Client, f: Frame)
    requires ClientOk(s, c, log, client) && FromLog(f, c, log)
    requires client.lastSeen.Some? ==>
      f.seqNo <= client.lastSeen.value + 1 || Explained(client.lossy, client.lastSeen.value, f.seqNo)
    ensures var after := Accept(client, f);
      && Segment(after.accepted, after.lossy, c, log) && after.lastSeen.Some? && after.accepted != []
      && after.lastSeen.value == after.accepted[|after.accepted| - 1].seqNo
      && f.seqNo <= after.lastSeen.value <= |log|
      && (client.lastSeen.Some? ==> client.lastSeen.value <= after.lastSeen.value)
  {
    if client.lastSeen.Some? {
      AcceptedInLog(s, c, log, client);
    }
  }

  // The cursor that was read stays in order, and so do the others.
  lemma CursorsAfterRead(s: RoomState, c: string, log: seq<Entry>, client: Client, k: nat, j: nat)
    requires RoomOk(s, c, log) && ClientOk(s, c, log, client) && k < |client.cursors| && j < |client.cursors|
    requires client.cursors[k].pos < |s.links[client.cursors[k].id].frames|
    ensures var after := Consumed(client, k, s.links[client.cursors[k].id].frames[client.cursors[k].pos]);
      |after.cursors| == |client.cursors| && CursorOk(s, c, log, after, after.cursors[j])
  {
    var cursor := client.cursors[k];
    var frames := s.links[cursor.id].frames;
    var f := frames[cursor.pos];
    var after := Consumed(client, k, f);
    assert CursorOk(s, c, log, client, cursor);
    SegmentAfterAccept(s, c, log, client, f);
    if j == k {
      assert cursor.pos + 1 < |frames| ==> frames[cursor.pos + 1].seqNo == f.seqNo + 1;
    } else {
      assert client.lastSeen.Some?;
      assert CursorOk(s, c, log, client, client.cursors[j]);
      CursorSeesMore(s, c, log, client, after, client.cursors[j], []);
    }
  }

  lemma ClientAfterRead(s: RoomState, c: string, log: seq<Entry>, client: Client, k: nat)
    requires RoomOk(s, c, log) && ClientOk(s, c, log, client) && k < |client.cursors|
    requires client.cursors[k].pos < |s.links[client.cursors[k].id].frames|
    ensures ClientOk(s, c, log, Consumed(client, k, s.links[client.cursors[k].id].frames[client.cursors[k].pos]))
  {
    var cursor := client.cursors[k];
    assert CursorOk(s, c, log, client, cursor);
    var f := s.links[cursor.id].frames[cursor.pos];
    SegmentAfterAccept(s, c, log, client, f);
    var after := Consumed(client, k, f);
    assert after.accepted == Accept(client, f).accepted && after.lastSeen == Accept(client, f).lastSeen;
    forall j | 0 <= j < |after.cursors| ensures CursorOk(s, c, log, after, after.cursors[j]) {
      CursorsAfterRead(s, c, log, client, k, j);
    }
  }

  ghost predicate WorldOk(w: World, c: string) {
    RoomOk(Run(w.events), c, LogOf(w.events, c)) && ClientOk(Run(w.events), c, LogOf(w.events, c), w.client)
  }

  lemma WorldAfterEvent(v: World, e: Event, c: string)
    requires WorldOk(v, c)
    ensures ClientGood(v.(events := v.events + [e]), c)
  {
    RunPush(v.events, e, c);
    ClientAfterEvent(Run(v.events), e, c, LogOf(v.events, c), v.client);
  }

  lemma WorldAfterConnect(v: World, c: string)
    requires WorldOk(v, c) && KeptIsSuffix(LogOf(v.events, c)) && MayConnect(v.client)
    ensures ClientGood(Connected(v, c), c)
  {
    RunPush(v.events, Subscribe(c, v.client.lastSeen), c);
    assert LogOf(v.events, c) + [] == LogOf(v.events, c);
    ClientAfterConnect(Run(v.events), c, LogOf(v.events, c), v.client);
  }

  lemma FewerCursors(s: RoomState, c: string, log: seq<Entry>, client: Client, k: nat)
    requires ClientOk(s, c, log, client) && k < |client.cursors|
    ensures ClientOk(s, c, log, client.(cursors := client.cursors[..k] + client.cursors[k + 1..]))
  {
    var client' := client.(cursors := client.cursors[..k] + client.cursors[k + 1..]);
    forall j | 0 <= j < |client'.cursors| ensures CursorOk(s, c, log, client', client'.cursors[j]) {
      assert CursorOk(s, c, log, client, client.cursors[if j < k then j else j + 1]);
    }
  }

  ghost predicate ClientGood(w: World, c: string) {
    ClientOk(Run(w.events), c, LogOf(w.events, c), w.client)
  }

  lemma WorldAfterDrop(v: World, c: string, k: nat)
    requires WorldOk(v, c) && k < |v.client.cursors|
    ensures ClientGood(Dropped(v, k), c)
  {
    var w := Dropped(v, k);
    WorldAfterEvent(v, Close(v.client.cursors[k].id), c);
    FewerCursors(Run(w.events), c, LogOf(w.events, c), v.client, k);
  }

  lemma WorldAfterRead(v: World, c: string, k: nat)
    requires WorldOk(v, c) && MayRead(v, k)
    ensures ClientGood(HasRead(v, k), c)
  {
    ClientAfterRead(Run(v.events), c, LogOf(v.events, c), v.client, k);
  }

  lemma NothingSeenYet(v: World, c: string)
    requires WorldOk(v, c)
    ensures ClientGood(Moved(v, FromStart, c), c)
  {
  }

  lemma WorldAfterMove(v: World, m: Move, c: string)
    requires WorldOk(v, c) && KeptIsSuffix(LogOf(v.events, c))
    ensures ClientGood(Moved(v, m, c), c)
  {
    assert ClientGood(v, c);
    if m.Server? {
      WorldAfterEvent(v, m.e, c);
    } else if m.FromStart? {
      NothingSeenYet(v, c);
    } else if m.Connect? {
      if MayConnect(v.client) {
        WorldAfterConnect(v, c);
      }
    } else if m.Read? {
      if MayRead(v, m.k) {
        WorldAfterRead(v, c, m.k);
      }
    } else if m.k < |v.client.cursors| {
      WorldAfterDrop(v, c, m.k);
    }
  }

  // No move rewrites what happened: the log only grows.
  lemma LogGrows(v: World, m: Move, c: string) returns (more: seq<Entry>)
    ensures LogOf(Moved(v, m, c).events, c) == LogOf(v.events, c) + more
  {
    var w := Moved(v, m, c);
    if w.events == v.events {
      more := [];
    } else {
      var e := match m
        case Server(e) => e
        case Connect => Subscribe(c, v.client.lastSeen)
        case Read(_) => Hibernate
        case FromStart => Hibernate
        case Drop(k) => Close(v.client.cursors[k].id);
      RunPush(v.events, e, c);
      more := Logged(e, c);
    }
  }

  lemma {:induction false} ClientAlwaysOk(moves: seq<Move>, c: string)
    requires AlwaysSuffix(LogOf(Played(moves, c).events, c))
    ensures WorldOk(Played(moves, c), c)
  {
    RoomAlwaysOk(Played(moves, c).events, c);
    if moves != [] {
      var v, m := Played(moves[..|moves| - 1], c), moves[|moves| - 1];
      var more := LogGrows(v, m, c);
      SuffixBefore(LogOf(v.events, c), more);
      ClientAlwaysOk(moves[..|moves| - 1], c);
      WorldAfterMove(v, m, c);
    }
  }

  // ---- The promises.

  // Over every run in which the window stays a suffix of the log: a client accepts entries of the
  // channel's log, unaltered, in strictly increasing order, and without a gap except where a
  // resume was shown one.
  lemma AcceptedIsSegment(moves: seq<Move>, c: string)
    requires AlwaysSuffix(LogOf(Played(moves, c).events, c))
    ensures var w := Played(moves, c); Segment(w.client.accepted, w.client.lossy, c, LogOf(w.events, c))
  {
    ClientAlwaysOk(moves, c);
  }

  // A resume shows a gap exactly when the client is behind and its next message has left the window.
  lemma ResumeLossyIff(moves: seq<Move>, c: string)
    requires AlwaysSuffix(LogOf(Played(moves, c).events, c)) && Played(moves, c).client.lastSeen.Some?
    ensures var w := Played(moves, c); var log := LogOf(w.events, c); var n := w.client.lastSeen.value;
      Connected(w, c).client.lossy != w.client.lossy <==> n < |log| && !Kept(log, n)
  {
    var w := Played(moves, c);
    ClientAlwaysOk(moves, c);
    SuffixNow(LogOf(w.events, c));
    ReplayFacts(Run(w.events), c, LogOf(w.events, c), w.client.lastSeen);
  }

  // All of the log from the number of the first frame on, each message once.
  ghost predicate IsTail(a: seq<Frame>, c: string, log: seq<Entry>) {
    && a != [] && 1 <= a[0].seqNo && a[0].seqNo + |a| == |log| + 1
    && forall i :: 0 <= i < |a| ==> a[i] == Frame(c, a[0].seqNo + i, log[a[0].seqNo + i - 1].data)
  }

  // A client that was never shown a gap, and has read all of an open connection, has accepted
  // the log from its first message to the newest, each message once.
  lemma CaughtUpMissedNothing(moves: seq<Move>, c: string, k: nat)
    requires AlwaysSuffix(LogOf(Played(moves, c).events, c))
    requires var w := Played(moves, c);
      && w.client.lossy == [] && w.client.accepted != [] && k < |w.client.cursors|
      && w.client.cursors[k].id in Run(w.events).live && !MayRead(w, k)
    ensures var w := Played(moves, c); IsTail(w.client.accepted, c, LogOf(w.events, c))
  {
    var w := Played(moves, c);
    var s, log := Run(w.events), LogOf(w.events, c);
    ClientAlwaysOk(moves, c);
    assert CursorOk(s, c, log, w.client, w.client.cursors[k]);
    GapFreeTail(w.client.accepted, c, log);
  }

  lemma GapFreeTail(a: seq<Frame>, c: string, log: seq<Entry>)
    requires Segment(a, [], c, log) && a != [] && a[|a| - 1].seqNo == |log|
    ensures IsTail(a, c, log)
  {
    forall i | 0 <= i < |a| - 1 ensures a[i + 1].seqNo == a[i].seqNo + 1 {
      assert a[i + 1].seqNo == a[i].seqNo + 1 || Explained([], a[i].seqNo, a[i + 1].seqNo);
    }
    StepsOfOne(a, |a| - 1);
    assert FromLog(a[0], c, log);
    forall i | 0 <= i < |a| ensures a[i] == Frame(c, a[0].seqNo + i, log[a[0].seqNo + i - 1].data) {
      StepsOfOne(a, i);
      assert FromLog(a[i], c, log);
    }
  }

  lemma {:induction false} StepsOfOne(a: seq<Frame>, i: nat)
    requires i < |a| && forall k :: 0 <= k < |a| - 1 ==> a[k + 1].seqNo == a[k].seqNo + 1
    ensures a[i].seqNo == a[0].seqNo + i
  {
    if i > 0 {
      StepsOfOne(a, i - 1);
      assert a[(i - 1) + 1].seqNo == a[i - 1].seqNo + 1;
    }
  }

  // ---- Where the window is no suffix, a client misses a message and is shown nothing.

  // The moves, and then the publishes of a log / n reads.
  function ThenPublishes(moves: seq<Move>, c: string, log: seq<Entry>, health: nat -> Health): seq<Move> {
    if log == [] then moves
    else
      var last := log[|log| - 1];
      ThenPublishes(moves, c, log[..|log| - 1], health) + [Server(Publish(c, last.data, last.at, health))]
  }

  function ThenReads(moves: seq<Move>, n: nat): seq<Move> {
    if n == 0 then moves else ThenReads(moves, n - 1) + [Read(0)]
  }

  lemma PlayedPush(moves: seq<Move>, m: Move, c: string)
    ensures Played(moves + [m], c) == Moved(Played(moves, c), m, c)
  {
    assert (moves + [m])[..|moves|] == moves;
  }

  // From w to w' the log of c grew by `more`, and the client did nothing.
  ghost predicate Extended(w: World, w': World, c: string, more: seq<Entry>) {
    w'.client == w.client && LogOf(w'.events, c) == LogOf(w.events, c) + more
  }

  lemma ExtendedByOne(w: World, w': World, c: string, more: seq<Entry>, e: Entry, health: nat -> Health)
    requires Extended(w, w', c, more)
    ensures Extended(w, Moved(w', Server(Publish(c, e.data, e.at, health)), c), c, more + [e])
  {
    RunPush(w'.events, Publish(c, e.data, e.at, health), c);
    Assoc(LogOf(w.events, c), more, [e]);
  }

  lemma {:induction false} PlayedPublishes(moves: seq<Move>, c: string, log: seq<Entry>, health: nat -> Health)
    ensures Extended(Played(moves, c), Played(ThenPublishes(moves, c, log, health), c), c, log)
  {
    var w := Played(moves, c);
    if log == [] {
      assert LogOf(w.events, c) + [] == LogOf(w.events, c);
    } else {
      var front, last := log[..|log| - 1], log[|log| - 1];
      var before := ThenPublishes(moves, c, front, health);
      PlayedPublishes(moves, c, front, health);
      ExtendedByOne(w, Played(before, c), c, front, last, health);
      PlayedPush(before, Server(Publish(c, last.data, last.at, health)), c);
      assert front + [last] == log;
    }
  }

  ghost predicate Increasing(frames: seq<Frame>) {
    (forall i :: 0 <= i < |frames| ==> frames[i].seqNo > 0)
    && forall i, j :: 0 <= i < j < |frames| ==> frames[i].seqNo < frames[j].seqNo
  }

  // A client that starts from 0 and has read n frames of its only connection, accepting all.
  function Reader(id: nat, frames: seq<Frame>, n: nat, lossy: seq<(nat, nat)>): Client
    requires n <= |frames|
  {
    Client(Some(if n == 0 then 0 else frames[n - 1].seqNo), frames[..n], [Cursor(id, n)], lossy)
  }

  lemma ReaderReads(id: nat, frames: seq<Frame>, n: nat, lossy: seq<(nat, nat)>)
    requires n < |frames| && Increasing(frames)
    ensures Consumed(Reader(id, frames, n, lossy), 0, frames[n]) == Reader(id, frames, n + 1, lossy)
  {
    assert frames[..n] + [frames[n]] == frames[..n + 1];
    assert [Cursor(id, n)][0 := Cursor(id, n + 1)] == [Cursor(id, n + 1)];
    assert n > 0 ==> frames[n - 1].seqNo < frames[n].seqNo;
  }

  ghost predicate Sent(events: seq<Event>, id: nat, frames: seq<Frame>) {
    id in Run(events).links && Run(events).links[id].frames == frames
  }

  lemma ReaderMoves(moves: seq<Move>, c: string, events: seq<Event>, id: nat, frames: seq<Frame>, n: nat, lossy: seq<(nat, nat)>)
    requires n < |frames| && Increasing(frames) && Sent(events, id, frames)
    requires Played(moves, c) == World(events, Reader(id, frames, n, lossy))
    ensures Played(moves + [Read(0)], c) == World(events, Reader(id, frames, n + 1, lossy))
  {
    var w := Played(moves, c);
    ReaderReads(id, frames, n, lossy);
    assert w.client.cursors[0] == Cursor(id, n);
    assert MayRead(w, 0);
    PlayedPush(moves, Read(0), c);
  }

  lemma {:induction false} PlayedReads(moves: seq<Move>, c: string, events: seq<Event>, id: nat, frames: seq<Frame>, lossy: seq<(nat, nat)>, n: nat)
    requires n <= |frames| && Increasing(frames) && Sent(events, id, frames)
    requires Played(moves, c) == World(events, Reader(id, frames, 0, lossy))
    ensures Played(ThenReads(moves, n), c) == World(events, Reader(id, frames, n, lossy))
  {
    if n > 0 {
      PlayedReads(moves, c, events, id, frames, lossy, n - 1);
      ReaderMoves(ThenReads(moves, n - 1), c, events, id, frames, n - 1, lossy);
    }
  }

  lemma KeptFramesIncrease(c: string, log: seq<Entry>)
    ensures Increasing(Frames(c, KeptRows(c, log, 0)))
  {
    var rows := KeptRows(c, log, 0);
    KeptRowsAscend(c, log, 0);
    forall i | 0 <= i < |rows| ensures rows[i].seqNo > 0 {
      KeptRowsMembers(c, log, 0, rows[i]);
    }
  }

  // Kept rows without a gap between them are a suffix of the log.
  lemma GapFreeIsSuffix(c: string, log: seq<Entry>)
    requires Consecutive(Frames(c, KeptRows(c, log, 0)))
    ensures KeptIsSuffix(log)
  {
    var rows := KeptRows(c, log, 0);
    forall i, j | 0 <= i <= j < |log| && Kept(log, i) ensures Kept(log, j) {
      KeptRowsMembers(c, log, 0, RowAt(c, log, i));
      var p :| 0 <= p < |rows| && rows[p] == RowAt(c, log, i);
      ReplayReachesNewest(c, log, 0);
      var q := GapFreeReaches(Frames(c, rows), p, j - i);
      KeptRowsMembers(c, log, 0, rows[q]);
    }
  }

  lemma GapFreeReaches(frames: seq<Frame>, p: nat, d: nat) returns (q: nat)
    requires Consecutive(frames) && p < |frames| && frames[p].seqNo + d <= frames[|frames| - 1].seqNo
    ensures q < |frames| && frames[q].seqNo == frames[p].seqNo + d
  {
    q := p + d;
    StepsOfOne(frames, p);
    StepsOfOne(frames, |frames| - 1);
    StepsOfOne(frames, q);
  }

  // A first connection from 0 is sent what the window holds.
  lemma FirstConnection(w: World, c: string, front: seq<Entry>)
    requires w.client == START.client && LogOf(w.events, c) == front
    ensures var frames := Frames(c, KeptRows(c, front, 0));
      var id := Run(w.events).nextId;
      var w' := Moved(Moved(w, FromStart, c), Connect, c);
      && LogOf(w'.events, c) == front && w'.client == Reader(id, frames, 0, ShownGap(Some(0), frames)) && Sent(w'.events, id, frames)
  {
    RunPush(w.events, Subscribe(c, Some(0)), c);
    RingIsWindow(w.events, c);
    MissedIsKept(Run(w.events), c, front, 0);
    assert front + [] == front;
  }

  lemma FirstMoves(m0: seq<Move>, c: string) returns (m1: seq<Move>)
    ensures Played(m1, c) == Moved(Moved(Played(m0, c), FromStart, c), Connect, c)
  {
    m1 := m0 + [FromStart] + [Connect];
    PlayedPush(m0, FromStart, c);
    PlayedPush(m0 + [FromStart], Connect, c);
  }

  lemma PublishesThenConnects(c: string, front: seq<Entry>, health: nat -> Health) returns (moves: seq<Move>, id: nat)
    ensures var w := Played(moves, c);
      var frames := Frames(c, KeptRows(c, front, 0));
      && LogOf(w.events, c) == front && w.client == Reader(id, frames, 0, ShownGap(Some(0), frames)) && Sent(w.events, id, frames)
  {
    var m0 := ThenPublishes([], c, front, health);
    var w0 := Played(m0, c);
    PlayedPublishes([], c, front, health);
    assert LogOf([], c) + front == front;
    moves := FirstMoves(m0, c);
    FirstConnection(w0, c, front);
    id := Run(w0.events).nextId;
  }

  // Publishes of `front`, a first connection from 0, and all it was sent read.
  lemma ReadsWindow(c: string, front: seq<Entry>, health: nat -> Health) returns (moves: seq<Move>)
    ensures var w := Played(moves, c);
      var frames := Frames(c, KeptRows(c, front, 0));
      LogOf(w.events, c) == front && w.client.accepted == frames && w.client.lossy == ShownGap(Some(0), frames)
  {
    var frames := Frames(c, KeptRows(c, front, 0));
    var m1, id := PublishesThenConnects(c, front, health);
    KeptFramesIncrease(c, front);
    PlayedReads(m1, c, Played(m1, c).events, id, frames, ShownGap(Some(0), frames), |frames|);
    moves := ThenReads(m1, |frames|);
    assert frames[..|frames|] == frames;
  }

  // A run with this log in which a client starts from 0 when the window is that of log[..n].
  lemma StartsAt(c: string, log: seq<Entry>, n: nat, health: nat -> Health) returns (moves: seq<Move>)
    requires n <= |log|
    ensures var w := Played(moves, c);
      var frames := Frames(c, KeptRows(c, log[..n], 0));
      LogOf(w.events, c) == log && w.client.accepted == frames && w.client.lossy == ShownGap(Some(0), frames)
  {
    var before := ReadsWindow(c, log[..n], health);
    PlayedPublishes(before, c, log[n..], health);
    moves := ThenPublishes(before, c, log[n..], health);
    assert log[..n] + log[n..] == log;
  }

  // The gap behind the first frame is in no record of the client.
  lemma HoleIsUnexplained(c: string, log: seq<Entry>, window: seq<Entry>)
    requires !KeptIsSuffix(window)
    ensures var frames := Frames(c, KeptRows(c, window, 0)); !Segment(frames, ShownGap(Some(0), frames), c, log)
  {
    var frames := Frames(c, KeptRows(c, window, 0));
    var lossy := ShownGap(Some(0), frames);
    KeptFramesIncrease(c, window);
    if Consecutive(frames) {
      GapFreeIsSuffix(c, window);
    }
    var k :| 0 <= k < |frames| - 1 && frames[k + 1].seqNo != frames[k].seqNo + 1;
    assert frames[0].seqNo < frames[k + 1].seqNo;
    assert !Explained(lossy, frames[k].seqNo, frames[k + 1].seqNo);
  }

  // Whether clients can rely on the promise is a matter of the log alone: in every run with this
  // log the client accepts a segment of it, gaps it was shown aside, if and only if the window was
  // always a suffix.
  lemma SegmentsIffAlwaysSuffix(c: string, log: seq<Entry>)
    ensures (forall moves :: LogOf(Played(moves, c).events, c) == log ==>
              Segment(Played(moves, c).client.accepted, Played(moves, c).client.lossy, c, log))
       <==> AlwaysSuffix(log)
  {
    if AlwaysSuffix(log) {
      forall moves | LogOf(Played(moves, c).events, c) == log
        ensures Segment(Played(moves, c).client.accepted, Played(moves, c).client.lossy, c, log)
      {
        AcceptedIsSegment(moves, c);
      }
    } else {
      var n: nat :| !SuffixAt(log, n);
      var moves := StartsAt(c, log, n, _ => Health(None, false));
      HoleIsUnexplained(c, log, log[..n]);
      assert !Segment(Played(moves, c).client.accepted, Played(moves, c).client.lossy, c, log);
    }
  }
}
