// The durable pub/sub room of examples/pubsub/room.ts with the fan-out and eviction arithmetic
// of packages/pubsub: what the durable state is, what each event does to it, and the object
// that does it step by step.
module PubSubRoom {
  import opened Digits
  import opened Options
  import opened Seqs
  import opened StableSort
  import opened Utf16

  const MAX_ENTRIES := 256
  const MAX_AGE_MS := 300000
  const MAX_BUFFERED_BYTES := 1048576
  // A tag is capped by its length in 16-bit units.
  const MAX_TAG_UNITS := 256

  // A row of the replay ring, PRIMARY KEY (channel, seqNo).
  datatype Row = Row(channel: string, seqNo: nat, data: string, at: int)

  datatype Frame = Frame(channel: string, seqNo: nat, data: string)

  // What is stored with a socket for a later wake: its channel, and where it resumed from.
  datatype Attachment = Attachment(channel: string, since: Option<nat>)

  // A socket the room accepted: its tag, its attachment, and every frame written to it so far.
  datatype Link = Link(channel: string, attachment: Attachment, frames: seq<Frame>)

  // What a fan-out meets when it touches a socket: its unsent bytes, and whether touching throws.
  datatype Health = Health(buffered: Option<nat>, throws: bool)

  // Durable storage and the runtime's socket registry. `live` lists the open sockets in the order
  // of their acceptance; `links` also remembers the closed ones.
  datatype RoomState = RoomState(counters: map<string, nat>, ring: seq<Row>, live: seq<nat>, links: map<nat, Link>, nextId: nat)

  datatype Reply = Status(code: nat) | Upgraded(id: nat) | Delivered(count: nat)

  function Counter(counters: map<string, nat>, channel: string): nat {
    if channel in counters then counters[channel] else 0
  }

  // ---- Publish.

  predicate Conflicts(ring: seq<Row>, channel: string, seqNo: nat) {
    exists i :: 0 <= i < |ring| && ring[i].channel == channel && ring[i].seqNo == seqNo
  }

  // The rows one channel keeps, as the complement of the two deletes of an eviction.
  predicate InWindow(row: Row, latest: nat, now: int) {
    row.seqNo > latest - MAX_ENTRIES && row.at >= now - MAX_AGE_MS
  }

  function Survives(channel: string, latest: nat, now: int): Row -> bool {
    (r: Row) => r.channel != channel || InWindow(r, latest, now)
  }

  function Evict(ring: seq<Row>, channel: string, latest: nat, now: int): seq<Row> {
    Filter(ring, Survives(channel, latest, now))
  }

  // A socket is written to unless it is over the buffer bound or throws.
  predicate Writable(h: Health) {
    !(h.buffered.Some? && h.buffered.value > MAX_BUFFERED_BYTES) && !h.throws
  }

  predicate Tagged(links: map<nat, Link>, id: nat, channel: string) {
    id in links && links[id].channel == channel
  }

  function HasTag(links: map<nat, Link>, channel: string): nat -> bool {
    (id: nat) => Tagged(links, id, channel)
  }

  function Targets(live: seq<nat>, links: map<nat, Link>, channel: string): seq<nat> {
    Filter(live, HasTag(links, channel))
  }

  function Fails(health: nat -> Health): nat -> bool {
    (id: nat) => !Writable(health(id))
  }

  function Reached(health: nat -> Health): nat -> bool {
    (id: nat) => Writable(health(id))
  }

  function Failed(targets: seq<nat>, health: nat -> Health): seq<nat> {
    Filter(targets, Fails(health))
  }

  function Append(link: Link, frame: Frame): Link {
    link.(frames := link.frames + [frame])
  }

  function Written(links: map<nat, Link>, targets: seq<nat>, frame: Frame, health: nat -> Health): map<nat, Link> {
    map id | id in links :: if id in targets && Writable(health(id)) then Append(links[id], frame) else links[id]
  }

  function NotIn(gone: seq<nat>): nat -> bool {
    (id: nat) => id !in gone
  }

  function Without(live: seq<nat>, gone: seq<nat>): seq<nat> {
    Filter(live, NotIn(gone))
  }

  function FrameOf(row: Row): Frame {
    Frame(row.channel, row.seqNo, row.data)
  }

  // The numbered message in the ring and on the sockets of its channel.
  function Spread(s: RoomState, row: Row, health: nat -> Health): RoomState {
    var targets := Targets(s.live, s.links, row.channel);
    s.(ring := Evict(s.ring + [row], row.channel, row.seqNo, row.at),
       links := Written(s.links, targets, FrameOf(row), health),
       live := Without(s.live, Failed(targets, health)))
  }

  function Published(s: RoomState, channel: string, data: string, now: int, health: nat -> Health): (RoomState, Reply) {
    var n := Counter(s.counters, channel) + 1;
    var s1 := s.(counters := s.counters[channel := n]);
    if Conflicts(s.ring, channel, n) then (s1, Status(500))
    else
      var targets := Targets(s.live, s.links, channel);
      (Spread(s1, Row(channel, n, data, now), health), Delivered(|Filter(targets, Reached(health))|))
  }

  // ---- Subscribe.

  predicate BySeq(a: Row, b: Row) {
    a.seqNo <= b.seqNo
  }

  // The rows a resume asks for: those of the channel above `since`, in the order of their numbers.
  function Behind(channel: string, since: nat): Row -> bool {
    (r: Row) => r.channel == channel && r.seqNo > since
  }

  function Missed(ring: seq<Row>, channel: string, since: nat): seq<Row> {
    Sort(BySeq, Filter(ring, Behind(channel, since)))
  }

  function Frames(channel: string, rows: seq<Row>): (r: seq<Frame>)
    ensures |r| == |rows|
  {
    seq(|rows|, i requires 0 <= i < |rows| => Frame(channel, rows[i].seqNo, rows[i].data))
  }

  function Replay(ring: seq<Row>, channel: string, since: Option<nat>): seq<Frame> {
    if since.None? then [] else Frames(channel, Missed(ring, channel, since.value))
  }

  function Subscribed(s: RoomState, channel: string, since: Option<nat>): RoomState {
    s.(live := s.live + [s.nextId],
       links := s.links[s.nextId := Link(channel, Attachment(channel, since), Replay(s.ring, channel, since))],
       nextId := s.nextId + 1)
  }

  // The socket leaves the tag set: the client closed it, or it errored.
  function Closed(s: RoomState, id: nat): RoomState {
    s.(live := Without(s.live, [id]))
  }

  // ---- Requests.

  // What request.json() gives parsePublishBody: not an object, or its two fields of interest
  // (a channel that is no string counts as absent).
  datatype Body = NoObject | Fields(channel: Option<string>, message: Option<string>)

  function ParseBody(body: Body): Option<(string, string)> {
    if body.NoObject? || body.channel.None? || body.channel.value == "" || body.message.None? then None
    else Some((body.channel.value, body.message.value))
  }

  // How #subscribe answers; the socket is minted on `None` only.
  function RefuseSubscribe(channel: Option<string>, since: Option<string>, upgrade: bool): Option<nat> {
    if channel.None? || |channel.value| == 0 then Some(400)
    else if |Encode(channel.value)| > MAX_TAG_UNITS then Some(400)
    else if since.Some? && ParseNat(since.value).None? then Some(400)
    else if !upgrade then Some(426)
    else None
  }

  // What outlives the room object when it hibernates. The table exists once a room was built.
  class DurableObjectState {
    var counters: map<string, nat>
    var table: Option<seq<Row>>
    var live: seq<nat>
    var links: map<nat, Link>
    var nextId: nat

    constructor ()
      ensures counters == map[] && table == None && live == [] && links == map[] && nextId == 0
    {
      counters, table, live, links, nextId := map[], None, [], map[], 0;
    }

    ghost function Contents(): RoomState
      reads this
    {
      RoomState(counters, if table.Some? then table.value else [], live, links, nextId)
    }

    // Sockets are numbered as they are accepted, and the registry lists no socket twice.
    ghost predicate Valid()
      reads this
    {
      Registered(Contents())
    }
  }

  ghost predicate Registered(s: RoomState) {
    && (forall id :: id in s.links ==> id < s.nextId)
    && (forall i :: 0 <= i < |s.live| ==> s.live[i] in s.links)
    && Distinct(s.live)
  }

  // Every event keeps the registry well formed.
  lemma PublishedRegistered(s: RoomState, channel: string, data: string, now: int, health: nat -> Health)
    requires Registered(s)
    ensures Registered(Published(s, channel, data, now, health).0)
  {
    StillListed(s.live, Failed(Targets(s.live, s.links, channel), health));
  }

  lemma SubscribedRegistered(s: RoomState, channel: string, since: Option<nat>)
    requires Registered(s)
    ensures Registered(Subscribed(s, channel, since))
  {
  }

  lemma ClosedRegistered(s: RoomState, id: nat)
    requires Registered(s)
    ensures Registered(Closed(s, id))
  {
    StillListed(s.live, [id]);
  }

  lemma StillListed(live: seq<nat>, gone: seq<nat>)
    requires Distinct(live)
    ensures Distinct(Without(live, gone))
    ensures forall i :: 0 <= i < |Without(live, gone)| ==> Without(live, gone)[i] in live
  {
    FilterDistinct(live, NotIn(gone));
    FilterMembers(live, NotIn(gone));
    forall i | 0 <= i < |Without(live, gone)| ensures Without(live, gone)[i] in live {
      assert Without(live, gone)[i] in Without(live, gone);
    }
  }

  lemma TargetsDistinct(live: seq<nat>, links: map<nat, Link>, channel: string)
    requires Distinct(live)
    ensures Distinct(Targets(live, links, channel))
    ensures forall i :: 0 <= i < |Targets(live, links, channel)| ==> Targets(live, links, channel)[i] in links
  {
    FilterDistinct(live, HasTag(links, channel));
    FilterMembers(live, HasTag(links, channel));
    forall i | 0 <= i < |Targets(live, links, channel)| ensures Targets(live, links, channel)[i] in links {
      assert Targets(live, links, channel)[i] in Targets(live, links, channel);
    }
  }

  lemma FailedOneMore(targets: seq<nat>, k: nat, health: nat -> Health)
    requires k < |targets|
    ensures Failed(targets[..k + 1], health)
         == Failed(targets[..k], health) + if Writable(health(targets[k])) then [] else [targets[k]]
  {
    assert targets[..k + 1] == targets[..k] + [targets[k]];
    FilterPush(targets[..k], targets[k], Fails(health));
  }

  lemma ReachedOneMore(targets: seq<nat>, k: nat, health: nat -> Health)
    requires k < |targets|
    ensures |Filter(targets[..k + 1], Reached(health))|
         == |Filter(targets[..k], Reached(health))| + if Writable(health(targets[k])) then 1 else 0
  {
    assert targets[..k + 1] == targets[..k] + [targets[k]];
    FilterPush(targets[..k], targets[k], Reached(health));
  }

  lemma WrittenOneMore(links: map<nat, Link>, targets: seq<nat>, k: nat, frame: Frame, health: nat -> Health)
    requires k < |targets| && targets[k] in links && Distinct(targets)
    ensures Written(links, targets[..k + 1], frame, health)
         == if Writable(health(targets[k]))
            then Written(links, targets[..k], frame, health)[targets[k] := Append(links[targets[k]], frame)]
            else Written(links, targets[..k], frame, health)
    ensures Written(links, targets[..k], frame, health)[targets[k]] == links[targets[k]]
  {
    assert targets[..k + 1] == targets[..k] + [targets[k]];
    assert targets[k] !in targets[..k];
  }

  // Sends one frame to every target; a socket that cannot take it is reported, never in the way.
  method Fanout(targets: seq<nat>, frame: Frame, links: map<nat, Link>, health: nat -> Health)
    returns (delivered: nat, failed: seq<nat>, links': map<nat, Link>)
    requires forall i :: 0 <= i < |targets| ==> targets[i] in links
    requires Distinct(targets)
    ensures failed == Failed(targets, health) && delivered == |Filter(targets, Reached(health))|
    ensures delivered + |failed| == |targets|
    ensures links' == Written(links, targets, frame, health)
  {
    delivered, failed, links' := 0, [], links;
    var k := 0;
    while k < |targets|
      invariant k <= |targets|
      invariant failed == Failed(targets[..k], health) && delivered == |Filter(targets[..k], Reached(health))|
      invariant delivered + |failed| == k
      invariant links' == Written(links, targets[..k], frame, health)
    {
      var id := targets[k];
      FailedOneMore(targets, k, health);
      ReachedOneMore(targets, k, health);
      WrittenOneMore(links, targets, k, frame, health);
      if health(id).buffered.Some? && health(id).buffered.value > MAX_BUFFERED_BYTES {
        failed := failed + [id];
      } else if health(id).throws {
        failed := failed + [id];
      } else {
        links' := links'[id := Append(links'[id], frame)];
        delivered := delivered + 1;
      }
      k := k + 1;
    }
    assert targets[..k] == targets;
  }

  // INSERT, then the two DELETEs of the eviction, each a statement of its own.
  method Retain(table: seq<Row>, row: Row) returns (ring: seq<Row>)
    ensures ring == Evict(table + [row], row.channel, row.seqNo, row.at)
  {
    ring := table + [row];
    var seqAtOrBelow, agedOutBefore := row.seqNo - MAX_ENTRIES, row.at - MAX_AGE_MS;
    var inCount := (r: Row) => !(r.channel == row.channel && r.seqNo <= seqAtOrBelow);
    var inAge := (r: Row) => !(r.channel == row.channel && r.at < agedOutBefore);
    ring := Filter(ring, inCount);
    ring := Filter(ring, inAge);
    FilterTwice(table + [row], inCount, inAge, Survives(row.channel, row.seqNo, row.at));
  }

  // Closes every socket the fan-out could not write to.
  method Reap(live: seq<nat>, failed: seq<nat>) returns (live': seq<nat>)
    ensures live' == Without(live, failed)
  {
    live' := live;
    WithoutNone(live);
    var k := 0;
    while k < |failed|
      invariant k <= |failed| && live' == Without(live, failed[..k])
    {
      WithoutOneMore(live, failed, k);
      live' := Without(live', [failed[k]]);
      k := k + 1;
    }
    assert failed[..k] == failed;
  }

  // Enumerates the channel's sockets, fans out over them and closes those that failed.
  method Broadcast(live: seq<nat>, links: map<nat, Link>, frame: Frame, health: nat -> Health)
    returns (delivered: nat, live': seq<nat>, links': map<nat, Link>)
    requires Distinct(live)
    ensures
      var targets := Targets(live, links, frame.channel);
      var failed := Failed(targets, health);
      && delivered == |Filter(targets, Reached(health))|
      && live' == Without(live, failed) && links' == Written(links, targets, frame, health)
  {
    var targets := Targets(live, links, frame.channel);
    TargetsDistinct(live, links, frame.channel);
    var failed;
    delivered, failed, links' := Fanout(targets, frame, links, health);
    live' := Reap(live, failed);
  }

  class PubSubRoom {
    const state: DurableObjectState

    // Runs on every wake. CREATE TABLE IF NOT EXISTS leaves a surviving ring as it is.
    constructor (state: DurableObjectState)
      modifies state
      ensures this.state == state && state.table.Some?
      ensures state.Contents() == old(state.Contents())
    {
      this.state := state;
      new;
      if state.table.None? {
        state.table := Some([]);
      }
    }

    method Subscribe(channel: Option<string>, sinceRaw: Option<string>, upgrade: bool) returns (r: Reply)
      requires state.table.Some? && state.Valid()
      modifies state
      ensures state.table.Some? && state.Valid()
      ensures
        var refusal := RefuseSubscribe(channel, sinceRaw, upgrade);
        if refusal.Some? then r == Status(refusal.value) && state.Contents() == old(state.Contents())
        else
          && r == Upgraded(old(state.nextId))
          && state.Contents() == Subscribed(old(state.Contents()), channel.value,
                                        if sinceRaw.None? then None else ParseNat(sinceRaw.value))
    {
      if channel.None? || |channel.value| == 0 {
        return Status(400);
      }
      if |Encode(channel.value)| > MAX_TAG_UNITS {
        return Status(400);
      }
      var since: Option<nat> := None;
      if sinceRaw.Some? {
        since := ParseNat(sinceRaw.value);
        if since.None? {
          return Status(400);
        }
      }
      if !upgrade {
        return Status(426);
      }
      var id := state.nextId;
      state.nextId := id + 1;
      // The socket is registered before anything is written to it.
      state.live := state.live + [id];
      state.links := state.links[id := Link(channel.value, Attachment(channel.value, since), [])];
      if since.Some? {
        var missed := Missed(state.table.value, channel.value, since.value);
        var k := 0;
        while k < |missed|
          invariant k <= |missed|
          invariant state.counters == old(state.counters) && state.table == old(state.table)
          invariant state.live == old(state.live) + [id] && state.nextId == id + 1
          invariant state.links == old(state.links)[id := Link(channel.value, Attachment(channel.value, since), Frames(channel.value, missed[..k]))]
        {
          var frame := Frame(channel.value, missed[k].seqNo, missed[k].data);
          assert Frames(channel.value, missed[..k + 1]) == Frames(channel.value, missed[..k]) + [frame];
          state.links := state.links[id := Append(state.links[id], frame)];
          k := k + 1;
        }
        assert missed[..k] == missed;
      }
      r := Upgraded(id);
    }

    // One event of the object: no other event runs between its first and its last statement.
    method Publish(body: Body, now: int, health: nat -> Health) returns (r: Reply)
      requires state.table.Some? && state.Valid()
      modifies state
      ensures state.table.Some? && state.Valid()
      ensures
        var request := ParseBody(body);
        if request.None? then r == Status(400) && state.Contents() == old(state.Contents())
        else (state.Contents(), r) == Published(old(state.Contents()), request.value.0, request.value.1, now, health)
    {
      var request := ParseBody(body);
      if request.None? {
        return Status(400);
      }
      var channel, message := request.value.0, request.value.1;
      var n := Counter(state.counters, channel) + 1;
      ghost var before := state.Contents();
      PublishedRegistered(before, channel, message, now, health);
      state.counters := state.counters[channel := n];
      if Conflicts(state.table.value, channel, n) {
        return Status(500);
      }
      var delivered := Deliver(Row(channel, n, message, now), health);
      r := Delivered(delivered);
    }

    // The numbered message goes to the ring and to the sockets of its channel.
    method Deliver(row: Row, health: nat -> Health) returns (delivered: nat)
      requires state.table.Some? && Distinct(state.live)
      modifies state
      ensures state.table.Some? && state.Contents() == Spread(old(state.Contents()), row, health)
      ensures delivered == |Filter(Targets(old(state.live), old(state.links), row.channel), Reached(health))|
    {
      var ring := Retain(state.table.value, row);
      state.table := Some(ring);
      var live, links;
      delivered, live, links := Broadcast(state.live, state.links, FrameOf(row), health);
      state.links, state.live := links, live;
    }

    method WebSocketClose(id: nat)
      requires state.table.Some? && state.Valid()
      modifies state
      ensures state.table.Some? && state.Valid()
      ensures state.Contents() == Closed(old(state.Contents()), id)
    {
      StillListed(state.live, [id]);
      state.live := Without(state.live, [id]);
    }
  }

  lemma WithoutNone(live: seq<nat>)
    ensures Without(live, []) == live
  {
    FilterAll(live, NotIn([]));
  }

  lemma WithoutOneMore(live: seq<nat>, gone: seq<nat>, k: nat)
    requires k < |gone|
    ensures Without(Without(live, gone[..k]), [gone[k]]) == Without(live, gone[..k + 1])
  {
    assert gone[..k + 1] == gone[..k] + [gone[k]];
    FilterTwice(live, NotIn(gone[..k]), NotIn([gone[k]]), NotIn(gone[..k + 1]));
  }
}
