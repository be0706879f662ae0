# Verified models of six Lesto cores

Six self-contained pieces of the Lesto repository, modelled in Dafny and proved against what their
comments and documentation promise. Code that works step by step (the stripping loop, the durable
room, the tree walk, the registry, the shuffle, the generator, the semaphore) keeps that form: a
class or a method with loops, tied by its `ensures` to a specification function. What the source
promises is then proved about those functions, for every input, every run or every reachable state.

| files | what they model |
|---|---|
| `Jsonc`, `JsoncShape`, `JsoncText` | the string-aware JSONC stripper: one pass with a back-patched output array, the two simple passes it fuses, and what they do to literal text |
| `PubSubRoom`, `PubSubRuns`, `PubSubClient`, `PubSubDelivery` | the durable pub/sub room with its replay ring, whole runs of it, a client that resumes, and each request in plain terms |
| `LoomProps`, `LoomRegistry`, `LoomValidate`, `LoomRepair`, `LoomRender`, `LoomManifest`, `LoomPlain` | UI trees: prop checks, the component registry, validator and repairer, renderer, JSON Schema compiler, and what the checks come to value by value |
| `Mulberry`, `Shuffle`, `Samples`, `Schedule`, `Saturation` | the benchmark driver: seeded generator, shuffle, order statistics, schedule, saturation headline |
| `Semaphore` | the async FIFO semaphore, with the window between waking a waiter and its resumption |
| `SiteNav`, `StoreVersions`, `StorePicks` | the docs sidebar with its prev/next links, and the pick of one package version, by its readers and in numbers |
| `StableSort`, `Seqs`, `Options`, `Digits`, `Utf16` | stable sorting, filtering and mapping, optional values, decimal texts, the 16-bit units of a text |

Every definition that a loop and its specification share is also pinned in literal terms, by
characters, numbers and field names that it does not use itself: `JsoncText` for the stripper,
`PubSubDelivery` for the room, `LoomPlain` for prop types and nodes, `StorePicks` for versions and
ranges, and the lemmas "in plain terms" of the other modules.

`dafny verify dfyconfig.toml` checks all of it.

## Where code and documentation part

The code is modelled as it is. Each promise it does not keep has a lemma with a concrete input, and
the condition under which the promise holds, in both directions.

- `loom/src/generate.js:1-4` guarantees that a saved tree is renderable and never malformed on the
  request path. The renderer copes with any tree, but one repair does not make every tree pass the
  validator: a required prop of a fallible type with a bad value is dropped while its node stays, and
  the renderer then drops the node (`LoomRepair.OnePassIsNotEnough`). The saved tree validates exactly
  when no kept node was starved in that way (`SavedTreeIsValidIff`); repaired twice, every tree
  validates (`TwoPassesSuffice`).
- Repairing comes to rest after two passes exactly when no kept node of the once repaired tree leaves
  a prop to a default that needs coercion (`LoomRepair.RepairComesToRest`). The default `"5"` of a
  number validates and still moves in the third pass (`ThirdPassCanChange`). For the same reason a
  valid tree and its repaired form can be called with different props (`LoomRender.LeaningShows`), and
  a null child is a place among the children until the repair drops it (`EmptyPlaceShows`). The two
  renderings are the same exactly when neither occurs (`RenderingIsUnchangedIff`).
- `examples/pubsub/room.ts:31-33` tells the client to detect loss by its first replayed
  `seq > since + 1`. That test is exact for every `since` if and only if the retained entries are a
  suffix of the log (`PubSubRuns.GapTestIsExactIff`), as they are when the clock never runs backwards
  (`MonotoneWindow`). A clock set back leaves a hole the test misses (`BackwardClockHidesLoss`). So
  clients that ignore `seq <= lastSeen` miss nothing unawares, in all runs with a given log, if and
  only if the window was always a suffix of it (`PubSubClient.SegmentsIffAlwaysSuffix`).
- `packages/pubsub/src/replay.ts:12-14` says a row is evicted the moment it leaves either window, and
  `examples/pubsub/room.ts:73-76` that a cold channel cannot hold stale rows forever. The room evicts
  on the next publish to that channel only (`PubSubRuns.OnlyPublishesEvict`), so a channel that goes
  silent keeps and replays its rows past their age for good (`SilentChannelStaysStale`). At a later
  time the ring is what both windows say exactly while its first row has not outlived its age
  (`WindowHoldsIff`).
- `spikes/adr-0046-edge-kdf/worker.js:35` calls the semaphore concurrency-bounded and FIFO. Both fail
  with open arrivals: a newcomer may enter while a woken waiter has not resumed
  (`Semaphore.NewcomerCrowds`), and the excess has no limit (`BoundIsTight`). A run keeps the bound
  exactly when nobody is let in while those running and woken fill the semaphore
  (`BoundedIffNeverCrowds`), and the order is FIFO exactly when nobody overtakes
  (`FifoIffNoOvertake`). Arrivals as in `runDerives` are safe (`ClosedArrivalsAreSafe`).
- `loom/src/manifest.js:6-9` calls invalid output structurally impossible. The schema does not state
  which children a component allows, so it accepts a child that its parent does not name
  (`LoomManifest.AcceptedButDisallowed`). With props of the six named types nothing else is wrong with
  an accepted tree (`AcceptedTreesOnlyDisallow`); it is valid exactly when every component stands where
  it is allowed (`AcceptedTreeIsValidIff`), and a registry rules out every invalid tree exactly when
  every component that can occur is allowed below every one that takes children
  (`AcceptedAlwaysValidIff`).
- Stripping twice is stripping once exactly when, comments aside, no two commas with only whitespace
  between them stand before a closer (`JsoncShape.IdempotentIff`; `[1,,]` shows the need).

## Model

| member | source | states |
|---|---|---|
| Jsonc.Strip | benchmarks/apps/lesto/alchemy.run.ts:41-88 | for every text the one-pass loop ends and its output is comment removal followed by trailing-comma removal, both string-aware; the rows of `JsoncText` say in literal characters what that is, for every way a text can go on |
| Jsonc.Round | benchmarks/apps/lesto/alchemy.run.ts:46-86 | one round advances `i`, in spite of `i -= 1`, and keeps the output on course for the two-pass result |
| Jsonc.SkipLine | benchmarks/apps/lesto/alchemy.run.ts:60-64 | a line comment is skipped up to its newline, which stays |
| Jsonc.SkipBlock | benchmarks/apps/lesto/alchemy.run.ts:65-69 | a block comment is skipped past its end, or to the end of the text when it is not closed |
| Jsonc.Take | benchmarks/apps/lesto/alchemy.run.ts:47-59 | any other character goes to the output and the rest of the text still completes the result |
| Jsonc.Push | benchmarks/apps/lesto/alchemy.run.ts:70-85 | comma, closer, whitespace and token branches keep the invariant: a live `pendingComma` indexes a `,` in `out` with whitespace only behind it |
| Jsonc.Settle | benchmarks/apps/lesto/alchemy.run.ts:45-79 | a pending comma is blanked exactly when the next significant character is a closer; blanking it then is what the second pass would do |
| Jsonc.ResolvePending | benchmarks/apps/lesto/alchemy.run.ts:74-81 | whitespace between a comma and what follows neither decides about the comma nor changes |
| Jsonc.RemoveCommentsSuffix | benchmarks/apps/lesto/alchemy.run.ts:60-69 | the scan by index equals comment removal on the remaining text |
| JsoncText.LiteralStays | benchmarks/apps/lesto/alchemy.run.ts:48-59 | a string literal, escapes and all, stays as it is whatever it holds, and stripping goes on behind it |
| JsoncText.UnclosedLiteralStays | benchmarks/apps/lesto/alchemy.run.ts:48-54 | a literal that is never closed stays to the end of the text |
| JsoncText.GapStripped | benchmarks/apps/lesto/alchemy.run.ts:60-81 | space, tab, newline and return stay, a line comment leaves its newline, a block comment nothing |
| JsoncText.EndStripped | benchmarks/apps/lesto/alchemy.run.ts:60-69 | a comment cut short by the end of the text leaves nothing |
| JsoncText.CharStays | benchmarks/apps/lesto/alchemy.run.ts:82-85 | any other character but a comma stays |
| JsoncText.TrailingCommaGoes | benchmarks/apps/lesto/alchemy.run.ts:70-79 | a comma goes in front of `}` and of `]`, with any whitespace and comments between, which fare as anywhere else |
| JsoncText.CommaStays | benchmarks/apps/lesto/alchemy.run.ts:80-84 | in front of any other significant character it stays |
| JsoncText.LastCommaStays | benchmarks/apps/lesto/alchemy.run.ts:70-81 | and so does a comma with nothing significant behind it |
| JsoncShape.UnchangedIffPlain | benchmarks/apps/lesto/alchemy.run.ts:29-40 | a text comes out unchanged if and only if it has no comment and no trailing comma |
| JsoncShape.NoCommentSurvives | benchmarks/apps/lesto/alchemy.run.ts:60-69 | no comment opener is left outside strings, and none forms across a deletion |
| JsoncShape.IdempotentIff | benchmarks/apps/lesto/alchemy.run.ts:70-79 | stripping twice equals stripping once if and only if no comma in front of a trailing comma, whitespace and comments aside |
| JsoncShape.TrailingAfterDrop | benchmarks/apps/lesto/alchemy.run.ts:70-79 | dropping trailing commas makes a new one exactly where two stood in a row before a closer |
| JsoncShape.DoubleCommaIsNotIdempotent | benchmarks/apps/lesto/alchemy.run.ts:73-79 | `[1,,]` strips to `[1,]`, and that to `[1]` |
| JsoncShape.SignificantSurvives | benchmarks/apps/lesto/alchemy.run.ts:32-35 | the tokens of the output are those of the input without its trailing commas: every string literal, verbatim, every other comma and every other token, in the same order |
| JsoncShape.StrippedIsSubsequence | benchmarks/apps/lesto/alchemy.run.ts:46-86 | stripping only deletes |
| PubSubRoom.PubSubRoom.constructor | examples/pubsub/room.ts:100-118 | waking the object creates the ring if there is none and changes no durable content |
| PubSubRoom.PubSubRoom.Subscribe | examples/pubsub/room.ts:134-210 | the four refusals in their order, each without an effect; else the socket is registered with its tag and its attachment and gets every retained row above `since` in order |
| PubSubRoom.PubSubRoom.Publish | examples/pubsub/room.ts:212-280 | a malformed body is refused without an effect; else counter, ring, sockets and answer are those of the specified publish |
| PubSubRoom.PubSubRoom.WebSocketClose | examples/pubsub/room.ts:287-295 | exactly the closed socket leaves the registry |
| PubSubRoom.Fanout | packages/pubsub/src/fanout.ts:145-180 | every target is written to once or reported as failed, never both; one that is over the bound or throws does not stop the others |
| PubSubRoom.Retain | examples/pubsub/room.ts:232-250 | insert and the two deletes leave exactly the rows of other channels and the rows in both windows |
| PubSubRoom.Reap | examples/pubsub/room.ts:269-277 | closing the failed sockets one by one removes exactly those |
| PubSubRoom.Broadcast | examples/pubsub/room.ts:252-277 | only sockets of the frame's channel are written to, delivered counts those that took the frame, the others are closed |
| PubSubRoom.PubSubRoom.Deliver | examples/pubsub/room.ts:228-277 | ring, socket registry and written frames are those of the specified publish; the answer counts the reached sockets |
| PubSubRoom.PublishedRegistered | examples/pubsub/room.ts:257-277 | a publish keeps the socket registry well formed |
| PubSubDelivery.PublishReaches | packages/pubsub/src/fanout.ts:156-177 | an open socket of the channel that does not throw and has at most 1048576 bytes unsent, or does not say, gets the message with the next number and stays open; any other of the channel gets nothing and is closed; no other socket changes |
| PubSubDelivery.PublishCounts | packages/pubsub/src/fanout.ts:150-179 | the answer is the number of sockets that got it |
| PubSubDelivery.PublishStores | examples/pubsub/room.ts:224-250 | the counter goes up by one; of its channel the ring keeps, old rows and new, those above `seq - 256` and not older than 300000 ms, of other channels all |
| PubSubDelivery.SubscriberStartsWithReplay | examples/pubsub/room.ts:167-205 | a new socket is open under its channel, has been sent the replay and, without `since`, nothing, and no other socket changes |
| PubSubDelivery.ClosedLeaves | examples/pubsub/room.ts:287-295 | closing takes exactly that socket out of the registry |
| PubSubDelivery.SubscribeIsRefusedIff | examples/pubsub/room.ts:134-165 | 400 unless the channel has 1 to 256 units and `since`, if given, is all digits; else 426 without an upgrade; else accepted |
| PubSubDelivery.BodyIsPublishedIff | packages/pubsub/src/fanout.ts:79-96 | a body is published if and only if it is an object with a non-empty channel text and a message |
| Utf16.PlainLength | examples/pubsub/room.ts:137-147 | a text of characters below 2^16 has as many units as characters |
| Utf16.PairGivesCharacter | examples/pubsub/room.ts:145-147 | any other character counts as two, a surrogate pair that gives it back |
| Digits.ParsesIff | examples/pubsub/room.ts:152-156 | `?since` is read if and only if it is a non-empty run of digits |
| Digits.ParseDecimal | examples/pubsub/room.ts:152-156 | a printed sequence number is read back as itself |
| Digits.ParseAppend | examples/pubsub/room.ts:156-156 | one more digit makes ten times the number plus the digit |
| PubSubRuns.RingIsWindow | examples/pubsub/room.ts:220-250 | over every run, with any clock and any mix of channels: the counter is the length of the channel's log and the ring holds exactly the log entries inside both windows, in order |
| PubSubRuns.EvictKeptRows | packages/pubsub/src/replay.ts:47-66 | one more publish evicts exactly the entries the longer log no longer keeps |
| PubSubRuns.MonotoneWindow | examples/pubsub/room.ts:232-250 | with a clock that never runs backwards the ring is, after a publish, `seq > cur - 256` and `at >= now - 300000`, and is a suffix of the log |
| PubSubDelivery.RingInNumbers | examples/pubsub/room.ts:78-78 | the same in numbers: exactly the messages among the newest 256 and at most 300000 ms older than the newest |
| PubSubRuns.OnlyPublishesEvict | examples/pubsub/room.ts:240-250 | no event but a publish on a channel changes its rows |
| PubSubRuns.SilenceKeepsRows | examples/pubsub/room.ts:240-250 | the same for any run without publishes on the channel |
| PubSubRuns.SilentChannelStaysStale | examples/pubsub/room.ts:73-76 | one publish, then anything without another on that channel: at every time past its age the row is still in the ring and is replayed |
| PubSubRuns.WindowHoldsIff | packages/pubsub/src/replay.ts:12-14 | from the newest publish on, with a clock that never runs backwards: the ring is exactly both windows of that moment if and only if its first row has not outlived its age |
| PubSubRuns.PublishNeverCollides | examples/pubsub/room.ts:109-117 | in no run does a publish meet an existing `(channel, seq)` key, so none is answered with 500 |
| PubSubRuns.FreshKey | examples/pubsub/room.ts:220-239 | the next number is not in the ring |
| PubSubRuns.EvictOtherRows | examples/pubsub/room.ts:241-250 | eviction for one channel leaves every other channel's rows |
| PubSubRuns.ChannelsAreIsolated | examples/pubsub/room.ts:109-117 | an event of one channel changes no counter, row or written frame of another, nor which sockets the other reaches |
| PubSubRuns.FramesAreFaithful | examples/pubsub/room.ts:183-205 | every frame any socket receives in any run, replayed or live, is on the socket's channel and carries the log entry of its number |
| PubSubRuns.AlwaysRegistered | examples/pubsub/room.ts:169-174 | over every run the registry lists accepted sockets only, none twice |
| PubSubRuns.MissedIsKept | examples/pubsub/room.ts:191-198 | a resume replays exactly the kept entries above `since` |
| PubSubDelivery.ReplayInPlainTerms | examples/pubsub/room.ts:191-205 | in every run a resume is sent exactly the rows of its channel above `since`, each once, by ascending number |
| PubSubRuns.ReplayReachesNewest | examples/pubsub/room.ts:22-34 | whoever is behind gets a non-empty replay that ends at the newest entry and starts at `since + 1` exactly when that entry is kept |
| PubSubRuns.GapTestIsExactIff | examples/pubsub/room.ts:31-33 | `first seq > since + 1` means loss, for every `since`, if and only if the retained entries are a suffix of the log |
| PubSubRuns.BackwardClockHidesLoss | examples/pubsub/room.ts:31-33 | three publishes with a clock set back lose a message that the test does not show |
| PubSubClient.AcceptedIsSegment | examples/pubsub/room.ts:22-34 | over every run of publishes, other clients, drops, reconnects, slow-consumer closes and hibernation in which the window stays a suffix of the log: a client that ignores `seq <= lastSeen` accepts unaltered log entries in strictly increasing order, gap-free except where a resume showed it a gap |
| PubSubClient.SegmentsIffAlwaysSuffix | examples/pubsub/room.ts:22-34 | for each log: clients accept such a segment in all runs that have it if and only if the window was a suffix after every publish |
| PubSubClient.MonotoneIsSuffix | examples/pubsub/room.ts:232-250 | a clock that never runs backwards keeps it one |
| PubSubClient.StartsAt | examples/pubsub/room.ts:183-205 | for each log and each point of it some run has a client that starts with `since=0` at that point and accepts exactly the window |
| PubSubClient.ResumeLossyIff | examples/pubsub/room.ts:28-33 | a resume shows a gap if and only if the client is behind and its next message has left the window |
| PubSubClient.CaughtUpMissedNothing | examples/pubsub/room.ts:263-266 | a client never shown a gap that has read an open connection to its end holds the log from its first message to the newest, each once |
| PubSubClient.ClientAlwaysOk | examples/pubsub/room.ts:183-205 | the invariant of room and client over every run: the next unread frame of a connection is at most one ahead, or opens an explained gap |
| PubSubClient.AlwaysInOrder | examples/pubsub/room.ts:171-205 | every socket's frames are consecutive, and an open socket that got any has got the newest |
| PubSubClient.LinkAfter | examples/pubsub/room.ts:252-277 | an event adds to a socket nothing or the frame with the next number; a socket still open after a publish on its channel has been sent it |
| PubSubClient.ReplayFacts | examples/pubsub/room.ts:183-205 | with a suffix window a replay is consecutive, ends at the newest entry, and is empty exactly for who is not behind or gave no `since` |
| LoomProps.ValidateProps | loom/src/schema.js:50-62 | the loop yields the accepted props by name and the errors in the order of the specs |
| LoomPlain.RightTypeStays | loom/src/schema.js:19-44 | a text, a number, a boolean, a listed value, an object, an array: a value of the declared type is accepted unchanged |
| LoomPlain.WrongTypeRejected | loom/src/schema.js:22-41 | a value that is not listed, no object, no array or does not read as a number is rejected, each with its own error |
| LoomPlain.Coerced | loom/src/schema.js:20-28 | texts are the text of the value, numbers its number, and booleans false exactly for false, 0, NaN and the empty text |
| LoomPlain.AbsentProp | loom/src/schema.js:13-17 | an absent prop is an error if required, else its default, else undefined |
| LoomPlain.ErrorsInOrder | loom/src/schema.js:53-61 | the errors of a list of specs are those of its parts, in order |
| LoomProps.KeptPropsAt | loom/src/schema.js:53-60 | a kept prop is the coerced value or default of its own spec, a rejected or undefined one is absent |
| LoomProps.KeptPropsDefined | loom/src/schema.js:57-59 | no kept prop is undefined |
| LoomProps.UnknownPropsDropped | loom/src/schema.js:47-49 | a prop without a spec is dropped |
| LoomProps.PropErrorsMembers | loom/src/schema.js:54-57 | the errors are exactly those of the single specs |
| LoomProps.NoPropErrorsIff | loom/src/schema.js:53-61 | no error if and only if every spec accepts its value |
| LoomProps.RecheckIsIdentityIff | loom/src/schema.js:12-45 | accepted values pass again unchanged, for every value, if and only if the default passes its own check unchanged |
| LoomProps.Recheck | loom/src/schema.js:12-45 | checking the outcome again: coerced values stay, a rejected optional value passes, a rejected required one is now missing |
| LoomRegistry.ComponentRegistry.constructor | loom/src/registry.js:6-6 | the registry starts empty and well formed |
| LoomRegistry.ComponentRegistry.DefineComponent | loom/src/registry.js:14-25 | refused without name or render function and then without an effect; a known name keeps its place and gets the new definition; the registry stays well formed |
| LoomRegistry.ComponentRegistry.ResetRegistry | loom/src/registry.js:43-46 | the registry is empty again |
| LoomRegistry.WithComponentValid | loom/src/registry.js:17-23 | redefinition keeps names unique and in step with the definitions |
| LoomValidate.ValidateTree | loom/src/validate.js:10-14 | the answer is the specified errors and repaired tree; valid if and only if there is no error |
| LoomValidate.TreeWalk.Walk | loom/src/validate.js:16-35 | the walk returns the repaired node and appends exactly the node's errors, in order, to the shared list |
| LoomValidate.TreeWalk.WalkComponent | loom/src/validate.js:37-52 | the same for a known, allowed component: prop errors first, nothing below a fatal one |
| LoomValidate.TreeWalk.WalkAll | loom/src/validate.js:47-51 | children are walked in order, null results are filtered out |
| LoomValidate.TreeWalk.ReportProps | loom/src/validate.js:38-40 | one error for each prop error, in order |
| LoomValidate.CleanAnywhere | loom/src/validate.js:16-53 | whether a node has errors does not depend on its address |
| LoomPlain.LeafStays | loom/src/validate.js:17-18 | text and numbers stay, null and undefined become null, all without error |
| LoomPlain.FlawedNodeIsDropped | loom/src/validate.js:20-35 | a node without a truthy type, of no registered component, or not allowed by its parent is dropped with exactly its one error |
| LoomPlain.MissingPropDropsNode | loom/src/validate.js:37-42 | a component without a required prop is dropped, and the prop is among the errors |
| LoomPlain.StandingNodeIsKept | loom/src/validate.js:44-52 | without a fatal prop error it is kept: its type, its checked props if any, its repaired children if it takes any and they are an array, and nothing else |
| LoomPlain.AcceptedTreeIsCarried | loom/src/validate.js:16-53 | repairing a valid tree that the schema accepts keeps every text, component, given prop with its value and child in its place, and adds only defaults |
| LoomRepair.SavedTreeIsValidIff | loom/src/generate.js:22-28 | the saved tree revalidates without error if and only if the repair kept no node whose required prop had a bad value |
| LoomRepair.OnePassNode | loom/src/validate.js:41-51 | for every node below any parent: its repaired form has no error if and only if no node was kept without a required prop |
| LoomRepair.NothingStarves | loom/src/validate.js:41-42 | no node starves when no required prop is a number, enum, object or array |
| LoomRepair.OnePassSuffices | loom/src/validate.js:41-42 | then one repair makes every tree valid |
| LoomRepair.OnePassIsNotEnough | loom/src/generate.js:1-4 | a required number with value `"abc"`: the repaired tree fails with `is required`, and the next pass drops its node |
| LoomRepair.TwoPassesSuffice | loom/src/generate.js:1-4 | for every tree and registry with valid defaults the twice repaired tree has no error |
| LoomRepair.RepairedIsNotFlawed | loom/src/validate.js:37-51 | in a repaired tree every node is either dropped by the next pass or has no prop error |
| LoomRepair.PropsAgain | loom/src/validate.js:37-42 | rechecking kept props yields only missing required ones, and some exactly when a required prop had been rejected |
| LoomRepair.RepairComesToRest | loom/src/validate.js:16-53 | for every tree and registry with valid defaults: the third pass changes nothing if and only if the once repaired tree leaves no prop to a default that needs coercion, so never with stable defaults; the fourth never changes anything |
| LoomRepair.RestsIff | loom/src/validate.js:16-53 | for every node whose kept parts have no prop error: one more pass after the repair changes nothing if and only if no kept node leans on such a default; a repaired node never does |
| LoomRepair.PropsRestIff | loom/src/schema.js:50-62 | the same for the props of one component |
| LoomRepair.StableNeverLeans | loom/src/schema.js:13-17 | with stable defaults no tree leans on a default that needs coercion |
| LoomRepair.ThirdPassCanChange | loom/src/schema.js:15-25 | default `"5"` of a number: the second pass inserts it, the third turns it into 5 |
| LoomRepair.ValidSettlesIff | loom/src/validate.js:37-52 | a valid tree is at rest after one pass if and only if it leans on no default that needs coercion |
| LoomRender.CallsForTheRepairedTree | loom/src/render.jsx:43-100 | the renderer makes exactly the calls for the repaired tree, with the same props and, empty places aside, the same children, whatever throws |
| LoomRender.RepairIsInvisibleIff | loom/src/render.jsx:103-108 | rendering a valid tree and rendering its repaired form call the same components with the same props and, empty places aside, the same children if and only if the tree leans on no default that needs coercion |
| LoomRender.RenderingIsUnchangedIff | loom/src/render.jsx:43-108 | the two renderings are the same, the places of the children included, if and only if moreover no kept node has a null or undefined child |
| LoomRender.NoGapsIff | loom/src/render.jsx:43-53 | in the rendering of a valid tree the empty places are the null and undefined children of kept nodes |
| LoomRender.AsTreeInjective | loom/src/render.jsx:89-94 | without empty places a rendering is determined by its calls |
| LoomRender.LeaningShows | loom/src/render.jsx:78-93 | default `"5"` of a number: the valid tree is called with the text, its repaired form with 5 |
| LoomRender.EmptyPlaceShows | loom/src/render.jsx:43-46 | children null and `"x"`: two places in the rendering of the valid tree, one in that of its repaired form |
| LoomRender.RendererReportsValidatorErrors | loom/src/render.jsx:50-108 | the reports, throws aside, are the validator's errors in the same order without `malformed` and with prop errors grouped by node; `unexpected-child` is never reported |
| LoomRender.ThrowsAreReported | loom/src/render.jsx:91-97 | every call that throws is reported once, in the order of the calls, and no other |
| LoomRender.ReportsMatch | loom/src/render.jsx:50-100 | the same for every node whose parent takes children |
| LoomRender.GroupedConcat | loom/src/render.jsx:78-82 | grouping respects concatenation unless one node's prop errors straddle it |
| LoomManifest.ComponentNodeSchema | loom/src/schema.js:82-119 | the loop builds the specified schema of a component |
| LoomManifest.TreeJsonSchema | loom/src/manifest.js:13-34 | the loop builds one definition a component and the recursive `node`, and refers to it |
| LoomManifest.NodeAccepted | loom/src/manifest.js:11-25 | the compiled schema accepts a value if and only if it is text or names a component and has only conforming props and children |
| LoomManifest.OneOfAccepted | loom/src/manifest.js:24-25 | the `oneOf` over all components and text fits exactly one variant, or none |
| LoomManifest.ComponentAccepted | loom/src/schema.js:82-119 | the schema of a component accepts exactly its own conforming nodes |
| LoomManifest.PropsAccepted | loom/src/schema.js:88-102 | the props schema accepts exactly the objects with all required props, no unknown ones and conforming values |
| LoomManifest.PropAccepted | loom/src/schema.js:65-77 | a prop schema accepts exactly the values of the declared type |
| LoomManifest.AcceptedTreesOnlyDisallow | loom/src/manifest.js:6-9 | with props of the six named types a tree the schema accepts has no error but `disallowed-child` |
| LoomManifest.AcceptedTreeIsValidIff | loom/src/manifest.js:6-9 | an accepted tree is valid if and only if every component in it stands where its parent allows it |
| LoomManifest.AcceptedAlwaysValidIff | loom/src/manifest.js:6-9 | every accepted tree is valid if and only if the registry allows every component that can occur below every one that can occur and takes children |
| LoomManifest.AcceptedTreesAreValid | loom/src/manifest.js:6-9 | so it is where every children policy is true, false or a list of all components |
| LoomManifest.PairIsDisallowed | loom/src/schema.js:104-109 | a component below one that does not allow it is accepted by the schema and reported by the validator |
| LoomManifest.AcceptedButDisallowed | loom/src/schema.js:104-109 | A allowing only A, with a child B: accepted, and reported as a disallowed child |
| LoomManifest.NodeRefersToItself | loom/src/manifest.js:18-25 | a component named `node` is overwritten by a definition that refers to itself on the same instance |
| Mulberry.Mulberry32.constructor | benchmarks/driver/parse.ts:422-422 | the state starts at the seed as an unsigned 32-bit word |
| Mulberry.Mulberry32.Next | benchmarks/driver/parse.ts:424-430 | a call advances the state by one step and answers with the mix of the new state |
| Mulberry.OutputIsMix | benchmarks/driver/parse.ts:426-429 | the draw is the mix of the state, read as a number |
| Mulberry.FirstDraws | benchmarks/driver/parse.ts:421-431 | the first three draws of the seeds 0, 1 and 42, bit for bit |
| Mulberry.StateIsLinear | benchmarks/driver/parse.ts:425-425 | after n calls the state is `seed + n * 0x6d2b79f5` modulo 2^32 |
| Mulberry.StateRepeatsIff | benchmarks/driver/parse.ts:425-425 | two calls see the same state if and only if their numbers agree modulo 2^32: the period is exactly 2^32 |
| Mulberry.OddIncrement | benchmarks/driver/parse.ts:425-425 | k increments come back to the start if and only if 2^32 divides k |
| Mulberry.ScaledIsFair | benchmarks/driver/parse.ts:440-440 | the scaled draw is at most i; each index is hit by one interval of raw values of length `2^32 / (i + 1)`, rounded down or up |
| Mulberry.ScaledFrom | benchmarks/driver/parse.ts:440-440 | a draw is scaled to j or more exactly from the threshold on |
| Shuffle.Shuffle | benchmarks/driver/parse.ts:437-445 | the loop returns a new array, the Fisher-Yates arrangement for the generator's choices, and changes nothing but the generator |
| Shuffle.DrawnAt | benchmarks/driver/parse.ts:439-440 | of n items, index i is exchanged by call number n - i of the generator, scaled to i |
| Shuffle.Copy | benchmarks/driver/parse.ts:438-438 | the copy is new and has the same items |
| Shuffle.ShuffleIsPermutation | benchmarks/driver/parse.ts:433-445 | for all choices the result is a permutation of the items |
| Shuffle.ChoicesReach | benchmarks/driver/parse.ts:437-445 | every permutation is reached by the choices read off from it |
| Shuffle.ShuffleInjective | benchmarks/driver/parse.ts:437-445 | for distinct items different choices give different orders |
| Shuffle.ShuffleIsBijection | benchmarks/driver/parse.ts:437-445 | for distinct items each permutation comes from exactly one choice vector |
| Samples.MedianSampleAgainstMedian | benchmarks/driver/parse.ts:284-316 | medianSample answers with one of the runs; its throughput is at most the median and is the median for an odd number of runs |
| Samples.MedianIsMiddle | benchmarks/driver/parse.ts:284-295 | of the ascending values the median is the middle one, or half the sum of the middle two |
| Samples.MedianRateOfPermutation | benchmarks/driver/parse.ts:307-316 | the reported throughput depends on the runs, not on their order |
| Samples.MedianRate | benchmarks/driver/parse.ts:312-315 | it is the lower-middle one of the sorted throughputs |
| Samples.SortedRates | benchmarks/driver/parse.ts:289-312 | sorting the runs and sorting their throughputs agree |
| Schedule.CellKeyInjective | benchmarks/driver/run.ts:339-341 | different cells have different keys, whatever the workload's name holds |
| Schedule.BuildUnits | benchmarks/driver/run.ts:397-405 | the three loops build the specified schedule |
| Schedule.UnitsCount | benchmarks/driver/run.ts:397-405 | each cell is scheduled `runs` times for each listing of its workload and rung |
| Schedule.BucketTrials | benchmarks/driver/run.ts:408-419 | every bucket holds exactly the samples of the trials with its key, in order |
| Schedule.CellSize | benchmarks/driver/run.ts:415-418 | a bucket collects the trials of its own unit and no other's |
| Schedule.ShuffledCellsKeepTheirTrials | benchmarks/driver/run.ts:397-429 | whatever the shuffle draws, every cell gets as many trials as the plain schedule gives it, and with `runs >= 1` no reduction meets an empty cell |
| Schedule.ReportedRateIgnoresOrder | benchmarks/driver/run.ts:421-429 | the same trials in another order report the same throughput for every cell |
| Saturation.SummarizeSaturation | benchmarks/driver/parse.ts:364-408 | it fails exactly on the empty ladder; else levels, headline and flag are as specified |
| Saturation.RungsInPlainTerms | benchmarks/driver/parse.ts:374-374 | the rungs of the summary are those of the ladder by ascending connections |
| Saturation.HeadlineInPlainTerms | benchmarks/driver/parse.ts:376-388 | of the rungs with `successRate >= threshold` the headline is the highest positive rate, with its rung and sample; zero with neither if there is none |
| Saturation.SaturatedInPlainTerms | benchmarks/driver/parse.ts:390-406 | saturated if and only if some rung has `successRate < threshold` or some lower rung is at least as fast as the top one |
| Saturation.NotSaturatedHeld | benchmarks/driver/parse.ts:395-395 | not saturated means every rung has `successRate >= threshold` |
| Saturation.SustainedPeak | benchmarks/driver/parse.ts:376-388 | the running maximum ends at the first rung with the highest positive rate among those that held |
| Saturation.Fastest | benchmarks/driver/parse.ts:390-394 | the reduction ends at the first of the fastest rungs |
| Saturation.SummaryIgnoresOrder | benchmarks/driver/parse.ts:364-408 | with distinct connection counts the summary does not depend on the order of the ladder |
| Saturation.HeadlineIsMaximum | benchmarks/driver/parse.ts:338-346 | for every ladder the headline is the maximum over the rungs that held, 0 if none is positive, and was reached at a rung of the ladder |
| Saturation.HeadlineAtLowestRung | benchmarks/driver/parse.ts:357-363 | a tie keeps the rung with fewer connections |
| Saturation.NotSaturatedIff | benchmarks/driver/parse.ts:347-354 | not saturated if and only if every rung held and the top rung strictly beats every lower one; its rate, if positive, is then the headline |
| Semaphore.Semaphore.constructor | spikes/adr-0046-edge-kdf/worker.js:36-42 | the object represents the initial state |
| Semaphore.Semaphore.Enter | spikes/adr-0046-edge-kdf/worker.js:44-47 | arrival: admitted at once below the bound, else queued |
| Semaphore.Semaphore.Continue | spikes/adr-0046-edge-kdf/worker.js:45-47 | resumption of a woken caller |
| Semaphore.Semaphore.Leave | spikes/adr-0046-edge-kdf/worker.js:50-54 | release: the head of the queue is woken, and the slot looks free until it resumes |
| Semaphore.InvAlways | spikes/adr-0046-edge-kdf/worker.js:36-56 | over every run: the bound with overtakes, fullness while somebody waits, nobody lost or in two places, the order of starts |
| Semaphore.BoundWithOvertakes | spikes/adr-0046-edge-kdf/worker.js:43-55 | running and woken callers are at most `max` plus the overtakes, and at least `max` while somebody waits |
| Semaphore.BoundedIffNeverCrowds | spikes/adr-0046-edge-kdf/worker.js:43-55 | a run keeps `running + woken <= max` throughout if and only if no arrival is admitted while those fill the semaphore |
| Semaphore.NewcomerCrowds | spikes/adr-0046-edge-kdf/worker.js:43-55 | one slot and three callers: two run at once, and not in the order of arrival |
| Semaphore.BoundIsTight | spikes/adr-0046-edge-kdf/worker.js:43-55 | for every n some run with n overtakes has `max + n` callers running |
| Semaphore.FifoIffNoOvertake | spikes/adr-0046-edge-kdf/worker.js:35-55 | callers start in arrival order if and only if nobody overtook |
| Semaphore.ClosedArrivalsAreSafe | spikes/adr-0046-edge-kdf/worker.js:131-144 | when all arrive before the first release: at most `max`, exactly `max` while somebody waits, starts in arrival order |
| Semaphore.ClosedNeverOvertakes | spikes/adr-0046-edge-kdf/worker.js:131-144 | such arrivals never overtake |
| Semaphore.EveryScheduleFinishes | spikes/adr-0046-edge-kdf/worker.js:131-144 | from every reachable state with `max >= 1`: every schedule without arrivals has at most as many steps as the measure says, and where it cannot go on everybody who arrived has finished |
| Semaphore.EverybodyFinishes | spikes/adr-0046-edge-kdf/worker.js:131-144 | and there is a schedule that gets there |
| Semaphore.NobodyIsStuck | spikes/adr-0046-edge-kdf/worker.js:50-54 | where no step is possible all callers are done |
| Semaphore.StepsCountDown | spikes/adr-0046-edge-kdf/worker.js:43-55 | every step other than an arrival lowers the measure |
| Semaphore.NoSlotsNoStart | spikes/adr-0046-edge-kdf/worker.js:44-46 | with `max` 0 nobody ever starts |
| SiteNav.BuildNav | site/src/content.ts:128-140 | the grouping loop and the sort yield the specified sidebar |
| SiteNav.FirstSeenFacts | site/src/content.ts:129-137 | every section occurs once, and only sections that some document has |
| SiteNav.GroupingIsSorting | site/src/content.ts:122-140 | the sidebar read from top to bottom is the stable sort of the documents by section rank and title: none lost, none repeated |
| SiteNav.SectionsAreRanked | site/src/content.ts:61-61 | the six named sections rank in their order, every other title behind them |
| SiteNav.SectionsAreOrdered | site/src/content.ts:137-139 | sections stand by rank, those of one rank as the locale sorts them, none twice |
| SiteNav.ItemIsDocument | site/src/content.ts:131-135 | each item has the route and title of its document, and its short label if it has one, else the title |
| SiteNav.SidebarRoutesUnique | site/src/content.ts:128-140 | documents with unique routes give a sidebar with unique routes |
| SiteNav.PrevAndNextAreInverse | site/src/content.ts:148-160 | with unique routes prev and next undo each other and are undefined exactly at the two ends |
| SiteNav.NeighboursAre | site/src/content.ts:156-159 | the neighbours of the k-th item are the items before and behind it |
| SiteNav.UnlistedHasNoNeighbours | site/src/content.ts:157-158 | a page that is not in the sidebar has neither |
| StoreVersions.CompareVersionDesc | packages/e2e/link-workspace.ts:164-172 | negative if and only if the first version is higher by major, minor, patch, positive if and only if the second is |
| StoreVersions.MajorPredicate | packages/e2e/link-workspace.ts:182-225 | a range constrains, to the union of its alternatives, if and only if it has alternatives and all are readable |
| StoreVersions.VersionPinsItsMajor | packages/e2e/link-workspace.ts:174-176 | any of `^`, `~` or nothing, with or without `v`, then a number: exactly that major, whatever follows without white space |
| StoreVersions.BoundIsItsMajor | packages/e2e/link-workspace.ts:174-177 | `>` and `>=` before a number: that major or a higher one |
| StoreVersions.UnionOfRanges | packages/e2e/link-workspace.ts:177-180 | a union of two ranges reads as its two sides, constrains only if both are readable, and accepts exactly what either accepts |
| StoreVersions.EntriesOrdered | packages/e2e/link-workspace.ts:153-155 | the order of store entries is total, and ties only an entry with itself |
| StoreVersions.PickIgnoresOrder | packages/e2e/link-workspace.ts:91-103 | the pick is the same for every permutation of the matches |
| StoreVersions.PickIsHighest | packages/e2e/link-workspace.ts:147-155 | the pick is an accepted entry, no accepted entry has a higher version, and among equal versions it has the least name |
| StoreVersions.PickRefusesIff | packages/e2e/link-workspace.ts:120-145 | it refuses if and only if no entry has an accepted major, or the range pins none and there is not exactly one entry |
| StorePicks.ComponentsAreNumbers | packages/e2e/link-workspace.ts:111-112 | of an entry `<prefix>M.m.p`, with or without `+hash`, the version is read as M, m and p, and its major as M |
| StorePicks.MajorIsFirst | packages/e2e/link-workspace.ts:158-161 | the major is the number in front of the first dot |
| StorePicks.NumberIsParsed | packages/e2e/link-workspace.ts:159-166 | a component is read up to its last digit |
| StorePicks.SignedNumber | packages/e2e/link-workspace.ts:159-166 | a sign may stand in front |
| StorePicks.NoNumber | packages/e2e/link-workspace.ts:159-166 | without a digit it counts as 0 |
| StorePicks.PaddingSkipped | packages/e2e/link-workspace.ts:159-166 | blanks in front are skipped |
| StorePicks.VersionRange | packages/e2e/link-workspace.ts:189-219 | the ranges `n`, `^n` and `~n` want exactly major n |
| StorePicks.BoundRange | packages/e2e/link-workspace.ts:189-213 | the ranges `>=n` and `>n` want major n or above |
| StorePicks.ExactPick | packages/e2e/link-workspace.ts:105-156 | where exactly major n is wanted the pick has major n and the highest minor and patch of those; it refuses if and only if no entry has major n |
| StorePicks.BoundPick | packages/e2e/link-workspace.ts:105-156 | where major n or above is wanted it is the highest version of those; it refuses if and only if there is none |
| StorePicks.OpenPick | packages/e2e/link-workspace.ts:117-131 | a range that pins nothing takes a lone entry and refuses several |
| StorePicks.PaddedRange | packages/e2e/link-workspace.ts:189-192 | blanks around an alternative do not count |
| StorePicks.BlankRange | packages/e2e/link-workspace.ts:187-193 | an absent or blank range constrains nothing |
| StorePicks.UnreadableAlternatives | packages/e2e/link-workspace.ts:197-221 | wildcards, `latest`, protocols and links, anything with a blank inside, and anything that does not start like a version pin nothing |
| Utf16.TextTotal | packages/e2e/link-workspace.ts:154-154 | the order of names by 16-bit units is total and ties only equal names |
| Utf16.FirstDifferenceDecides | packages/e2e/link-workspace.ts:154-154 | the first different character decides which name is less, and a name is less than its continuations |
| Utf16.EncodeInjective | packages/e2e/link-workspace.ts:154-154 | different names have different units |
| StableSort.SortFacts | site/src/content.ts:137-139 | `toSorted` by a total preorder: ordered, a permutation, ties in their old order |
| StableSort.StableSortUnique | site/src/content.ts:137-139 | that specification determines the result |
| StableSort.SortOfPermutation | benchmarks/driver/parse.ts:374-374 | without ties between distinct elements the order of the input is immaterial |

## Left out

- PubSubClient.AcceptedIsSegment: a client without a `lastSeen` opens one connection only, since it has nothing to ignore duplicates by; or it starts from 0.
- PubSubRoom.PubSubRoom.Publish: one indivisible event, as the input gates of a Durable Object make it; an event between the read and the write of the counter is not modelled. Encoding a message to JSON and back is the identity; `Date.now()` and the state of each socket's buffer are parameters.
- PubSubRoom.PubSubRoom.Subscribe: `?since` above 2^53 is exact here. Request routing, the 404 answer, tokens and the delivery of bytes over the wire are not modelled.
- LoomProps.ValidateProps: `String(v)`, `Number(v)`, reads from values that are no plain objects, and which error texts contain `is required` are uninterpreted; only that missing required props are fatal and that coercion leaves a value of the right type alone is assumed. Enum membership compares by structure, where the language compares objects by identity. Prototype chains, `__proto__` as a key and `String()` that throws are not modelled.
- LoomRender.CallsForTheRepairedTree: production mode, and the calls that are made, not what is on screen where one throws; diagnostics, keys, React elements, the error boundary and hydration are not modelled, and the error list is the concatenation of what the calls push.
- LoomManifest.NodeAccepted: titles and descriptions are left out, a component named `node` is excluded because its definition would be overwritten by one that refers to itself without end (`NodeRefersToItself`), and component names that need escaping in a `$ref` fragment are taken as they are.
- Mulberry.ScaledIsFair: how well the mix spreads over the 32-bit words is not modelled, nor is `hashString` with the XOR that derives a seed; a draw is kept as its numerator over 2^32, so products are exact where a double would round beyond 2^21 items.
- Samples.MedianSampleAgainstMedian: rates are reals, so NaN and rounding are not modelled.
- Saturation.SummarizeSaturation: the names of framework and workload and the stability of a rung are carried along unread in the source and are not modelled.
- Semaphore.InvAlways: promise reactions are FIFO as the language defines them; the result or exception of the guarded function and all timing are not modelled.
- SiteNav.GroupingIsSorting: `localeCompare` is a parameter, any total preorder that tells the occurring sections apart.
- StoreVersions.MajorPredicate: majors above 2^53 are exact here; the texts of the errors are not modelled.
- Jsonc.Strip: stops where the source calls `JSON.parse`; texts are sequences of characters, of which only ASCII ones are compared.
- Mean, deviation and stability of repeated runs, load-generator output, rendering of reports, process handling, deploy code, the wasm and key-derivation calls: input and output, or easy arithmetic.
- `componentCatalog`, `manifestMarkdown`, the content pipeline in front of `buildNav`, and the linking of packages into the file system: they map or print what is modelled here.
