# The guild map's pipeline, modelled and proved

Player data reaches the browser through a pipeline: the hub's snapshot is diffed and sent to
a batcher, merged and written to a table, polled by the page, and replicated there. Location
history takes a second way: samples become stays, stays become thinned trails that are read
in pages and extended every minute, trails become compact rows, and the page turns those into
runs, jumps and positions. This project models the logic of both ways and proves what they
promise, for all inputs, all runs and all interleavings.

| modules | source | main results |
|---|---|---|
| `TrailPoints`, `Stays`, `Weighing`, `Thinning`, `Cutting`, `TrailJoining` | `server/src/hub/trails.rs` | stays are the maximal runs of the samples; paging is invisible; the work stack computes a recursion whose weights keep the tolerance of every level, keep nothing without need, and keep every end and split where they should; the trail that is sent after adding recent samples to a thinned older part is what thinning everything at once gives |
| `TtlCache`, `SingleFlight` | `server/src/hub/cache.rs` | over every interleaving at most one fetch of a key is outstanding; exactly when a lock is forgotten; what is served is true and as old as it says; what is stored is served until it is too old |
| `RateLimit` | `server/src/hub/client.rs` | no window of a minute has more grants than its last one was allowed; a block is never cut short; refusals are for cause and tell how long |
| `Convert`, `UpdateBatcher`, `HubSync` | `server/src/hub/convert.rs`, `server/src/update_batcher.rs`, `server/src/hub/sync.rs` | sending only what changed, merged in batches and written in chunks, leaves the table as a copy of everything at every poll would |
| `MemberPolls`, `Replica` | `server/src/db/members.rs`, `site/src/data/guild-data.js`, `site/src/data/member-data.js` | after every poll the page has what is stored, or asks for everything; exactly when a poll fails at that |
| `TrailWire`, `SiteTrail`, `Replay`, `LiveTrail` | `server/src/hub/trails.rs`, `site/src/canvas-map/trail-model.js` | rows that lost their trailing zeros are read back as they were; runs and jumps partition the trail, in the one way there is; the next change of a replay is the first there is, and exactly when it may skip to it; live sightings join the history in order, each exactly once if it is later |
| `Stacks`, `Clusters` | `site/src/canvas-map/event-markers.js` | nine cells are enough to find a stack; no two stacks and no two clusters that touch; no point lost |
| `GearStretches`, `GearTrips` | `site/src/data/gear-trips.js` | the trips of a gear history are the one division of its rows that fits the rule; counts and worn times add up |
| `DrawnTrail` | `server/src/hub/trails.rs`, `site/src/canvas-map/trail-model.js` | exactly which steps that thinning makes the page draws |
| `Pipeline` | `server/src/hub/sync.rs`, `server/src/update_batcher.rs`, `server/src/db/members.rs`, `site/src/data/guild-data.js` | from the hub to the page: after a poll the page shows what copying every section of every poll of the hub would have stored: what the last poll that says anything of a section says |
| `XpRows` | `server/src/hub/xp.rs` | one row a time, each with what every skill was worth then |

Where the source changes things step by step the model does: the loops, the work stack over
an array of weights, and the classes whose fields are updated. Each such method is proved
against a function of its input or of the old state, and what the source promises is proved
about that function.

## Where the code does less than it says

These promises of the source's comments do not hold as they stand. For each there is a
concrete case in which it fails, and the exact condition or the strongest statement that holds.

- Requests for a key share one upstream call (`server/src/hub/cache.rs:1-3`): they do while one is
  outstanding (`SingleFlight.OneFetchPerKey`), but the lock goes before the value is stored, so that
  a second fetch can begin in between, within the same time to live (`SingleFlight.TwoFetchesWithinOneTtl`).
  That can happen exactly when, as the first task looks after the lock, no other refers to it
  (`SingleFlight.AsksAgainWhenAlone`).
- Everyone new on the page gets their data, or everything is loaded (`site/src/data/guild-data.js:49-52`): not
  a member that comes with only some of its sections (`Replica.ShownAgainInPart`). After a poll all are in sync
  exactly when no new member lacks a section older than the page asked from (`Replica.PollSyncsUnlessInPart`),
  and everything is loaded exactly when nothing at all came of a new one (`Replica.PollReloads`).
- `nextChangeAfter` skips no movement (`site/src/canvas-map/trail-model.js:364-368`): not when a step the hub
  labelled as walked takes longer than the gap (`Replay.LabelledWalkIsSkipped`), and exactly then
  (`Replay.SkippingIsSafe`). Trails the server thinned have such steps only where there is a break on the
  way (`Replay.ThinnedTrailHasNoLongWalks`).
- Thinning never removes a point the page needs (`server/src/hub/trails.rs:167-172`): each step of a run of two
  tiles a tick, which a hub that gives no labels has as 51 points in 30 seconds, is drawn, but not the one step
  that thinning makes of them (`DrawnTrail.FastRunIsLost`). Such a step is drawn exactly when it leads to what the
  hub calls a move, or the stays are near enough for the time between them (`DrawnTrail.ThinnedStepIsDrawn`), which
  they are whenever no more than three of the steps left out took less than a second (`DrawnTrail.SlowWalkIsDrawn`).
- On a special world the main game's totals are kept while they are shared (`server/src/hub/convert.rs:59-61`):
  they are lost when the sync forgot the member in between (`HubSync.TotalsLost`), and stay exactly as long as
  something is remembered as sent (`HubSync.TotalsSurvive`).
- Each change of a gear trip comes less than twenty minutes after the one before it
  (`site/src/data/gear-trips.js:5-7`): an outfit put on soon after everything was taken off goes on with the
  trip that had ended (`GearStretches.TripGoesOnAfterGap`). The rule holds exactly when every row that belongs to a
  trip, and comes right after a skipped one, begins a trip (`GearStretches.ChangesAreCloseUnlessSkipped`).
- Each outfit of a gear trip shares at least two items with those before it (the same sentence): one item changed
  for another goes on with the trip (`GearStretches.SmallOutfitGoesOn`). The rule holds exactly when no outfit of
  at most two items, and none after nothing at all was worn, shares too little
  (`GearStretches.OutfitsShareUnlessSmall`).

## Model

| member | source | states |
|---|---|---|
| TrailPoints.OffSquaredIsLeast | server/src/hub/trails.rs:183-218 | how far a line is off is within a bound exactly when, at both ends of the stay, some place the player can have on the straight way within a second of that time is within it |
| TrailPoints.ClampIsNearest | server/src/hub/trails.rs:199-214 | clamping the projection to what can be reached gives the nearest place that can be |
| TrailPoints.OffSquaredBoundsSegment | server/src/hub/trails.rs:183-218 | a stay the line is off for by at most a bound lies within it of the drawn segment |
| TrailPoints.BreakExactly | server/src/hub/trails.rs:173-188 | a step is a break exactly when it is onto or off a boat, to another known world or labelled as anything but a move, or, without a label, to another part of the map, more than 300 seconds long, or of more than five tiles every two seconds |
| Stays.ExtendStays | server/src/hub/trails.rs:133-165 | the loop that changes the last stay or pushes one computes `Extended` |
| Stays.ExtendedInParts | server/src/hub/trails.rs:133-165 | extending by a and then by b is extending by both |
| Stays.ExtendedAfterPrefix | server/src/hub/trails.rs:133-165 | only the last stay matters to what comes after it |
| Stays.StaysAreMaximalRuns | server/src/hub/trails.rs:133-181 | stays are exactly the maximal runs of the samples: on one spot with no gap or break inside, each ended by what the next one begins with, and `jump` says whether that was a break |
| Stays.StaysInOrder | server/src/hub/trails.rs:133-165 | samples in order give stays in order, none ending after the last sample |
| Stays.EverySampleHasStay | server/src/hub/trails.rs:133-165 | each sample of a trail is in a stay with its x, y, plane, boat and world that begins no later and ends no earlier than it |
| Stays.StaysAreApart | server/src/hub/trails.rs:133-165 | two stays after one another are in one place only for a reason: more than a gap between them, or a step that was not walked |
| Stays.JoinPages | server/src/hub/trails.rs:573-582 | the loop over the pages, oldest first, computes `Joined` |
| Stays.PagingIsInvisible | server/src/hub/trails.rs:568-582 | however a trail is cut into overlapping pages, joining them gives the stays of the whole, and when its last sample was |
| Weighing.FindSplit | server/src/hub/trails.rs:229-257 | the loops over a part find where it is split and for how many levels, or split a part that is too long in the middle |
| Weighing.WeighPart | server/src/hub/trails.rs:229-266 | one part from the stack: the two it pushes, weighed later, give what weighing it recursively gives, and the stack's measure falls |
| Weighing.WeighWalk | server/src/hub/trails.rs:227-267 | the loop over an explicit work stack, which ends, leaves in the array what the recursion gives |
| Weighing.StackWeightsInParts | server/src/hub/trails.rs:227-267 | what a stack of parts leaves to do is done part by part, from the top |
| Weighing.Weigh | server/src/hub/trails.rs:275-293 | the loop that splits a trail at breaks and floor changes computes `Weights` |
| Thinning.SplitWhenNeeded | server/src/hub/trails.rs:233-257 | a part is split at a level exactly when the limit allows it and going straight over it is not within that level (or it is too long to look at) |
| Thinning.SplitIsChosen | server/src/hub/trails.rs:229-263 | a part is split in the middle if it is too long to look at; else, if at some level nothing between its ends is too far off and it only took too long, at the first stay not begun before half that time; and else at the first of those that going straight misses by the most |
| Thinning.OnlyTimeCounts | server/src/hub/trails.rs:244-257 | more levels count for the time than for the way exactly if at some level it only took too long |
| Thinning.WalkWithin | server/src/hub/trails.rs:227-267 | in a walk, two neighbours at a level are next to each other or within that level's tiles of every stay left out and within its seconds |
| Thinning.WalkNeeded | server/src/hub/trails.rs:227-267 | in a walk, a kept stay lies between two kept ones that are not within the level without it, and is just the stay between them that they are to be split at |
| Thinning.ThinnedIsSound | server/src/hub/trails.rs:50-66 | the same as `WalkWithin` for a whole trail, with no break and no floor change between neighbours that are not next to each other |
| Thinning.EndsAreKept | server/src/hub/trails.rs:269-293 | both ends of a trail, and both sides of each break and floor change, are kept at every level |
| Thinning.KeptIsNeeded | server/src/hub/trails.rs:220-293 | nothing else is kept without need: any other kept stay lies between two kept ones, with only walking between them, that are not within the level, and is the one to split at: the middle one, the first half-way in time, or the first of those furthest off |
| Thinning.OtherFloorIsKept | server/src/hub/trails.rs:269-293 | stays next to each other on different planes, or of which the second is marked as a jump, are both kept at every level |
| Thinning.LeftOutOnFloor | server/src/hub/trails.rs:269-293 | all that is left out between two neighbours is on their plane, with no jump on the way |
| Thinning.EarlierWeightsStay | server/src/hub/trails.rs:269-293 | weighing from a stay on leaves the weights before it as they were |
| Cutting.KeepAbove | server/src/hub/trails.rs:355-366 | the filter with its countdown drops the first so many of the stays above a level |
| Cutting.CutTrail | server/src/hub/trails.rs:334-373 | the early return, the search for a level and the filter compute `Cut` |
| Cutting.CutIsFinest | server/src/hub/trails.rs:327-373 | a cut takes the finest level, not finer than asked for, that fits; is a suffix of what is above it, as long as the limit allows; and is truncated exactly when even the last level does not fit |
| Cutting.CutKeepsLast | server/src/hub/trails.rs:334-373 | a cut of a weighed trail ends with its last stay |
| Cutting.StepIsLongest | server/src/hub/trails.rs:307-325 | no walked step of a trail takes longer than the step it is sent with, which is a minute or taken from one of them |
| TrailJoining.ReadOlderPart | server/src/hub/trails.rs:586-607 | reading the older part in pages gives `OlderPart`, the stays of all pages cut for less than what may be sent |
| TrailJoining.AddRecent | server/src/hub/trails.rs:617-632 | adding recent samples computes `JoinRecent` |
| TrailJoining.PagesAreRead | server/src/hub/trails.rs:586-607 | an older part read in pages is that of the samples the pages cover, and knows when the last of them was |
| TrailJoining.NewsAreNew | server/src/hub/trails.rs:617-624 | recent samples that overlap the older ones add just those that come after them; where there are no older ones, all, exactly if they come after the time asked up to |
| TrailJoining.WeightsOfTail | server/src/hub/trails.rs:269-293 | the weights of a trail from an end on are those of that tail alone |
| TrailJoining.CutTwice | server/src/hub/trails.rs:334-373 | cutting what a level left of the first part of a trail is cutting the whole at that level or a coarser one |
| TrailJoining.JoinedIsOneShot | server/src/hub/trails.rs:558-632 | incremental is one-shot: unless the older part was truncated, adding to it gives the stays, weights and level that thinning all stays at once gives |
| TrailJoining.JoinedIsEndOfOneShot | server/src/hub/trails.rs:558-632 | when it was truncated, a suffix of what all stays at the last level give, and it says so |
| TrailJoining.WholeIsSound | server/src/hub/trails.rs:609-632 | the tolerance holds against every stay there was, although the last older one lasted longer in the end |
| TrailJoining.SentTrailIsSound | server/src/hub/trails.rs:586-632 | each two points of the trail that is sent were next to each other or have only stays within the tolerance left out between them, and a point reached by a break follows the one it was reached from |
| TrailJoining.SentTrailFits | server/src/hub/trails.rs:586-632 | a trail that is sent is never too long and ends with the newest stay, also when there is no older part |
| TrailJoining.TrailIsOneShot | server/src/hub/trails.rs:558-632 | from the hub's answers to what is sent: whatever the pages, and however the recent samples overlap the older ones, the trail is the whole one thinned at once |
| TrailJoining.TrailIsEndOfOneShot | server/src/hub/trails.rs:558-632 | or, when the older part alone is too long, the end of the whole at the last level |
| TrailJoining.TrailFits | server/src/hub/trails.rs:558-632 | it is never too long and ends with the newest stay |
| TrailJoining.TrailIsSound | server/src/hub/trails.rs:558-632 | and between two of its points only stays within the tolerance were left out |
| TrailJoining.ShortTrailIsWhole | server/src/hub/trails.rs:586-632 | every stay is sent, and there is no level, exactly if the older part has no more than 2700 stays and all are no more than 3000 |
| TrailJoining.FewNewsKeepLevel | server/src/hub/trails.rs:28-34 | up to 300 new samples never make a trail coarser than its older part |
| TtlCache.Cache.LookUp | server/src/hub/cache.rs:27-33 | finds an entry exactly when it is younger than asked, with its age |
| TtlCache.Cache.Store | server/src/hub/cache.rs:35-44 | makes room and puts the entry in |
| TtlCache.Cache.TakeLock | server/src/hub/cache.rs:76-79 | gives the key's lock, which no other key has; a new one, that was nobody's, when there is none |
| TtlCache.Cache.ReleaseLock | server/src/hub/cache.rs:88-93 | the table keeps the lock exactly when any task but the caller refers to it, and every other key's lock |
| TtlCache.StoredFits | server/src/hub/cache.rs:35-44 | storing never leaves too many entries, keeps the new one and changes no other |
| TtlCache.StoredKeeps | server/src/hub/cache.rs:35-44 | storing leaves any other entry in place exactly if there are fewer than 2000, or those younger than an hour are fewer than 2000 and it is one of them |
| TtlCache.FoundExactly | server/src/hub/cache.rs:27-33 | an entry is found exactly until it is as old as asked, and its age says when it was stored |
| SingleFlight.OneFetchPerKey | server/src/hub/cache.rs:62-105 | over every interleaving of any number of tasks at most one fetch of a key is outstanding |
| SingleFlight.ForgottenWhenAlone | server/src/hub/cache.rs:88-93 | a lock leaves the table exactly when its remover is the only task that refers to it |
| SingleFlight.LocksLeaveOnlyThen | server/src/hub/cache.rs:76-93 | and with no other step of any task |
| SingleFlight.LockStaysBehind | server/src/hub/cache.rs:80-85 | so that a lock stays in the table after all tasks have left, when the last of them found the entry after waiting |
| SingleFlight.SecondFetchAfterForgetting | server/src/hub/cache.rs:88-98 | while an answer is on its way to the entries, another fetch of its key is under another lock, after the first was forgotten |
| SingleFlight.TwoFetchesWithinOneTtl | server/src/hub/cache.rs:88-98 | and that happens, with no time passing |
| SingleFlight.ForgottenLetsAskAgain | server/src/hub/cache.rs:72-98 | once a lock is forgotten, any task that comes before the value is stored, and finds nothing young enough, asks the hub at once |
| SingleFlight.AsksAgainWhenAlone | server/src/hub/cache.rs:72-98 | for any time to live: a second fetch of a key can begin before the first one's value is stored exactly when no other task refers to the lock as the first looks after it |
| SingleFlight.ServedIsTrue | server/src/hub/cache.rs:11-13 | what is served was given by the hub for that key no later than its age says, is younger than the time to live, or than an hour when the hub fails, and the entries never are too many |
| SingleFlight.ServedFromThenOn | server/src/hub/cache.rs:62-105 | over any run that asks for fewer than 2000 keys: from when an answer is stored on, a task for its key that begins, or has waited, less than its time to live later is served, no older than that, and does not come to ask the hub; so is one less than an hour later whose own request was rate limited or failed |
| SingleFlight.OtherFailuresAreNotMasked | server/src/hub/cache.rs:100-104 | a request the hub refuses for any other reason is never answered from the entries |
| RateLimit.EveryoneGetsAShare | server/src/hub/client.rs:78-83 | interactive requests get a share of any budget, at least half, and never more than the sync: what is kept free is a quarter of 40 or more, ten of 20 or more, and half of less |
| RateLimit.HubClient.SetBudgetPerMin | server/src/hub/client.rs:114-116 | a budget is at least one |
| RateLimit.HubClient.Acquire | server/src/hub/client.rs:118-148 | a request is granted or told when to ask again, and what is a minute old is forgotten |
| RateLimit.HubClient.BlockFor | server/src/hub/client.rs:150-156 | a block only moves later |
| RateLimit.WindowsStayWithinBudget | server/src/hub/client.rs:118-148 | over any run with any changes of budget, the grants of a window shorter than a minute are no more than its last one's priority was allowed |
| RateLimit.NothingWhileBlocked | server/src/hub/client.rs:118-156 | over any run, nothing is granted before the time a block named, whatever other blocks come |
| RateLimit.ToldWhenBlocked | server/src/hub/client.rs:118-156 | over any run, while a block lasts any request is told exactly how long until the end of the last block there was, and nothing changes |
| RateLimit.GrantedWhenFree | server/src/hub/client.rs:118-148 | and once all are over it is granted, unless the last minute is full |
| RateLimit.RefusedWhenFull | server/src/hub/client.rs:133-145 | a request is refused for the budget only when the last minute had that many, and is told when the oldest of them is a minute old |
| Convert.TotalsAreMainGame | server/src/hub/convert.rs:59-112 | however often a player changes worlds, the totals are those of the last poll on a main-game world, or of the last that did not share the category |
| Convert.SectionsSay | server/src/hub/convert.rs:143-181 | each section in terms of the account's own fields: empty if its category is not shared; else the field's numbers, unless there are none, the location is stale, or skills or items are of a special world, when it is left as it was |
| Convert.StatsSay | server/src/hub/convert.rs:252-266 | hit points and prayer, each with its most, two zeros and the world, zero for what there is not, and nothing if there is none of them |
| UpdateBatcher.Insert | server/src/update_batcher.rs:120-122 | an update is put in its place by name |
| UpdateBatcher.DeduplicateBatch | server/src/update_batcher.rs:107-123 | one update a member, each that of the fold by name, in the order of the names |
| UpdateBatcher.Chunks | server/src/update_batcher.rs:80-85 | chunks of at most fifty that together are the updates in order |
| UpdateBatcher.WriteCoalesces | server/src/update_batcher.rs:164-187 | a write puts what the update has over what the row has and stamps exactly the sections it changes |
| UpdateBatcher.MergeIsBoth | server/src/update_batcher.rs:125-146 | writing merged updates is writing one after the other |
| UpdateBatcher.MergedBatchIsOneByOne | server/src/update_batcher.rs:107-146 | a merged batch leaves every member's cells as its updates one by one would |
| UpdateBatcher.BatchIsOneByOne | server/src/update_batcher.rs:72-94 | and so do its chunks, however it is divided, in whatever order and at whatever times they are written |
| HubSync.Sync.ProcessAccount | server/src/hub/sync.rs:213-281 | what is known, what is sent and which presence is written for one account, also when the database or the batcher fails half-way |
| HubSync.Sync.ApplyControl | server/src/hub/sync.rs:129-139 | forgets exactly the accounts of the members an admin changed, and has the next poll ask for everything |
| HubSync.Sync.KeepVisible | server/src/hub/sync.rs:199-202 | forgets the accounts a full snapshot does not have, and no others |
| HubSync.GoneIsSentAgain | server/src/hub/sync.rs:199-202 | an account that a full snapshot did not have is looked up again when it is back, and all its sections are sent; the others stay known |
| HubSync.HiddenIsLeftAlone | server/src/hub/sync.rs:240-242 | of a hidden member nothing is sent or written |
| HubSync.PresenceIsRight | server/src/hub/sync.rs:269-279 | after a poll that went well the presence last written is what the hub says, and less than a minute old |
| HubSync.PresenceIsNotRepeated | server/src/hub/sync.rs:272-279 | presence is written at most once a poll, for the account's member, and only if it changed or is a minute old |
| HubSync.SendingChangedIsEnough | server/src/hub/sync.rs:255-267 | where everything sent before is stored, writing what changed is writing everything |
| HubSync.RemembersTheLast | server/src/hub/sync.rs:255-267 | what is remembered is all of the last poll's sections, although nothing is assigned when nothing changed |
| HubSync.EverythingIsEveryPoll | server/src/hub/sync.rs:213-281 | the copy the sync is compared with has every section of every poll of an account |
| HubSync.DiffSyncIsFullCopy | server/src/hub/sync.rs:187-281 | over any polls of any accounts, renamed or not, as long as no two have one member at the same time, with members forgotten at any time, and any batches, chunks and orders, every row has the cells it would have if every section of every poll had been written |
| HubSync.RunIsCopied | server/src/hub/sync.rs:213-281 | from any moment at which nothing was sent yet for an account with a name, what is sent for the name makes of any cells what every section of every poll would |
| HubSync.CopiedFromThenOn | server/src/hub/sync.rs:248-253 | so a row that comes by a name in the middle of a run, used before or not, is copied from then on |
| HubSync.TwoAccountsOneMember | server/src/hub/sync.rs:255-267 | two accounts written to one member break this: what one has not changed is not sent again over the other's |
| HubSync.TotalsSurvive | server/src/hub/convert.rs:59-101 | over any run, a poll on a special world leaves a row's totals as they were as long as something is remembered as sent for it, and none otherwise |
| HubSync.TotalsLost | server/src/hub/sync.rs:129-139 | so an admin's change between two polls takes the total level away |
| HubSync.CopyHasTheLast | server/src/hub/convert.rs:127-133 | a section is as the last poll that had one left it |
| HubSync.CopyLeavesTheRest | server/src/hub/convert.rs:127-133 | a section no poll had anything for is left alone |
| HubSync.CopyIsWhatPollsSay | server/src/hub/convert.rs:143-181 | over any polls of any accounts, the copy of everything has of a member's section what the last poll written to the member that says anything of it says in its account's own fields |
| HubSync.CopyIsLeftAlone | server/src/hub/convert.rs:127-133 | and without such a poll what there was before |
| HubSync.CopyHasTheDetails | server/src/hub/convert.rs:176-179 | and the details of the last poll written to the member |
| MemberPolls.GetMembers | server/src/db/members.rs:56-125 | the loop over the rows gives the roster, the members with something stored since, each with just that, and a cursor that lags behind the clock |
| MemberPolls.GuildData.Update | site/src/data/guild-data.js:21-84 | the loops over roster and members give the new members and the time to ask from next, 0 for everything |
| Replica.MembersSinceHasEach | server/src/db/members.rs:92-114 | each visible member with anything since comes once, with all that was stored since and nothing else |
| Replica.FillingSyncs | site/src/data/member-data.js:52-120 | applying what was stored since gives, section by section, what is stored exactly if what was wrong before was stored since |
| Replica.MemberAfterPoll | site/src/data/guild-data.js:21-84 | a visible member is on the page after a poll, and in sync exactly when it came whole |
| Replica.PollSyncsWhatComes | site/src/data/guild-data.js:21-84 | a poll leaves exactly the visible members, all in sync exactly when each came whole |
| Replica.PollSyncsUnlessInPart | site/src/data/guild-data.js:43-61 | with the others followed, all are in sync exactly when no member new to the page lacks a shared section older than it asked from |
| Replica.PollReloads | site/src/data/guild-data.js:49-61 | a poll ends with asking for everything exactly when someone visible is new to the page and nothing of them came |
| Replica.CursorInWholeMs | site/src/data/guild-data.js:83 | a poll that does not asks next from the whole millisecond its cursor is in |
| Replica.FullLoadSyncsAll | site/src/data/guild-data.js:21-84 | over any run, a full load leaves everyone visible in sync |
| Replica.RunKeepsFollowed | server/src/db/members.rs:46-125 | what is wrong of such a member always comes with the next poll, whatever happens before it |
| Replica.SiteIsReplica | server/src/db/members.rs:46-125 | over any run of commits at most two seconds late, of members shown and hidden, and of polls: a member that once came whole, as all do with a full load, and was visible at each poll since has the latest of each section after every poll, whatever becomes of others |
| Replica.ShownAgainInPart | site/src/data/guild-data.js:43-61 | from a page that was just opened, a member that is shown again right after one section changed is taken for whole |
| Replica.PollUsesUpAsking | site/src/data/guild-data.js:49-61 | each full reload uses up one member's one time of asking |
| Replica.AsksOncePerArrival | site/src/data/guild-data.js:49-61 | over any run there are no more full reloads than arrivals of new names |
| Pipeline.ChunkIsCommits | server/src/update_batcher.rs:164-187 | a statement is commits of just the sections it changes, stamped with its time |
| Pipeline.RunWrites | server/src/update_batcher.rs:72-94 | among polls of the page and changes of who is visible, the table is what the statements make of it |
| Pipeline.PageShowsTheCopy | server/src/hub/sync.rs:187-281 | from the hub to the page: any polls of the hub, sent as diffs, in any batches and statements, among any polls of the page, leave a member that once came whole and was visible since with what copying every section of every poll would have stored |
| Pipeline.PageShowsTheAccount | server/src/hub/convert.rs:143-181 | with the same, section by section: the page shows what the last poll of the hub that says anything of the section says in its account's own fields, and nothing of a section it says is not shared |
| Pipeline.PageShowsTheDetails | server/src/hub/convert.rs:176-179 | and the details of the last poll that was written to the member |
| TrailWire.TrailJson | server/src/hub/trails.rs:409-445 | the loop over the points gives their rows and the changes of world, with the step and the time of the newest points |
| TrailWire.DecodeTrail | site/src/canvas-map/trail-model.js:79-101 | the loop over rows and worlds gives the points of `ReadRows`, the step and the time, for older answers too |
| TrailWire.RowRoundTrip | server/src/hub/trails.rs:419-431 | a row without its trailing zeros is read back as the point it was |
| TrailWire.DecodeReadsTrailJson | site/src/canvas-map/trail-model.js:69-101 | every point of a trail is read back, in the latest world known at or before it |
| TrailWire.ViaRoundTrip | server/src/hub/trails.rs:388-400 | every label is read back from its code, and exactly the codes that are known are written back from their label (others are read as `other`) |
| TrailWire.StepRoundTrip | server/src/hub/trails.rs:309-325 | a thinned trail is drawn with the step it was sent with, and its time is read to the millisecond |
| SiteTrail.ServerIsMoreEager | site/src/canvas-map/trail-model.js:125-159 | a step between two stays that followed each other, and that the server takes for walking on, is drawn by the page |
| SiteTrail.EntranceExactly | site/src/canvas-map/trail-model.js:125-153 | a step is an entrance exactly when it is labelled so, or has no label and leads up or down to within what is surely walked of the place the other end is at |
| SiteTrail.UnknownExactly | site/src/canvas-map/trail-model.js:125-159 | it is unknown exactly when it is labelled a gap or something else, or has no label, stays in one part of the map and is not too far, but a gap or not surely walked |
| SiteTrail.TeleportExactly | site/src/canvas-map/trail-model.js:125-159 | it is a teleport exactly when it is labelled so, or has no label and is too far, or leads to another part of the map and is no entrance |
| SiteTrail.OtherKindsExactly | site/src/canvas-map/trail-model.js:118-138 | houses and instances are just the steps labelled so; a drawn step is sailed between two boats, else stairs between two planes |
| SiteTrail.ClassifySteps | site/src/canvas-map/trail-model.js:182-188 | each step is classified by its own two points |
| SiteTrail.SplitTrail | site/src/canvas-map/trail-model.js:188-217 | the loops give the runs and the jumps of the steps |
| SiteTrail.BuildTrailModel | site/src/canvas-map/trail-model.js:182-219 | the model of a trail: steps, runs, jumps and gap |
| SiteTrail.ModelPartitionsTrail | site/src/canvas-map/trail-model.js:171-219 | every point is in a run; every step is in exactly one run, which says whether it was sailed, or is exactly one jump |
| SiteTrail.RunsAreUnique | site/src/canvas-map/trail-model.js:171-219 | there is one way to split a trail into such runs: in order, neighbours sharing a point exactly where sailing starts or stops |
| SiteTrail.JumpsAreTheRest | site/src/canvas-map/trail-model.js:204-212 | the jumps are exactly the steps that are not drawn |
| DrawnTrail.DrawnExactly | site/src/canvas-map/trail-model.js:125-159 | a step is drawn exactly when it is labelled a move, or unlabelled, within one part of the map, as near as 0.75 of a run and eight tiles, and no gap |
| DrawnTrail.ThinnedStepIsDrawn | server/src/hub/trails.rs:167-172 | of any trail at any level, a step that thinning made leads to a stay without a label or labelled a move, and is drawn exactly in the latter case or when its ends are near |
| DrawnTrail.ThinnedModelDraws | server/src/hub/trails.rs:307-325 | on the page, for any walked step of a thinned trail that was sent and read back, with the step it was sent with |
| DrawnTrail.SlowWalkIsDrawn | server/src/hub/trails.rs:167-172 | what was walked without labels is drawn whatever thinning left out of it, if no more than three of its steps took less than a second |
| DrawnTrail.FastRunIsLost | server/src/hub/trails.rs:167-172 | 51 points of a run, each step of which the page draws, are thinned to one step at the finest level, and that it does not draw |
| Replay.IndexAt | site/src/canvas-map/trail-model.js:318-331 | halving finds the last point reached, or none |
| Replay.LastReachedIsLast | site/src/canvas-map/trail-model.js:317-331 | that is, begun by then, with none after it begun |
| Replay.NextChangeIsAhead | site/src/canvas-map/trail-model.js:364-382 | the next change is never earlier for a later time |
| Replay.NextChangeIsFirst | site/src/canvas-map/trail-model.js:364-382 | it is the first moment from the time asked for on at which something happens: a point is left or, later than that, reached, or the player is under way just then on a drawn step no longer than the gap; and there is none exactly if nothing ever happens again |
| Replay.PositionAtPoint | site/src/canvas-map/trail-model.js:341-348 | the player is nowhere exactly before the trail begins, and at a point from reaching it to leaving it, or for good at the last |
| Replay.PositionOnStep | site/src/canvas-map/trail-model.js:349-361 | between two points the player is at the first if the step is not drawn, and else has come as much of the way, in both directions, as of the time |
| Replay.SkippingIsSafe | site/src/canvas-map/trail-model.js:341-382 | skipping to the next change skips no movement exactly when every drawn step longer than the gap has both ends on one tile |
| Replay.LongWalkIsSkipped | site/src/canvas-map/trail-model.js:369-382 | any other such step is skipped while the player moves |
| Replay.LabelledWalkIsSkipped | site/src/canvas-map/trail-model.js:130-138 | as is a walk the hub labelled that takes a thousand seconds |
| Replay.GuessedStepsAreShort | site/src/canvas-map/trail-model.js:139-159 | a step without a label is never drawn when it is longer than the gap |
| Replay.ThinnedTrailHasNoLongWalks | server/src/hub/trails.rs:307-325 | nor has a thinned trail, sent and read back, a drawn step longer than its step, but where there is a break on the way |
| LiveTrail.LiveBuffer.Observe | site/src/canvas-map/trail-model.js:230-265 | the buffer after a sighting; it adds a point exactly when the player is elsewhere or has been away |
| LiveTrail.ObservingKeepsOrder | site/src/canvas-map/trail-model.js:223-265 | stays stay in order whatever the clock says; none is lost but those over the limit and too old; the newest is where the player is |
| LiveTrail.BufferStaysInOrder | site/src/canvas-map/trail-model.js:223-265 | over any run of sightings, and never more than the limit |
| LiveTrail.BufferMoves | site/src/canvas-map/trail-model.js:223-265 | over any run in which the player was not away, no two stays after one another are in one place |
| LiveTrail.MergeTrail | site/src/canvas-map/trail-model.js:279-315 | the loop over the live points and the marker compute `Merged` |
| LiveTrail.MergedTrailIsInOrder | site/src/canvas-map/trail-model.js:268-315 | a merged trail is in order, begins with the history, but for how long its last stay took, and ends with the marker unless that is behind |
| LiveTrail.LiveTrailIsMadeOf | site/src/canvas-map/trail-model.js:279-301 | what is added to the history are just the sightings of the span that, with a history, begin when it was given or later: each has a point in its place that lasts until it ends; each point is one of them, begun with it, with the span, or when the point before ended; a point covers no time the player was not seen there for more than a gap; and two after one another in one place are more than a gap apart |
| LiveTrail.MergedTrailIsMadeOf | site/src/canvas-map/trail-model.js:279-301 | the same of a merged trail without a marker |
| LiveTrail.OthersAddNothing | site/src/canvas-map/trail-model.js:294-300 | any other sighting could as well not have been |
| LiveTrail.MarkerEndsTrail | site/src/canvas-map/trail-model.js:301-314 | with a marker the trail is the same and ends at the marker, unless the last sighting is in its place and began before the history was given, and the history ends elsewhere, no more than 15 seconds before that: then it is as without |
| LiveTrail.MergedTrailIsInSpan | site/src/canvas-map/trail-model.js:268-315 | with a marker dated within the span, as the page dates it, nothing that is added begins before the span |
| LiveTrail.OlderMarkerInSpan | site/src/canvas-map/trail-model.js:268-315 | for any marker: exactly if it is dated within the span, or is behind, or a live point was joined, or the history reaches the span or ends where the marker is |
| LiveTrail.MarkerBeforeSpan | site/src/canvas-map/trail-model.js:279-315 | an older marker with nothing else to show would begin before the span |
| Stacks.CloseMeansNextCell | site/src/canvas-map/event-markers.js:91-97 | what is closer than a cell is wide is in the same cell or the next |
| Stacks.FindNear | site/src/canvas-map/event-markers.js:91-99 | looking at nine cells finds a near stack exactly when there is one |
| Stacks.StackPoints | site/src/canvas-map/event-markers.js:81-112 | every point is in one stack, near its head, heads are their stacks' first members, and no two heads of one plane are near |
| Stacks.EveryPointOnce | site/src/canvas-map/event-markers.js:81-112 | a stack has a point exactly when a point like it was given to it |
| Clusters.GroupByCell | site/src/canvas-map/event-markers.js:44-51 | the map of cells gives the points of each cell, the cells in the order they came |
| Clusters.FindPair | site/src/canvas-map/event-markers.js:59-69 | the two loops find the first two groups of a plane whose centres are close, or that there are none |
| Clusters.ClusterPoints | site/src/canvas-map/event-markers.js:44-77 | merging the first close pair over and over, which ends, gives the groups of `Merged`, each drawn at its centre |
| Clusters.ClustersShareThePoints | site/src/canvas-map/event-markers.js:39-77 | every point is in exactly one cluster, all of a cluster on one plane, and no two clusters are close |
| Clusters.ClusterIsInTheMiddle | site/src/canvas-map/event-markers.js:54-78 | a cluster is drawn where its points are as far to one side as to the other, in both directions |
| Clusters.ApartStayAlone | site/src/canvas-map/event-markers.js:39-77 | points no two of which are close all stay alone |
| GearStretches.SlotMap | site/src/data/gear-trips.js:22-30 | the loop over a flat array gives each slot's item, in order, and no others |
| GearStretches.SortedRows | site/src/data/gear-trips.js:89-92 | the changes with a time, in the order of time, those of one time in theirs |
| GearStretches.TripsAreStretches | site/src/data/gear-trips.js:1-9 | the stretches found row by row are the one division of the rows in which every row but the skipped ones is in exactly one trip, goes on with what that has used so far, and each trip begins after a gap or with a new outfit |
| GearStretches.TripsDoNotOverlap | site/src/data/gear-trips.js:97-130 | each trip begins when the one before has ended, or later |
| GearStretches.GapsAreSkips | site/src/data/gear-trips.js:97-126 | two rows next to each other in a trip are a gap or more apart exactly when rows between them were skipped |
| GearStretches.TripGoesOnAfterGap | site/src/data/gear-trips.js:100-105 | and that happens |
| GearStretches.StretchesUpTo | site/src/data/gear-trips.js:97-127 | when a row came the trips were those before its own, and its own up to it; and it began a trip exactly if it is the first of one |
| GearStretches.TripBringsOutfit | site/src/data/gear-trips.js:114-121 | what is worn on a trip are its rows' outfits, and before them, for no time, the outfit before the trip exactly if at least two items of the first row are among its |
| GearStretches.SharedAreCommon | site/src/data/gear-trips.js:28-32 | of an outfit of different items as many are shared as ids are in both sets |
| GearStretches.WornTimeIsElapsed | site/src/data/gear-trips.js:97-99 | the times the rows of any stretch were worn add up to all the time from the first to the end, but for what is more than twenty minutes between two |
| GearStretches.ChangesAreCloseUnlessSkipped | site/src/data/gear-trips.js:5-7 | all changes of all trips come less than a gap after the one before exactly when each row of a trip that comes right after a skipped one begins a trip |
| GearStretches.OutfitsShareUnlessSmall | site/src/data/gear-trips.js:5-7 | each outfit of each trip shares enough with what the trip has used exactly when there is no row that goes on with a trip anyway: a small outfit, or one after nothing was worn, that shares too little |
| GearStretches.SmallOutfitGoesOn | site/src/data/gear-trips.js:106-110 | one item changed for another is such a row |
| GearTrips.WornIsRight | site/src/data/gear-trips.js:58-69 | an entry has the quantity of its first wearing, the time of all, and its place in the order of first wearings |
| GearTrips.WornTimeAddsUp | site/src/data/gear-trips.js:58-69 | on each trip of any changes, and for each slot, the entries' times add up to the capped times of the rows that wear something there |
| GearTrips.OpenTrip.Wear | site/src/data/gear-trips.js:58-69 | counts an outfit: ids, setups and worn times are those of all that was worn |
| GearTrips.OpenTrip.Close | site/src/data/gear-trips.js:71-81 | the kit is all that was worn, slots in the game's order, the longest worn first |
| GearTrips.ItemsOfSlot | site/src/data/gear-trips.js:76-78 | the items of a slot, the longest worn first, then the first put on |
| GearTrips.TripsOf | site/src/data/gear-trips.js:97-130 | the loop over the rows gives the trips of all stretches, the newest first: when they began and ended, swaps, setups, kit |
| GearTrips.GearTrips | site/src/data/gear-trips.js:88-130 | so it does for changes in any order |
| GearTrips.SetupsAreFew | site/src/data/gear-trips.js:112-125 | a trip has no more setups than outfits, and those are one more than its swaps |
| GearTrips.SetupsAreAlike | site/src/data/gear-trips.js:34-39 | two outfits count as one setup exactly if they have the same ids on in the same slots |
| GearTrips.SetupsAreWorn | site/src/data/gear-trips.js:58-60 | the setups of a trip are those of the outfits that have anything on |
| GearTrips.SlotsInOrder | site/src/data/gear-trips.js:41-44 | slots come in the game's order, and those it does not have after them, by their numbers |
| GearTrips.NewestComeFirst | site/src/data/gear-trips.js:97-130 | trips come the newest first and do not overlap |
| XpRows.XpSeriesToRows | server/src/hub/xp.rs:32-58 | reading each point once gives one row for each time there is, in order, with the clamped value of each skill's last point up to then, and 0 before its first |
| XpRows.LastReadIsValue | server/src/hub/xp.rs:47-51 | the last point read of a series has its value at that time |
| XpRows.SkillIndexFrom | server/src/osrs.rs:52-56 | a skill is the first of a name, whatever its case, and none if there is none |
| XpRows.ValueIsNearest | server/src/hub/xp.rs:47-51 | a value is the number nearest to the XP of the last point up to then that a 32-bit column can hold, and 0 before the first |

## Left out

What the models assume:

- Floating point is modelled by reals, and distances by their squares, which the levels are compared with alike.
- Coordinates and times are unbounded integers; sums of `i32` coordinates that leave their range are not modelled.
- `partition_point` is taken as the number of leading points not later than the given one, as it is on pages in order; on others its answer is not promised.
- The skills, inventory and equipment of an account are given as the flat arrays they become (`server/src/hub/convert.rs:268-318`), and the details a member's page only shows as one text.
- JSON text, SQL text, HTTP, Discord sign-in, the worker thread a trail is thinned on and all other input and output are not part of the models; a row of the table is a cell and a stamp a section, with the meaning of COALESCE and IS DISTINCT FROM.
- The clock is a number that only grows. For the tasks of the cache each step between two awaits is atomic, as the mutexes make it.
- The answers of the database about an account (`resolve_member`, `follow_rename`), whether they fail, whether the batcher listens and whether a name can be stored are inputs of `HubSync.Sync.ProcessAccount`; the directory it tells is not modelled.
- Members are compared by their exact names; that the table ignores case is not modelled.
- MemberPolls.GetMembers: leaves out presence, and when a member was updated last; the roster is its names.
- MemberPolls.GuildData.Update: leaves out presence, regions, what is published about changes, XP drops and item totals; members are values in a map, so that two references to one member are not modelled.
- The kit of a trip is sorted by picking the first over and over, and the rows and the updates of a batch by putting each in its place, where the source calls a library's sort.

What the theorems exclude:

- HubSync.DiffSyncIsFullCopy: needs that no two accounts are written to one member at the same time, as after a rename onto another account's member; without that it is false (`HubSync.TwoAccountsOneMember`). A row keeps its name in the table of that theorem; one that comes by a name later is in `HubSync.CopiedFromThenOn`. A batch that fails to be written is not modelled.
- Convert.TotalsAreMainGame: is about polls between which the account was remembered; `HubSync.TotalsSurvive` has the rest.
- Pipeline.PageShowsTheCopy: needs what `HubSync.DiffSyncIsFullCopy` and `Replica.SiteIsReplica` need.
- HubSync.EverythingIsEveryPoll: is about one account that is neither hidden nor renamed, with a batcher that listens.
- Replica.SiteIsReplica: a member that came in part is not in sync until a full load, as `Replica.PollSyncsUnlessInPart` says; commits are at most two seconds after their stamps, as the cursor's overlap assumes.
- XpRows.XpSeriesToRows: the values need one series a skill, each in order, as the hub sends them; the rows' times do not.
- SingleFlight.OneFetchPerKey: a task that is dropped while it waits or fetches gives up its lock's guard and its reference, as `Drop` does, in the model's step for leaving.
- Stacks.StackPoints: which of several near stacks a point joins is not promised.

What the repository does that is not modelled:

- Which span a trail is asked for, how its pages are fetched and cached, and the settling time before the older part (`Span`, `older_until`, `fetch_older`).
- When the sync polls: etag, `since`, full refreshes, backoff.
- Marks and ticks of the timeline (`placeMarks`, `timelineTicks`), the lifetime and fading of event markers, curves, camera and drawing.
- `directory.rs`, the event buffer, hiscores, prayers, slayer, status, configuration, migrations and retention.
