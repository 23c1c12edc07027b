# Verified model of the Innerwall control plane and agent telemetry

This project models the parts of Innerwall whose promises span several
functions, and proves those promises for all inputs and all runs.

* **Policy** (`Addresses`, `Rendered`, `Deltas`, `ShortestDeltas`,
  `RenderedOps`, `Authored`, `Compiler`, `Meaning`, `Determined`, `StateTexts`,
  `DryRuns`). Authored rulesets are
  rendered per workload, put in canonical form and diffed. Addresses are
  integers of 32 or 128 bits, prefixes are masked by arithmetic, and a text
  that does not parse is kept as it is. A policy's *content* (mode, and for
  each rule id its protocol, set of normalized peers and set of port ranges)
  is the independent reading that canonical form, difference and application
  are proved against. `Permits` and `AuthoredPermits` say what traffic a
  rendered policy and the authored model admit; the compiler is proved to keep
  the one equal to the other.
* **Versions and the sync stream** (`Versions`, `VersionHistory`,
  `SyncStream`, `StreamRuns`, `StreamRegistry`). Each render is one serialized step over the
  persisted policies. The stream is a state machine at the granularity of its
  locks: a policy is loaded before the session lock is taken, and the opening
  path sets the tip before it queues its snapshot. Messages may be delivered
  in any order, repeated, or never. `AgentEnforcesAuthored` joins all of it:
  whatever the interleaving, an agent that holds a policy holds the mode and
  permits exactly the traffic the authored model admitted when that version was
  rendered.
* **Telemetry** (`Clocks`, `Aggregation`, `GapAlgebra`, `GapLog`, `GapBooks`,
  `Buffering`, `Reporting`, `Rotation`). The bounded aggregator, the merging
  gap log, the bounded buffer, the retrying reporter and the window rotation.
  The pipeline runs as interleaved steps of collector, sources and reporter;
  its books balance record for record at every point. An instant has a wall
  reading and, unless it was stripped, a monotonic one; it is compared as the
  program compares it, by the monotonic readings when both have one, and
  shipped as its wall reading. What is covered and in order is stated for the
  reading it is true of.
* **Ingest and operators** (`Resolution`, `Totals`, `Silence`, `Authoring`,
  `Throttling`).

Where the code updates objects, the model has classes and methods with loops,
each proved against a specification function; the laws are then lemmas about
those functions and about every run of a state machine over them. `Orders` and
`Wrappers` hold the shared definitions. Readings of a clock are integers in
nanoseconds, counters are unbounded naturals.

Where the code and its documentation disagree, or a law holds only on a
condition, the model follows the code:

* `internal/rendered/rendered.go:51-53` says policies that permit the same
  traffic have identical canonical forms. `SameTrafficDifferentForms` gives two
  that do not; `EqualIffSameContent` states what equality does decide.
* `internal/rendered/rendered.go:162` calls the difference minimal. It is
  irredundant (`DiffIrredundant`), and `DiffShortestIff` states when it is also
  the shortest there is: exactly when no rule that changes in its peers alone
  both gains and loses some. `PeerSwapTakesTwo` is such a swap.
* `internal/agent/collect/collect.go:181-187` says a cut window's records are
  held within its bounds. They are, but the program orders stamps by the
  monotonic clock and holds them on the wall clock, so a key seen on both sides
  of a step back can ship last seen before first seen, which
  `internal/ingest/service.go:477-479` refuses. `StepBackInvertsRecord` gives
  the input, `CutRecordTakenIff` the exact condition.
* `internal/agent/collect/gaps.go:229-233` promises that the fact of a loss is
  never lost. What reaches the control plane are wall readings, and
  `internal/ingest/service.go:417-419` refuses a gap that ends before it starts.
  `AlwaysTakenIff` states exactly when every loss is covered by what is shipped
  and all of it is taken: the wall clock orders the starts, and the ends, of
  each kind and source as the program does, and each loss was recorded in order
  on the wall clock. `StepBackUncovers` gives an input that is not covered,
  `StepBackInvertsGap` and `StepBackInvertsMerge` inputs that are refused. On
  the monotonic clock nothing is lost of the kinds whose instants keep that
  reading (`CoveredOnMono`): all but window_rejected, which is recorded on the
  wall clock alone and covered there, and window_overflow of a cut window, whose
  start is stripped when the first drop lay within the bounds
  (`OverflowStampedIff`). `CutOverflowUncovers` is such a loss, covered on
  neither clock once it has merged.
* `internal/gateway/sync.go:314-315` sets a stream's tip before it queues the
  opening snapshot. A push between the two leaves an agent below the tip until
  the next recovery: `OvertakenOpening` is such a run, and
  `InOrderConvergesIff` states exactly when in-order delivery reaches the tip.
* `internal/policy/service.go:169-172` promises provenance across an edit. A
  replacement without a condition can take it from a version older than the one
  it replaces; `UnconditionalReplaceRepeatsVersion` is such a run, and
  `ProvenanceIff` states exactly when a write keeps the law of versions: the
  rule had not changed since the version that was read, or had changed once, to
  what the write says.
* `internal/compiler/dryrun.go:112-118` derives a state version from text that
  is to name one state. Zones of addresses are spelled as they are, so
  `CommaCollides` and `NewlineCollides` give different states with one text, and
  `PinsRenderIff` states which characters zones must be free of.

Two comparisons are exact only because of what admission keeps out.
`RuleEqual` takes a selector key without values for any other such key
(`BodyEqualExactIff`), and the peer index reads a bare IPv4-mapped address
otherwise than the renderer (`IndexAgreesWithPolicy`); admission refuses both
inputs (`internal/policy/validate.go:363-365` and
`internal/policy/validate.go:227-231`), so a rule's version counts the changes
of what it says, and every admitted group resolves as policy reads it
(`AdmittedGroupsAgree`).

## Model

| member | source | states |
|---|---|---|
| `Addresses.MaskedKeepsMeaning` | internal/rendered/rendered.go:102-111 | masking a prefix changes no address it contains |
| `Addresses.HostRouteExact` | internal/rendered/rendered.go:114-117 | a host route contains its unmapped address and nothing else |
| `Addresses.MaskedPrefixUnique` | internal/rendered/rendered.go:102-111 | two masked prefixes that contain the same addresses are the same prefix |
| `Addresses.NormalizeIdempotent` | internal/rendered/rendered.go:102-111 | normalizing a peer text twice is normalizing it once |
| `Addresses.NormalizeKeepsMeaning` | internal/rendered/rendered.go:99-111 | a normalized peer text admits the same sources |
| `Addresses.NormalizedTextUnique` | internal/rendered/rendered.go:83-111 | texts that parse and admit the same sources normalize to one text |
| `Addresses.UnmapSays` | internal/rendered/rendered.go:112-117 | unmapping takes ::ffff:0:0 plus x to the version 4 address x, zone or not, and changes no other address |
| `Addresses.ContainsRange` | internal/rendered/rendered.go:102-111 | a prefix contains exactly the zoneless addresses of its family in the block of two to the power of the bits it leaves that its own address lies in |
| `Addresses.TrimSpaceSays` | internal/rendered/rendered.go:102-111 | trimming takes white space from both ends and nothing else |
| `Addresses.UnparsedCoversNothing` | internal/rendered/rendered.go:99-111 | a text that names no prefix admits nobody and stays unparsed |
| `Rendered.CanonicalSays` | internal/rendered/rendered.go:49-81 | the canonical form has the same content, mode and version, is in canonical shape and is its own canonical form |
| `Rendered.CanonicalFixed` | internal/rendered/rendered.go:54-74 | a policy in canonical shape is left as it is |
| `Rendered.EqualIffSameContent` | internal/rendered/rendered.go:138-145 | policies are equal iff mode and, per rule id, protocol, normalized peers and ports are the same sets |
| `Rendered.EqualIffSameRules` | internal/rendered/rendered.go:138-145 | as written: policies are equal iff they have one mode and each rule, the last of its id, has one in the other with its id, protocol, normalized peers and ports |
| `Rendered.CanonicalKeepsLastRules` | internal/rendered/rendered.go:54-81 | the last rule of each id is in the canonical form, saying what it did |
| `Rendered.CanonicalOnlyLastRules` | internal/rendered/rendered.go:54-81 | and nothing else is |
| `Rendered.CanonicalPermits` | internal/rendered/rendered.go:54-136 | a canonical form permits exactly the traffic its policy's content grants |
| `Rendered.CanonicalKeepsMeaning` | internal/rendered/rendered.go:54-74 | a canonical form permits nothing its policy does not, and the same traffic when rule ids are distinct |
| `Rendered.SameTrafficDifferentForms` | internal/rendered/rendered.go:51-53 | two policies that permit the same traffic and are not equal |
| `RenderedOps.CanonicalCIDRs` | internal/rendered/rendered.go:87-97 | the loop yields the ascending listing of the normalized texts |
| `RenderedOps.CanonicalPorts` | internal/rendered/rendered.go:119-136 | the loop yields the ascending listing of the port ranges |
| `RenderedOps.CanonicalCopy` | internal/rendered/rendered.go:54-74 | builds a fresh message with the canonical value, leaving its argument |
| `RenderedOps.SetDiff` | internal/rendered/rendered.go:335-353 | the ascending listings of the two set differences |
| `RenderedOps.PortsEqual` | internal/rendered/rendered.go:321-331 | decides equality of port lists |
| `RenderedOps.DiffMessages` | internal/rendered/rendered.go:172-211 | the loops over maps yield the one difference of the two values, whatever order the maps are ranged in |
| `RenderedOps.ApplyDelta` | internal/rendered/rendered.go:223-274 | returns what applying the delta to the base's value gives, success or error, and modifies no message that existed |
| `Deltas.DeltaRoundTrip` | internal/rendered/rendered.go:172-274 | for all p and q the delta of p and q applied to a base with p's version and content succeeds and is q in canonical form |
| `Deltas.ChainCoalesces` | internal/rendered/rendered.go:213-274 | applying a chain of deltas is applying the one delta from its first to its last policy |
| `Deltas.DiffEmptyIffEqual` | internal/rendered/rendered.go:162-172 | the difference is empty iff the policies are equal |
| `Deltas.DiffIrredundant` | internal/rendered/rendered.go:162-211 | leaving out any change of a difference never yields the target |
| `Deltas.DiffOrdered` | internal/rendered/rendered.go:162-166 | a mode change comes first and rule changes follow by rule id |
| `Deltas.ApplyYieldsCanonical` | internal/rendered/rendered.go:223-274 | any delta that applies to any base yields a canonical policy at the delta's version |
| `Deltas.ApplyFailsIff` | internal/rendered/rendered.go:234-267 | a change fails iff it has no variant or changes peers of a rule that is not there, with that error and its place; removing an absent rule does nothing |
| `Deltas.PeerChangeSays` | internal/rendered/rendered.go:240-261 | a peer change adds or removes exactly the texts it names, by what they normalize to, and nothing else |
| `ShortestDeltas.NoneShorter` | internal/rendered/rendered.go:162-172 | no changes that take p to q are fewer than one for a differing mode and one for each rule id at which the contents differ |
| `ShortestDeltas.DiffLength` | internal/rendered/rendered.go:172-211 | the difference has exactly that many changes and one more for each rule that swaps peers |
| `ShortestDeltas.DiffShortestIff` | internal/rendered/rendered.go:162-172 | the difference is a shortest one iff no rule both have, with the same protocol and ports, both gains and loses peers |
| `ShortestDeltas.PeerSwapTakesTwo` | internal/rendered/rendered.go:166-170 | one peer for another takes two changes where one upsert does |
| `Authored.SelectorMatches` | internal/policy/model.go:131-152 | the loops decide: some key, and every key carried with one of its values |
| `Authored.SelectorLaws` | internal/policy/model.go:57-60 | an empty selector matches nothing, a further key narrows and a further value widens |
| `Authored.LastLabelStands` | internal/registry/registry.go:234-241 | of labels with one key the last is the workload's |
| `Compiler.RuleIDInjective` | internal/rendered/ruleid.go:10-19 | rendered rule ids tell rule and protocol apart |
| `Compiler.RuleIDSpelled` | internal/rendered/ruleid.go:17-19 | the id is the authored id, a slash and the protocol's name |
| `Compiler.ResolvePeers` | internal/compiler/render.go:122-146 | the loop yields exactly the peer texts of the rule |
| `Compiler.ExpandServices` | internal/compiler/render.go:151-176 | the maps hold each named protocol with its ports, none when some entry offers all ports |
| `Compiler.RenderRuleLoop` | internal/compiler/render.go:96-116 | yields the resolved rules of a rule, one per protocol |
| `Compiler.RenderWorkloadLoop` | internal/compiler/render.go:67-91 | yields the workload's canonical policy |
| `Compiler.RenderLoop` | internal/compiler/render.go:28-39 | yields a policy for every active workload and none for a retired one |
| `Compiler.RenderCovers` | internal/compiler/render.go:28-39 | with distinct workload ids exactly the active ones are rendered, each from its own workload |
| `Compiler.RenderKeepsMode` | internal/compiler/render.go:67-74 | an active workload is rendered in its own mode, and in visibility when it has none |
| `Meaning.PeerTextsMean` | internal/compiler/render.go:118-146 | the texts of a peer cover a source iff the peer admits it, retired workloads being nobody's peer |
| `Meaning.ExpandedMeans` | internal/compiler/render.go:148-176 | the expanded ports cover a port iff some entry of that protocol does, all-ports absorbing |
| `Meaning.RenderPreservesMeaning` | internal/compiler/render.go:28-176 | the rendered policy permits only traffic the authored model admits, and exactly that traffic when rule ids are distinct |
| `Determined.RenderDetermined` | internal/compiler/render.go:28-176 | inputs that show the same state, in whatever order, render the same policies |
| `StateTexts.StateVersion` | internal/compiler/dryrun.go:119-159 | the loops spell, sort and write the lines of the state |
| `StateTexts.LineNamesView` | internal/compiler/dryrun.go:122-142 | with ids and labels in their grammar and zones free of comma and line end, workloads with one line cannot be told apart by a render |
| `StateTexts.StateTextPinsRender` | internal/compiler/dryrun.go:112-159 | then inputs with the same text render equal policies when an id and version determine an object |
| `StateTexts.PinsRenderIff` | internal/compiler/dryrun.go:112-159 | for all states whose zones are free of some of the two separators, equal texts mean equal renders iff they are free of both |
| `StateTexts.CommaCollides` | internal/compiler/dryrun.go:137-142 | two addresses are spelled as one whose zone goes on with a comma and the second |
| `StateTexts.NewlineCollides` | internal/compiler/dryrun.go:153-157 | two workloads are spelled as one whose zone goes on with a line end and the second's line |
| `DryRuns.Classify` | internal/compiler/dryrun.go:68-89 | the loop reads off a difference the rules added and removed, the ids changed and the mode |
| `DryRuns.DiffRead` | internal/compiler/dryrun.go:50-55 | what is read off a difference is exactly the ids only one side has, those both have and grant differently, and the mode |
| `DryRuns.DiffOne` | internal/compiler/dryrun.go:56-98 | a workload is described iff its difference is not empty, and exactly |
| `DryRuns.DryRun` | internal/compiler/dryrun.go:50-102 | reports in order of id exactly the workloads whose policy is not equal to the persisted one |
| `DryRuns.ReportPatches` | internal/compiler/dryrun.go:33-49 | the added, removed, changed and mode parts patch the old content into the new |
| `DryRuns.ReportReverts` | internal/compiler/dryrun.go:33-49 | read backwards the parts take the new content to the old, so what a report says was there was there |
| `Versions.PlanWorkload` | internal/compiler/plan.go:36-54 | one workload's verdict: canonical policy, difference, and version advanced iff it is new or differs |
| `Versions.Plan` | internal/compiler/plan.go:36-54 | the verdicts of every rendered workload in order of id |
| `Versions.Engine.RenderIn` | internal/compiler/engine.go:126-151 | saves exactly the changed outcomes, reports them, and counts the rendered workloads |
| `VersionHistory.ReportSays` | internal/compiler/engine.go:137-146 | a render reports, by id and once each, exactly the workloads whose policy it changed, with the version now persisted, one more than before, and the number of changes |
| `VersionHistory.StepAt` | internal/compiler/engine.go:126-151 | what one render does to one workload, whatever the others do |
| `VersionHistory.RunGood` | internal/compiler/plan.go:36-54 | in every run versions are 1, 2, 3 without gaps, each canonical, rendered from its inputs and different from the one before |
| `VersionHistory.RunExtends` | internal/compiler/engine.go:106-151 | no run takes back what it persisted |
| `VersionHistory.VersionDeterminesPolicy` | internal/compiler/plan.go:21-54 | workload and version determine the policy for all history |
| `VersionHistory.VersionAdvancesIffChanged` | internal/compiler/plan.go:36-54 | a version advances by one iff the content changed or it is the first |
| `VersionHistory.RetiredNeverChanges` | internal/compiler/render.go:31-37 | a workload no longer rendered keeps its policy and version for ever |
| `VersionHistory.RetiredUnrendered` | internal/compiler/render.go:31-37 | a workload that is retired, or gone, in every later input is no longer rendered |
| `SyncStream.Session.PushLatest` | internal/gateway/sync.go:628-654 | queues a delta from the tip and moves the tip, if the policy is newer |
| `SyncStream.Session.HandleFailedAck` | internal/gateway/sync.go:468-485 | answers a failed acknowledgement with a recovery snapshot unless it is not above the last recovery |
| `SyncStream.Session.SendRecoverySnapshot` | internal/gateway/sync.go:494-506 | queues the snapshot and makes it tip and recovery version |
| `SyncStream.StepSafe` | internal/gateway/sync.go:307-315 | every handler's step keeps tips, loaded policies, queued messages and the agent to persisted versions |
| `SyncStream.AgentHoldsPersisted` | internal/gateway/sync.go:207-374 | in every run the agent holds version 0, visibility and no rules, or exactly the policy persisted under its version |
| `SyncStream.MatchingDeltaNeverFails` | internal/rendered/rendered.go:223-274 | a queued delta applies iff the agent holds its base version, takes it to the policy persisted under the version it names, and else leaves the agent what it held |
| `SyncStream.PushCatchesUp` | internal/gateway/sync.go:640-648 | a push brings the tip to the policy loaded, by one delta between the two, if that is newer, and else does nothing |
| `SyncStream.RecoveredStaysSilent` | internal/gateway/sync.go:473-506 | in every run a recovery queues one snapshot and makes it the tip, and from then on a failed acknowledgement of its version or an older one leaves the stream as it was |
| `StreamRuns.AckSteps` | internal/gateway/sync.go:468-506 | the machine's steps that answer a failed acknowledgement leave the stream as the handler does |
| `StreamRuns.InOrderConvergesIff` | internal/gateway/sync.go:307-315 | in every run, an opened stream's messages delivered in order bring every agent to its tip iff no push was queued between its tip being set and its snapshot, or a recovery was queued since |
| `StreamRuns.OvertakenOpening` | internal/gateway/sync.go:312-315 | a run in which a push overtakes the opening and every agent is left a version below the tip |
| `SyncStream.AgentEnforcesAuthored` | internal/gateway/sync.go:207-374 | the agent's mode is the workload's, visibility when it has none, and what it permits is exactly what the inputs of its version's render authored for the workload |
| `SyncStream.RecoveryCannotLoop` | internal/gateway/sync.go:453-506 | each recovery raises the recovery version, which never passes the persisted one, if no version beyond what is persisted is acknowledged |
| `SyncStream.SentAckKnown` | internal/gateway/sync.go:453-490 | a version sent on the stream is never beyond what is persisted |
| `StreamRuns.DishonestAckRepeats` | internal/gateway/sync.go:473-485 | an acknowledgement beyond what is persisted is answered without raising the recovery version |
| `StreamRuns.DishonestAckUnbounded` | internal/gateway/sync.go:453-506 | so for every number there is a run, with one version persisted, in which a stream sends more recoveries than that |
| `StreamRegistry.Sessions.TryAdd` | internal/gateway/sync.go:144-163 | registers, cancelling the stream it replaces, or waits for a pending mark |
| `StreamRegistry.Sessions.Remove` | internal/gateway/sync.go:170-185 | only the registered stream leaves, and holds its workload for the mark |
| `StreamRegistry.Sessions.Marked` | internal/gateway/sync.go:179-184 | releases the workload |
| `StreamRegistry.StepValid` | internal/gateway/sync.go:123-185 | every step keeps the registry and the streams' phases consistent |
| `StreamRegistry.HandOff` | internal/gateway/sync.go:256-272 | a workload is never live and being marked, offline is written only while none is registered and never by a superseded stream, and a stream ends superseded once or marked once, having tried to write once |
| `StreamRegistry.StreamsTakeOver` | internal/gateway/sync.go:144-185 | a stream that finds no mark pending is the one found from then on and supersedes the one before; the registered stream that ends holds its workload for the mark |
| `StreamRegistry.RegisteredIsFound` | internal/gateway/sync.go:187-191 | the stream found for a workload is its one registered, unsuperseded stream |
| `Aggregation.KeyOrder` | internal/agent/collect/collect.go:245-260 | the key comparison is a strict total order |
| `Aggregation.Aggregator.Add` | internal/agent/collect/collect.go:121-148 | folds an observation in, or drops and counts it when its key is new and the window full |
| `Aggregation.Aggregator.CloseAt` | internal/agent/collect/collect.go:197-243 | lists one record per key in key order, records the overflow, and opens the next window |
| `Aggregation.Aggregator.Close` | internal/agent/collect/collect.go:175-179 | closes with the next window starting at the end, instants as stamped |
| `Aggregation.Aggregator.Cut` | internal/agent/collect/collect.go:188-192 | closes with instants held within the bounds |
| `Aggregation.WindowGroupsBy` | internal/agent/collect/collect.go:81-148 | any observations leave the group-by over the first distinct keys that fit, with the earliest and latest stamps as the program compares them; all others are counted dropped from the earliest drop |
| `Aggregation.ClosedWindowConserves` | internal/agent/collect/collect.go:197-243 | records and dropped observations together count every connection and every byte once |
| `Aggregation.RecordSays` | internal/agent/collect/collect.go:224-239 | a record ships its key's sums, last process and the wall readings of its earliest and latest stamps, moved to the bound they lie beyond when the window was cut |
| `Aggregation.OverflowWithin` | internal/agent/collect/collect.go:213-216 | the loss a window reports counts its drops and runs from the first drop to the window's end, held within the bounds when the window was cut |
| `Aggregation.OverflowStampedIff` | internal/agent/collect/collect.go:199-216 | the start of a reported loss keeps the monotonic reading iff the window was not cut or the first drop lay outside its bounds |
| `Aggregation.RecordInOrderIff` | internal/agent/collect/collect.go:181-238 | a cut record's instants lie within the bounds; a record is in order iff the wall readings f, l of its earliest and latest stamps by the monotonic clock have f <= l or, when cut, f <= start or l >= end or no length |
| `Aggregation.SteadyRecordInOrder` | internal/agent/collect/collect.go:121-238 | stamps that both clocks order alike give a record in order, cut or not |
| `GapAlgebra.MergeWithinIff` | internal/agent/collect/gaps.go:256-271 | on a reading of the clocks a merged gap covers both iff the reading orders their starts, and their ends, as the program does |
| `GapAlgebra.MergeSays` | internal/agent/collect/gaps.go:256-271 | a merged gap spans both, and has a count, the sum, iff both had |
| `GapAlgebra.ShrinkOnceMerges` | internal/agent/collect/gaps.go:235-250 | the first gap whose pair an earlier one has is merged into the first of that pair |
| `GapAlgebra.ShrinkKeeps` | internal/agent/collect/gaps.go:229-271 | with room for every pair held, shrinking always finds two gaps to merge, fits, keeps every pair and count, widens no further than what it merged, and keeps every interval on a reading that orders it as the program does |
| `GapAlgebra.ShrinkKeepsIff` | internal/agent/collect/gaps.go:229-254 | shrinking keeps the fact of every loss iff the capacity is at least the number of pairs held |
| `GapAlgebra.AddKeeps` | internal/agent/collect/gaps.go:202-227 | recording keeps what was held and the gap itself |
| `GapLog.Gaps.Add` | internal/agent/collect/gaps.go:204-227 | merges into the newest held gap of the pair when they touch, else appends and shrinks |
| `GapLog.AddAt` | internal/agent/collect/gaps.go:208-227 | a gap is merged into the newest held gap of its pair iff neither begins after the other ends |
| `GapLog.OpensAt` | internal/agent/collect/gaps.go:143-150 | an opened interval starts at its instant with its kind, unless one of its kind is open, which stands |
| `GapLog.CutSays` | internal/agent/collect/gaps.go:49-54 | a cut records exactly the open removals of the table, up to its instant |
| `GapLog.Gaps.ShrinkPending` | internal/agent/collect/gaps.go:234-254 | merges oldest pairs until the gaps fit |
| `GapLog.Gaps.MergeOldest` | internal/agent/collect/gaps.go:235-253 | one turn: the two oldest gaps of the first repeated pair become one, or the oldest is dropped |
| `GapLog.Gaps.Open` | internal/agent/collect/gaps.go:134-151 | starts an interval, lets an earlier start of the kind stand, ends one of another kind |
| `GapLog.Gaps.Close` | internal/agent/collect/gaps.go:155-168 | ends and records the open interval |
| `GapLog.Gaps.CutOpen` | internal/agent/collect/gaps.go:174-190 | records each lasting interval so far and keeps it open from there, in some order of the sources |
| `GapLog.Gaps.RecordGap` | internal/agent/collect/gaps.go:193-200 | records a closed interval |
| `GapLog.Gaps.Take` | internal/agent/collect/gaps.go:274-283 | returns the held gaps and holds none |
| `GapLog.Gaps.Restore` | internal/agent/collect/gaps.go:288-296 | puts gaps back ahead of newer ones and shrinks |
| `GapBooks.StepKeeps` | internal/agent/collect/gaps.go:134-296 | every record, open, cut, close, take and restore keeps what was recorded covered and counted |
| `GapBooks.TakesAll` | internal/agent/collect/gaps.go:273-283 | taking hands over all that is held, in order, and holds nothing |
| `GapBooks.RestoresAhead` | internal/agent/collect/gaps.go:285-296 | gaps put back that fit stand ahead of newer ones, unmerged |
| `GapBooks.NothingLost` | internal/agent/collect/gaps.go:134-296 | in every run with room for the pairs in use the held gaps fit, pairs and counts are conserved, no gap reaches beyond what was recorded of its pair, and on any reading that orders a pair's instants as the program does every recorded interval lies in a held or taken gap |
| `GapBooks.CoveredOnMono` | internal/agent/collect/gaps.go:204-296 | a pair whose recorded instants all carry the monotonic reading stays covered on the monotonic clock, whatever the wall clock does |
| `GapBooks.CoveredOnWall` | internal/agent/collect/gaps.go:335-346 | if the wall clock orders them alike they stay covered there, and what was recorded in order is shipped in order |
| `GapBooks.CoveredIffClocksAgree` | internal/agent/collect/gaps.go:204-271 | gaps recorded in whatever order, with any capacity that has room, stay covered on a reading iff it orders the starts and the ends of each pair as the program does |
| `GapBooks.RecordedAcceptedIff` | internal/agent/collect/gaps.go:204-207 | one interval, before any merging, is recorded with its wall readings in order iff they were, or the program saw it inverted |
| `GapBooks.AlwaysTakenIff` | internal/agent/collect/gaps.go:204-271 | recorded in whatever order, with any capacity that has room, gaps stay covered on the wall clock and all that is held is taken iff the wall clock orders the starts and ends of each pair as the program does and each was recorded in order |
| `GapBooks.StepBackInvertsMerge` | internal/agent/collect/gaps.go:258-271 | two gaps in order that meet across a step back merge into one that is refused |
| `GapBooks.StepBackInvertsGap` | internal/agent/collect/gaps.go:155-168 | an interval over a step back is recorded as it is and shipped inverted |
| `GapBooks.StepBackUncovers` | internal/agent/collect/gaps.go:258-271 | windows dropped on both sides of a step back merge into an interval that on the wall clock covers neither |
| `GapBooks.OpenIntervalTiled` | internal/agent/collect/gaps.go:134-190 | at instants the program sees as non-decreasing the pieces of an open interval meet end to end from its opening to its end |
| `Buffering.TrimSplits` | internal/agent/collect/buffer.go:75-92 | trimming fits the capacity and splits the records: all that is dropped came before all that is kept |
| `Buffering.TrimDropsLeast` | internal/agent/collect/buffer.go:75-92 | something is dropped iff the windows do not fit, and with the last part dropped put back they still would not |
| `Buffering.TrimKeepsBounds` | internal/agent/collect/buffer.go:78-92 | what is kept and what is dropped has the bounds of the window it was part of |
| `Buffering.Buffer.constructor` | internal/agent/collect/buffer.go:41-46 | an empty buffer with the default capacity when none is given |
| `Buffering.Buffer.Push` | internal/agent/collect/buffer.go:50-60 | appends a window that holds records and trims; count, drops and gaps follow |
| `Buffering.Buffer.Requeue` | internal/agent/collect/buffer.go:63-73 | puts a window back as the oldest and trims |
| `Buffering.Buffer.TrimWindows` | internal/agent/collect/buffer.go:78-92 | leaves what trimming leaves, counts what it drops and records it |
| `Buffering.Buffer.Overflow` | internal/agent/collect/buffer.go:96-102 | counts and records the records dropped from a window, nothing for none |
| `Buffering.Buffer.Carry` | internal/agent/collect/buffer.go:104-118 | queues a window only when none is queued, and the count stays right iff it queues one without records or none |
| `Buffering.Buffer.Pop` | internal/agent/collect/buffer.go:129-146 | removes the oldest window and its records from the count |
| `Buffering.Batches` | internal/agent/collect/reporter.go:202-219 | requests that join to the window, each with its bounds and all but the last full; one for an empty window |
| `Reporting.Reporter.Reject` | internal/agent/collect/reporter.go:141-153 | records the refused window's records as lost over its bounds in order |
| `Reporting.Reporter.Settle` | internal/agent/collect/reporter.go:104-134 | what each answer does to buffer and gaps |
| `Reporting.StepBalances` | internal/agent/collect/buffer.go:50-146 | every step keeps each pushed record in exactly one place and the queue within capacity |
| `Reporting.StepOnRecord` | internal/agent/collect/buffer.go:94-102 | every step keeps the overflow and rejection gaps on record exactly those of the windows dropped and refused |
| `Reporting.EveryRecordAccounted` | internal/agent/collect/reporter.go:91-153 | at every point pushed = delivered + queued + in flight + dropped + refused, record for record, and the drops and refusals are those counted by the gaps recorded |
| `Reporting.LossesStayCountable` | internal/agent/collect/reporter.go:91-135 | with room for the pairs in use, the gaps held, in flight and shipped alone count every dropped and refused record; one of them covers every refused window from bound to bound on the wall clock, and one every dropped window on a reading that orders the dropped windows' bounds as the program does |
| `Reporting.DeliveredInOrder` | internal/agent/collect/reporter.go:91-135 | in every run what is delivered, then in flight, then queued is what was pushed, in order, but for what was dropped or refused |
| `Reporting.AnswersSay` | internal/agent/collect/reporter.go:104-134 | an accepted window is delivered, a refused one given up and never retried, any other put back as the oldest |
| `Rotation.BoundsProper` | internal/agent/collect/collector.go:183-202 | the bounds of one window, and that it is cut iff the wall clock fell short of its length by more than a second and a two-thousandth of it |
| `Rotation.EveryWindowProper` | internal/agent/collect/collector.go:110-202 | for every behaviour of the wall clock each window ends no earlier than it starts, at the wall clock unless that is before its start, is at most a tolerance short and exactly its length when cut, and meets the next unless cut, which then starts at the wall clock |
| `Rotation.SteadyClockTiles` | internal/agent/collect/collector.go:162-194 | a wall clock that only slews cuts no window, and the windows tile the run |
| `Rotation.Collector.CloseWindow` | internal/agent/collect/collector.go:125-138 | closes or cuts the aggregator's window with proper bounds and its records, after cutting every open lasting interval at the end and then recording what the window dropped |
| `Rotation.CutRecordTakenIff` | internal/agent/collect/collect.go:181-243 | a cut window's record lies within its bounds and is taken iff f <= start, l >= end, f <= l or the window has no length |
| `Rotation.StepBackInvertsRecord` | internal/agent/collect/collect.go:197-238 | a key seen at 100 and, after a step back, at 40 ships first seen 100 and last seen 95 |
| `Rotation.CutOverflowUncovers` | internal/agent/collect/collect.go:199-216 | the overflow of a cut window merges with the next one's into a gap that covers it on neither clock |
| `Resolution.BuildIndex` | internal/ingest/resolve.go:35-76 | the loops fill the index: first active holder of each unmapped address, groups by length then id |
| `Resolution.WorkloadIndexSays` | internal/ingest/resolve.go:37-53 | an address is indexed for the first active workload in registry order that holds it |
| `Resolution.Resolve` | internal/ingest/resolve.go:83-98 | the scan finds the first active holder, else the group with the longest containing prefix and least id, else the address |
| `Resolution.ResolvesUnique` | internal/ingest/resolve.go:78-98 | that answer is determined for every registry and address |
| `Resolution.IndexAgreesWithPolicy` | internal/ingest/resolve.go:54-67 | the index and the policy agree on a group's text iff it is not a bare IPv4-mapped address |
| `Resolution.AdmittedGroupsAgree` | internal/policy/validate.go:219-233 | admission refuses such a text, so an admitted group is resolved exactly for the sources policy admits by it |
| `Totals.KeyOrder` | internal/flowstore/flowstore.go:275-290 | the totals key comparison is a strict total order |
| `Totals.AggregateTotals` | internal/flowstore/flowstore.go:244-273 | the merging loop and the sort yield the aggregate |
| `Totals.AggregateSays` | internal/flowstore/flowstore.go:237-243 | each key once, ascending, with sums, earliest first seen and the attributes of the record seen last, the later on a tie |
| `Totals.AggregateFields` | internal/flowstore/flowstore.go:233-273 | no two totals agree on peer, port, protocol, direction and decision, each record has one that agrees with it, and each sums up exactly the records that agree with it |
| `Totals.AggregateConserves` | internal/flowstore/flowstore.go:244-273 | connections and bytes are neither lost nor invented |
| `Totals.AggregateComposes` | internal/flowstore/flowstore.go:237-273 | aggregating two parts and then together is aggregating at once, attributes included |
| `Silence.DerivedBounds` | internal/ingest/service.go:297-338 | a derived gap opens at the last receipt, is not empty and ends no later than the instant |
| `Silence.SilencesDisjoint` | internal/ingest/service.go:257-352 | over any reports, ended or not by a retirement, gaps are not empty, hold no receipt and are disjoint in order |
| `Silence.EverySilenceCovered` | internal/ingest/service.go:257-359 | an instant of a silence a report ends lies in a derived gap iff the silence is longer than two windows, no heartbeat shows a process started by the last receipt and running within a window of this one, and evidence had not resumed |
| `Silence.RetirementCovered` | internal/ingest/service.go:319-338 | at a retirement every instant since the last receipt lies in a gap iff the silence is longer than two windows and no process ran through it |
| `Silence.RanThroughNoRestart` | internal/ingest/service.go:354-359 | if processes never overlap and the sender ran for the last window, ranThrough means the sender ran through and no process started in the silence |
| `Authoring.PeersEqual` | internal/policy/service.go:331-341 | the loop decides the program's equality of peers |
| `Authoring.RuleEqual` | internal/policy/service.go:321-329 | the loops decide the program's equality of rules |
| `Authoring.BodyEqualExactIff` | internal/policy/service.go:317-345 | the comparison of a rule is exact against every other iff every key of its selectors lists some value |
| `Authoring.ValuelessKeyPasses` | internal/policy/service.go:335-339 | a key without values passes for any key the selector lacks; admission refuses it |
| `Authoring.CarryRuleProvenance` | internal/policy/service.go:296-315 | each rule in place gets the instants and version of the rule it replaces, advanced iff it changed |
| `Authoring.StepSound` | internal/policy/service.go:173-264 | every read, reread and write keeps editors to versions that were stored and the history to one edit per version |
| `Authoring.EditsLinearize` | internal/policy/service.go:173-264 | each version is the one before with one edit applied in a single step, provenance from exactly the version replaced for every write on condition |
| `Authoring.EditTakesEffect` | internal/policy/service.go:173-264 | a created rule is added at the end, an updated one says in its place what the edit says, a deleted one is gone, every other stays in order, a replacement is as given; the rule edited was there at the version expected |
| `Authoring.HistoryGrows` | internal/policy/service.go:203-264 | versions and edits once stored stay on record; that each is applied is `EditsLinearize` |
| `Authoring.EditSurvives` | internal/policy/service.go:203-264 | what a successful edit made of a rule stands in every later version until another names the rule or replaces the ruleset |
| `Authoring.ProvenanceStep` | internal/policy/service.go:291-315 | across a write on condition a rule that stays keeps its creation and advances by one iff what it says changed; a new one starts at 1 |
| `Authoring.VersionCountsChanges` | internal/policy/service.go:169-193 | over any run of admitted writes on condition a rule's version counts the changes of what it says |
| `Authoring.ProvenanceIff` | internal/policy/service.go:173-193 | at any write, on condition or not, that comes after writes on condition, a rule present since the version that was read keeps its creation and obeys the law of versions iff it had not changed since, or had changed once to what the write says |
| `Authoring.ProvenanceOfNewIff` | internal/policy/service.go:303-306 | a rule that was not there in the version that was read starts again at 1, which is the law iff it was at 1 and does not change |
| `Authoring.UnconditionalReplaceRepeatsVersion` | internal/policy/service.go:173-193 | a run in which an unconditional replacement leaves a rule's version unchanged though its content changed |
| `Throttling.Throttle.Allow` | internal/api/throttle.go:83-110 | counts the attempt in the source's current window and judges it |
| `Throttling.Throttle.MakeRoom` | internal/api/throttle.go:116-123 | drops windows from the front while the table is full |
| `Throttling.EvictsEarliest` | internal/api/throttle.go:112-123 | eviction removes the earliest start and leaves the rest |
| `Throttling.EvictsOnlyWhenFull` | internal/api/throttle.go:112-123 | an attempt leaves other sources' windows as they are, unless a new source finds 4096 of them, and then drops only the earliest |
| `Throttling.AlwaysValid` | internal/api/throttle.go:83-123 | with a non-decreasing clock, map and list hold the same windows, ordered by start, at most 4096, after every attempt |
| `Throttling.AtMostTwiceTheLimit` | internal/api/throttle.go:24-110 | a source that is not evicted is allowed at most twice the limit in any half-open interval of one window length |
| `Throttling.NeverRefusedWithinLimit` | internal/api/throttle.go:83-110 | a source with no more than the limit of attempts within the last window length is never refused, whatever others do |
| `Throttling.RetryAfterSuffices` | internal/api/throttle.go:80-110 | in every run a refused source is told to wait at most a window, and its next attempt, made after that wait, is allowed |
| `Throttling.RetryAfterNeeded` | internal/api/throttle.go:104-109 | no shorter wait suffices for a source that is not evicted |

## Left out

- The database: SQL, transactions and locks are taken as atomic steps with the contracts their comments state; a failed transaction is a step that changes nothing.
- gRPC, TLS, certificates, tokens, hashing, HTTP handlers, encoders, the command line and the console: foreign libraries and plumbing.
- Kernel sources (nftables, conntrack, nflog): only the observations and gaps they emit enter the model, the observations stamped from the clock with both readings. The agent's own sync client enters by the contract of Apply.
- Timers, jitter and backoff: any delay is allowed, so no statement is about how soon something happens.
- Sync-state status writes (pending, synced, degraded): single-branch facts.
- Marshalling and descriptions: the bytes of a policy and the text that describes a change.
- Page walking and rollups: their order is decided in SQL that is not part of this model.
- Admission of authored objects but for what the laws need (distinct rule ids, a value for every selector key, group texts that are prefixes), the label grammar and id generation: the compiler starts from loaded inputs, and an edit starts from rules with ids given and CIDRs canonical.
- Deletion of a ruleset and its re-creation under the same id, and a replacement conditioned on a version that does not exist yet: editors follow one ruleset from a stored version on.
- RenderedOps.CanonicalCIDRs: lists peers by an order on what their texts name, not by the bytes of their spelling, because spellings are not modelled; both are total orders, and nothing but the listing depends on which.
- Nil policies and nil gap logs: a nil policy reads as the empty one before it reaches the model; a nil gap log is modelled in the aggregator and the buffer and not in the reporter.
- Aliasing: windows and messages passed between objects are values, so sharing of a window between buffer and reporter is not captured; the throttle's list elements are the map's values named by key.
- StateTexts.StateVersion: yields the text the digest is taken of, because hashing is not modelled; how the number of an address is spelled is a parameter, any spelling that tells numbers apart and uses neither comma nor percent sign.
- `sort.Slice` over results collected from a map is modelled by listing the collected map in the sorted order of its keys.
- The throttle reads its clock before it takes its lock; a run is the sequence of attempts as they take the lock, at non-decreasing instants.
- Throttling.AtMostTwiceTheLimit: says nothing of a source that is evicted inside the interval, whose count restarts, as the code documents.
- Authoring.VersionCountsChanges: is stated for writes on condition, because it fails without; see `UnconditionalReplaceRepeatsVersion`.
