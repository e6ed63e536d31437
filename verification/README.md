# Verified model of the Twilight Core Explorer

The explorer turns a CometBFT block stream into derived tables and republishes them. This project models
the parts of it that carry real reasoning, as Dafny state machines, classes and functions, and proves what
they promise over every input, every run and every interleaving. `dafny verify dfyconfig.toml` checks all
of it.

## What is modelled

**The consensus-window pipeline.** `TemporalMap` is the table of half-open validator windows per slot and
consensus address, with every branch of opening, closing, lifecycle events and key rotations;
`TemporalMapProjection` is the projection that updates it in place, and `TemporalMapDriver` the command that
runs it, with its start, its cap and its genesis seed. `WindowSteps` tells the whole table, failures and counters
after every step from the rows alone, `GenesisSeed` what seeding leaves behind, `StepEffects` what each kind of event
does to its slot or why it is refused. `WindowSafety` proves what every run keeps, `WindowFinality` that processed history stays put,
`WindowDisjointness` and `DisjointRuns` exactly when windows never overlap. `BlockSignatures` stores the commit
signatures, `Attribution` looks up who signed and who proposed, `BlockEvidence` follows a block from its raw
signatures to the verdicts, and `Pipeline` interleaves temporal-map heights
with cursor-capped downstream ticks as one transition system; `AttributionFields` and `FullConfluence` extend
its confluence to operator and power. `Liveness` and `LivenessProjection` turn attributed evidence into one
verdict per expected slot.

**Ingestion.** `IngestRange` is the worker pool with its shared variables, and the transition system whose
atomic steps are the stretches of code between two awaits; `IngestSafety` proves the watermark and cursor
claims, termination and error reporting over every reachable state, `IngestCursor` exactly when a finished range
leaves its end persisted.

**The liveness summary.** `LivenessSummary` holds the batch summary, `SummaryStream` the constant-space fold
with its ring buffer and the keyset read, `SummaryProjection` the chunk loop that ties them together, and
`SummaryTable` what the resulting tables say, read off the evidence rows.

**The selection-draw verifier.** `DrawFraming` is the byte framing of everything that is hashed, `DrawRecord`
the bounded parsing of the published record, `WinnerCount` the basis-point arithmetic, `DrawBeacon` the window
assessment, `DrawVerify` the verifier itself, a function and the procedure that computes it stage by stage.
`DrawSoundness` says exactly when a draw is verified, `DrawHonest` that an honest operator's record is whenever
the chain data is there, `DrawDegradation` that missing chain data never turns
it into a contradiction, `DrawBinding` what one anchor memo fixes. `DrawSpec` says what record, anchor, policy and
blocks must say to each other without any function of the verifier, `DrawReading` and `DrawContradiction` that all
three verdicts are exactly that, `DrawReport` which checks are listed in which order and with which answers,
`DrawLayout` where every field stands in the hashed bytes. SHA-256 is a parameter.

**Pagination.** `Decimal`, `Utf8` and `Base64Url` are the text layers of the cursor `Codec`; `Feed` is the
merged keyset feed of three event tables, up to a client that follows `nextCursor` to the end, and `FeedMeaning`
which events it holds, in which order, and which cursor texts are refused.

**Correlation and sampling.** `KeyRotation` and `KeyRotationSafety` are the four-pass rotation projection and
its status machine over any order of projected and re-projected heights, `KeyRotationFields` and
`KeyRotationRewrites` what a row keeps of its request and what re-projection rewrites, `KeyRotationSteps` what every
message and event does to rows and failures; `Lifecycle` and `LifecycleCorrelation` the two-pass matching of lifecycle
messages and events, `LifecycleRows` the fields of every row and every failure; `PrivacyGuard`, `Sampler` and
`SamplerSafety` the operator-feed sampler over arbitrary answers, and `SamplerPlan` which requests a run makes.

`Wrappers`, `Counting`, `Sorting`, `Bytes` and `Hex` are shared helpers.

Tables are sequences, maps or sets with their unique keys; a database transaction is one atomic step. Rows
start typed: probing JSON for alternative field spellings, hex and bech32 validation, and protobuf decoding
are outside the model, and what they yield (a parsed slot, a normalised address, an extracted payload or the
kind of failure) is a field of the row. Text is a list of Unicode scalar values.

## Findings

- Slot, window and attribution status are final once attributed under the cap; operator and power are not,
  because re-opening an existing window refreshes them. A re-opening changes lookups exactly when it gives an
  operator or a power that differs from the window's (`AttributionFields.RefreshKeepsLookupsExactly`), and
  interleavings agree on these fields too exactly when no height changes one that was already readable
  (`FullConfluence.FullyConfluentExactly`). Without the cap, evidence can be stale for good
  (`Pipeline.UncappedEvidenceIsStale`).
- A refused opening is not always a no-op: it is exactly when no open window of the slot starts before it. Else
  another slot owns the address and the slot's old window is ended all the same
  (`WindowDisjointness.RefusedOpeningIsANoOpExactly`).
- Windows of a slot or an address stay disjoint over a run exactly when every created window starts at or after
  the ends of the related ones (`DisjointRuns.RunStaysDisjointExactly`); effective heights 18 and then 13 break it
  (`DisjointRuns.DecreasingBoundaryOverlaps`).
- Cursor writes of two workers may land out of order. Every quiet range ends with its end persisted exactly when
  there is one worker or one height (`IngestCursor.EndIsPersistedExactly`); otherwise the cursor can end as far
  back as the first height (`IngestCursor.HeldWriteLeavesCursorBehind`), never beyond what was ingested.
- Two malformed slots whose evidence ends at the same height share one failure row of the summary
  (`SummaryProjection.NoFailureRowIsLostExactly`).
- Seeding genesis leaves the temporal-map cursor at 1 before height 1 is projected. All heights up to the cursor
  have been projected exactly when the seeding run got to height 1
  (`TemporalMapDriver.EveryHeightIsProjectedExactly`); a reset while an upstream projection is at 0, or a throw at
  height 1, skips its events until the next reset (`ResetBeforeUpstreamsSkips`, `SkippedForGood`).
- An indexed anchor transaction without its memo makes every otherwise verified draw a mismatch, unlike an
  unindexed one (`DrawDegradation.MissingMemoContradicts`).
- Projecting a request's height again rewrites a row that was applied at another height: its effective height
  exactly when the application named none and the request did, its old address exactly when the two differ
  (`KeyRotationRewrites.ReprojectionRewritesExactly`, with a run in `AppliedRowIsRewritten`). The temporal map
  prefers the effective height, so the window boundary of the rotation then depends on which height was projected
  last. Slot, new address, operator and status never change (`KeyRotationFields.RowsKeepTheirRequest`).

## Model

| member | source | states |
|---|---|---|
| `TemporalMapProjection.Projection.EndSelectedWindows` | apps/indexer/src/projections/coreslot-temporal-map.ts:858-955 | closing visits the selected windows one by one and stops at the first that cannot end, exactly as the table function says |
| `TemporalMapProjection.Projection.CloseActiveWindows` | apps/indexer/src/projections/coreslot-temporal-map.ts:858-913 | the table and failures after closing a slot's windows, including the missing, ambiguous and empty-window failures |
| `TemporalMapProjection.Projection.OpenActiveWindow` | apps/indexer/src/projections/coreslot-temporal-map.ts:775-856 | the table and failures after opening, through refresh, slot conflict, ending of the old window, address conflict and creation |
| `TemporalMapProjection.Projection.ProjectLifecycleEvent` | apps/indexer/src/projections/coreslot-temporal-map.ts:564-654 | what one lifecycle event does to table, failures and counters |
| `TemporalMapProjection.Projection.ProjectKeyRotation` | apps/indexer/src/projections/coreslot-temporal-map.ts:656-773 | what one rotation does, in every status and with every missing field |
| `TemporalMapProjection.Projection.ProjectAtHeight` | apps/indexer/src/projections/coreslot-temporal-map.ts:324-393 | a height applies its events and rotations in order and moves the cursor to it |
| `TemporalMapProjection.Projection.ProjectHeights` | apps/indexer/src/projections/coreslot-temporal-map.ts:214-247 | a range is its heights in turn |
| `TemporalMapProjection.Projection.SeedGenesis` | apps/indexer/src/projections/coreslot-temporal-map.ts:263-437 | genesis windows are opened in the table as it stands and the cursor is left at 1; an unavailable or malformed genesis is recorded and leaves windows and cursor alone |
| `WindowSteps.OpeningExactly` | apps/indexer/src/projections/coreslot-temporal-map.ts:775-856 | for any table, the refreshed row with its new fields, the ended rows, the created row field by field, or the conflict and how far the ending got |
| `WindowSteps.ClosingExactly` | apps/indexer/src/projections/coreslot-temporal-map.ts:858-955 | for any table, exactly which rows end and with what, how many are counted, and when it is missing, ambiguous or too late |
| `WindowSteps.LifecycleExactly` | apps/indexer/src/projections/coreslot-temporal-map.ts:564-654 | which opening, closing or failure each lifecycle event is, with slot, address, operator, power, height, origin and failure key |
| `WindowSteps.RotationExactly` | apps/indexer/src/projections/coreslot-temporal-map.ts:656-773 | the same for a rotation in each status, with the address to close and the boundary |
| `WindowSteps.HeightExactly` | apps/indexer/src/projections/coreslot-temporal-map.ts:324-393 | a height is its lifecycle events and then its rotations, each in order, from its own failures cleared |
| `GenesisSeed.GenesisSeedExactly` | apps/indexer/src/projections/coreslot-temporal-map.ts:439-498 | seeding an empty table: one window per entry that no earlier window-owning entry shares slot or address with, open from height 1, with the operator and power last given for the pair; every active entry without slot or address, and every colliding one, adds exactly its failure, and both are counted |
| `GenesisSeed.WindowsExactly` | apps/indexer/src/projections/coreslot-temporal-map.ts:444-498 | a slot and address own a window if and only if an active entry names both and no earlier entry with a window has either |
| `GenesisSeed.InactiveEntriesAreSkipped` | apps/indexer/src/projections/coreslot-temporal-map.ts:545-549 | an inactive entry anywhere in the list changes nothing |
| `GenesisSeed.SeedFromExactly` | apps/indexer/src/projections/coreslot-temporal-map.ts:263-437 | an unavailable or malformed genesis records exactly its failure and opens nothing; a readable one replaces the failures of height 0 |
| `TemporalMapDriver.Driver.Invoke` | apps/indexer/src/projections/coreslot-temporal-map-cli.ts:37-90 | one run of the command: reset, start behind the cursor, end capped at the upstreams, seed, and heights up to the first that throws |
| `TemporalMapDriver.RunExactly` | apps/indexer/src/projections/coreslot-temporal-map-cli.ts:37-90 | which consecutive heights a run projects, from where and up to where, what it seeds, and the cursor it ends with |
| `TemporalMapDriver.EveryHeightIsProjectedExactly` | apps/indexer/src/projections/coreslot-temporal-map.ts:299-304 | over every sequence of runs, every height from 1 to the cursor has been projected if and only if the last seeding run got to height 1 |
| `TemporalMapDriver.SkippedForGood` | apps/indexer/src/projections/coreslot-temporal-map-cli.ts:50-51 | after a seeding run that did not, no run without a reset ever projects height 1 |
| `TemporalMapDriver.ResetBeforeUpstreamsSkips` | apps/indexer/src/projections/coreslot-temporal-map-cli.ts:76-89 | a reset with an upstream at 0 is such a run: the next one projects exactly the heights from 2 on |
| `WindowSafety.ClosingIsNeverAmbiguous` | apps/indexer/src/projections/coreslot-temporal-map.ts:858-913 | over a valid table a close never reports an ambiguous window and ends at most one |
| `WindowSafety.OpeningOutcomeExactly` | apps/indexer/src/projections/coreslot-temporal-map.ts:775-856 | when an opening refreshes, conflicts with the slot or conflicts with the address, each as an if and only if |
| `WindowSafety.OpeningTakesEffect` | apps/indexer/src/projections/coreslot-temporal-map.ts:775-856 | a successful opening leaves a window for its slot and address at its boundary and ends every other open window of the slot there |
| `WindowSafety.ClosingTakesEffect` | apps/indexer/src/projections/coreslot-temporal-map.ts:915-955 | a successful close ends exactly the selected windows at its boundary and changes nothing else |
| `WindowSafety.StepsKeepWindowSafety` | apps/indexer/src/projections/coreslot-temporal-map.ts:564-773 | any sequence of events and rotations keeps windows non-empty with at most one open per slot, never moves a closed bound, and never reports an ambiguous window |
| `WindowSafety.RunKeepsWindowSafety` | apps/indexer/src/projections/coreslot-temporal-map.ts:214-247 | the same over every run of heights |
| `StepEffects.ActivationTakesEffect` | apps/indexer/src/projections/coreslot-temporal-map.ts:564-654 | an activation gives its slot a window from two heights after the update on, or records the one conflict that prevents it |
| `StepEffects.DeactivationTakesEffect` | apps/indexer/src/projections/coreslot-temporal-map.ts:564-654 | an inactivation, suspension or removal ends exactly the slot's open window there, or records that it starts too late |
| `StepEffects.RotationTakesEffect` | apps/indexer/src/projections/coreslot-temporal-map.ts:656-773 | a rotation without a failure leaves the new address's window and no other open window of the slot |
| `StepEffects.RotationFailsExactly` | apps/indexer/src/projections/coreslot-temporal-map.ts:656-773 | when a rotation fails, with which single failure, and that the windows stay as they were unless only another slot's claim stopped it, which ends the slot's open window |
| `StepEffects.QuietHeightsKeepWindows` | apps/indexer/src/projections/coreslot-temporal-map.ts:20-24 | heights projected before their rows exist open no window, and nothing later makes up for it |
| `TemporalMapProjection.MinUpstreamCursorHeight` | apps/indexer/src/projections/coreslot-temporal-map.ts:31-50 | the loop returns the least upstream cursor, with a missing one as zero |
| `WindowFinality.LookupIsFinal` | apps/indexer/src/projections/coreslot-temporal-map.ts:957-987 | tables that agree up to a height answer every lookup at or below it alike |
| `WindowFinality.HistoryIsFinal` | apps/indexer/src/projections/coreslot-temporal-map.ts:1059-1071 | if boundaries take effect two heights later or more, no later run changes which windows cover any height up to cursor + 2 |
| `WindowFinality.HistoryIsFinalExactly` | apps/indexer/src/projections/coreslot-temporal-map.ts:74-79 | coverage at a height is safe from every later run if and only if the height is at most cursor + 2 |
| `WindowFinality.TakesEffectLaterExactly` | apps/indexer/src/projections/coreslot-temporal-map.ts:1059-1071 | boundaries lie two heights later or more exactly when no row's validator update is before the height it is projected at |
| `WindowFinality.CreationCoversFromBoundary` | apps/indexer/src/projections/coreslot-temporal-map.ts:775-856 | a created window covers exactly the heights from its boundary on and changes coverage at no other |
| `WindowDisjointness.DisjointMeansOneWindowPerHeight` | apps/indexer/src/projections/coreslot-temporal-map.ts:957-1057 | windows being ordered pairwise is the same as at most one window per slot and per address covering any height |
| `WindowDisjointness.GenesisSeedIsDisjoint` | apps/indexer/src/projections/coreslot-temporal-map.ts:439-498 | seeding genesis gives valid, disjoint windows |
| `WindowDisjointness.OpeningKeepsDisjointExactly` | apps/indexer/src/projections/coreslot-temporal-map.ts:798-856 | a created window keeps the table disjoint if and only if it starts after the ends of its related windows |
| `WindowDisjointness.OrderedRunStaysDisjoint` | apps/indexer/src/projections/coreslot-temporal-map.ts:214-393 | from genesis, boundaries that never decrease in processing order keep at most one window per slot and per address at any height |
| `DisjointRuns.StepKeepsDisjointExactly` | apps/indexer/src/projections/coreslot-temporal-map.ts:564-773 | one event or rotation keeps windows disjoint if and only if the window it creates, if any, comes last |
| `DisjointRuns.RunStaysDisjointExactly` | apps/indexer/src/projections/coreslot-temporal-map.ts:214-393 | a run from disjoint windows stays disjoint throughout if and only if every window it creates comes last |
| `DisjointRuns.DecreasingBoundaryOverlaps` | apps/indexer/src/projections/coreslot-temporal-map.ts:1059-1061 | two projected heights after the genesis seed whose boundaries decrease and leave a slot two windows at one height |
| `WindowDisjointness.RefusedOpeningIsANoOpExactly` | apps/indexer/src/projections/coreslot-temporal-map.ts:798-836 | a refused opening changes nothing if and only if no open window of the slot starts before it; otherwise exactly that window is ended |
| `BlockSignatures.StoredRowsExactly` | apps/indexer/src/projections/block-signatures.ts:161-261 | which signature rows a block yields, and that the committed height is the source height minus one |
| `BlockSignatures.Projection.StoreSignatures` | apps/indexer/src/projections/block-signatures.ts:205-252 | the in-place loop over the commit's signatures stores exactly those rows and failures |
| `BlockSignatures.Projection.ProjectAtHeight` | apps/indexer/src/projections/block-signatures.ts:115-261 | a height upserts its rows, replaces its failures and moves the cursor, through every malformed-block branch |
| `BlockEvidence.StoredSignaturesExactly` | apps/indexer/src/projections/block-signatures.ts:205-252 | one row per signature that is an object, with a normalised address or none, the code of its flag, and signed exactly for the commit flag |
| `BlockEvidence.BlockRowsExactly` | apps/indexer/src/projections/block-signatures.ts:190-252 | a block's rows are those of its commit's signatures, and none without a commit or signatures |
| `BlockEvidence.BlockFailuresExactly` | apps/indexer/src/projections/block-signatures.ts:115-261 | when a block is reported with each kind of failure |
| `Attribution.LookupExactly` | apps/indexer/src/projections/operator-signing-evidence.ts:242-279 | attributed if and only if a window of the address covers the height, and then with that window's slot; unmapped and no-window otherwise |
| `BlockEvidence.ClassifySignatureExactly` | apps/indexer/src/projections/operator-signing-evidence.ts:198-266 | when a signature gets each status and each failure, and the slot, window, operator and power it then has |
| `BlockEvidence.ClassifyProposerExactly` | apps/indexer/src/projections/proposer-attribution.ts:150-190 | the same for a proposer, whose row keeps no power |
| `BlockEvidence.BlockEvidenceExactly` | apps/indexer/src/projections/operator-signing-evidence.ts:139-266 | every raw signature of a block has one evidence row, with the attribution that its address, flag and block call for |
| `Attribution.SignatureSettles` | apps/indexer/src/projections/operator-signing-evidence.ts:198-266 | tables that agree up to the committed height classify a signature to the same status, slot and window |
| `Attribution.ProposerSettles` | apps/indexer/src/projections/proposer-attribution.ts:150-190 | the same for a block's proposer |
| `AttributionFields.RefreshKeepsLookupsExactly` | apps/indexer/src/projections/coreslot-temporal-map.ts:781-796 | re-opening a window leaves every lookup as it was, operator and power included, if and only if it gives none that differs |
| `AttributionFields.CreationKeepsLookupsBelow` | apps/indexer/src/projections/coreslot-temporal-map.ts:798-856 | creating a window changes no lookup below its boundary |
| `AttributionFields.RunKeepsLookupsExactly` | apps/indexer/src/projections/coreslot-temporal-map.ts:564-773 | below all boundaries, lookups stay the same at every moment of a run if and only if none of its steps re-opens a window with another operator or power |
| `Attribution.EvidenceProjection.ProjectAtHeight` | apps/indexer/src/projections/operator-signing-evidence.ts:139-196 | a height upserts the classification of each of its signatures and replaces its failures |
| `Attribution.EvidenceProjection.ProjectHeights` | apps/indexer/src/projections/operator-signing-evidence.ts:105-137 | a range upserts the classification of every signature of its heights, replaces the failures of its blocks with signatures and ends with the cursor at its end |
| `Attribution.ProposerProjection.ProjectAtHeight` | apps/indexer/src/projections/proposer-attribution.ts:106-148 | a height upserts its proposer's classification, replaces its failures and moves the cursor |
| `Attribution.ProposerProjection.ProjectHeights` | apps/indexer/src/projections/proposer-attribution.ts:77-104 | a range does so for every indexed block and ends with the cursor at its end |
| `Attribution.CapEndHeight` | apps/indexer/src/projections/coreslot-temporal-map.ts:58-70 | a downstream range never ends above the temporal-map cursor, nor above what was requested |
| `Pipeline.CappedTickIsEnabled` | apps/indexer/src/projections/coreslot-temporal-map.ts:58-70 | every height of a capped range may be projected |
| `Pipeline.EveryRunSettles` | apps/indexer/src/projections/operator-signing-evidence.ts:105-196 | in every interleaving every stored attribution stays what the current windows say it is |
| `Pipeline.RunResult` | apps/indexer/src/projections/proposer-attribution.ts:77-148 | the result of an interleaving depends only on the map heights and the sets of downstream heights |
| `Pipeline.Confluence` | apps/indexer/src/projections/operator-signing-evidence.ts:105-137 | two interleavings of the same work end in the same windows and the same settled attributions |
| `Pipeline.InterleavingEqualsOnceAtTheEnd` | apps/indexer/src/projections/coreslot-temporal-map.ts:58-70 | any capped interleaving ends like projecting the whole map first and everything downstream once at the end |
| `FullConfluence.FullyConfluentExactly` | apps/indexer/src/projections/operator-signing-evidence.ts:242-255 | every interleaving on every chain stores at every moment what the present windows give, operator and power included, if and only if no height changes an operator or power that was readable before |
| `FullConfluence.FullConfluence` | apps/indexer/src/projections/coreslot-temporal-map.ts:58-70 | then two interleavings of the same work end in identical tables |
| `FullConfluence.HarmlessHeightKeepsSeen` | apps/indexer/src/projections/coreslot-temporal-map.ts:786-794 | a height whose steps re-open no window with another operator or power is such a height |
| `Pipeline.UncappedEvidenceIsStale` | apps/indexer/src/projections/coreslot-temporal-map.ts:58-70 | without the cap some evidence differs for good from what the windows later say |
| `Liveness.EvaluateHeight` | apps/indexer/src/projections/coreslot-liveness.ts:195-316 | a height is accepted if and only if it is acceptable, and a refusal names a condition that really holds |
| `Liveness.CheckExpected` | apps/indexer/src/projections/coreslot-liveness.ts:200-209 | whether the expected slots are distinct, and which they are |
| `Liveness.CollectVotes` | apps/indexer/src/projections/coreslot-liveness.ts:211-246 | the vote maps and counters the evidence loop builds |
| `Liveness.AcceptedHeightIsAccounted` | apps/indexer/src/projections/coreslot-liveness.ts:264-316 | an accepted height has one row per expected slot, split into signed, nil and absent, equal in number to commits, nil votes and anonymous absences |
| `Liveness.RowExactly` | apps/indexer/src/projections/coreslot-liveness.ts:264-316 | a slot that committed is signed, with its last commit and that commit's block; one that only voted nil missed with its last nil vote; any other missed without a vote |
| `BlockEvidence.VotesAreCounted` | apps/indexer/src/projections/coreslot-liveness.ts:211-246 | the absences, commits and nil votes a height is judged with are as many as those of its raw block |
| `BlockEvidence.AcceptedHeightMatchesItsBlock` | apps/indexer/src/projections/coreslot-liveness.ts:248-316 | an accepted height has as many signed rows as its raw block has commits of window owners, and as many absent rows as absent votes |
| `Liveness.EvidenceOrderDoesNotMatter` | apps/indexer/src/projections/coreslot-liveness.ts:195-316 | acceptance and every slot's verdict are the same for every order of the evidence |
| `LivenessProjection.ActiveWindowsExactly` | apps/indexer/src/projections/coreslot-temporal-map.ts:989-1002 | the expected windows at a height are exactly the covering ones, by slot and then by start |
| `LivenessProjection.DisjointWindowsExpectDistinctSlots` | apps/indexer/src/projections/coreslot-liveness.ts:200-209 | disjoint windows never make a slot expected twice |
| `LivenessProjection.GroupByCommittedHeight` | apps/indexer/src/projections/coreslot-liveness.ts:325-335 | every observation is in its height's group and in no other, as often as it was read and in the order it was read, and no group is empty |
| `LivenessProjection.Projection.ProjectCommittedHeight` | apps/indexer/src/projections/coreslot-liveness.ts:163-193 | a height's rows are deleted and, if accepted, recreated; other heights are untouched |
| `LivenessProjection.AttributedSlotIsExpected` | apps/indexer/src/projections/operator-signing-evidence.ts:242-255 | the slot of every attributed signature is expected at its height |
| `LivenessProjection.PipelineNeverRefusesAttribution` | apps/indexer/src/projections/coreslot-liveness.ts:200-262 | on evidence of any capped run, the malformed-input and observed-not-expected refusals are unreachable, and so is the duplicate-slot one while windows are disjoint |
| `IngestRange.Range.AdvanceWatermark` | apps/indexer/src/ingest-range.ts:55-62 | the watermark loop moves over exactly the consecutive completed heights |
| `IngestRange.Range.Claim` | apps/indexer/src/ingest-range.ts:64-70 | a worker claims the next height, or stops after an error or at the end |
| `IngestRange.Range.OnIngested` | apps/indexer/src/ingest-range.ts:73-95 | the shared variables after a height lands, and the cursor write it triggers |
| `IngestRange.Range.OnThrow` | apps/indexer/src/ingest-range.ts:100-108 | the error kept is that of the lower height |
| `IngestSafety.AdvanceExactly` | apps/indexer/src/ingest-range.ts:55-62 | the new watermark is the last height of the run of completed heights, none of which stays pending |
| `IngestSafety.RunKeepsInv` | apps/indexer/src/ingest-range.ts:41-124 | every interleaving keeps the claims, workers, watermark, hash, write and error invariants |
| `IngestSafety.WatermarkIsSafe` | apps/indexer/src/ingest-range.ts:86-95 | in every reachable state all heights up to the watermark are ingested, the watermark is maximal, and neither the persisted cursor nor a pending write claims more, each with its own height's hash |
| `IngestSafety.StepDecreasesWork` | apps/indexer/src/ingest-range.ts:64-110 | every step decreases the remaining work |
| `IngestSafety.RunsAreBounded` | apps/indexer/src/ingest-range.ts:112-112 | so no run is longer than the work it starts with |
| `IngestSafety.SomeStepIsEnabled` | apps/indexer/src/ingest-range.ts:64-112 | the pool is stuck exactly when every worker has stopped |
| `IngestSafety.ClaimsAreConsecutive` | apps/indexer/src/ingest-range.ts:66-70 | heights are claimed one after another, each once |
| `IngestSafety.QuietRangeIsComplete` | apps/indexer/src/ingest-range.ts:112-123 | when nothing throws, every height of the range is ingested and the end and count are returned |
| `IngestSafety.FailedRangeReportsLeast` | apps/indexer/src/ingest-range.ts:100-121 | otherwise the error of the least throwing height is thrown, and the watermark stays below every failed height |
| `IngestCursor.EndIsPersistedExactly` | apps/indexer/src/ingest-range.ts:41-112 | every quiet run of a range leaves its end persisted with its hash if and only if there is one worker or one height |
| `IngestCursor.LastWriteDecides` | apps/indexer/src/cursor.ts:28-53 | one quiet run does if and only if the write that landed last claims the end |
| `IngestCursor.HeldWriteLeavesCursorBehind` | apps/indexer/src/ingest-range.ts:86-99 | for any two or more workers and heights some quiet run leaves the cursor at the first height |
| `IngestCursor.OrderedWritesPersistTheEnd` | apps/indexer/src/ingest-range.ts:86-99 | writes that land in order always persist the end |
| `LivenessSummary.BuildSummary` | apps/indexer/src/projections/coreslot-liveness-summary.ts:352-436 | the counting, streak and latest-miss loops compute the batch summary |
| `LivenessSummary.TrailingRunExactly` | apps/indexer/src/projections/coreslot-liveness-summary.ts:380-393 | the streak is the longest run of equal statuses at the end |
| `LivenessSummary.LatestMissedExactly` | apps/indexer/src/projections/coreslot-liveness-summary.ts:395-402 | the latest missed height is that of the last missed row |
| `LivenessSummary.WellShapedRowsAreCounted` | apps/indexer/src/projections/coreslot-liveness-summary.ts:336-350 | well-shaped rows split into signed, absent and nil |
| `SummaryStream.SlotStream.Feed` | apps/indexer/src/projections/coreslot-liveness-summary.ts:233-282 | one constant-space update of a slot's state stands for one more row seen |
| `SummaryStream.SlotStream.MaterializeRing` | apps/indexer/src/projections/coreslot-liveness-summary.ts:284-289 | the ring buffer holds exactly the last thousand rows in order |
| `SummaryStream.SlotStream.LifetimeSummary` | apps/indexer/src/projections/coreslot-liveness-summary.ts:291-334 | the running totals give the batch summary over all rows seen |
| `SummaryStream.FilterExactly` | apps/indexer/src/projections/coreslot-liveness-summary.ts:128-150 | a keyset read returns the rows after the cursor within the bound, in key order |
| `SummaryStream.ReadContinues` | apps/indexer/src/projections/coreslot-liveness-summary.ts:128-178 | reading after the n-th row continues with the next one: nothing is skipped or read twice |
| `SummaryProjection.ReadStates` | apps/indexer/src/projections/coreslot-liveness-summary.ts:126-150 | for every chunk size the chunk loop ends having fed every slot exactly its rows |
| `SummaryProjection.Assemble` | apps/indexer/src/projections/coreslot-liveness-summary.ts:150-178 | the assembled summaries and violations are the batch ones over all rows and over the last n |
| `SummaryProjection.Projection.Project` | apps/indexer/src/projections/coreslot-liveness-summary.ts:100-219 | the table is replaced by the batch summaries of every slot, with its failures and cursor |
| `SummaryProjection.SlotIsSummarised` | apps/indexer/src/projections/coreslot-liveness-summary.ts:150-178 | a summary is stored exactly when it is one of its slot's own rows' summaries |
| `SummaryProjection.RecentSummariesExactly` | apps/indexer/src/projections/coreslot-liveness-summary.ts:71-77 | the recent summaries are those over the last 100, 500 and 1000 rows |
| `SummaryProjection.NoFailureRowIsLostExactly` | apps/indexer/src/projections/coreslot-liveness-summary.ts:446-461 | failure rows are as many as violations exactly when no two end at one height |
| `SummaryTable.SummaryExactly` | apps/indexer/src/projections/coreslot-liveness-summary.ts:352-436 | every field of a summary read off its rows: counts, uptime in basis points rounded down and 10000 only if all are signed, ends, span, streaks, latest miss and invalid heights |
| `SummaryTable.SlotTableExactly` | apps/indexer/src/projections/coreslot-liveness-summary.ts:150-178 | a slot with well-shaped rows has a lifetime summary and those over its last 100, 500 and 1000 rows, each saying what its rows do; any other slot has none |
| `SummaryTable.OneSummaryPerKey` | apps/indexer/src/projections/coreslot-liveness-summary.ts:291-334 | no two summaries share slot and kind |
| `SummaryTable.FailuresExactly` | apps/indexer/src/projections/coreslot-liveness-summary.ts:157-219 | a failure row stands at a height if and only if a corrupt slot ends there, and names the lowest malformed height of the greatest such slot |
| `SummaryTable.CursorExactly` | apps/indexer/src/projections/coreslot-liveness-summary.ts:152-190 | an unbounded run leaves the cursor at the greatest height of any row |
| `Utf8.DecodeOfEncode` | apps/api/src/lib/pagination.ts:47-48 | text is read back from its UTF-8 bytes |
| `Base64Url.DecodeOfEncode` | apps/api/src/lib/pagination.ts:29-31 | bytes are read back from their unpadded base64url text |
| `Base64Url.EncodeExactly` | apps/api/src/lib/pagination.ts:29-31 | the text has the least length that holds the bytes' bits; read in the alphabet's order as one base-64 number it is the bytes' number followed by the padding's zero bits |
| `Base64Url.EncodeOfDecodeExactly` | apps/api/src/lib/pagination.ts:40-52 | re-encoding gives the same text exactly when no character is left over and the unused bits are zero |
| `Codec.ParseSingleExactly` | apps/api/src/lib/pagination.ts:40-52 | a cursor text is accepted with a decoded text exactly when it is the encoding of that text and not empty |
| `Codec.CursorRoundTrip` | apps/api/src/lib/pagination.ts:28-36 | decoding an encoded height gives it back if it is at most 2^63-1, and is refused otherwise |
| `Codec.DecodeCursorExactly` | apps/api/src/lib/pagination.ts:22-36 | which texts decode to a height |
| `Codec.JoinOfSplit` | apps/api/src/lib/pagination.ts:55-66 | splitting at colons gives colon-free parts that join to the text |
| `Codec.SplitOfJoin` | apps/api/src/lib/pagination.ts:55-66 | joined colon-free parts split back |
| `Codec.DecodeKeysetExactly` | apps/api/src/lib/pagination.ts:54-66 | a text decodes into parts exactly when it is their encoding and they are non-empty, colon-free and at least one |
| `Feed.RemainingExactly` | apps/api/src/repositories/coreslots-repository.ts:68-85 | what is left after a cursor is in feed order and holds exactly the slot's events after it |
| `Feed.PageIsNext` | apps/api/src/repositories/coreslots-repository.ts:49-66 | merging limit + 1 rows per table gives exactly the next limit + 1 events of the whole feed |
| `Feed.EventCursorRoundTrip` | apps/api/src/routes/coreslots.ts:144-151 | an event cursor survives its text form exactly when its numbers are at most 2^63-1 |
| `Feed.PageIsNextPage` | apps/api/src/routes/coreslots.ts:139-165 | one response is the next limit events, with a cursor at the last of them exactly when more are left |
| `Feed.RemainingContinues` | apps/api/src/repositories/coreslots-repository.ts:74-85 | continuing after an event leaves exactly the events behind it |
| `Feed.ReadAll` | apps/api/src/routes/coreslots.ts:139-165 | following nextCursor until it is absent reads the whole feed once, in order, for every limit and kind filter |
| `FeedMeaning.FeedExactly` | apps/api/src/repositories/coreslots-repository.ts:49-72 | the feed holds exactly the slot's rows of the asked kind, each from its kind's table, by height, then lifecycle, metadata, payout, then id |
| `FeedMeaning.LeftExactly` | apps/api/src/repositories/coreslots-repository.ts:74-85 | what is left behind a cursor is exactly what follows it in that order |
| `FeedMeaning.CursorTextExactly` | apps/api/src/routes/coreslots.ts:144-151 | which texts decode to a cursor |
| `FeedMeaning.ResponseExactly` | apps/api/src/routes/coreslots.ts:139-165 | a request is refused if and only if its text is no cursor's; any spelling of a cursor gets the page behind it |
| `Hex.DrawId32Exactly` | apps/api/src/lib/draw-verify.ts:57-62 | a draw id is accepted in exactly one spelling |
| `DrawFraming.DecodeOfEncode` | apps/api/src/lib/draw-verify.ts:78-95 | the bytes hashed for a candidate set, beacon, ticket, selection or parameter set parse back to it |
| `DrawFraming.FramingIsInjective` | apps/api/src/lib/draw-verify.ts:306-365 | no two inputs, of one kind or of two, share a byte string |
| `DrawLayout.CandidateSetLayout` | apps/api/src/lib/draw-verify.ts:83-97 | the domain text, the context, the count and the ids of a candidate set, each at its byte offset |
| `DrawLayout.BeaconLayout` | apps/api/src/lib/draw-verify.ts:306-324 | the same for a beacon with its blocks |
| `DrawLayout.TicketLayout` | apps/api/src/lib/draw-verify.ts:336-351 | the same for a ticket |
| `DrawLayout.SelectedLayout` | apps/api/src/lib/draw-verify.ts:353-365 | the same for the selected winners |
| `DrawLayout.ParametersLayout` | apps/api/src/lib/draw-verify.ts:222-236 | the fourteen length-prefixed fields of the parameters, in order, and nothing else |
| `WinnerCount.SplitShareIsExact` | apps/api/src/lib/draw-verify.ts:326-334 | the split basis-point form equals the plain quotient for all numbers |
| `WinnerCount.CountWinners` | apps/api/src/lib/draw-verify.ts:326-334 | the cap loop computes the least of share, caps and half |
| `WinnerCount.WinnersAreBounded` | apps/api/src/lib/draw-verify.ts:326-334 | of two or more candidates at least one wins, at most half, within both caps |
| `WinnerCount.WinnersAreTheMost` | apps/api/src/lib/draw-verify.ts:326-334 | as many win as fit both caps, half of the candidates and, from two on, the rate's share |
| `WinnerCount.WinnersAreMonotone` | apps/api/src/lib/draw-verify.ts:326-334 | more candidates never mean fewer winners |
| `WinnerCount.HalfCapDoesNotBind` | apps/api/src/lib/draw-verify.ts:160-166 | up to a rate of 5000 the half cap never lowers the rate's value |
| `WinnerCount.HalfCapBindsAboveOneHalf` | apps/api/src/lib/draw-verify.ts:160-162 | at every rate above 5000 it does for some number of candidates |
| `DrawRecord.ParseParameters` | apps/api/src/lib/draw-verify.ts:132-220 | the field loop and rule chain decide between accepted, refused and beyond this verifier's limits |
| `DrawRecord.ParametersAcceptedExactly` | apps/api/src/lib/draw-verify.ts:159-219 | parameters are accepted exactly when all are bounded numbers that satisfy the rules read as one condition |
| `DrawRecord.ParseCandidates` | apps/api/src/lib/draw-verify.ts:238-250 | the pass over neighbours accepts exactly the lists that increase throughout |
| `DrawRecord.CandidatesExactly` | apps/api/src/lib/draw-verify.ts:238-250 | the accepted lists are the lower-case, non-zero, strictly increasing ones within the caps |
| `DrawReading.NumberExactly` | apps/api/src/lib/draw-verify.ts:64-76 | the accepted numbers are those of at most twelve digits, as JSON number or decimal text |
| `DrawReading.DigestExactly` | apps/api/src/lib/draw-verify.ts:390-395 | digests are compared digit by digit, in either case |
| `DrawReading.RefusesExactly` | apps/api/src/lib/draw-verify.ts:132-220 | when parameters are refused, as opposed to beyond the verifier's limits |
| `DrawReading.AnchorFailsExactly` | apps/api/src/lib/draw-verify.ts:587-608 | the indexed anchor is contradicted if and only if its memo does not commit to this slot and epoch and to what the record publishes |
| `DrawBeacon.AssessBeacon` | apps/api/src/lib/draw-verify.ts:275-304 | assessing the fetched rows alone gives what assessing every height of the window would |
| `DrawBeacon.NothingMissingExactly` | apps/api/src/lib/draw-verify.ts:281-303 | usable, excluded and missing add up to the window, and nothing is missing exactly when every height has its hash and proposer |
| `DrawBeacon.EntriesExactly` | apps/api/src/lib/draw-verify.ts:286-296 | the beacon entries are the complete rows of other slots, in height order |
| `DrawReading.WholeExactly` | apps/api/src/lib/draw-verify.ts:275-304 | the window is whole with these entries if and only if the last row of each height has hash and proposer and the entries are those of other slots |
| `DrawVerify.VerifyDraw` | apps/api/src/lib/draw-verify.ts:434-764 | the staged procedure computes the specified checks and verdict |
| `DrawSoundness.DrawExactly` | apps/api/src/lib/draw-verify.ts:727-739 | the drawn winners are the K candidates least by ticket then id, in that order, and nothing else is |
| `DrawSoundness.VerifiedExactly` | apps/api/src/lib/draw-verify.ts:430-764 | verified if and only if some parameters, candidates, beacon blocks and winners are confirmed by the chain data and published by the record |
| `DrawContradiction.MismatchExactly` | apps/api/src/lib/draw-verify.ts:430-764 | mismatch if and only if the record is contradicted: by its shape, refused parameters, candidates, digests, policy, anchor, window, or a whole window from which no winners make its counts, beacon, outcome, number, winners and digest follow |
| `DrawContradiction.VerdictExactly` | apps/api/src/lib/draw-verify.ts:744-755 | verified if and only if everything needed is there and nothing is contradicted, and unverifiable otherwise |
| `DrawReport.ReportExactly` | apps/api/src/lib/draw-verify.ts:461-764 | every check is reported, and with each of its three answers, exactly when the record and the chain data say so: which checks are made at all, where a broken foundation stops them, and when the winners are left open because the beacon hash is another |
| `DrawReport.ReportIsOrdered` | apps/api/src/lib/draw-verify.ts:450-451 | each check is listed at most once, in one order |
| `DrawContradiction.DrawnExactly` | apps/api/src/lib/draw-verify.ts:727-739 | the drawn winners are those in ticket order before every other candidate |
| `DrawHonest.HonestIsVerifiedExactly` | apps/api/src/lib/draw-verify.ts:430-764 | the record of an honest draw is verified if and only if the policy index has caught up and agrees and, where a draw is needed, every window block is indexed with hash and proposer |
| `DrawDegradation.WithholdingNeverContradicts` | apps/api/src/lib/draw-verify.ts:455-459 | withholding blocks, hashes, attributions, the anchor, the policy or the chain id from a verified case never gives a mismatch |
| `DrawDegradation.DroppingRowsWeakens` | apps/api/src/lib/draw-verify.ts:282-285 | with unique heights, any dropping of rows or fields is such a withholding |
| `DrawDegradation.MissingMemoContradicts` | apps/api/src/lib/draw-verify.ts:589-594 | an indexed anchor without memo is a mismatch even then |
| `DrawBinding.WinnersAreDetermined` | apps/api/src/lib/draw-verify.ts:641-739 | for one anchor and one set of blocks no two records can have different winners confirmed |
| `DrawBinding.ConfirmedInputsAreFramed` | apps/api/src/lib/draw-verify.ts:25-46 | everything hashed for a confirmed draw is in the ranges the byte writers accept |
| `DrawBinding.AnchorBinds` | apps/api/src/lib/draw-verify.ts:587-608 | two draws confirmed under one memo have the same parameters and candidates, or two different byte strings share a digest |
| `KeyRotation.Projection.StoreMessage` | apps/indexer/src/projections/coreslot-key-rotation.ts:245-341 | the rows and failures one rotation message leads to |
| `KeyRotation.Projection.StoreEffect` | apps/indexer/src/projections/coreslot-key-rotation.ts:379-522 | the rows and failures one application or cancellation leads to |
| `KeyRotation.Projection.ProjectAtHeight` | apps/indexer/src/projections/coreslot-key-rotation.ts:124-238 | the four passes of a height in order |
| `KeyRotationSteps.DecisionExactly` | apps/indexer/src/projections/coreslot-key-rotation.ts:245-341 | a message takes its only requested event, else its only rotated one, and is rejected for which reason otherwise |
| `KeyRotationSteps.MessageExactly` | apps/indexer/src/projections/coreslot-key-rotation.ts:526-608 | the row a taken event gets, field by field, requested or immediate, or the failure of a rejection |
| `KeyRotationSteps.OrphanRequestExactly` | apps/indexer/src/projections/coreslot-key-rotation.ts:343-377 | a request without a message gets its row and a report, or only a report |
| `KeyRotationSteps.EffectExactly` | apps/indexer/src/projections/coreslot-key-rotation.ts:379-522 | an application or cancellation settles the row that names it, else the only open request, else stands on its own row, and with which failure |
| `KeyRotationSteps.RequestsThenApplicationsThenCancellations` | apps/indexer/src/projections/coreslot-key-rotation.ts:183-213 | at one height requests come first, then applications, then cancellations, whatever the order of ids |
| `KeyRotationSafety.HeightKeeps` | apps/indexer/src/projections/coreslot-key-rotation.ts:183-213 | projecting a height, again or for the first time, keeps the row invariant and every settled status |
| `KeyRotationSafety.HeightAccountsForEvents` | apps/indexer/src/projections/coreslot-key-rotation.ts:183-213 | afterwards every event of the height not bound to a failed transaction is on a row or has a failure |
| `KeyRotationSafety.RunKeeps` | apps/indexer/src/projections/coreslot-key-rotation.ts:110-122 | so does every run of heights in any order and with any repetition |
| `KeyRotationSafety.SettledStaysSettled` | apps/indexer/src/projections/coreslot-key-rotation.ts:401-674 | over every run a settled row keeps its status, an applied or cancelled event drives at most one row, and no row carries both kinds |
| `KeyRotationSafety.EffectSettlesTheOnlyRequest` | apps/indexer/src/projections/coreslot-key-rotation.ts:433-440 | a first-seen application or cancellation settles the only open request of its slot and new address with what the event says, and no other row |
| `KeyRotationSafety.EffectStandsAlone` | apps/indexer/src/projections/coreslot-key-rotation.ts:442-452 | without one it gets its own row and a report |
| `KeyRotationSafety.AmbiguousEffectTouchesNothing` | apps/indexer/src/projections/coreslot-key-rotation.ts:423-431 | with several it touches no row and is reported |
| `KeyRotationSafety.RequestIsRecorded` | apps/indexer/src/projections/coreslot-key-rotation.ts:526-561 | a stored request has all of the request's fields; only a new row is given a status |
| `KeyRotationFields.RowsKeepTheirRequest` | apps/indexer/src/projections/coreslot-key-rotation.ts:412-421 | over every run a requested row keeps its request's slot, new address, operator, height and message, whatever settles it |
| `KeyRotationRewrites.HeightRewrites` | apps/indexer/src/projections/coreslot-key-rotation.ts:183-213 | projecting the request's height again gives a row applied at another height the request's old address and effective height, and changes nothing else of it |
| `KeyRotationRewrites.ReprojectionRewritesExactly` | apps/indexer/src/projections/coreslot-key-rotation.ts:536-560 | over every run, when that changes either field, each as an if and only if |
| `KeyRotationRewrites.AppliedRowIsRewritten` | apps/indexer/src/projections/coreslot-key-rotation.ts:552-559 | a run of two heights and its continuation in which it changes both |
| `Lifecycle.Projection.ProjectAtHeight` | apps/indexer/src/projections/coreslot-lifecycle.ts:122-316 | the two passes of a height and its replaced failures |
| `LifecycleCorrelation.PairedExactly` | apps/indexer/src/projections/coreslot-lifecycle.ts:194-257 | a message is paired exactly with the event that it alone matches and that alone matches it, if the payload is valid |
| `LifecycleCorrelation.PairIsWritten` | apps/indexer/src/projections/coreslot-lifecycle.ts:246-260 | the row of every such pair is the pair's |
| `LifecycleCorrelation.OrphanIsWritten` | apps/indexer/src/projections/coreslot-lifecycle.ts:287-305 | an event no message matches gets its own row and a report |
| `LifecycleRows.PairTells` | apps/indexer/src/projections/coreslot-lifecycle.ts:246-260 | every field of a pair's row, from its event and its message |
| `LifecycleRows.OrphanTells` | apps/indexer/src/projections/coreslot-lifecycle.ts:287-305 | every field of the row of an event without a message, and its report |
| `LifecycleRows.FateExactly` | apps/indexer/src/projections/coreslot-lifecycle.ts:179-257 | what becomes of a message, by how many events match it and how many messages match its only one |
| `LifecycleRows.FailuresExactly` | apps/indexer/src/projections/coreslot-lifecycle.ts:179-306 | the failures of a height, each with its kind, message and event, and no others |
| `LifecycleCorrelation.OthersAreUntouched` | apps/indexer/src/projections/coreslot-lifecycle.ts:263-306 | no other row is written |
| `LifecycleCorrelation.EveryEventIsAccounted` | apps/indexer/src/projections/coreslot-lifecycle.ts:179-306 | every event not written with its message has a failure on it or on a message matching it |
| `LifecycleCorrelation.OrderDoesNotMatter` | apps/indexer/src/projections/coreslot-lifecycle.ts:179-306 | the rows are the same for every order of messages and events |
| `PrivacyGuard.GuardExactly` | apps/indexer/src/projections/operator-status-snapshot.ts:202-233 | the recursive search finds nothing exactly when no path into the payload is too long, ends at an address or passes a forbidden key |
| `PrivacyGuard.ReportIsTrue` | apps/indexer/src/projections/operator-status-snapshot.ts:202-233 | a violation that is reported is there, at some path |
| `Sampler.OperatorStatus.RecordFetch` | apps/indexer/src/projections/operator-status-snapshot.ts:262-339 | the sample after a fetch, in its three outcomes |
| `Sampler.OperatorStatus.FetchBeforeEpochs` | apps/indexer/src/projections/operator-status-snapshot.ts:408-517 | the six fetches before the epochs and when each is made |
| `Sampler.OperatorStatus.Run` | apps/indexer/src/projections/operator-status-snapshot.ts:390-634 | a whole run with its two budgets and its early exit |
| `SamplerPlan.FetchExactly` | apps/indexer/src/projections/operator-status-snapshot.ts:262-339 | a fetch changes its own sample only; payload and time are replaced by a clean answer and by nothing else |
| `SamplerPlan.StageRequestsExactly` | apps/indexer/src/projections/operator-status-snapshot.ts:408-517 | the requests before the epochs, in order: discovery and the two documents if an hour old, the clock, the unsettled epoch it names, health |
| `SamplerPlan.RunFollowsPlan` | apps/indexer/src/projections/operator-status-snapshot.ts:390-634 | a run is exactly these and then, of the first two hundred entitled epochs, the first that need an epoch or a draw request within each budget; the counters tell how they were answered |
| `SamplerSafety.RunKeeps` | apps/indexer/src/projections/operator-status-snapshot.ts:492-622 | a run replaces no settled epoch payload and no draw payload stored before it |
| `SamplerSafety.RunsKeep` | apps/indexer/src/projections/operator-status-snapshot.ts:390-634 | the same over every sequence of runs and answers |
| `SamplerSafety.NoRequestForAFinalPayload` | apps/indexer/src/projections/operator-status-snapshot.ts:534-622 | a run is its requests in turn, and with one row per entitled epoch none is made for a payload that is final at that moment |
| `SamplerSafety.FinalAtAnyMomentStays` | apps/indexer/src/projections/operator-status-snapshot.ts:564-622 | between any two moments of a run a final payload stays, also one that the run itself stored |
| `SamplerSafety.OnlyCleanPayloadsAreStored` | apps/indexer/src/projections/operator-status-snapshot.ts:283-338 | a payload changes only to the body of a successful answer that is clean |
| `SamplerSafety.RunsStayClean` | apps/indexer/src/projections/operator-status-snapshot.ts:300-322 | every payload stored by any sequence of runs is clean |
| `SamplerSafety.RunStaysInBudget` | apps/indexer/src/projections/operator-status-snapshot.ts:560-622 | a run makes at most six requests plus its budgets, and counts the latter exactly |
| `SamplerSafety.DueFetchesAreMade` | apps/indexer/src/projections/operator-status-snapshot.ts:408-517 | every run attempts the clock and the health probe, and discovery and the authentication server's documents exactly when an hour old |
| `SamplerSafety.NeededEpochsAreAttempted` | apps/indexer/src/projections/operator-status-snapshot.ts:564-609 | while epoch budget is left, no epoch that needs a fetch was passed over |

## Left out

- Prisma, SQL, advisory locks, HTTP clients, routing, rate limits, the web app, scripts and DTO mappers: plumbing without claims of their own.
- Field probing, hex and bech32 validation, protobuf and JSON parsing: rows start typed, with the parse result or failure kind as a field; in the draw record a member's value keeps its JSON type.
- SHA-256: a function parameter; the claims hold for every function from byte strings to 32 bytes.
- Timestamps, provenance columns (raw JSON, transaction hashes kept for display), error texts and caveat texts.
- Health, structural, balance, payout, parameter and metadata projections and the entitlement pages: weaker or similar claims.
- IngestRange.Range.OnThrow: takes every rejection to carry a defined reason; a rejection whose reason is `undefined` would be swallowed by the source.
- IngestSafety.WatermarkIsSafe: takes the cursor row to exist, as the indexer creates it before ingesting; halting on an error is not part of the model.
- WindowFinality.HistoryIsFinal: assumes that no row's validator update lies before the height it is projected at, which the source does not check; a lifecycle row that names an earlier effective height, or a rotation row with an earlier stored boundary, is outside it.
- WindowDisjointness.OrderedRunStaysDisjoint: assumes boundaries that do not decrease in processing order, which the source does not enforce.
- SummaryProjection.Projection.Project: the evidence table is read as one snapshot, as the fixed upper bound makes it in the source.
- Feed.ReadAll: the tables do not change while the pages are read.
- TemporalMapDriver.Driver.Invoke: without the START_HEIGHT override, with which an operator can skip any height.
- SamplerSafety.NoRequestForAFinalPayload: takes the entitled epochs to be distinct, as the unique key of their table makes them.
- DrawHonest.HonestIsVerifiedExactly: takes the two committed digests not to be zero, since the memo's parser refuses such text.
- DrawRecord.ParseParameters: a JSON number past the finite range is not represented, and members are named by the record type instead of by string.
- DrawVerify.VerifyDraw: the memo starts parsed; its length limit and the parsing itself decide only whether it is present. Case folding is that of ASCII letters, which is all that matters against hexadecimal text.
- DrawDegradation.WithholdingNeverContradicts: compares the last row per height, since dropping the last of several rows at one height can reveal an earlier one.
- KeyRotationSafety.SettledStaysSettled: the slot table's current address that an application also updates is not part of the model.
- Lifecycle.Projection.ProjectAtHeight: the slot table's current status that each written row also updates is not part of the model.
- Sampler.OperatorStatus.Run: one slot; requests are numbered instead of named by URL, so the same-origin choice of the draw and key URLs is not part of the model, and neither are the envelope's sampled_at and as_height.
