# Verified model of the operations backend

This project models the parts of the backend that carry its guarantees, and proves those guarantees for every
input, every run and every interleaving.

| module | what it models |
|---|---|
| `SignalCursor`, `CursorProtocol`, `CursorExactness` | the high-water mark of the signal consumer: its two WHERE clauses, the guarded UPDATE, any number of workers ticking while signals arrive, and exactly when a signal is processed once |
| `AuditValues`, `AuditChain`, `AuditTampering`, `AuditLedger`, `AuditBackfill` | the hash chain over audit events: snapshot values and what a jsonb column keeps of them, hashing, reading and verifying a chain, what tampering it reveals, the table with its two partial unique indexes and its triggers, racing writers, and the backfill of old rows |
| `Sql`, `Tenancy`, `TenancyTheorems`, `SiteOrganization` | the tenant boundary: per-record predicates against SQL filters with NULLs, and the saves that keep a site in its area's organization |
| `JsonValues`, `ErrorPaths`, `ConditionTree`, `ConditionTheorems` | correlation-rule conditions: the error-collecting validator, the positions its messages name, the supported shape, normalization and evaluation |
| `RecommendationReview` | reviewing and executing recommendations under a row lock, with the audit trail and the pending-row index |
| `Throttle` | the exception throttle |
| `TelemetryPartitions`, `EvalScoring`, `GraphLayout` | daily range partitions, micro-averaged scores, the layered graph layout |

Code that changes state is modelled as classes and methods proved against specification functions; protocols are
state machines whose runs are sequences of steps, a step that is not enabled leaving the state alone. Every rule is
tied to a reference that is written differently: an anchor for tenancy, single-node faults over positions for the
validator, a scan of the whole history for the throttle, the maximum of all attempts for the cursor, the expected
trail for a recommendation's audit events.

## Where the code and its comments disagree

The model follows the code.

- `ingestion_cursor.rb:6-8` says no signal is processed twice or skipped. Skipping is ruled out exactly when each
  arrival sorts after the stored mark and after every batch in flight (`ArrivalIsSafeIff`), which in-order visibility
  gives; a late commit is skipped (`LateCommitIsSkipped`). When attempts do not overlap, repeating is ruled out exactly
  when nothing is processed after an attempt failed having processed something (`SerialRunRepeatsIff`): every retry that gets anywhere repeats (`RetryRepeats`), and so do overlapping attempts
  (`OverlapRepeats`). In any in-order run nothing repeats exactly when the processed signals are a prefix of the sorted
  ones (`NothingRepeatsIffPrefix`). With no last id, a signal at the mark's own timestamp is never fetched although the
  mark may advance past it (`ReadingsOfNullDiffer`).
- `event_writer.rb:100-107` and the specs say a chain produced by the writer verifies. The writer hashes the values it is
  passed, the verifier what the jsonb columns read as. A time is hashed with six fractional digits and stored with
  three, a float written without a fraction is read as an integer, and a negative zero loses its sign, so a row
  recomputes exactly when its snapshots and metadata hold none of these (`FreshRowRecomputesIff`, `VerifyReachable`). Task events hold `created_at`, and the
  verifier calls them tampered (`VerifyTaskEvent`); tampering behind such a row does not show (`NothingShowsBehindBreak`).
- The migration that adds the chain columns says the hash covers every other column. Some edits change no hashed value:
  an absent action for an empty one, a JSON null for a SQL NULL, a number for one that rounds to the same float
  (`UnhashedDifferences`). Re-keying or dropping the last row of a chain leaves that chain valid (`RekeyIsReported`,
  `DeleteIsReported`).
- The backfill says un-chained rows link onto the existing chain. It does so exactly when each of them follows the
  tip in replay order with no other chained row between (`BackfillExtendsChainIff`); otherwise the position it computes
  is taken and the unique index raises, as for a row that sorts before the chain (`LateRowFails`).
- `area_of_operation.rb:48-53` ties an area to its creator's organization, not to that of its sites and users, so an
  area can leave its sites behind (`UnscopedCreatorBreaks`, `AreaSaveKeepsConsistentIff`).
- A throttle window below one second never throttles, because the guard truncates it (`LimitedWindow`).
- The partitioned telemetry table has no primary key, so the down migration fails exactly when ids repeat (`Down`, `RepeatedIdFails`).
- The layout comment says tasks share a column with incidents; the code moves them one column to the right.

## Model

| member | source | states |
|---|---|---|
| SignalCursor.SignalsSinceIsTheQuery | backend/app/models/ingestion_cursor.rb:41-50 | the fetched list is ordered by (ingested_at, id) and holds each row after the mark as often as the table does, and no other |
| SignalCursor.ReadingsOfNullDiffer | backend/app/models/ingestion_cursor.rb:42-78 | the fetch condition implies the advance guard, and they differ exactly on a signal at the timestamp of a mark without an id |
| SignalCursor.IngestionCursor.AdvanceTo | backend/app/models/ingestion_cursor.rb:70-95 | the stored row moves to the signal if and only if the row (not the worker's stale copy) is behind it, never decreases, and only a winner reloads its copy |
| SignalCursor.AdvanceAllIsMaximum | backend/app/models/ingestion_cursor.rb:52-63 | after any sequence of advances the stored mark is the maximum of its initial value and all attempts |
| SignalCursor.AdvancesCommute | backend/app/models/ingestion_cursor.rb:52-63 | the order in which advances take effect does not matter |
| CursorProtocol.BatchIsClosed | backend/app/jobs/correlations/evaluate_recent_job.rb:53-57 | a limited batch misses no qualifying signal that sorts at or before its last one |
| CursorProtocol.FetchOutcome | backend/app/jobs/correlations/evaluate_recent_job.rb:53-59 | a fetch starts no batch if and only if the limit is zero or nothing qualifies, and otherwise the first of the sorted qualifying signals, as many as there are up to the limit |
| CursorProtocol.StepKeepsInv | backend/app/jobs/correlations/evaluate_recent_job.rb:32-88 | every load (however stale), fetch, process, advance, crash and safe arrival keeps: whatever is at or below any mark ever stored has been processed |
| CursorProtocol.NothingIsSkipped | backend/app/models/ingestion_cursor.rb:1-8 | for every interleaving of any number of workers with safe arrivals, every visible signal after the initial mark and at or below the stored mark has been processed |
| CursorProtocol.InOrderVisibilitySkipsNothing | backend/app/models/ingestion_cursor.rb:1-8 | the same from the initial state when signals become visible in increasing order |
| CursorProtocol.ArrivalIsSafeIff | backend/app/models/ingestion_cursor.rb:6-8 | an arrival is followed only by complete states, whatever the workers do, if and only if it sorts after the stored mark and every batch in flight |
| CursorProtocol.OverlappingTicksRepeat | backend/app/models/ingestion_cursor.rb:6-8 | in every state, two attempts that loaded the stored mark and overlap process their common batch twice |
| CursorProtocol.FinishOutcome | backend/app/jobs/correlations/evaluate_recent_job.rb:68-81 | finishing a tick appends exactly the rest of its batch to the processed list and attempts to advance to its last signal |
| CursorExactness.StepKeepsOrder | backend/app/jobs/correlations/evaluate_recent_job.rb:32-88 | with in-order arrivals every step of any worker keeps: everything due before a processed signal was processed before it |
| CursorExactness.ProcessRepeatsIff | backend/app/jobs/correlations/evaluate_recent_job.rb:68-73 | processing a signal repeats it if and only if something at or after it has been processed |
| CursorExactness.NothingRepeatsIffPrefix | backend/app/models/ingestion_cursor.rb:6-8 | for every in-order interleaving of any number of workers, crashes included, nothing is processed twice if and only if the processed signals are a prefix of the sorted due ones |
| CursorExactness.UndisturbedTickRepeatsIff | backend/app/jobs/correlations/evaluate_recent_job.rb:53-81 | an undisturbed tick from any loaded mark, however stale, repeats a signal if and only if something after that mark has been processed |
| CursorExactness.AttemptHandlesBatch | backend/app/jobs/correlations/evaluate_recent_job.rb:66-81 | an attempt that comes to its end has processed the rest of its batch, in order, whatever arrived meanwhile |
| CursorExactness.SerialRunsProcessExactlyOnce | backend/app/models/ingestion_cursor.rb:1-8 | for every run from the start, with in-order arrivals at any time, attempts of any workers that do not overlap and none failing midway, what is processed is at all times a prefix of the strictly sorted due signals, and between attempts the mark is the last of it |
| CursorExactness.AttemptProcessesUpToLimit | backend/app/jobs/correlations/evaluate_recent_job.rb:15-25 | in such a run, a completed attempt has processed the next due signals visible at its fetch, in order, exactly up to its limit or all there were, whatever arrives meanwhile |
| CursorExactness.AttemptCatchesUp | backend/app/jobs/correlations/evaluate_recent_job.rb:15-25 | and so the processed signals are exactly the sorted ones visible at the fetch if and only if the limit covers the backlog |
| CursorExactness.StepKeepsSerial | backend/app/jobs/correlations/evaluate_recent_job.rb:32-81 | while attempts do not overlap and nothing repeats, every step keeps: what is processed past the mark is of the active worker's own batch, or left by an attempt that failed midway |
| CursorExactness.SerialRunRepeatsIff | backend/app/jobs/correlations/evaluate_recent_job.rb:75-81 | for every run from the start in which attempts of any workers do not overlap and signals arrive in order at any time, a signal is repeated if and only if some signal is processed after an attempt failed having processed one |
| CursorExactness.LateCommitIsSkipped | backend/app/models/ingestion_cursor.rb:6-8 | a run from the initial state, for any two signals, after which the earlier one, committed one tick late, is unprocessed and no longer fetched |
| CursorExactness.RetryRepeats | backend/app/jobs/correlations/evaluate_recent_job.rb:75-80 | a run without overlap in which a retried attempt processes its signal twice |
| CursorExactness.OverlapRepeats | backend/app/models/ingestion_cursor.rb:6-8 | a run from the initial state of two overlapping workers, both completing, that processes a signal twice |
| AuditValues.Codec.SurvivesIff | backend/app/services/audit/chain_hasher.rb:89-102 | a value hashes the same before it is stored and after it is read back if and only if it holds no time, no negative zero and no float written without a fraction |
| AuditValues.Codec.TimeFormats | backend/app/services/audit/chain_hasher.rb:99-102 | a time is hashed as its second, a point, the six digits of its microseconds and a Z, and stored with the three of its milliseconds |
| AuditValues.Codec.TimesDiffer | backend/app/services/audit/chain_hasher.rb:94-102 | two times hash alike if and only if they agree to the microsecond, and are stored alike if and only if they agree to the millisecond |
| AuditValues.Codec.PresentSurvives | backend/app/models/audit_event.rb:11-11 | whether a value is blank does not change in its column |
| AuditValues.Codec.ReadAlikeIff | backend/app/services/audit/chain_hasher.rb:89-97 | two stored values are read alike if and only if they have one structure with equal leaves, numbers compared after rounding to floats |
| AuditValues.Codec.TrailingZeroIsLost | backend/app/services/audit/chain_hasher.rb:89-97 | 0.1 and 0.10 are different stored values that are read alike |
| AuditValues.Codec.TaskSnapshotIsNotDurable | backend/app/services/tasks/creation_service.rb:44-46 | a task's attributes without updated_at hold a time, so no task snapshot survives its column |
| AuditChain.FreshRowRecomputesIff | backend/app/services/audit/event_writer.rb:110-131 | a row as the writer builds it recomputes if and only if each of its three snapshots survives its column |
| AuditChain.ReadChainIs | backend/app/services/audit/chain_verifier.rb:56-58 | the verifier reads exactly the rows of the organization, by increasing position |
| AuditChain.VerifyOrganization | backend/app/services/audit/chain_verifier.rb:54-141 | valid if and only if every row read has its position, its predecessor's hash and a recomputable hash; otherwise the report is that of the first break, and states reason by reason the position, hash or link expected and found |
| AuditTampering.UnhashedDifferences | backend/app/services/audit/chain_hasher.rb:67-97 | two stored contents hash alike if and only if they differ at most in a missing against an empty action and in snapshots that are read alike |
| AuditTampering.RowsHashAlikeIff | backend/app/services/audit/chain_hasher.rb:67-87 | two rows hash alike if and only if hash version, organization, position, previous hash and content agree, up to those differences |
| AuditTampering.EqualDigestsLineUp | backend/app/services/audit/chain_hasher.rb:50-55 | equal hashes in two sound chains mean equal positions, equal events and equal hashes one row back |
| AuditTampering.LastHashFixesChain | backend/db/migrate/20260424220000_add_chain_columns_to_audit_events.rb:15-26 | two sound chains of one organization that end in the same row_hash have the same length and are equal row by row |
| AuditTampering.RewritingIsDetected | backend/db/migrate/20260424220004_prevent_audit_event_mutations.rb:11-18 | any other sequence of rows that keeps the last row, by edits, reordering, drops or insertions, has a first break the verifier reports |
| AuditTampering.EditIsReported | backend/db/migrate/20260424220000_add_chain_columns_to_audit_events.rb:21-26 | any edit of a table row in its place is reported at that row if and only if its link or hash no longer fits, otherwise at the next row if and only if its row_hash is new, and else not at all |
| AuditTampering.EditKeepingHashIsReportedThere | backend/db/migrate/20260424220004_prevent_audit_event_mutations.rb:14-18 | an edit of a table row in its place that leaves row_hash alone breaks its chain at that row if and only if a hashed value changed |
| AuditTampering.EditRecomputingHashIsReportedNext | backend/db/migrate/20260424220000_add_chain_columns_to_audit_events.rb:21-26 | an edit in place with a recomputed hash is reported at the next row as a broken link, and not at all on the last row |
| AuditTampering.MoveIsReported | backend/db/migrate/20260424220000_add_chain_columns_to_audit_events.rb:23-26 | a row moved to any other position the indexes allow is reported as a gap at its old place, or first in the chain when its position is below 1 |
| AuditTampering.RekeyIsReported | backend/app/services/audit/chain_hasher.rb:12-16 | a row re-keyed to another organization leaves a gap in its own chain unless it was the last, and in the other chain is reported unless it was forged into the next row; with its old hash it always is |
| AuditTampering.DeleteIsReported | backend/db/migrate/20260424220000_add_chain_columns_to_audit_events.rb:23-26 | deleting a table row is reported in its chain's place as a gap, unless it was the last |
| AuditTampering.NothingShowsBehindBreak | backend/app/services/audit/chain_verifier.rb:15-17 | whatever is edited, added or deleted behind the first break, the report stays the same |
| AuditLedger.IndexesGuardEveryChain | backend/db/migrate/20260424220001_add_chain_position_indexes_to_audit_events.rb:21-33 | the two partial indexes refuse exactly a second row at the same position of the same chain, the nil-organization chain included |
| AuditLedger.CompositeIndexMissesNilOrganization | backend/db/migrate/20260424220001_add_chain_position_indexes_to_audit_events.rb:7-13 | one composite index would guard exactly the chains that have an organization |
| AuditLedger.AuditTable.Insert | backend/db/migrate/20260424220001_add_chain_position_indexes_to_audit_events.rb:21-33 | an insert is accepted if and only if the event is valid and no stored row collides, and then it is appended |
| AuditLedger.ValidEventIff | backend/app/models/audit_event.rb:6-13 | a writer's event is valid if and only if actor, entity type and event type hold a non-space character and the after snapshot is not nil, false, blank or empty, whatever the before snapshot, action and metadata are |
| AuditLedger.EffectIs | backend/db/migrate/20260424220004_prevent_audit_event_mutations.rb:34-60 | without triggers an update would change the rows it matches in their places and a delete would leave the others |
| AuditLedger.NothingIsMutated | backend/db/migrate/20260424220004_prevent_audit_event_mutations.rb:34-60 | whatever an UPDATE or DELETE would do to the rows it matches, with the triggers in place the table stays as it was |
| AuditLedger.AuditTable.UpdateOrDelete | backend/db/migrate/20260424220004_prevent_audit_event_mutations.rb:34-60 | executed row by row, a statement raises if and only if it would touch a row, and the rows never change |
| AuditLedger.TipIsLast | backend/app/services/audit/event_writer.rb:160-167 | the tip a writer looks up is the last row a verifier reads |
| AuditLedger.AcceptedIffTipIsCurrent | backend/app/services/audit/event_writer.rb:84-133 | the indexes admit a row built on a remembered tip if and only if that tip is still the tip |
| AuditLedger.WriterOnTipIsAccepted | backend/app/services/audit/event_writer.rb:89-132 | a writer on the current tip adds exactly one row, with version 1, the next position and the tip's hash or genesis, if its event is acceptable, and none otherwise |
| AuditLedger.RacingWritersKeepChainsDense | backend/spec/models/audit_event_spec.rb:152-171 | from any dense table, for every interleaving of writers with stale tips and attempted mutations, every chain stays dense from 1 and linked to genesis, each row stays as it was written, and no stored row is lost |
| AuditLedger.VerifyReachable | backend/spec/models/audit_event_spec.rb:258-265 | in every table reachable from a dense one the verifier finds a chain valid if and only if no row written there came from a value its column changes and each row found there recomputes, and otherwise reports the first other row as tampered |
| AuditLedger.VerifyTaskEvent | backend/app/services/tasks/creation_service.rb:22-46 | a chain whose first event carries a task snapshot is reported as tampered at position 1, though nobody touched it |
| AuditLedger.SecondOfTwoIsRefused | backend/spec/models/audit_event_spec.rb:163-170 | of two writers on one tip the first valid event is accepted and the second refused, so the chain never forks |
| AuditBackfill.Backfill | backend/app/services/audit/chain_backfiller.rb:57-122 | links each un-chained row to the row before it in replay order, and succeeds if and only if no two rows end up at one position |
| AuditBackfill.BackfillExtendsChainIff | backend/app/services/audit/chain_backfiller.rb:57-122 | onto a dense chain it succeeds if and only if every un-chained row follows the tip, and then extends the chain densely by those rows, in order, each recomputing |
| AuditBackfill.ReadBackfilled | backend/app/services/audit/chain_backfiller.rb:57-122 | a backfilled chain is read, in whatever order the table stores it, as the old chain followed by the rows written behind it |
| AuditBackfill.BackfilledChainsStayDense | backend/db/migrate/20260424220002_backfill_audit_event_chain.rb:2-22 | a backfilled table is dense in every chain, and stays so under any interleaving of writers |
| AuditBackfill.LateRowFails | backend/app/services/audit/chain_backfiller.rb:76-85 | an un-chained row that sorts before the chain's first row makes it fail |
| TenancyTheorems.SiteScopeIsAnchored | backend/app/policies/application_policy.rb:124-129 | selection through the site subquery is visibility of the site's anchor |
| TenancyTheorems.AreaScopeIsAnchored | backend/app/policies/application_policy.rb:131-152 | selection through the owned-area subquery is visibility of the area's anchor |
| TenancyTheorems.IncidentFilterIsAnchored | backend/app/policies/incident_policy.rb:24-31 | the two-branch incident filter selects exactly the incidents whose site, or else area, the user covers |
| TenancyTheorems.MatchFilterIsAnchored | backend/app/policies/signal_rule_match_policy.rb:13-25 | the three-branch match filter selects exactly by site, or else incident, or else task |
| TenancyTheorems.ResolveIsAnchored | backend/app/policies/application_policy.rb:106-152 | for every kind of record, the scope is the rows whose anchor the user covers |
| TenancyTheorems.MatchAccessIsAnchored | backend/app/policies/application_policy.rb:94-100 | the per-record match rule is visibility of the same anchor |
| TenancyTheorems.ShowAgreesWithScope | backend/app/policies/application_policy.rb:47-100 | for every foreign-key-consistent database, user and record, show? holds if and only if the scope contains the record |
| TenancyTheorems.AreaShowAgreesWithScope | backend/app/policies/area_of_operation_policy.rb:3-14 | the same for areas, on the surface and for owned doctrine |
| TenancyTheorems.AnyOfSelects | backend/app/policies/recommendation_policy.rb:16-24 | the reduced or selects a row if and only if one of its disjuncts does |
| TenancyTheorems.RecommendationVisibility | backend/app/policies/recommendation_policy.rb:12-49 | a recommendation is visible if and only if its type is a scoped one and its entity exists and is visible, in the filter and in the record check alike |
| TenancyTheorems.RecommendationByType | backend/app/policies/recommendation_policy.rb:12-25 | a recommendation is in the scope if and only if its type is one of the five names and its entity is in the scope of that very type |
| TenancyTheorems.RecommendationShowAgreesWithScope | backend/app/policies/recommendation_policy.rb:30-49 | show? of a recommendation holds if and only if the scope contains it, for every user |
| TenancyTheorems.IncidentHidesTask | backend/app/policies/signal_rule_match_policy.rb:17-22 | a match without a site but with an incident is visible if and only if the incident is, whatever its task |
| TenancyTheorems.RestrictionsIntersect | backend/app/policies/application_policy.rb:124-152 | an organization-and-area user sees exactly the intersection of what each restriction alone shows |
| TenancyTheorems.AreaRestrictionsIntersect | backend/app/policies/application_policy.rb:131-144 | the same for areas, with and without global ones |
| TenancyTheorems.RecommendationRestrictionsIntersect | backend/app/policies/recommendation_policy.rb:13-25 | the same for recommendations |
| TenancyTheorems.TenantsAreIsolated | backend/app/policies/application_policy.rb:124-129 | users of different organizations share no visible site, task, asset, incident or match |
| TenancyTheorems.RecommendationsAreIsolated | backend/app/policies/recommendation_policy.rb:13-25 | nor any recommendation |
| TenancyTheorems.AreasAreIsolated | backend/app/policies/application_policy.rb:75-86 | owned areas are disjoint, and area surfaces meet exactly in global areas both users can reach |
| TenancyTheorems.SurfaceExceedsOwnedByGlobals | backend/app/policies/application_policy.rb:75-86 | what an organization's user may read but not own is exactly the global areas in reach |
| SiteOrganization.SiteRecord.SyncOrganizationFromArea | backend/app/models/site.rb:65-72 | the callback keeps a given organization, fills a missing one from the area, and changes nothing else |
| SiteOrganization.SiteRecord.AreaMatchesOrganization | backend/app/models/site.rb:74-80 | the validation appends its one error exactly when organization and area disagree |
| SiteOrganization.SiteRecord.Save | backend/app/models/site.rb:50-80 | a save stores the synced attributes if and only if they agree and their keys exist, never changes a given organization, and reports the one error when it clashes with the area's |
| SiteOrganization.GivenOrganizationIsKept | backend/app/models/site.rb:65-80 | a site with an organization is stored exactly as given, or not at all when its area is of another or a key is missing |
| SiteOrganization.MissingOrganizationIsTheAreas | backend/app/models/site.rb:65-72 | a site without an organization is stored with that of its area |
| SiteOrganization.UserIsSavedIff | backend/app/models/user.rb:94-101 | a user is stored exactly as given, or not at all when organization and area clash or a key is missing |
| SiteOrganization.AreaIsSavedIff | backend/app/models/area_of_operation.rb:48-53 | a creator with an organization can save areas of that organization and global ones only, any other creator every area |
| SiteOrganization.AreaIsDestroyed | backend/app/models/area_of_operation.rb:20-21 | destroying an area frees exactly its own sites and users, which keep their organizations |
| SiteOrganization.RunKeepsConsistent | backend/app/models/site.rb:65-80 | while area organizations stay fixed, every run of site, user and area saves keeps each site in its area's organization and each user consistent |
| SiteOrganization.AreaSaveKeepsConsistentIff | backend/app/models/area_of_operation.rb:48-53 | a save of an area keeps this if and only if the creator-scope validation or a key refuses it, or it has no organization, or all its sites and users already agree with it |
| SiteOrganization.UnscopedCreatorBreaks | backend/app/models/area_of_operation.rb:48-53 | a concrete save the validation lets through that leaves a site in another organization than its area |
| SiteOrganization.PinnedUserNeedsNoOrganizationFilter | backend/app/policies/application_policy.rb:124-129 | for a saved user pinned to an area with an organization, the organization filter on sites is redundant |
| ErrorPaths.DecimalReadsBack | backend/app/models/correlation_rule.rb:97-103 | an index renders to digits that read back as the index |
| ErrorPaths.RenderReadsBack | backend/app/models/correlation_rule.rb:95-105 | a rendered position followed by any text reads back as the position followed by what the text holds |
| ErrorPaths.RenderIsInjective | backend/app/models/correlation_rule.rb:95-105 | two positions never share a prefix |
| ErrorPaths.SecondOfFirst | backend/app/models/correlation_rule.rb:97-103 | how a position of two steps is written |
| ConditionTree.CorrelationRule.ValidateConditions | backend/app/models/correlation_rule.rb:61-69 | validation appends exactly the errors of the specification |
| ConditionTree.CorrelationRule.ValidateGroup | backend/app/models/correlation_rule.rb:77-106 | so does the recursive walk of a group, in order and under the right prefixes |
| ConditionTree.CorrelationRule.ValidateSingleCondition | backend/app/models/correlation_rule.rb:110-141 | so does the check of one flat condition |
| ConditionTheorems.LeafErrorsAreFaults | backend/app/models/correlation_rule.rb:110-141 | a leaf reports exactly its given fields that are out of range: a type not among the eight, a proximity or magnitude that is not a number of at least 0, a count or window that is not an integer of at least 1 |
| ConditionTheorems.ErrorsAreFaults | backend/app/models/correlation_rule.rb:77-116 | an error is reported if and only if it is a fault of a visited node, under that node's position |
| ConditionTheorems.NoErrorsIffWellFormed | backend/app/models/correlation_rule.rb:75-141 | no error if and only if no node reachable through groups has a fault of its own: depth, operator, two children, hash, field ranges |
| ConditionTheorems.NestingLimit | backend/app/models/correlation_rule.rb:77-81 | a tree of nested groups is accepted up to depth 5 and refused from depth 6 |
| ConditionTheorems.ValidIff | backend/app/models/correlation_rule.rb:13-69 | the model accepts a stored value if and only if it is present, and a well-formed tree or a leaf in range when it is a hash |
| ConditionTheorems.MessageNamesNode | backend/app/models/correlation_rule.rb:77-141 | the text of an error, whatever its wording, reads back as the position of the node it concerns |
| ConditionTheorems.FieldMessages | backend/app/models/correlation_rule.rb:77-141 | a message about a field starts, after the position, with the name of that field |
| ConditionTheorems.ErrorFreeIsSupported | backend/app/models/correlation_rule.rb:149-162 | a group without errors has the shape the evaluator supports, at every level |
| ConditionTheorems.SupportedIff | backend/app/models/correlation_rule.rb:149-162 | a rule is supported, validated or not, if and only if every reachable node is a hash and every group among them stands at depth 0 to 5 with an AND or OR and an array holding something truthy |
| ConditionTheorems.ValidRuleIsSupportedIff | backend/app/models/correlation_rule.rb:40-55 | a rule that passes validation is supported if and only if it is a hash and is compound or has no conditions key |
| ConditionTheorems.TrueIffCertified | backend/app/services/correlations/evaluator_service.rb:177-189 | a supported tree is true if and only if some choice of its nodes certifies it: a child of each chosen OR, all children of each chosen AND, leaves that hold |
| ConditionTheorems.NormalizationKeepsMeaning | backend/app/models/correlation_rule.rb:28-46 | normalization is idempotent and wraps a flat rule in an AND of itself, and the normalized rule is true if and only if the stored one holds: its tree certified, or its single flat hash as a leaf |
| ConditionTheorems.MoreLeavesKeepItTrue | backend/app/services/correlations/evaluator_service.rb:177-189 | a rule depends on the leaves of its stored conditions alone, and stays true when more of them hold |
| ConditionTheorems.UniformLeavesDecide | backend/app/services/correlations/evaluator_service.rb:177-189 | if all leaves of a supported tree decide alike, so does the tree |
| RecommendationReview.Recommendation.Review | backend/app/models/recommendation.rb:52-98 | accepting, rejecting and deferring each store their own status and the reviewer, and append one event from the status found to that status, without checking it |
| RecommendationReview.Recommendation.MarkExecuted | backend/app/models/recommendation.rb:100-114 | execution writes its status and appends one event carrying the status it found |
| RecommendationReview.Recommendation.ReviewUnlessDecided | backend/app/controllers/api/recommendations_controller.rb:156-165 | the re-check returns the status of a decided row and changes nothing, and otherwise stores the status of the action with one event from pending to it |
| RecommendationReview.ReviewKeepsTrailIff | backend/app/models/recommendation.rb:52-98 | a review keeps the audit history of a row right if and only if the row was pending |
| RecommendationReview.WritesExtendTrail | backend/app/controllers/api/recommendations_controller.rb:85-102 | what a locked review or execution writes extends the row's history by exactly its events |
| RecommendationReview.StepKeepsInv | backend/app/controllers/api/recommendations_controller.rb:85-170 | every creation, lock, decision, commit, rollback and expiry keeps: each row's audit history is exactly the one its status implies, and pending rows are unique |
| RecommendationReview.ReviewedAtMostOnce | backend/spec/models/recommendation_spec.rb:207-254 | for every interleaving, a recommendation has a review event if and only if it was reviewed, never two, and the event found it pending and names its reviewer |
| RecommendationReview.PendingReviewTakesEffect | backend/app/controllers/api/recommendations_controller.rb:150-165 | a locked review of a pending row ends, whatever other threads do before its decision and its commit, in the status of its own action with the one event that says so |
| RecommendationReview.DecidedReviewHasNoEffect | backend/app/controllers/api/recommendations_controller.rb:156-160 | a locked review of any other row changes neither the row nor its history |
| RecommendationReview.ExecutionTakesEffect | backend/app/controllers/api/recommendations_controller.rb:85-102 | a successful execution of a pending or accepted row ends executed with an acceptance on record before it, whatever runs beside it |
| RecommendationReview.ExecutionHasNoEffect | backend/app/controllers/api/recommendations_controller.rb:89-98 | an execution that fails, or of a row in any other status, changes neither the row nor its history |
| RecommendationReview.ExpiresIff | backend/app/services/recommendations/generator_service.rb:74-77 | exactly the pending, unlocked rows whose time has come expire, and nothing else changes |
| RecommendationReview.OnePendingPerEntity | backend/db/migrate/20260321045816_add_unique_index_to_pending_recommendations.rb:2-12 | every reachable table has at most one pending row per non-null type, entity type and entity id, whatever the pre-checks saw |
| RecommendationReview.CreationIsRefusedIff | backend/app/models/recommendation.rb:36-46 | a creation whose pre-check saw a duplicate does nothing; one that passed its pre-check is refused if and only if a pending row with the same non-null triple exists, and otherwise adds exactly its row |
| Throttle.LimitedWindow | backend/app/services/observability.rb:42-43 | a call is limited at all if and only if its window is at least one second and its key holds a non-space character |
| Throttle.Throttle.Throttled | backend/app/services/observability.rb:42-56 | the answer and the new state are those of the specification, for any clock value |
| Throttle.Throttle.ResetThrottleState | backend/app/services/observability.rb:27-29 | a reset forgets every key |
| Throttle.ThrottleAgreesWithHistory | backend/app/services/observability.rb:42-56 | for every call sequence, with resets and clocks read in any order, the answer is that of a scan of all sends since the last reset |
| Throttle.SendsAreSpaced | backend/app/services/observability.rb:47-53 | of two sends of one key the later is at least its own window later |
| Throttle.KeysAreIndependent | backend/app/services/observability.rb:47-53 | calls on other keys never change an answer |
| Throttle.SendsPerSpan | backend/app/services/observability.rb:42-56 | with windows of at least s whole seconds, at most floor(W / s) + 1 of a key's sends since the last reset lie in any span W, both ends included |
| TelemetryPartitions.WindowIsTight | backend/db/migrate/20260324010000_partition_telemetry_readings_by_occurred_at.rb:59-68 | the window is the smallest one holding every legacy date and today - 1 through today + 7 |
| TelemetryPartitions.ExactlyOnePartition | backend/db/migrate/20260324010000_partition_telemetry_readings_by_occurred_at.rb:70-82 | a timestamp in the window falls in exactly the partition of its date, which spans the 24 hours of that day |
| TelemetryPartitions.CreatePartitions | backend/db/migrate/20260324010000_partition_telemetry_readings_by_occurred_at.rb:70-82 | one partition a day, tiling the window |
| TelemetryPartitions.Up | backend/db/migrate/20260324010000_partition_telemetry_readings_by_occurred_at.rb:5-13 | every legacy row is stored, in the partition of its date |
| TelemetryPartitions.Down | backend/db/migrate/20260324010000_partition_telemetry_readings_by_occurred_at.rb:15-22 | the reversal succeeds if and only if ids are distinct, and then keeps every row |
| TelemetryPartitions.RepeatedIdFails | backend/db/migrate/20260324010000_partition_telemetry_readings_by_occurred_at.rb:15-22 | a row inserted after the migration under an id already there makes the reversal fail |
| TelemetryPartitions.UpThenDown | backend/db/migrate/20260324010000_partition_telemetry_readings_by_occurred_at.rb:5-22 | rows from a table with a primary key survive the round trip as the same multiset |
| EvalScoring.ScenarioScoresAreSensible | backend/lib/ai_evals/scoring.rb:23-41 | hits never exceed totals |
| EvalScoring.ScoreCounts | backend/lib/ai_evals/scoring.rb:23-56 | each total is the number of required or forbidden expectations, and each hit count the number of those met, or not met, by a recommendation of the type that passes the matcher |
| EvalScoring.AggregateIsAdditive | backend/lib/ai_evals/scoring.rb:61-65 | aggregating two batches together adds their counts |
| EvalScoring.AggregateIgnoresOrder | backend/lib/ai_evals/scoring.rb:58-76 | the order of scenarios does not matter |
| EvalScoring.RecallIsBetweenExtremes | backend/lib/ai_evals/scoring.rb:58-76 | micro-averaged recall lies between the least and the greatest recall of the scenarios that require anything, and is 1.0 when none does |
| EvalScoring.PrecisionIsBetweenExtremes | backend/lib/ai_evals/scoring.rb:58-76 | micro-averaged precision lies between the least and the greatest precision of the scenarios that forbid anything, and is 1.0 when none does |
| EvalScoring.MoreRecommendationsTradeOff | backend/lib/ai_evals/scoring.rb:23-56 | recommending more never lowers recall and never raises precision |
| GraphLayout.GroupByType | frontend/src/components/IntelChainPanel.tsx:116-121 | ids are grouped by type in input order |
| GraphLayout.PlaceLayers | frontend/src/components/IntelChainPanel.tsx:125-132 | with distinct ids every layer is centred in its column |
| GraphLayout.MoveTasks | frontend/src/components/IntelChainPanel.tsx:134-140 | with distinct ids tasks end up below the last incident and every other node keeps its place |
| GraphLayout.LayoutNodes | frontend/src/components/IntelChainPanel.tsx:113-148 | input order is kept, equal ids get equal places, and with distinct ids each node has the place of its rank |
| GraphLayout.LayoutSeparates | frontend/src/components/IntelChainPanel.tsx:113-148 | any two nodes are 120 apart in a column or 220 apart across columns if and only if ids are distinct |
| GraphLayout.LayersAreCentred | frontend/src/components/IntelChainPanel.tsx:125-132 | a layer that is not moved is symmetric about y = 200 |
| GraphLayout.ColumnsAreOrdered | frontend/src/components/IntelChainPanel.tsx:105-111 | the columns stand in the order signal, rule, alert, incident, 250 apart, with moved tasks 220 to the right of the incidents |
| GraphLayout.InputOrderGoesDown | frontend/src/components/IntelChainPanel.tsx:116-140 | nodes of one type stand in one column from top to bottom in input order, neighbours exactly 120 apart |
| GraphLayout.TasksAreBelowIncidents | frontend/src/components/IntelChainPanel.tsx:134-140 | moved tasks start exactly 140 below the last incident, 120 apart, and so at least 140 below every incident |

## Left out

- The hash itself: an injective function of the canonical payload stands for SHA-256 over canonical JSON, so the 32-byte width and the JSON encoding are not modelled.
- Removal of the newest audit rows: a chain alone does not show it (`DeleteIsReported` and `EditRecomputingHashIsReportedNext` say so), and TRUNCATE, which the triggers allow, is not a step of the model.
- The advisory lock and the deadlock retry of the event writer: safety is proved without the lock, from the indexes alone; a refused insert is not retried.
- Snapshot values JSON cannot express (NaN, infinities, invalid text), hash keys that are neither strings nor symbols, and times in another zone than the application's UTC.
- How Ruby prints and reads floats and times: parameters of the codec, with the law that a float's text reads back as it.
- AuditBackfill.Backfill: models one organization's walk inside the migration's transaction, where a refused update undoes the others.
- `IngestionCursor.for`: the initial mark is a parameter, and the race on the unique name is not modelled.
- The evaluation a tick runs per signal: processing is recorded, its effects are not.
- Roles and mutation rules of the policies, and policies that are constant or a plain role check.
- The legacy branch for areas without an organization column.
- Deleting organizations, and writes to sites and users that bypass validation.
- ConditionTheorems.MessageNamesNode: models the position and first word of a message; the rest of the sentence is any text.
- Action schemas, cooldown and the remaining validations of a correlation rule.
- `Recommendation#expire!`, which checks no status and writes no event; the generator's guarded expiry of pending rows is a step of the model.
- What the executor dispatches to: its verdict is a parameter. Time stamps and reasons of a review are not recorded.
- Sending to Sentry and its scope; the mutex appears as the order of calls.
- The physical order of copied telemetry rows, and the table and index definitions around the copy.
- Floating point in scores: ratios are exact reals.
- Node data carried through the layout, and ids that collide with object prototype keys.
- Alert and incident status tables, task field checks, proximity, authentication, rate limiting, streams, seeds and the rest of the frontend: easy, or outside these guarantees.
