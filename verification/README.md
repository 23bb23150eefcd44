# ClassroomPath: a verified model of its hard core

ClassroomPath keeps tenancy data (organizations, memberships, waiting users, group links) in one
database and mirrors part of it (role rows, groups and their rules) into the OpenPath database. No
transaction spans both. A mutation that touches both is therefore run step by step by a workflow
engine that records its progress in a ledger row, so that a later run can resume it. This project
models that engine, its ledger and the services built on it, and proves what holds after any number
of runs that throw or stop anywhere. It also models the gateway's rate limiter, the naming and
canonicalisation loops, rule grouping and paging, the verification stage cache and pipeline, and the
env-file rewriter.

`dafny verify dfyconfig.toml` checks everything. One module per file:

- `MutationLedger`, `WorkflowEngine`, `EngineWrites`, `WorkflowHistories`: the ledger, the engine's loop as a method proved against `RunFrom`, and theorems about whole histories of runs for every world and every step body
- `TenantStore`, `TenantRows`, `UserMutations`, `CrashResume`, `GuardedCalls`, `RunFates`, `CommitCompletion`: the five local-first user mutations, resuming them, what each transaction and guard does to the rows, resuming them behind their guards, and when a commit that cannot be repeated is completed
- `Interleaving`, `Divergence`: operations interleaved action by action, as a machine that contains every run of the engine, and what it keeps for the user mutations
- `MutationHistories`: the engine's theorems instantiated for every mutation of the services
- `Memberships`: the membership state machine, and the same transactions as updates of tables in place
- `GroupLinks`, `GroupRows`, `GroupCreation`, `GroupTables`, `GuardedGroupDelete`, `GroupInterleaving`, `GroupWitnesses`: upstream-first group creation and link-first deletion, one after the other and interleaved
- `RateLimiter`, `GatewayPaths`, `RateLimitBounds`: the shared table of windows, its refinement to private limiters, the gateway's routes, trace bounds
- `Strings`, `GroupNames`, `SlugScan`, `NameSearch`, `PublicNames`, `TeacherRoles`, `Filters`, `RuleGrouping`, `RuleListing`: naming, canonicalisation and listing
- `StageCache`, `StagePipelines`, `StageOffers`: the stage cache, the report, one stage, whole pipelines, histories of a cache file, and which stages the cache is offered to
- `EnvFile`, `EnvLines`, `EnvRoundTrip`, `EnvReadBack`, `EnvRewriteTwice`: the env-file parser and the rewriter that must agree with it

Where a method is proved against a specification function, that function is in turn described by what a
caller sees: rows inserted, changed and left alone (`TenantRows`, `GroupRows`, and the methods' own
contracts), columns written (`EngineWrites`), lines kept and added (`EnvLines`), rules listed
(`RuleListing`), offers made (`StageOffers`), each with the exact condition for every refusal.

How runs fail is explicit. A step attempt has a `Fault`: the process dies before or after the effect;
the body throws before or after its effect, and the failure write lands or not; the body returns and
the progress write throws, having landed or not. A run is a list of faults, a history a list of runs.
`Observed` wraps a workflow so that the bodies that returned are logged, which is how statements about
"what happened" are made; `ObservedReplay` proves that the log changes nothing else.

Where the engine's documents and its code differ, the code was followed:
`docs/contracts/cross-system-mutations.md:107-113` says that repeated calls resume an operation and that
user deletion reuses its stored result. A repeated call of the user-deletion service is refused by its
own guard once the membership is gone, and a repeated call of the group-deletion service once the link
is gone. Both are proved with the exact condition (`GuardedCalls.DeletionCompletesExactly`,
`GuardedGroupDelete.GroupDeletionCompletesExactly`), and `GuardedCalls.OrphanedRoleRow` gives the concrete
outcome: the role row outlives the membership. A group creation that happened without its result reaching
the ledger is not resumed either: its own group holds the name every retry asks for
(`GroupCreation.RetryCompletesUnlessLost`, with the exact condition in `GroupCreation.CreationCompletesExactly`).
The same holds for approving a user and for creating an organization: a commit whose result was lost is
refused ever after by the membership it made, which then stays without a role row
(`CommitCompletion.LostCommitStrands`, `CommitCompletion.CommitCompletesExactly`). Behind its gate an
organization creation that was interrupted after its commit is never completed at all
(`CommitCompletion.GatedCreationCompletesExactly`). For a completed group creation the service answers a
repeated request with a conflict instead of the stored result; either way nothing is written, which is
what `WorkflowHistories.CompletedIsAbsorbing` is about.

Properties that turned out to need a condition, which is then proved to be the exact one: keeping an
admin under invitations (`Memberships.AcceptKeepsAdminsExactly`), the unique public names
(`PublicNames.ConstraintHoldsExactly`), the second pass over teacher roles
(`TeacherRoles.SecondPassExactly`), reading back a rewritten env value (`EnvReadBack.ReadBackExactly`)
and rewriting an env file twice (`EnvRewriteTwice.RewritingTwiceExactly`).

Links of groups keep pointing to existing groups over every sequence of runs, but not when runs
interleave: a creation reads its group when a run begins and inserts the link later, and a deletion may
come between. Links then break exactly at an action that links a group that is gone by now while the
public name is free, which reading the group again in the linking transaction would tell
(`GroupInterleaving.LinksResolveExactly`). `GroupInterleaving.InterleavedLinkDangles` gives such a
schedule of two requests. That an unlinked group is the business of a non-completed operation survives
interleaving (`GroupWitnesses.UnlinkedIsWitnessed`).
In an env file, new values with line ends change no other key exactly when none of their later lines
assigns it (`EnvReadBack.RewritesExactly`), and are read back cleaned exactly when all line feeds are at the
end of the value or nothing is left of it (`EnvReadBack.ReadsCleanExactly`).

## Model

| member | source | states |
|---|---|---|
| `MutationLedger.ResultReadsBack` | api/src/lib/cross-system-mutations.ts:176-180 | after any sequence of progress and failure writes, what is read back is the last result any of them carried, and no result if none did or that one was empty |
| `MutationLedger.Ledger.GetOrCreate` | api/src/lib/cross-system-mutations.ts:47-86 | a known key writes nothing whatever the other arguments say; a new key adds exactly one pending row with the given columns and no result; keys stay unique |
| `MutationLedger.Ledger.SetProgress` | api/src/lib/cross-system-mutations.ts:88-139 | only the addressed row changes, absent fields leave their columns alone, a missing row is no error |
| `MutationLedger.ColumnsShowLastWrites` | api/src/lib/cross-system-mutations.ts:88-139 | every column shows the last value written to it: an absent field never overwrites one |
| `MutationLedger.KeyAndCompletionStay` | api/src/lib/cross-system-mutations.ts:88-139 | the key never changes, and the completion time is set exactly if some write completed the operation |
| `WorkflowEngine.RunMutationWorkflow` | api/src/lib/cross-system-workflow-engine.ts:146-205 | the loop over steps leaves world, row and outcome as the step-by-step specification says for every fault schedule; no other ledger row changes, and if the ledger lacks the row the run is the same and its writes reach nothing |
| `WorkflowEngine.ReachedLocalFirst` | api/src/lib/cross-system-workflow-engine.ts:135-144 | which loaded steps count as having reached the commit and the sync; `failed` counts as having reached nothing |
| `WorkflowEngine.ReachedUpstreamFirst` | api/src/lib/cross-system-workflow-engine.ts:260-265 | which loaded steps count as having reached the link |
| `EngineWrites.UpdateIsWritten` | api/src/lib/cross-system-workflow-engine.ts:161-191 | a step whose body returned an update: every column written and everything the next step sees, metadata merged with the update's over the run's |
| `EngineWrites.NothingIsAdded` | api/src/lib/cross-system-workflow-engine.ts:161-191 | a body that returned nothing still reaches its step; the row keeps all but what the run knows, and the error is cleared |
| `EngineWrites.FailureIsWritten` | api/src/lib/cross-system-workflow-engine.ts:192-202 | a thrown step ends the run and, if its write lands, leaves the row failed with an error and all the run knows; without the write the row is untouched |
| `WorkflowHistories.CompletedIsAbsorbing` | api/src/services/organization-user-role-assignment-workflow.service.ts:38-41 | after a completed operation, no sequence of later requests changes the world or the row |
| `WorkflowHistories.ObservedReplay` | api/src/lib/cross-system-workflow-engine.ts:161-202 | logging the bodies that returned changes no history: forgetting the log gives the unobserved world and row |
| `WorkflowHistories.AttemptSummary` | api/src/lib/cross-system-workflow-engine.ts:167-202 | one attempt of a step leaves the row untouched, marked failed with its result kept, or written by the step itself after its body returned |
| `WorkflowHistories.SoundHistory` | api/src/lib/cross-system-workflow-engine.ts:161-202 | over every history, a row past its first step carries a result, and status and step agree on completion |
| `WorkflowHistories.FamiliesReport` | api/src/lib/cross-system-workflow-engine.ts:207-321 | all three families are of the kind the soundness theorem is about |
| `WorkflowHistories.CommitAttemptedExactly` | api/src/lib/cross-system-workflow-engine.ts:227-234 | with `current-step` proof the commit is attempted exactly on a pending or failed operation, with `result` proof exactly without a result |
| `WorkflowHistories.TruthfulHistory` | api/src/lib/cross-system-workflow-engine.ts:207-251 | over every history the row tells the truth about the bodies that returned: result implies commit, `synced_upstream` implies a sync after the last commit, `completed` a completion after that sync |
| `WorkflowHistories.CompletedIsEvidence` | api/src/lib/cross-system-workflow-engine.ts:207-251 | the same from a fresh operation and nothing done: a completed row has a last commit, a later successful sync and a still later successful completion |
| `WorkflowHistories.ResultProofFamilies` | api/src/lib/cross-system-workflow-engine.ts:273-312 | the local-first family with `result` proof, the upstream-first and the delete family prove their first step by the stored result |
| `WorkflowHistories.FirstStep` | api/src/lib/cross-system-workflow-engine.ts:227-234 | one run repeats no first effect once a result is stored, and otherwise has it at most once |
| `WorkflowHistories.ReexecutionCount` | api/src/lib/cross-system-workflow-engine.ts:273-312 | the exact number of first effects over any history: one per run that lost its result, plus one if the result is recorded now |
| `WorkflowHistories.GatedCompletion` | api/src/services/organization-user-delete.service.ts:15-39 | a workflow whose first effect closes its own gate completes over a history of calls exactly when the first effective run runs through |
| `MutationHistories.GroupMutationsReport` | api/src/services/group-create-from-rules-workflow.service.ts:48-99 | creating and deleting a group, the instances of the upstream-first and the delete family, prove their first effect by the stored result |
| `MutationHistories.GroupHistory` | api/src/services/group-delete-direct.service.ts:46-87 | over any history of a group mutation the row is sound, and the group was created, or its link deleted, once per lost result plus once if the result is recorded now |
| `MutationHistories.UserHistory` | api/src/services/pending-user-approval.service.ts:32-79 | over any history of each of the five user mutations, a completed row is evidence of the last commit, a later sync and a still later completion |
| `MutationHistories.CommitCount` | api/src/services/onboarding-create-organization.service.ts:32-87 | creating an organization and approving a user commit once per lost result plus once if it is recorded now |
| `TenantStore.GroupIdsRoundTrip` | api/src/lib/openpath-roles.ts:23-26 | group ids survive being stored in a JSON document and normalised |
| `TenantRows.OrganizationCreated` | api/src/services/onboarding-create-organization.service.ts:40-62 | exactly for a verified user without a membership: one organization of that name and one admin membership in it are inserted under fresh ids, the waiting status goes, nothing else changes; the others get the refusal due to them |
| `TenantRows.UserApproved` | api/src/services/pending-user-membership-commit.service.ts:7-56 | exactly for a user who waits for this organization and has no membership: one membership row inserted, the waiting status gone, nothing else changed |
| `TenantRows.InvitationAccepted` | api/src/services/invitation-accept.service.ts:12-77 | a member of the organization only uses up an invitation of it; any other user with at most one membership leaves that row for a new one with the role and the inviter given |
| `TenantRows.WaitingRecorded` | api/src/services/onboarding-flow.service.ts:75-125 | exactly when waiting is recorded and for which organization, and which refusal every other case gets |
| `TenantRows.GuardDecides` | api/src/services/organization-user-helpers.ts:51-96 | a role change or removal is allowed if and only if the user has a row in the organization, no second row anywhere, and keeps admin, is no admin there, or another user is; and exactly when each of the three refusals is given |
| `TenantRows.RoleIsSet` | api/src/services/organization-user-role-assignment-workflow.service.ts:57-67 | setting a role changes that column of the user's row in the organization and nothing else |
| `TenantRows.MemberIsRemoved` | api/src/services/organization-user-delete.service.ts:59-66 | removing a user deletes the rows of that user in that organization and no other |
| `TenantRows.RoleRowWritten` | api/src/lib/openpath-roles.ts:50-103 | the mirrored row is an admin's exactly for an admin membership, has the given group ids or those it had, and a creator that never changes and is the actor only if known upstream |
| `TenantRows.StringsAreKept` | api/src/lib/openpath-roles.ts:23-26 | of a stored list the strings are kept, in order, and everything else is dropped |
| `UserMutations.CommitNamesRows` | api/src/services/onboarding-create-organization.service.ts:40-69 | a creation answers the ids of the organization and the membership it inserts, an approval that of its membership |
| `UserMutations.CommitReplies` | api/src/services/organization-user-delete.service.ts:47-73 | what assignment, revocation and deletion store with their commit; a deletion stores the role of the row it deletes |
| `UserMutations.AssignmentReplies` | api/src/services/organization-user-role-assignment-workflow.service.ts:71-94 | an assignment answers what the mirrored row says and throws exactly without a single membership |
| `UserMutations.SyncReplies` | api/src/services/organization-user-delete.service.ts:74-83 | every other mutation keeps its stored result through the sync, throws exactly for a user with two memberships, and mirrors no groups, or after a deletion those there |
| `UserMutations.CompletionReplies` | api/src/services/organization-user-delete.service.ts:84-99 | the completion touches no table and keeps the result |
| `UserMutations.ResumedStateKnows` | api/src/services/onboarding-create-organization.service.ts:32-39 | a resumed creation knows the organization its stored result names; which metadata a run starts with |
| `UserMutations.MutationsReport` | api/src/services/pending-user-approval.service.ts:41-78 | each of the five mutations stores a non-empty result with its commit and keeps one from then on |
| `CrashResume.CommitRepeats` | api/src/services/organization-user-delete.service.ts:47-73 | committing again changes nothing, before the sync or after it |
| `CrashResume.SyncRepeats` | api/src/lib/openpath-roles.ts:50-103 | the role mirror leads to the same store from the committed and from the synced one |
| `CrashResume.ConvergingHistory` | api/src/lib/cross-system-workflow-engine.ts:227-251 | for every workflow with repeatable commit and sync, any history stays among three worlds, bounded by the persisted step, and a fault-free retry always completes |
| `CrashResume.SyncedOutcome` | api/src/services/organization-user-role-assignment-workflow.service.ts:49-91 | the uninterrupted outcome: the user's one membership and mirrored row carry the new role and groups, or both are gone; no other user and no other table is touched |
| `CrashResume.CrashResumeTransparency` | api/src/services/organization-user-role-revoke.service.ts:37-86 | assign, revoke and delete: whatever a history suffered, a completed operation leaves the store of one uninterrupted run, and a fault-free retry always gets there |
| `GuardedCalls.GuardsPassAgain` | api/src/services/organization-user-helpers.ts:51-96 | the guards of a role change that passed once pass again after its commit and after its sync |
| `GuardedCalls.RoleChangeCallsAreRuns` | api/src/services/organization-user-role-assignment.service.ts:8-27 | for role changes, calling the guarded service again and again is the same as resuming the workflow |
| `GuardedCalls.CallCompletesExactly` | api/src/services/organization-user-role-revoke.service.ts:14-86 | one undisturbed call of assignment, revocation or deletion completes if and only if the user has a row in the organization and stays admin, was none, or leaves another; a refused call changes nothing |
| `GuardedCalls.DeletionCompletesExactly` | api/src/services/organization-user-delete.service.ts:15-104 | calls of the guarded deletion complete it if and only if the first call that removes the membership runs through |
| `GuardedCalls.OrphanedRoleRow` | api/src/services/organization-user-delete.service.ts:15-104 | after a crash right behind the commit, the role row outlives the membership however often the deletion is called again |
| `CommitCompletion.CommitCompletesExactly` | api/src/services/pending-user-approval.service.ts:24-79 | a history of runs completes an approval or an organization creation if and only if the user has no membership and waits for the organization, or has a verified account; the first commit that happened was recorded, and this run or a later one got past the sync, or found it recorded, and completed |
| `CommitCompletion.LostCommitStrands` | api/src/services/pending-user-approval.service.ts:41-78 | exactly when the first commit was lost, no run completes the operation and the member keeps the role rows from before; otherwise a fault-free run completes it |
| `CommitCompletion.SyncedToMirrors` | api/src/services/onboarding-create-organization.service.ts:40-84 | what completion ends in, row by row: the new organization, the one membership in it or in the organization approved for, the waiting status gone, a role row that mirrors the role with no groups and the right creator; and the stored result that names the ids |
| `CommitCompletion.GatedCreationCompletesExactly` | api/src/services/onboarding-flow.service.ts:41-54 | behind the onboarding gate a history of creation requests completes if and only if the first one that creates the organization runs through |
| `CommitCompletion.CreationCallCompletesExactly` | api/src/services/onboarding-flow.service.ts:41-54 | one undisturbed creation request completes if and only if the user is known, verified and without a membership; a refused one changes nothing |
| `Divergence.SynchronizeAgrees` | api/src/lib/openpath-roles.ts:50-103 | the mirror makes role row and membership agree for its user and disturbs nobody else's agreement |
| `Divergence.CommitIsLocal` | api/src/services/onboarding-create-organization.service.ts:40-62 | a commit of any kind can break the agreement of its own user only |
| `Divergence.ActKeepsAccount` | api/src/lib/cross-system-workflow-engine.ts:227-251 | every single action of an interleaved operation leaves its user agreeing, or owed by that operation |
| `Divergence.DivergenceIsWitnessed` | api/src/lib/cross-system-workflow-engine.ts:227-249 | in every state reachable by interleaving operations action by action with crashes anywhere, a user whose role row does not mirror the membership has a non-completed operation persisted before `synced_upstream` |
| `Interleaving.EngineRunsAreSchedules` | api/src/lib/cross-system-workflow-engine.ts:161-202 | for every family of operations, every run of the engine, with any faults, is a schedule of the interleaved machine, so that machine covers what the engine can do |
| `GroupRows.GroupIsInserted` | api/src/db/openpath-repos/groups.repo.ts:42-72 | a group is inserted, under a fresh id, exactly if no group has its name and no rule comes twice |
| `GroupRows.LinkIsInserted` | api/src/services/group-local-link.service.ts:8-44 | a link is inserted unless it is there, and refused exactly if another link of the organization has the public name |
| `GroupRows.RowsAreDeleted` | api/src/services/group-delete-direct.service.ts:52-80 | unlinking and cascading take one row each and leave every other |
| `GroupRows.CreationReplies` | api/src/services/group-create-from-rules-workflow.service.ts:48-99 | what the three bodies of a creation answer |
| `GroupRows.CreationOutcome` | api/src/services/group-create-from-rules-workflow.service.ts:39-102 | a completed creation has inserted that one group and that one link, and its row names both |
| `GroupRows.DeletionOutcome` | api/src/services/group-delete-direct.service.ts:46-87 | an uninterrupted deletion removes the link, and the group exactly if no other organization links it |
| `GroupLinks.CreateMoves` | api/src/services/group-create-from-rules-workflow.service.ts:48-68 | an attempt to create the upstream group, failing anywhere, leaves links resolving and a new unlinked group accounted for by its operation |
| `GroupLinks.LinkMoves` | api/src/services/group-create-from-rules-workflow.service.ts:69-87 | an attempt to link keeps links resolving and accounts for the group until the link is recorded |
| `GroupLinks.UnlinkMoves` | api/src/services/group-delete-direct.service.ts:52-66 | an attempt to unlink leaves a group without link accounted for by the deletion |
| `GroupLinks.CascadeMoves` | api/src/services/group-delete-direct.service.ts:67-86 | an attempt to delete upstream removes only a group without links, so no link dangles |
| `GroupLinks.LinkIntegrity` | api/src/services/group-create-from-rules-workflow.service.ts:39-102 | over every sequence of create and delete runs stopped anywhere, every link points to an existing group and every group without link is the business of a non-completed operation |
| `GroupInterleaving.ActionResolvesExactly` | api/src/services/group-create-from-rules-workflow.service.ts:69-87 | from resolved links, any action of any operation leaves them resolved if and only if it does not link a group that is gone by now under a free public name |
| `GroupInterleaving.LinksResolveExactly` | api/src/services/group-create-from-rules-workflow.service.ts:39-87 | from a store whose links resolve, they resolve in every state of an interleaved schedule of creations and deletions, crashing anywhere, if and only if no action of it links a group that is gone by then |
| `GroupInterleaving.InterleavedLinkDangles` | api/src/services/group-delete-direct.service.ts:46-87 | from any valid tables with free names, two requests end in a link to a group that is gone: a creation dies behind its link, its retry loads the group, a deletion unlinks and cascades, the retry links |
| `GroupInterleaving.DeletionUndoes` | api/src/services/group-delete-direct.service.ts:46-87 | in that schedule the deletion passes its guard for an enabled group, and but for the used-up id leaves the tables from before the creation |
| `GroupWitnesses.UnlinkedIsWitnessed` | api/src/services/group-create-from-rules-workflow.service.ts:39-102 | in every state of every interleaved schedule from fully linked tables, a group without link is the business of a creation or deletion that is not completed |
| `GroupCreation.CreationCompletesExactly` | api/src/services/group-create-from-rules-workflow.service.ts:39-102 | a history of one group creation completes it if and only if name and public name were free, the first creation that happened left its result in the ledger, and this run or a later one got past the link, or found it recorded by an earlier one, and completed, all read off the faults |
| `RunFates.LostExactly` | api/src/lib/cross-system-workflow-engine.ts:167-202 | which fault histories lose a first effect that cannot be repeated: those whose first effective run does not record it |
| `RunFates.CompletesExactly` | api/src/lib/cross-system-workflow-engine.ts:167-202 | which fault histories complete such an operation: the first effective run records its result, and it or a later run gets through the second step, or finds it recorded with no failure written since, and through the third |
| `GroupCreation.RetryCompletesUnlessLost` | api/src/services/group-create-from-rules-workflow.service.ts:39-102 | the group is created at most once; a fault-free retry completes the operation at any time, except exactly when the first creation that happened was not recorded, and then the group stays unlinked for ever because its name refuses every retry |
| `GroupTables.InsertedRules` | api/src/db/openpath-repos/groups.repo.ts:59-69 | inserting a group's rules adds them to that group, in order, and to no other |
| `GroupTables.WithoutKeepsOthers` | api/src/db/openpath-repos/groups.repo.ts:75-78 | deleting a group's rules leaves it none and every other group all of its own |
| `GroupTables.Tables.CreateGroupWithRules` | api/src/db/openpath-repos/groups.repo.ts:40-73 | inserts the group and its rule rows together, or nothing when a unique constraint refuses, as the workflows' store says |
| `GroupTables.Tables.DeleteGroupCascade` | api/src/db/openpath-repos/groups.repo.ts:75-78 | removes the group's rule rows and then the group, nothing else; stopped between the two statements the group is left without rules, and no rule row without a group |
| `GroupTables.StoppedCascadeFinishes` | api/src/db/openpath-repos/groups.repo.ts:75-78 | a cascade stopped between its two statements is finished by running it again, and left links and names alone |
| `GroupTables.Tables.LinkOrganizationGroup` | api/src/services/group-local-link.service.ts:7-44 | inserts a link once and adds the group to the linking teacher's row; a second insert changes no link; a public name in use is refused and changes nothing |
| `GroupTables.GroupAddedOnce` | api/src/db/openpath-repos/roles.repo.ts:59-87 | a teacher's row gets the group behind all it had, none twice, and adding it again changes nothing |
| `GroupTables.TeacherGetsGroup` | api/src/db/openpath-repos/roles.repo.ts:59-87 | that user's row has the group beside those it had, and no other user's row changes |
| `GroupTables.Tables.DeleteLink` | api/src/services/group-delete-direct.service.ts:52-66 | removes that link only |
| `GuardedGroupDelete.CallCompletesExactly` | api/src/services/group-delete-direct.service.ts:20-87 | one undisturbed call completes if and only if the caller is authorized, the link is there and the group exists and is enabled; a refused call changes nothing |
| `GuardedGroupDelete.GroupDeletionCompletesExactly` | api/src/services/group-delete-direct.service.ts:26-90 | calls of the guarded group deletion complete it if and only if the first call that removes the link runs through |
| `Memberships.GuardedChange` | api/src/services/organization-user-helpers.ts:51-96 | a guarded role change or removal keeps every organization's last admin |
| `Memberships.TwoAdminsCounted` | api/src/services/organization-user-helpers.ts:80-95 | counting admin rows decides whether a second admin exists |
| `Memberships.MembershipMachine` | api/src/services/pending-user-membership-commit.service.ts:15-53 | over every sequence of calls a user has at most one membership and is never a member and waiting; without accepted invitations no organization loses its last admin |
| `Memberships.AcceptKeepsAdminsExactly` | api/src/services/invitation-accept.service.ts:20-72 | accepting an invitation costs an organization its last admin exactly when the user is its sole admin |
| `Memberships.Tables.CommitOrganization` | api/src/services/onboarding-create-organization.service.ts:40-69 | the transaction in place, as the specification has it and by its rows: exactly for a verified user without a membership one organization and one admin membership in it are inserted, the waiting status goes and nothing else changes; otherwise the refusal due and no change |
| `Memberships.Tables.CommitPendingUserMembership` | api/src/services/pending-user-membership-commit.service.ts:7-56 | turns waiting into membership, or refuses for the specification's reason; in consistent tables it succeeds exactly for a user waiting for this organization |
| `Memberships.Tables.AcceptOrganizationInvitation` | api/src/services/invitation-accept.service.ts:12-77 | moves the user, or only uses the invitation up when the user is already there; refuses exactly a user with two memberships |
| `Memberships.Tables.SetWaitingForInvitation` | api/src/services/onboarding-flow.service.ts:75-125 | records the waiting status after the guards, for the named or the only organization, or refuses without a change |
| `Memberships.Tables.CancelWaitingForInvitation` | api/src/services/onboarding-flow.service.ts:127-130 | the user's waiting status is gone afterwards, and no other status or table changes |
| `Memberships.Tables.AssertChangeAllowed` | api/src/services/organization-user-helpers.ts:51-96 | the guards, deciding by counting admin rows: exactly when a change is allowed and exactly when each of the three refusals is given, by the membership rows |
| `Memberships.Tables.ChangeRole` | api/src/services/organization-user-role-assignment-workflow.service.ts:57-67 | a guarded role change updates the one membership row in place and keeps the tables consistent |
| `Memberships.Tables.DeleteMembership` | api/src/services/organization-user-delete.service.ts:59-66 | a guarded removal deletes that membership in place and keeps the tables consistent |
| `Memberships.Tables.SynchronizeOpenPathRole` | api/src/lib/openpath-roles.ts:50-103 | the role mirror in place: deletes, inserts or updates the user's row only, and refuses an ambiguous membership without a change |
| `RateLimiter.Middleware.EvictExpired` | api/src/lib/gateway-rate-limits.ts:93-99 | with at most 1000 entries nothing happens, above that exactly the expired ones go, in whatever order the loop visits them |
| `RateLimiter.Middleware.Handle` | api/src/lib/gateway-rate-limits.ts:82-146 | table and decision after a request are those of the specification; a request is unlimited, and leaves the table alone, exactly if no rule matches its path |
| `RateLimiter.KeysAreDistinct` | api/src/lib/gateway-rate-limits.ts:102 | bucket and address can be read off a key, so no two clients or buckets share one |
| `RateLimiter.HandledRepresents` | api/src/lib/gateway-rate-limits.ts:93-114 | neither eviction nor other keys' traffic disturbs what the table knows about a live window |
| `RateLimiter.SharedRefinesPrivate` | api/src/lib/gateway-rate-limits.ts:79-146 | for every trace with a clock that never goes back, the shared table decides each key's requests as a private limiter that never evicts |
| `RateLimiter.FindsFirstMatch` | api/src/lib/gateway-rate-limits.ts:84 | the rule found is the first in the list that matches; none is found exactly if none matches |
| `RateLimiter.DecisionTells` | api/src/lib/gateway-rate-limits.ts:104-144 | a request is refused exactly when an open window has counted the limit or the limit admits nothing; what the headers and the entry then say |
| `RateLimiter.HandledTouches` | api/src/lib/gateway-rate-limits.ts:102-134 | a request touches the entry of its first matching rule and client alone, and is told that rule's limit |
| `RateLimiter.GatewayRuleOf` | api/src/lib/gateway-rate-limits.ts:41-77 | for any recognisers of the four kinds of path: which bucket counts a path, in the order of the rules, with the limit and window of that bucket; only a probe that no earlier rule matches goes uncounted |
| `GatewayPaths.PathsAreApart` | api/src/lib/gateway-rate-limits.ts:37-76 | no path is a sign-in, an onboarding, an agent and a probe path at once, so the order of the first three rules does not matter |
| `GatewayPaths.SignInsCount` | api/src/lib/gateway-rate-limits.ts:49-53 | the seven sign-in calls count as such with and without the gateway's prefix and a query |
| `GatewayPaths.OthersCount` | api/src/lib/gateway-rate-limits.ts:37-73 | so do the onboarding calls, the agents' files and the probes as theirs |
| `GatewayPaths.PathIsCounted` | api/src/lib/gateway-rate-limits.ts:37-77 | with the source's patterns every path is counted in the bucket of its kind with that bucket's limit and window, and probes alone go uncounted |
| `RateLimitBounds.CapacityBound` | api/src/lib/gateway-rate-limits.ts:101-140 | accepted requests up to a point in time fit in what the open window and the windows still to start can take |
| `RateLimitBounds.SpanBound` | api/src/lib/gateway-rate-limits.ts:101-140 | what a key can have accepted in a span of any length T is at most the larger of `limit * ceil(T / window)` and `limit - 1 + limit * ceil((T - 1) / window)` |
| `RateLimitBounds.MostIs` | api/src/lib/gateway-rate-limits.ts:101-140 | the same without a maximum, and never more than `limit * (ceil(T / window) + 1) - 1` |
| `RateLimitBounds.BoundIsReached` | api/src/lib/gateway-rate-limits.ts:101-140 | for every limit, window and span of at least zero a trace that reaches that bound, so it cannot be lowered anywhere |
| `RateLimitBounds.ClosedLimit` | api/src/lib/gateway-rate-limits.ts:116-138 | a limit below one accepts nothing |
| `RateLimitBounds.NoWindowNoLimit` | api/src/lib/gateway-rate-limits.ts:104-114 | a window that is not positive limits nothing |
| `RateLimitBounds.RetryAfterIsExact` | api/src/lib/gateway-rate-limits.ts:116-138 | for one entry: after a rejection everything strictly before the announced moment is rejected, the first request from it on accepted, and waiting the header's whole seconds (section 10.2.3 of RFC 9110) is enough, one second less is not |
| `RateLimitBounds.GatewayRetryAfter` | api/src/lib/gateway-rate-limits.ts:79-146 | the same on the shared table of the gateway: whatever the other clients send and whatever this one sends too early, its next request is accepted exactly from the announced moment on |
| `RateLimitBounds.GatewayTraceBound` | api/src/lib/gateway-rate-limits.ts:79-146 | that bound for one client and bucket of the gateway, over any trace of all clients' requests |
| `GroupNames.NormalizedIsCanonical` | api/src/services/group-name.service.ts:6-14 | every key consists of lower-case letters, digits and single inner hyphens |
| `GroupNames.NormalizationIsIdempotent` | api/src/services/group-name.service.ts:6-14 | normalising twice is normalising once, and the canonical names are exactly the ones it keeps |
| `GroupNames.KeysAre` | api/src/services/group-name.service.ts:7-15 | the fixed points of normalization are exactly the texts of lower-case ASCII letters, digits and hyphens with no two hyphens together and none at an end |
| `SlugScan.NormalizationIsOneScan` | api/src/services/group-name.service.ts:6-14 | the six passes compute the words of the lower-cased name joined by single hyphens, on every raw name |
| `SlugScan.RejectedExactly` | api/src/services/group-name.service.ts:16-24 | a group name is rejected exactly when, in lower case, it has no letter from a to z and no digit |
| `GroupNames.ScopedIs` | api/src/services/group-name.service.ts:17-34 | a scoped name is the prefix, the organization's digest, up to 76 characters of the key and the key's digest; only an empty key has none |
| `GroupNames.ScopedNames` | api/src/services/group-name.service.ts:16-34 | a scoped name has at most 100 characters, depends on organization and key alone, and separates whatever the digests separate |
| `GroupNames.LookupFindsCreated` | api/src/services/group-read-lookup.service.ts:45-61 | a group linked under a raw name is found by that name, the stored name and exactly the other spellings of it, and no other group is |
| `NameSearch.CandidateIs` | api/src/services/group-copy-name.service.ts:12-16 | a candidate is as much of the base as leaves room for the suffix, without hyphens at the cut, and then the suffix |
| `NameSearch.SuffixIs` | api/src/services/group-copy-name.service.ts:37 | the suffixes are empty, -2, -3 and so on |
| `NameSearch.RandomNameFits` | api/src/services/group-copy-name.service.ts:18-20 | a random name is the prefix, a hyphen and the random text, cut to the maximal length |
| `NameSearch.CandidateFits` | api/src/services/group-copy-name.service.ts:12-16 | with room for four characters every candidate is usable, fits and starts like the base |
| `NameSearch.UsableFromFour` | api/src/services/group-copy-name.service.ts:36-48 | all fifty candidates are usable exactly from a maximal length of four on |
| `NameSearch.SuffixedApart` | api/src/services/group-copy-name.service.ts:37-42 | suffixed candidates of different attempts differ, whatever was cut off |
| `NameSearch.SuffixedCount` | api/src/services/group-copy-name.service.ts:36-42 | n suffixed attempts give n different names |
| `NameSearch.SomeCandidateIsFree` | api/src/services/group-copy-name.service.ts:36-50 | fewer than 49 taken names leave a candidate free |
| `NameSearch.FortyNineCanBlock` | api/src/services/group-copy-name.service.ts:36-50 | 49 taken names that block all fifty candidates, so the bound is exact |
| `NameSearch.FindAvailableName` | api/src/services/group-copy-name.service.ts:22-63 | the search answers with the first free candidate; with a random name only without a base, at an unusable candidate or with all fifty taken |
| `NameSearch.AnswerIsUnique` | api/src/services/group-copy-name.service.ts:22-63 | that description allows one answer |
| `NameSearch.FewTakenFindsName` | api/src/services/group-copy-name.service.ts:22-63 | with fewer than 49 names taken and room for four characters the answer is free, fits and is deterministic |
| `NameSearch.RandomOnlyWhenExhausted` | api/src/services/group-copy-name.service.ts:36-62 | a free deterministic answer is given exactly when some candidate is free |
| `PublicNames.CanonicalizePublicNames` | api/src/db/schema-cleanup.ts:74-101 | each row gets the name of its occurrence among the rows of its organization, keeps id, organization, group and upstream name, and a missing visibility becomes private |
| `PublicNames.BaseOf` | api/src/db/schema-cleanup.ts:83-85 | a row's base is its normalized public name, or without one its upstream name; an empty base falls back to the digest of the group |
| `PublicNames.NamesAreNumbered` | api/src/db/schema-cleanup.ts:86-91 | the first row of a base in its organization is named by the base cut to 100 characters, the n-th by the base cut to leave room, a hyphen and n, counted over the rows before it |
| `PublicNames.OccurrenceIdentifies` | api/src/db/schema-cleanup.ts:77-87 | with rows ordered by organization, a base and an occurrence number belong to one row |
| `PublicNames.ConstraintHoldsExactly` | api/src/db/schema-cleanup.ts:74-120 | the names of every organization are distinct exactly when no two rows clash: bases cut alike under one number, or a base that reads like another's numbered name |
| `PublicNames.PlainBasesStayDistinct` | api/src/db/schema-cleanup.ts:22-25 | uncut bases none of which is another one with hyphen and number get distinct names of at most 100 characters |
| `PublicNames.NameFits` | api/src/db/schema-cleanup.ts:22-25 | a name fits its column exactly while its suffix leaves room for a character |
| `PublicNames.NumberedBaseBreaksConstraint` | api/src/db/schema-cleanup.ts:83-90 | the bases a, a, a-2 get the same name twice |
| `PublicNames.SecondPassKeepsNames` | api/src/db/schema-cleanup.ts:74-101 | uncut names that satisfy the constraint are canonical and survive a second pass unchanged |
| `TeacherRoles.IndexByName` | api/src/db/schema-cleanup.ts:176-183 | the index holds for every name the ids of the groups called so, in table order |
| `TeacherRoles.NextGroupIds` | api/src/db/schema-cleanup.ts:194-219 | the loop over a stored list computes the rewritten list |
| `TeacherRoles.CanonicalizeTeacherRoles` | api/src/db/schema-cleanup.ts:172-230 | every teacher row gets its rewritten list; a missing one counts as empty |
| `TeacherRoles.ResolvesExactly` | api/src/db/schema-cleanup.ts:194-219 | a stored value stands for the group whose id it is, trimmed, or if it is nobody's id for the only group of that name, and for none otherwise |
| `TeacherRoles.RewritingListsByFirstMention` | api/src/db/schema-cleanup.ts:194-219 | the rewritten list has no duplicates, lists exactly the groups its source stands for, and orders them by first mention |
| `TeacherRoles.OneListByFirstMention` | api/src/db/schema-cleanup.ts:194-219 | there is only one such list |
| `TeacherRoles.OnlyAndAllValidIds` | api/src/db/schema-cleanup.ts:208-219 | only existing groups are listed, and every stored valid id, padded or not, is kept |
| `TeacherRoles.SecondPassExactly` | api/src/db/schema-cleanup.ts:194-229 | a second pass changes nothing exactly when every group that a value of the source stands for has an id that is not blank and either has no white space around it or, without that, is nobody's id and the name of this group alone |
| `TeacherRoles.SecondPassChangesNothing` | api/src/db/schema-cleanup.ts:194-229 | so it is for group ids that are not blank and have no white space around them |
| `TeacherRoles.PaddedIdMoves` | api/src/db/schema-cleanup.ts:203-219 | with a padded group id a second pass moves a role to another group |
| `RuleGrouping.SortingSorts` | api/src/services/group-rule-grouping.service.ts:40-48 | sorting orders by any total preorder, keeps every element and the order of ties |
| `RuleGrouping.GroupByRoot` | api/src/services/group-rule-grouping.service.ts:32-38 | the loop collects for every root its rules in listing order, and the roots in order of first rule |
| `RuleGrouping.ListGroupedGroupRules` | api/src/services/group-rule-grouping.service.ts:24-73 | the answer is the requested page of the sorted groups of the filtered rules, with both totals and whether more follow (what is filtered: `RuleListing.ReadingListsSought`) |
| `RuleGrouping.GroupsFollowRoots` | api/src/services/group-rule-grouping.service.ts:40-46 | one group per root, in sorted order, and one for every rule |
| `RuleGrouping.GroupHoldsItsRules` | api/src/services/group-rule-grouping.service.ts:46-48 | a group holds exactly the rules of its root, as often as they are listed, sorted by value, and at least one |
| `RuleGrouping.StatusTellsRules` | api/src/services/group-rule-grouping.service.ts:50-62 | mixed, blocked and allowed told exactly from the rules of the group; an allowed path counts as neither |
| `RuleGrouping.GroupsPartitionRules` | api/src/services/group-rule-grouping.service.ts:32-69 | the groups' rules together are the filtered rules, as multisets |
| `RuleGrouping.WalkIsComplete` | api/src/services/group-rule-grouping.service.ts:40-73 | reading pages until no more are announced yields all groups, each once, in sorted order, for every positive limit |
| `RuleGrouping.WalkLength` | api/src/services/group-rule-grouping.service.ts:43-72 | the walk takes as many pages as the groups need at that limit, rounded up, and at least one |
| `RuleListing.ReadingListsSought` | api/src/services/group-rule-grouping.service.ts:26-30 | reading all pages lists every rule as often as it is given if there is no search, a blank one, or its lower-cased value has the lower-cased, trimmed text in it, and not at all otherwise |
| `RuleListing.ReadingCounts` | api/src/services/group-rule-grouping.service.ts:43-72 | every page announces the number of rules and groups that the pages list together, and more to come exactly before the last |
| `RuleListing.TiesKeepOrder` | api/src/services/group-rule-grouping.service.ts:32-48 | within a group, rules whose values the locale order does not tell apart stand in the order given |
| `StageCache.VerifyCache.constructor` | scripts/lib/verify-cache.ts:93-105 | a cache starts with the entries of its file, none if that is missing or unreadable |
| `StageCache.VerifyCache.ShouldReuse` | scripts/lib/verify-cache.ts:125-150 | reuse is allowed exactly with a key, an entry under that same key, its required artifacts present and the stage's validation |
| `StageCache.VerifyCache.RememberPassedStage` | scripts/lib/verify-cache.ts:152-168 | memory and file agree on exactly one new or replaced entry |
| `StageCache.VerifyCache.ClearStage` | scripts/lib/verify-cache.ts:170-177 | memory and file agree on exactly that entry gone; without one nothing is written |
| `StageCache.Reporter.GetOrCreateStage` | scripts/lib/verify-report.ts:118-128 | finds the first stage of that id or appends a pending one |
| `StageCache.Reporter.SetStage` | scripts/lib/verify-report.ts:137-210 | exactly one stage of the report is set |
| `StageCache.MarkSetsOne` | scripts/lib/verify-report.ts:118-210 | setting a stage gives it its status and leaves every other stage's |
| `StageCache.RunReportedStage` | scripts/lib/verify-runtime.ts:17-68 | report, cache file, event and outcome of a stage under every fault, deaths in the middle of a write included |
| `StagePipelines.TakeTurn` | scripts/lib/verification-stage-runners.ts:435-468 | one iteration of the pipeline's loop: hooks, skip reason, stage with or without its cache (which it is: `StageOffers.PipelineTells`) |
| `StagePipelines.RunVerificationPipeline` | scripts/lib/verification-stage-runners.ts:410-472 | the whole pipeline, stopped by the first stage or hook that throws or dies |
| `StagePipelines.StageMarks` | scripts/lib/verify-runtime.ts:43-67 | a stage that returned is passed or skipped in the report, one whose failure was handled is failed, and no other stage changes |
| `StagePipelines.ReturningPipelineAccounts` | scripts/lib/verification-stage-runners.ts:429-471 | a pipeline that returns has every stage skipped for its reason, executed and passed in this very run, or reused from the cache |
| `StagePipelines.ReleaseReusesNothing` | scripts/lib/verification-stage-runners.ts:87-94 | in release mode nothing is reused and the cache file stays as it is |
| `StagePipelines.EntriesAfter` | scripts/lib/verify-runtime.ts:57-67 | every entry after an execution was there before and not settled by it, or was left by it |
| `StagePipelines.EveryReuseIsJustified` | scripts/lib/verify-cache.ts:125-177 | over every sequence of pipelines stopped anywhere, a reused stage has an earlier execution that passed under the same key, none after it that ran to a failure or replaced the entry, its required artifacts present and its validation holding |
| `StageOffers.ReusedExactly` | scripts/lib/verify-runtime.ts:24-41 | a stage is reused exactly if the cache is offered and its entry fits, and is executed with that offer otherwise |
| `StageOffers.ExecutionLeaves` | scripts/lib/verify-runtime.ts:43-67 | the outcome of an execution under every fault, and the entry it leaves: a pass the offered one, a failure none, without an offer or a key the one there was; no other entry changes unless the file is lost |
| `StageOffers.PassIsReused` | scripts/lib/verify-cache.ts:125-168 | what passed is reused at the next offer under its key with its artifacts there and its validation holding |
| `StageOffers.GoesOnExactly` | scripts/lib/verification-stage-runners.ts:435-468 | when a pipeline goes on after a stage |
| `StageOffers.FaultlessReturns` | scripts/lib/verification-stage-runners.ts:429-472 | a pipeline in which nothing fails returns |
| `StageOffers.PipelineTells` | scripts/lib/verification-stage-runners.ts:87-94 | the events of a pipeline are those of its acting stages, in order, each offered the cache exactly if the catalog calls it safe outside release mode |
| `StageOffers.EntryStays` | scripts/lib/verification-stage-runners.ts:87-94 | a pipeline leaves the entry of a stage it does not offer the cache to as it was, unless the file is lost |
| `StageOffers.PipelinesFollow` | scripts/lib/verify-cache.ts:93-105 | a pipeline starts from the file its predecessors left, and from none after a loss |
| `StageOffers.EveryEventStems` | scripts/lib/verification-stage-runners.ts:410-472 | over every history of a cache file, whatever was reused or executed was a turn of a pipeline with the offer due to it |
| `StageOffers.NeverCached` | scripts/lib/verification-stage-runners.ts:87-94 | a stage that no pipeline may cache never gets an entry and is executed every time |
| `EnvFile.ParseEnvFile` | scripts/setup-stripe-billing.ts:220-232 | the record holds for every key the value of the last line that assigns it |
| `EnvFile.UpdateEnvFileContents` | scripts/setup-stripe-billing.ts:258-280 | the loop over lines with its set of handled keys computes the updated text |
| `EnvLines.AssignsExactly` | scripts/setup-stripe-billing.ts:222-230 | a line assigns a key exactly if, trimmed, it is no comment and has an equals sign behind some text; key and value are what stands around the first one |
| `EnvLines.QuotesComeOff` | scripts/setup-stripe-billing.ts:230 | a pair of quotes around a single line comes off, anything else stays |
| `EnvLines.ValuesAreUnquoted` | scripts/setup-stripe-billing.ts:229-230 | double quotes come off before single ones |
| `EnvLines.ReplacesExactly` | scripts/setup-stripe-billing.ts:266 | the rewriter replaces a line exactly if it is a key of upper-case letters, digits and underscores, an equals sign and the rest of one line |
| `EnvLines.FallsIntoLines` | scripts/setup-stripe-billing.ts:222 | a text falls into lines at every line feed, with or without a carriage return before it |
| `EnvLines.LinesAreKept` | scripts/setup-stripe-billing.ts:265-278 | an update keeps the lines that are not empty, in order: those of a set key with its new value, every other one, comments among them, as it was |
| `EnvLines.MissingAreAdded` | scripts/setup-stripe-billing.ts:274-276 | the lines added are those of the settings with a value whose key was not handled, in their order |
| `EnvLines.HandledExactly` | scripts/setup-stripe-billing.ts:265-271 | a set key counts as handled exactly if some line of the file assigns it unindented |
| `EnvRoundTrip.RenderMatches` | scripts/setup-stripe-billing.ts:266 | a rendered line is one the rewriter replaces exactly when its value is single-line |
| `EnvRoundTrip.RenderParses` | scripts/setup-stripe-billing.ts:222-230 | the parser reads a rendered line back as its key and its cleaned value, whatever the value |
| `EnvRoundTrip.UpdatedText` | scripts/setup-stripe-billing.ts:278-279 | for distinct keys from [A-Z0-9_]+ and single-line values: the updated text is its non-empty lines, each ended by one line feed, and splits back into them |
| `EnvRoundTrip.KeptValue` | scripts/setup-stripe-billing.ts:265-272 | what replacing lines does to the last value of one key |
| `EnvReadBack.RewrittenValue` | scripts/setup-stripe-billing.ts:220-280 | for every file, key and new values of any text, none of which assigns the key on a later line of another key's value: parsing the updated text gives what the rendered new value reads as, unless the key is shadowed, and the old value otherwise |
| `EnvReadBack.RewritesExactly` | scripts/setup-stripe-billing.ts:258-280 | that condition is exact: a key fares so in every file if and only if no later line of another key's new value assigns it |
| `EnvReadBack.ReadsCleanExactly` | scripts/setup-stripe-billing.ts:220-232 | which line ends break the read-back of a value: those at its end never do, every other one does unless the value cleans to nothing; it is read back as given if and only if it has no line feed and is trimmed and unquoted |
| `EnvReadBack.ReadBackExactly` | scripts/setup-stripe-billing.ts:220-280 | in a file a new value is read back as given exactly when it has no line feed, is trimmed and unquoted and the key is not shadowed, or the shadowing line says the same; no unindented assignment shadows |
| `EnvReadBack.IndentedLineShadows` | scripts/setup-stripe-billing.ts:266-269 | an indented assignment after a replaced one keeps its old value in force |
| `EnvReadBack.MultiLineValueSetsAnother` | scripts/setup-stripe-billing.ts:271-276 | a concrete one: the second line of a new value sets another key of a file without it |
| `EnvRewriteTwice.RewritingTwiceExactly` | scripts/setup-stripe-billing.ts:258-280 | for distinct keys from [A-Z0-9_]+ and single-line values, updating twice is updating once exactly when no line of the file ends in a carriage return of its own |

## Left out

- Database statements, connection pools, notifications, HTTP, tRPC, e-mail, Stripe, Google and token calls: only their effects on the tables, and that they may throw, are modelled.
- Audit rows: the completion step writes none in the model, so a repeated audit entry, or a null role stored by a repeated deletion commit, is not seen.
- The idempotency-key builder and the retry handlers: an operation is given by its id, and a retry is another run on the persisted row with the same parameters.
- Concurrent runs of the same operation, and races inside the role mirror: the code has no version check on the ledger row, so nothing is claimed for them.
- Effects inside one step: each body is one atomic effect in the workflows. The two statements of the cascaded deletion are told apart in `GroupTables` only, and a link whose teacher row is not extended appears as before or after.
- Teacher role rows in the workflows: a link adds the group to the teacher's row in `GroupTables` only; `removeGroupFromTeacherRole`, and the second role row `addGroupToTeacherRole` inserts for a user whose only row is an admin's, are not part of this model.
- Step bodies as updates in place: the engine is proved for bodies given as functions on a store; the same effects are also proved as table updates in `Memberships.Tables` and `GroupTables.Tables`, without the engine around them.
- Role tables with several rows for one user: the role table holds at most one row per user.
- Classroom creation and deletion: the upstream-first and the delete family again, with the same engine and the same kind of bodies. Billing, request handling and the other repositories: single-table reads and writes without a protocol.
- `sanitizeSlug`, `getRootDomain`, `localeCompare`, SHA-256 and random ids: parameters of the model; digests have fixed lengths and are otherwise arbitrary.
- Real-valued clocks and header formatting: times are whole milliseconds.
- Cache keys: the digest over input files, mode and stage is a given key; that equal keys mean equal inputs is not claimed.
- StageCache.Reporter.SetStage: details, artifacts, timestamps, the error text, notes and the summary of the report are not kept, only identifier, label, status and the presence of an error.
- StageCache.RunReportedStage: a validation that throws is not modelled, since every validation of the catalog only tests for paths; a report write that throws outside the stage's try block, or while a failure is being handled, counts as a death, which leaves no report behind.
- Entries of a hand-edited cache file: a file is unreadable or well formed.
- Prototype names in parsed env files: the record is a map, so a key such as `__proto__` is an ordinary key.
- Grouping pages with offsets or limits that are not natural numbers: the endpoint admits fractions, the model does not.
- GroupLinks.LinkIntegrity: one run after the other. Interleaved runs are the subject of `GroupInterleaving` and `GroupWitnesses`; there, too, a step's body is one action, so the check for references and the cascade behind it are not torn apart.
- EnvReadBack.RewrittenValue: settings with keys outside [A-Z0-9_]+ are not covered, since the script names its keys by constants. The same holds for `EnvReadBack.RewritesExactly`, `EnvReadBack.ReadsCleanExactly` and `EnvReadBack.ReadBackExactly`.
- EnvRewriteTwice.RewritingTwiceExactly: besides, values with line ends are not covered, nor are they by `EnvRoundTrip.UpdatedText`: a second rewriting finds the first line of such a value only.
- GroupCreation.CreationCompletesExactly: one creation while nothing else touches the tables; another operation can free or take its names in between.
