# A verified model of reqdb

`reqdb` keeps requirements in immutable revisions, links them by refinement and
dependency, caches review verdicts on them, and hands out tasks under leases.
This project models that engine in Dafny and proves what its verdicts, its task
protocol, its lease scheduler and its event broker guarantee over whole runs.

`dafny verify dfyconfig.toml` checks everything.

## What is modelled

- **The store.** `Store.dfy` is the store as a class whose fields are its
  tables. Each transaction is a method that reads, branches, loops and writes in
  the order of `internal/store/sqlstore/store.go`. Recursive SQL queries run as
  a worklist search (`Graph.dfy`). Loops take rows in any order. Each method is
  proved to leave exactly the tables that the transaction's specification
  (`Transactions.dfy`) prescribes, and the old tables when it fails.
- **Runs.** `Transactions.Run` starts from the empty store and performs any
  sequence of requests, accepted or refused, with any amount of time between
  them. Most results below hold for every run.
- **The service** (`Service.dfy`) checks inputs, calls the store and wakes the
  scheduler after a commit. `Service.Handle` is the one step of a run in
  imperative form.
- **The scheduler** (`Scheduler.dfy`) is a state machine in which requests,
  their wake-ups, timer, reads and expiry interleave freely.
- **The broker** (`Broker.dfy`) is a class. Receivers may run between any two
  channel operations of the sender.
- **Stored times** (`Timestamps.dfy`, `TextLeases.dfy`, `TextRefinement.dfy`) cover the order of the
  stored text and what it means for the lease protocol.
- **The document** (`DocumentRules.dfy`) holds the status rules in the words of
  the design document.

A database NULL is kept apart from `pending_review` throughout: a requirement's
state is `None` when the column is NULL.

## Main results

1. *A stored "satisfied" is never stale*, both in the present graph
   (`Verdicts.SatisfiedIsNeverStale`) and in the graph as each change since the
   accept left it (`Freshness.SatisfiedSinceAcceptance`). Every update rewrites
   that graph; paths may lead through retired requirements and around cycles.
2. *A derived "satisfied" rests on fresh accepts* at every leaf that has a state
   (`RollUps.SatisfiedReadIsNeverStale`), and the flattened query means the
   recursive worst-of (`RollUps.RollUpIsWorst`).
3. *The impact query foretells invalidation* exactly, and after a change
   everything downstream reads as pending (`Impact`).
4. *Leases exclude each other* over whole runs, by fences, although completion
   never looks at the task's state (`Leases`); and exactly when that still holds
   under the text order of stored times (`TextLeases`), on a machine that every run of the store
   follows (`TextRefinement`).
5. *Completion respects dependencies, and open work can always go on*
   (`TaskOrder`).
6. *Reports agree with the lease transaction* (`Workability`). Against the rules
   of the design document, task statuses agree and requirement statuses differ in
   exactly four cases (`DocumentRules`).
7. *No wake-up is lost* in any interleaving, and the timer is never late
   (`Scheduler`).
8. *Every open subscriber keeps the newest event* (`BrokerObject`).
9. *Identifier cycles* come from one kind of update and no other
   (`Acyclicity.RunClosesCycleExactly`).
10. *State history replays* to the stored states (`History.HistoryReplays`), and
    the audit log only grows (`AuditTrail`).
11. *Every request that should go through does*, and no other: each transaction
    commits exactly under a condition on the rows (`Acceptance`,
    `TaskAcceptance`). A rejected requirement can be accepted, a revised
    stakeholder requirement can be decomposed, a holder can complete.
12. *Each reason in a report is listed exactly when its words hold* (`Reasons`).
13. *Listings by state* miss nothing and repeat nothing (`StateFilters`,
    `Listing`).

## Where the code differs from its document

The model follows the code where the repository's design document, the one beside
its README, says something else. Each difference has a lemma that says exactly when
it shows, or a concrete run.

| the design document says | the code does | lemmas |
|---|---|---|
| Under "Requirement hierarchy", line 64: the dependency graph is acyclic. | Only the graph of revisions is. Identifiers form a cycle exactly after an update that names a dependency which already depends on the updated requirement. | `Acyclicity.RunClosesCycleExactly`, `Acyclicity.UpdateClosesCycleExactly`, `Witnesses.IdCycleIsReachable` |
| Under "Lifecycle", lines 103-105: `waiting` comes before `no_work_required`. | A satisfied leaf with open tasks, none of them ready or leased, reports `no_work_required`. | `DocumentRules.StatusMatchesDocumentExactly`, `StatusWitnesses.SatisfiedWithStuckTaskIsReachable` |
| Under "Lifecycle", line 106: `ready_for_work` needs only a linked open task without an active lease. | It needs one that is ready to lease; with another task leased, the report is `work_in_progress`. | `DocumentRules.StatusMatchesDocumentExactly`, `StatusWitnesses.LeasedBesideStuckTaskIsReachable` |
| Under "Lifecycle", line 103: a requirement waits for a dependency that is not `satisfied`. | It also waits for one that is `satisfied` but retired or stale. | `DocumentRules.StatusMatchesDocumentExactly`, `StatusWitnesses.HeldBySatisfiedDependencyIsReachable` |
| Under "Lifecycle", line 100: `inactive` means retired. | So does a read at an old revision. | `DocumentRules.StatusMatchesDocumentExactly`, `StatusWitnesses.OldRevisionIsReachable` |
| Under "Reconciliation", lines 153-155: an identical submission returns the stored review. | It does while the requirement is active at the reviewed revision, and is a conflict later. | `Citations.IdenticalSubmissionExactly`, `StatusWitnesses.RefusedRepetitionIsReachable` |
| Under "Requirement hierarchy", lines 41-44: only actionable leaves have direct stored state. | Retiring a system child of an old parent revision marks the owner pending even if its current revision has active children. The value is not read while it has. | `StoredStates.RetireMisplacesExactly`, `StoredStates.MisplacedIsReachable` |
| Under "Lifecycle", lines 88-91: retirement records the retired requirement as the cause. | A cause that is stored and resolved stays resolved. | `Impact.RetireInvalidates`, `Witnesses.UnexplainedPendingIsReachable` |
| Under "Requirement hierarchy", lines 53-56: a pending leaf makes its ancestors pending. | A leaf whose state is NULL reads as pending, but the loop of the roll-up does not count it, so the loop gives satisfied if no other leaf objects. (If the driver refused to scan the NULL, the read would fail instead.) Such a leaf arises by moving a system child or by refining an old parent revision. | `RollUps.RollUpMatchesReadsExactly`, `LeafStates.NullLeafAfterUpdateExactly`, `Witnesses.NullLeafIsReachable` |
| Under "Tasks and leases", lines 204-206: a lease has an expiry time. | Times are compared as text without trailing zeros, which can be wrong within one second. | `Timestamps.ExpiryTestWrongExactly`, `Timestamps.ExpiredLeaseCountsAsRunning` |
| Under "Tasks and leases", lines 179-180: closing stops an open, unleased task without completing it. | If the text test takes an expiry back, the former holder can complete the closed task. | `TextLeases.ClosedStaysClosedExactly`, `TextLeases.ClosedIsCompleted` |
| Under "Tasks and leases", lines 208-210: expiry removes the lease and records the expiry. | A claim that finds an expired lease first removes it without a record. | `Leases.EndingIsRecordedExactly` |
| Under "Tasks and leases", lines 208-210: the next expiry is scheduled and processed promptly. | A failed read of the next expiry leaves no timer, so the scheduler sleeps until the next wake-up. | `Scheduler.SleepsOverExpiryExactly`, `Scheduler.FailedReadSleeps` |

The comparison of statuses reads the document as follows. Children are those that
refine the revision in question, since each link names a parent revision. A
requirement dependency may be direct or not. A task that depends on a retired
requirement is not ready, wherever the retired requirement lies below it.

## Model

| member | source | states |
|---|---|---|
| Verdicts.SatisfiedIsNeverStale | internal/store/sqlstore/store.go:477-538 | In every run, an active requirement stored as satisfied has an accept review of its current revision in the log after which no event created, revised or retired it or anything that reaches it over current refinement and dependency links, retired requirements and cycles included. |
| Freshness.SatisfiedSinceAcceptance | internal/store/sqlstore/store.go:477-538 | In every run, a satisfied active requirement was accepted at its current revision by some request; at every moment since, it has been active and satisfied at that revision, and every creation, revision or retirement since was of a requirement that, in the graph as that change left it, was neither it nor upstream of it. |
| Freshness.StepSpares | internal/store/sqlstore/store.go:508-531 | What a step creates, revises or retires is, in the graph after the step, neither at nor upstream of anything satisfied after it. |
| Verdicts.VerdictsRest | internal/store/sqlstore/store.go:1053-1062 | In every run a stored verdict belongs to a leaf actionable at its current revision; satisfied comes with a stored accept of that revision and no open cause on it. |
| Verdicts.OnlyReviewsJudge | internal/store/sqlstore/store.go:1018-1062 | If a step gives a requirement a verdict it did not have, the step is a review of it that was not stored before, the verdict is the review's, and the requirement was not satisfied: nothing leads straight from satisfied to not satisfied. |
| Verdicts.ResubmissionChangesNothing | internal/store/sqlstore/store.go:1003-1017 | A submission for a revision and commit that already have a review changes no table, so an invalidated accept cannot restore satisfied. |
| Verdicts.ReviewIsIdempotent | internal/store/sqlstore/store.go:1003-1017 | After a new review is stored, the identical submission succeeds without effect and any other one for the same key is a conflict. |
| Verdicts.OnlyAcceptsResolve | internal/store/sqlstore/store.go:1054-1057 | No step loses a stored cause or opens a resolved one, and the only step that resolves one stores an accept review of the revision it stands on. |
| Verdicts.CompletionCorrectsExactly | internal/store/sqlstore/store.go:1652-1669 | Completion changes a requirement's state exactly if the task links to its current revision and that is a leaf stored as not satisfied; the state is then pending. The task ends complete at the commit, without a lease. |
| Verdicts.ChangesAreLogged | internal/store/sqlstore/store.go:1138 | Whenever a step changes which revision of a requirement is current, or its lifecycle, it appends exactly one event and that event names this requirement; this ties the events of the main theorem to real changes. |
| Verdicts.RevisionAgrees | internal/store/sqlstore/store.go:25-39 | Adding a revision leaves every downstream edge as it was except those into the revised requirement. |
| Verdicts.AcceptedLastStays | internal/store/sqlstore/store.go:508-531 | A change of x leaves an acceptance the latest word for every requirement that x does not reach in the new graph. |
| Verdicts.RunIsTrusted | internal/store/sqlstore/store.go:621-634 | The invariant behind the verdict theorems holds after every run: verdicts stand on actionable leaves only, and each satisfied one is backed by an accept later than every disturbance. |
| Soundness.RunIsSound | db/schema.sql:47-80 | After every run: current revisions exist, levels fit identifiers, links join adjacent levels and lead back in time, business requirements have no stored state, references resolve, and a lease row carries its task's fence. |
| Soundness.UpdateAdds | internal/store/sqlstore/store.go:477-538 | What an update leaves: its own row pending at the new revision, every other row as it was, cleared, or marked if it lies downstream in the new graph and is a leaf, and one cause per downstream requirement. |
| Soundness.RetireEffect | internal/store/sqlstore/store.go:1084-1144 | The same for a retirement, where also parents that become leaves are marked, judged by the parent revision that the link names. |
| Soundness.TaskCreatedExactly | internal/store/sqlstore/store.go:1234-1281 | A task is created exactly if its identifier is new, its dependencies are other stored tasks, its links name leaf revisions and neither list repeats itself; its stored rows are then exactly those of the input. |
| Acceptance.UpdateCommitsExactly | internal/store/sqlstore/store.go:477-494 | On any tables, an update commits exactly if the requirement is active, the expected revision is its current one and the new number the next, the revision is new, every named parent and dependency is stored and is another requirement, neither list repeats itself, and each parent of a system requirement has an active child or no task link and no review at exactly that revision. |
| Acceptance.CreateCommitsExactly | internal/store/sqlstore/store.go:437-452 | On tables whose links belong to stored revisions, a creation commits exactly if the identifier is new, the revision is positive, and the links meet the same conditions. |
| Acceptance.OtherWorkIsIrrelevant | internal/store/sqlstore/store.go:387-406 | Two stores that differ only in tasks, task links and reviews, and not at the named parent revisions, give the same answer to every creation and update: work on other revisions, even of the same parent, never counts. |
| Acceptance.NewRevisionCanBeDecomposed | internal/store/sqlstore/store.go:395-403 | In every run, once an update of a stakeholder requirement has committed, the creation of a new system requirement below the new revision commits, whatever work stands on older revisions. |
| Acceptance.RequirementErrors | internal/store/sqlstore/store.go:477-490 | An update of an unknown requirement is not found; a wrong expectation or number and a retired requirement are conflicts; so is a creation under a taken identifier. |
| Acceptance.LinkErrors | internal/store/sqlstore/store.go:381-435 | For an update or a creation that passes those tests, which error the links give, in order: a missing parent is not found, a guarded one is a conflict, a missing dependency is not found, and anything else that cannot be stored breaks a constraint. |
| Acceptance.ReviewCommitsExactly | internal/store/sqlstore/store.go:982-1042 | On any tables, a review commits exactly if it names an active requirement at its current revision, or at revision 0, that is a leaf, and either repeats the stored review of its commit or is the first of its commit while the state is not satisfied and any cited task is complete at the commit and linked to the revision. |
| Acceptance.ReviewErrors | internal/store/sqlstore/store.go:984-1039 | An unknown requirement is not found, and so is an unknown cited task once every other guard has passed; every other refusal is a conflict. |
| Acceptance.ReviewLeaves | internal/store/sqlstore/store.go:1043-1063 | What the first review of a commit leaves: the review as submitted, the verdict on the one row with a history record unless it is the same, after an accept every cause on the revision resolved, one event, and everything else as it was. |
| Acceptance.AcceptAfterReject | internal/store/sqlstore/store.go:1018-1060 | After any committed review that rejects, an accept of the same revision that cites no task, at a commit without a review, commits and leaves the requirement satisfied at that revision. |
| Acceptance.RetireCommitsExactly | internal/store/sqlstore/store.go:1084-1091 | A retirement commits exactly for an active requirement; an unknown one is not found and a retired one is a conflict. |
| Acceptance.RetiredRowIs | internal/store/sqlstore/store.go:1097-1137 | A retirement keeps the current revision of the requirement itself, and its stored state unless it refines a revision of itself that is a leaf afterwards; it is never marked as downstream of itself. |
| Acceptance.RetirementKeepsOwnState | internal/store/sqlstore/store.go:1097-1137 | In every run the exception does not arise: a retired requirement keeps its stored state. |
| TaskAcceptance.TaskErrors | internal/store/sqlstore/store.go:1238-1273 | A taken task identifier is a conflict. Otherwise the first row that does not fit decides, dependencies before links: unknown ones are not found, a link to no leaf is a conflict, the own identifier and repeated rows break a constraint. |
| TaskAcceptance.LeaseCommitsExactly | internal/store/sqlstore/store.go:1496-1543 | On any tables, a claim commits exactly for an open task whose links are active leaf revisions, whose transitive requirement dependencies are current, active and satisfied, whose task dependencies are complete, and whose lease, if any, has run out. An unknown task is not found; every other refusal is a conflict. |
| TaskAcceptance.LeaseLeaves | internal/store/sqlstore/store.go:1544-1557 | A claim leaves one lease for the agent that asked, under the next fence, counted from the claim, with that fence on the task and in the event, and changes nothing else. |
| TaskAcceptance.HeartbeatCommitsExactly | internal/store/sqlstore/store.go:1596-1609 | A heartbeat commits exactly for the stored lease at its fence before its expiry, for any time to live; it moves the expiry, earlier or later, and keeps agent, identifier and fence. Every other one is a conflict. |
| TaskAcceptance.HolderCanGoOn | internal/store/sqlstore/store.go:1596-1609 | In every run, whoever holds a task can send a heartbeat and then holds it, as the same agent under the same lease, for exactly the time asked for. |
| TaskAcceptance.ReleaseCommitsExactly | internal/store/sqlstore/store.go:1615-1625 | A release commits exactly for the stored lease at its fence, expired or not, and takes it away; every other one is a conflict. |
| TaskAcceptance.CompleteCommitsExactly | internal/store/sqlstore/store.go:1628-1637 | A completion commits exactly for the stored lease of the task at its fence before its expiry, whatever the fence and the commit; every other one is a conflict. |
| TaskAcceptance.CompletionLeaves | internal/store/sqlstore/store.go:1638-1652 | A completion leaves the task complete at the commit under its fence and without a lease, and other tasks and leases as they were. |
| TaskAcceptance.HolderCanComplete | internal/store/sqlstore/store.go:1631-1647 | In every run, whoever holds a task under whatever fence can complete it with the stored lease at any commit, and the task is complete then. |
| TaskAcceptance.NextHolderCanComplete | internal/store/sqlstore/store.go:1544-1637 | In every run, whoever leases a task, however often it was leased before, can complete it under the new fence while the time to live lasts. |
| TaskAcceptance.CloseCommitsExactly | internal/store/sqlstore/store.go:1678-1699 | A close commits exactly for an open task without a lease that still runs, and then moves it to closed with a history record; an unknown task is not found, every other refusal is a conflict. |
| Domain.LevelIsUnique | internal/domain/domain.go:119-123 | The identifier prefixes exclude each other, so an identifier has one level. |
| Domain.ParentLevel | internal/domain/domain.go:149-154 | A parent that passes the prefix test and matches its own level's pattern has the level just above the child's. |
| Identifiers.IdentifierExactly | internal/domain/domain.go:119-123 | The pattern of a level admits exactly its prefix followed by one or more nonempty parts of upper-case letters and digits, joined by single hyphens. |
| Identifiers.TaskIdentifierExactly | internal/domain/domain.go:182-185 | A task identifier is exactly "T-" and one or more digits. |
| Identifiers.CommitExactly | internal/domain/domain.go:40-47 | A commit is exactly forty hexadecimal digits of either case. |
| Identifiers.RequirementInputExactly | internal/domain/domain.go:129-165 | A requirement passes its check exactly with such an identifier, positive revisions, no dependency on itself, no parent for a business requirement, and at least one parent of the prefix above for the others. |
| Identifiers.TaskInputExactly | internal/domain/domain.go:182-206 | A task passes its check exactly with such an identifier, at least one link, positive revisions and no dependency on itself. |
| Identifiers.ReviewInputExactly | internal/application/service.go:208-221 | A review fails its check exactly for a commit that is not one, a rejection without findings, or a finding with a blank message, a negative line, or a line without a path. |
| StoredInputs.RunFits | internal/domain/domain.go:129-206 | In every run, exactly the business revisions refine nothing; each task has a task identifier, links to a revision and is complete only at a full commit; each review is of a full commit, each rejection has findings, and each finding a message. |
| ServiceObject.InvalidExactly | internal/application/service.go:160-221 | A request is answered as invalid exactly if its input fails its check. |
| RollUps.RollUpIsWorst | internal/store/sqlstore/store.go:636-684 | The flattened roll-up over leaves equals the recursive worst state over active current children, with children shared between parents. |
| RollUps.RollUpHasLeaf | internal/store/sqlstore/store.go:660-668 | A requirement with an active current child has at least one leaf below it, so the roll-up never reports satisfied over nothing. |
| RollUps.LeafIsActionable | internal/store/sqlstore/store.go:642-668 | Every leaf the roll-up reads is active, current and actionable. |
| RollUps.RollUpMatchesReadsExactly | internal/store/sqlstore/store.go:675-682 | The roll-up equals the worst of what reading the children reports, exactly unless a child that is a leaf has a NULL state and every leaf below is stored as satisfied or NULL. |
| RollUps.RollUpMatchesLeavesExactly | internal/store/sqlstore/store.go:674-683 | The roll-up equals the worst of what reading the leaves below reports, exactly unless some leaf is NULL while every leaf is stored as satisfied or NULL. |
| RollUps.SatisfiedReadIsNeverStale | internal/store/sqlstore/store.go:636-684 | In every run, if a requirement with an active child reads as satisfied, a leaf exists below it, and each leaf that is not NULL is downstream of it and was accepted after the last change of the leaf and of everything upstream of the leaf. |
| Impact.ImpactForetellsUpdate | internal/store/sqlstore/store.go:1152-1187 | The active members of the impact taken before an update, the root aside, are exactly the requirements that the update then processes. |
| Impact.ImpactForetellsRetire | internal/store/sqlstore/store.go:1107-1111 | The same for a retirement. |
| Impact.UpdateReachesImpact | internal/store/sqlstore/store.go:512-531 | An update stores itself as a cause on another requirement exactly if that one is active and in the impact; rows outside keep their value unless they are parents named by a system requirement. |
| Impact.RetireReachesImpact | internal/store/sqlstore/store.go:1107-1137 | The same for a retirement; rows outside the impact keep their value unless a parent of theirs becomes a leaf. |
| Impact.UpdateInvalidates | internal/store/sqlstore/store.go:508-531 | After an update in any run, the revised requirement and every active requirement downstream read as pending, leaf or not, and each of the latter has an open cause naming the new revision. |
| Impact.RetireInvalidates | internal/store/sqlstore/store.go:1112-1126 | After a retirement in any run every active requirement downstream reads as pending, and its cause is open exactly unless the same cause was stored and resolved before. |
| Impact.DownstreamReadsPending | internal/store/sqlstore/store.go:636-684 | Once the actionable requirements downstream of x are pending, the derived states downstream are pending too. |
| LeafStates.LastChildFreesParent | internal/store/sqlstore/store.go:1127-1137 | Retiring the last active child of a current stakeholder revision makes it an actionable leaf that is stored and read as pending. |
| LeafStates.NullLeafAfterUpdateExactly | internal/store/sqlstore/store.go:419-427 | After an update, exactly which other active requirements are leaves without a state, told from the tables before it: the leaves under the new links, outside the impact, that had no state or are named as parent of a system requirement. |
| LeafStates.NullLeafAfterCreateExactly | internal/store/sqlstore/store.go:437-465 | The same for a creation. |
| LeafStates.OwnRowHasState | internal/store/sqlstore/store.go:496-502 | The requirement that a creation or update writes is never itself a leaf without a state. |
| LeafStates.RetireMakesNoNullLeaf | internal/store/sqlstore/store.go:1127-1137 | A retirement makes no leaf without a state, because it restores pending_review on parents. |
| LeafStates.NullLeavesComeFromRevisions | internal/store/sqlstore/store.go:323-325 | Only creating or updating a requirement can leave an active leaf without a state. |
| StoredStates.RetireMisplacesExactly | internal/store/sqlstore/store.go:1127-1137 | After a retirement of x, another active requirement stores a state although it is no leaf, exactly if its current revision keeps an active child and it had a state or owns a revision whose last active child was x. |
| StoredStates.OnlyRetirementsMisplace | internal/store/sqlstore/store.go:419-427 | No other request stores a state on an active non-leaf. |
| LeafWork.WorkStaysOnLeaves | internal/store/sqlstore/store.go:387-406 | In every run, each revision with a task or a review is still an actionable leaf revision, so the lease transaction's own test for that never decides. |
| Citations.ReviewsCiteFinishedWork | internal/store/sqlstore/store.go:1022-1039 | In every run, a review that cites a task cites one that is complete at the reviewed commit and linked to the reviewed revision, now and not only when the review was made. |
| Citations.ReviewsPersist | db/schema.sql:207-223 | A stored review stays stored and unchanged through every continuation of a run. |
| Citations.IdenticalSubmissionExactly | internal/store/sqlstore/store.go:989-1017 | In every run, once a submission was accepted, one for the same revision and commit is answered with the stored review exactly while the requirement is active at that revision and the content is the same, and is a conflict otherwise. |
| Acyclicity.LinksLeadBack | internal/store/sqlstore/store.go:372-435 | In every run each link goes to a revision created strictly earlier. |
| Acyclicity.RevisionsAreAcyclic | internal/store/sqlstore/store.go:372-435 | In every run no revision reaches itself over refinement and dependency links. |
| Acyclicity.CurrentDependenciesAcyclic | internal/store/sqlstore/store.go:908-936 | If all transitive dependencies of a current revision are current, there is no identifier cycle at it or below it. |
| Acyclicity.RevisionClosesCycleExactly | internal/store/sqlstore/store.go:407-433 | Whatever the graph was, the revised requirement lies on an identifier cycle afterwards exactly if a dependency it names reached it before, and any other new cycle leads through it. |
| Acyclicity.UpdateClosesCycleExactly | internal/store/sqlstore/store.go:477-538 | An update leaves a cycle in an acyclic identifier graph exactly if it names a dependency that already depends, directly or not, on the revised requirement. |
| Acyclicity.CreationClosesNoCycle | internal/store/sqlstore/store.go:437-465 | A creation keeps the identifier graph acyclic. |
| Acyclicity.StepClosesCycleExactly | internal/store/sqlstore/store.go:407-433 | Among all requests, only a committed update of that kind gives an acyclic identifier graph a cycle, and it always does. |
| Acyclicity.RunClosesCycleExactly | internal/store/sqlstore/store.go:407-433 | A run has an identifier cycle at some moment exactly if it contains such an update. |
| Acyclicity.LeasableTaskOnNoCycle | internal/store/sqlstore/store.go:1370-1408 | In every run a task that can be leased links, at its current revision, to no requirement on or above an identifier cycle. |
| Leases.FencesAreConsecutive | internal/store/sqlstore/store.go:1544-1553 | In every run the fences issued for a task are 1, 2, 3 and so on to the current one, and its lease row carries the current one. |
| Leases.HoldingsNeverOverlap | internal/store/sqlstore/store.go:1496-1561 | If two different fences of one task are held at two moments of a run, the smaller one is held strictly earlier. |
| Leases.HoldingIsAnInterval | internal/store/sqlstore/store.go:1496-1626 | A fence held at two moments of a run is held at every moment between, heartbeats, lazy deletion and any time to live included. |
| Leases.OlderFenceIsRefused | internal/store/sqlstore/store.go:1596-1633 | Once a larger fence was issued, no continuation of the run accepts a heartbeat, release or completion with the older one. |
| Leases.LeaseLastsItsTime | internal/store/sqlstore/store.go:1545-1547 | A granted lease is held after a delay exactly if the delay is shorter than its time to live, also for zero and negative ones. |
| Leases.LeaseOverIsLeasable | internal/store/sqlstore/store.go:1538-1543 | A lease keeps the task from being leased again exactly until its time to live is over; a release by its holder undoes it at once, and only the fence has moved. |
| Leases.HeartbeatRestartsTime | internal/store/sqlstore/store.go:1596-1613 | An accepted heartbeat comes from the holder and restarts that time, longer or shorter than before. |
| Leases.CompletionNeedsOpen | internal/store/sqlstore/store.go:1628-1647 | In every run, an accepted completion finds its task open, although the transaction never tests the state. |
| Leases.FinishedStaysFinished | internal/store/sqlstore/store.go:1678-1703 | A complete or closed task keeps its whole row through every continuation of the run, and has no active lease. |
| Leases.EndingIsRecordedExactly | internal/store/sqlstore/store.go:1538 | A lease ends only by its release, the completion of its task, the expiry request once it has run out, or the next claim once it has run out; its expiry is recorded exactly by the expiry request. |
| Leases.RecordedLeasesAreOver | internal/store/sqlstore/store.go:1705-1723 | In every run, a lease whose expiry is recorded had its fence issued and is no stored lease any more. |
| TextLeases.ClosedStaysClosedExactly | internal/store/sqlstore/store.go:1628-1703 | With times compared as text, closing an open task is final in every continuation exactly if it leaves no lease row, or one whose expiry lies in the past, or has nine digits and is now or a nanosecond away; otherwise the holder can still complete the closed task. |
| TextLeases.FinishedStaysFinished | internal/store/sqlstore/store.go:1628-1703 | With that test, finished tasks stay what they are in every run whose closes are all of that kind. |
| TextLeases.CompleteStaysComplete | internal/store/sqlstore/store.go:1645-1647 | With that test, a completed task stays completed in every run. |
| TextLeases.OlderFenceNeverHolds | internal/store/sqlstore/store.go:1544-1553 | With that test, once a larger fence was issued no row carries the older one again. |
| TextLeases.ClosedIsCompleted | internal/store/sqlstore/store.go:1688 | Concrete instants: a lease that runs out at noon, a close at noon, and a completion half a second later. |
| TextRefinement.RunFollowsMachine | internal/store/sqlstore/store.go:1496-1723 | Every run of the store, from any moment at which a task exists, is request by request a run of the machine of that task with which the results on the text test are stated, accepted or refused, as long as the test on text and the test on the clock agree about the stored lease whenever a request is made. |
| Leases.PrefixAdvances | internal/store/sqlstore/store.go:1538-1543 | Between any two moments of a run, time and fences only grow and a lease that is over never comes back. |
| TaskOrder.CompletionRespectsDependencies | internal/store/sqlstore/store.go:1526-1530 | In every run, everything that a leased or complete task depends on, through any chain, is complete. |
| TaskOrder.TasksAreAcyclic | internal/store/sqlstore/store.go:1234-1251 | In every run no task reaches itself over task dependencies. |
| TaskOrder.OpenTaskCanProceed | internal/store/sqlstore/store.go:1526-1530 | In every run, an open task that depends on no closed one has an open task at or below it whose dependencies are all complete. |
| TaskOrder.ClosedDependencyBlocksForever | internal/store/sqlstore/store.go:1678-1703 | An open task that depends, through any chain, on a closed one is neither leased nor completed in any continuation of the run. |
| Workability.TaskWorkableIffLeasable | internal/store/sqlstore/store.go:1410-1494 | At one moment a task is reported workable, by the report's own queries and reasons, exactly when a lease request with its separate guards succeeds; otherwise the request is a conflict. |
| Workability.TaskReasonsAreGuards | internal/store/sqlstore/store.go:1428-1492 | The report lists no reason exactly if the four guards of the lease transaction that read the same tables all pass. |
| Workability.NoReasonsIffUnblocked | internal/store/sqlstore/store.go:916-939 | The four-case switch over transitive dependencies lists nothing exactly if none of them is missing, stale, retired or not satisfied. |
| Workability.RequirementWorkableIffTaskLeasable | internal/store/sqlstore/store.go:888-976 | A requirement is reported workable exactly when it is an active, current leaf, not satisfied, and some task linked to that revision can be leased. |
| Workability.BlockedRequirementBlocksTasks | internal/store/sqlstore/store.go:1531-1537 | While a transitive dependency of a linked revision is unmet, nobody can lease the task. |
| Reasons.TaskReportSays | internal/store/sqlstore/store.go:1410-1494 | The report on a task lists a reason exactly if the task is open and the reason's words hold: while a lease runs, that lease and its agent; otherwise each incomplete task dependency with its state, each retired linked requirement, each linked revision that is no leaf, and of each transitive dependency that it does not exist, is stale with that current revision, is retired, or reads as that state. It waits exactly if nobody holds it and there is a reason. |
| Reasons.RequirementReportSays | internal/store/sqlstore/store.go:888-939 | The report on a requirement lists a reason exactly if the revision is an active current leaf and the words hold of one of its transitive dependencies. |
| Reasons.OneReasonEach | internal/store/sqlstore/store.go:926-936 | A transitive dependency that is unmet has exactly one reason, a met one has none. |
| DocumentRules.StatusMatchesDocumentExactly | internal/store/sqlstore/store.go:888-976 | With the eight rules in the design document's words, first match wins, the reported status of a requirement differs in every run in exactly four cases: a satisfied unblocked leaf whose open tasks are stuck; an unsatisfied unblocked one with one open task leased, another not, and none ready; a leaf held up only by dependencies that are satisfied but retired or stale, with no open task or a leased one; and an active requirement read at an old revision. |
| DocumentRules.RulesAreComplete | internal/store/sqlstore/store.go:972-975 | Some documented rule always matches, because the last one decides only where its own words hold; workable is reported exactly with ready_for_work. |
| DocumentRules.TaskStatusMatchesDocument | internal/store/sqlstore/store.go:1410-1494 | In every run the reported status of a task is the documented one, and it is workable exactly by the document's conditions on its state, lease, dependencies and retired requirements. |
| DocumentRules.ReadyInWords | internal/store/sqlstore/store.go:1496-1543 | A task meets the documented conditions exactly if the lease transaction's guards pass. |
| DocumentRules.StatusOfDepartures | internal/store/sqlstore/store.go:937-970 | What the store and the document say in the first three cases. |
| DocumentRules.LeasedIsOpen | internal/store/sqlstore/store.go:949 | Among the tasks linked to a revision, one is leased exactly if an open one is, although the lease query does not look at the task's state. |
| History.HistoryReplays | internal/store/sqlstore/store.go:294-346 | In every run: no record is idle, each starts from NULL or from the previous record's value, the last reconciliation record is the stored value unless that is NULL, and lifecycle and task histories are exact chains that end in the stored value. |
| AuditTrail.TrailExactly | internal/store/sqlstore/store.go:286-292 | Each committed request appends to the log exactly one event of its kind that names its item; a repeated review and the passing of time append none, and the records of an expiry are kept apart. |
| AuditTrail.TrailIsKept | internal/store/sqlstore/store.go:286-292 | What the log holds at one moment of a run it holds, in its place, ever after, pruning aside. |
| Witnesses.NullLeafIsReachable | internal/store/sqlstore/store.go:323-325 | A concrete run to an active leaf with a NULL state that reads as pending, while the roll-up loop gives satisfied for its parent. It is the value of the loop over the rows; whether scanning the NULL fails first is left open. |
| Witnesses.IdCycleIsReachable | internal/store/sqlstore/store.go:407-433 | A concrete run after which a requirement reaches itself over the dependencies of current revisions. |
| Witnesses.UnexplainedPendingIsReachable | internal/store/sqlstore/store.go:1122-1123 | A concrete run that retires a requirement and leaves a dependent pending with no open cause. |
| StatusWitnesses.SatisfiedWithStuckTaskIsReachable | internal/store/sqlstore/store.go:940-942 | A concrete run to a satisfied leaf with an open task that waits for a closed one: reported no_work_required, documented waiting. |
| StatusWitnesses.LeasedBesideStuckTaskIsReachable | internal/store/sqlstore/store.go:962-970 | A concrete run to a leaf with one task leased and another waiting for it: reported work_in_progress, documented ready_for_work. |
| StatusWitnesses.OldRevisionIsReachable | internal/store/sqlstore/store.go:890-892 | A concrete run to an active requirement that is reported inactive when read at its first revision. |
| StatusWitnesses.HeldBySatisfiedDependencyIsReachable | internal/store/sqlstore/store.go:926-939 | A concrete run to a requirement whose only dependency was accepted and then retired: reported waiting, documented awaiting_review. |
| StatusWitnesses.RefusedRepetitionIsReachable | internal/store/sqlstore/store.go:992-994 | A concrete run in which an accepted submission, repeated after a retirement, is a conflict. |
| StoredStates.MisplacedIsReachable | internal/store/sqlstore/store.go:1127-1137 | A concrete run to an active non-leaf with a stored state. |
| Graph.Search | internal/store/sqlstore/store.go:25-39 | The worklist search ends on every finite graph, cyclic ones included, and returns exactly the seeds and what they reach. |
| Graph.ReachFromSame | internal/store/sqlstore/store.go:1166-1178 | Rewriting edges into x changes nothing about what x reaches, x aside. |
| Graph.ReachIntoSame | internal/store/sqlstore/store.go:429-433 | Rewriting edges out of x changes nothing about what reaches x. |
| Graph.NewCyclePasses | internal/store/sqlstore/store.go:429-433 | A cycle that is new after rewriting edges out of x leads through x. |
| Graph.SuccessorsSelect | internal/store/sqlstore/store.go:34-36 | Seeding the recursion with the successors of the root selects what lies at least one edge away. |
| Walks.ReachesExactly | internal/store/sqlstore/store.go:25-39 | One item reaches another exactly if a list of items leads there, each step an edge. |
| Walks.EdgesExactly | internal/store/sqlstore/store.go:25-32 | There is a downstream edge from a to b exactly if the current revision of b refines or depends on some revision of a; links of older revisions of b do not count. |
| Walks.DownstreamExactly | internal/store/sqlstore/store.go:25-39 | A change of the root processes a requirement exactly if it is active and a list leads to it in which the current revision of each names the one before, retired ones included. |
| Walks.UpdateReplacesEdges | internal/store/sqlstore/store.go:417-433 | In every run, after an update the requirement lies directly below exactly what the new revision names, whatever older ones named, and every other edge is as it was. |
| Walks.RetirementKeepsEdges | internal/store/sqlstore/store.go:25-39 | A retirement takes no edge away. |
| Walks.DependsOnExactly | internal/store/sqlstore/store.go:1442-1445 | A revision depends on another exactly if a list of stored dependency rows leads there, whatever revisions are current. |
| Walks.LeafBelowExactly | internal/store/sqlstore/store.go:642-668 | The roll-up reads exactly the revisions without an active child to which a list of active children leads. |
| Walks.TaskReachesExactly | internal/store/sqlstore/store.go:1244-1251 | One task depends on another, in the sense of the results on task order, exactly if a list of stored dependency rows leads there. |
| Loops.DependencySeeds | internal/store/sqlstore/store.go:1377-1386 | The dependency query, seeded from the links of a task or a revision, selects exactly the transitive dependencies. |
| Loops.ChildSeeds | internal/store/sqlstore/store.go:642-659 | The roll-up recursion, seeded with the children, selects exactly the revisions below. |
| StoreObject.Store.DownstreamItems | internal/store/sqlstore/store.go:25-39 | Returns exactly the active requirements at least one current link downstream of the root. |
| StoreObject.Store.Impact | internal/store/sqlstore/store.go:1149-1205 | Lists exactly the root and everything downstream of it, each once, business first and system last, each level by identifier; an empty root lists every requirement and an unknown one is not found. |
| StoreObject.Store.AddRevision | internal/store/sqlstore/store.go:372-435 | The checks and inserts in order fail with the same error as, or leave the same tables as, the specification in which they happen at once; repeated or own parents are constraint failures. |
| StoreObject.Store.CreateRequirement | internal/store/sqlstore/store.go:437-465 | Commits what the specification says, or leaves every table as it was and reports its error. |
| StoreObject.Store.UpdateRequirement | internal/store/sqlstore/store.go:477-538 | The same for an update, including the marking loop. |
| StoreObject.Store.InvalidateDownstream | internal/store/sqlstore/store.go:508-531 | The loop over downstream rows, taken in any order, equals one simultaneous update: leaves pending with their history, causes inserted where none is stored. |
| StoreObject.Store.RetireRequirement | internal/store/sqlstore/store.go:1084-1144 | The same for a retirement, with both of its loops. |
| StoreObject.Store.FreeParents | internal/store/sqlstore/store.go:1127-1137 | The loop over parents, in any order, marks exactly those actionable at the revision the link names. |
| StoreObject.Store.SetRequirementState | internal/store/sqlstore/store.go:305-321 | Changes one row and adds one history record, or nothing if the state is the same. |
| StoreObject.Store.ClearRequirementState | internal/store/sqlstore/store.go:323-325 | Writes NULL to the row without a history record. |
| StoreObject.Store.ReviewRequirement | internal/store/sqlstore/store.go:978-1070 | The guards in order, the repeated submission and the stored review behave as the specification says. |
| StoreObject.Store.RollUpState | internal/store/sqlstore/store.go:636-684 | The query for leaves and the loop that leaves early compute the roll-up, in any row order. |
| StoreObject.Store.EffectiveState | internal/store/sqlstore/store.go:544-560 | The state that reading a requirement reports. |
| StoreObject.Store.CountUnmet | internal/store/sqlstore/store.go:1393-1407 | Counts zero exactly if every transitive dependency of the given revisions is current, active and satisfied. |
| StoreObject.Store.UnmetRequirementDependencies | internal/store/sqlstore/store.go:1370-1408 | Counts zero exactly if no linked revision of the task is blocked. |
| StoreObject.Store.CreateTask | internal/store/sqlstore/store.go:1234-1281 | The two insert loops fail at the first bad row with its error and leave nothing behind, or insert all rows. |
| StoreObject.Store.LinksBlocked | internal/store/sqlstore/store.go:1506-1525 | Whether some linked requirement is retired, and whether some linked revision is no leaf. |
| StoreObject.Store.LeaseTask | internal/store/sqlstore/store.go:1496-1561 | The guards, the deletion of an expired row and the claim grant a lease exactly as the specification says; a conflict also undoes the deletion. |
| StoreObject.Store.DropExpired | internal/store/sqlstore/store.go:1538-1543 | The deletion before a claim removes an expired row, records nothing, and leaves the task free exactly if nobody holds it. |
| StoreObject.Store.Heartbeat | internal/store/sqlstore/store.go:1596-1613 | Moves the expiry for the current holder only. |
| StoreObject.Store.Release | internal/store/sqlstore/store.go:1615-1626 | Deletes the lease row with this identifier and fence, expired or not. |
| StoreObject.Store.CompleteTask | internal/store/sqlstore/store.go:1628-1676 | Completes the task, deletes its lease, and the loop over links moves exactly the not satisfied current leaves to pending. |
| StoreObject.Store.CorrectLinked | internal/store/sqlstore/store.go:1648-1669 | That loop, in any order, equals one simultaneous marking. |
| StoreObject.Store.CloseTask | internal/store/sqlstore/store.go:1678-1703 | Closes an open task that nobody holds. |
| StoreObject.Store.ExpireLeases | internal/store/sqlstore/store.go:1705-1723 | The loop, in any order, deletes exactly the leases that have run out and records each of them. |
| StoreObject.Store.NextLeaseExpiry | internal/store/sqlstore/store.go:1725-1736 | The smallest expiry, or none exactly for an empty table. |
| StoreObject.Store.TaskWorkability | internal/store/sqlstore/store.go:1410-1494 | The report on a task, branch by branch, with its own queries and loops and with exactly the reasons that apply. |
| StoreObject.Store.DependencyReasons | internal/store/sqlstore/store.go:1442-1469 | The recursive query and the four-case switch list, in any row order, exactly one reason per transitive dependency that is missing, stale, retired or not satisfied. |
| StoreObject.Store.RequirementWorkability | internal/store/sqlstore/store.go:888-976 | The report on a requirement, with exactly the dependencies that hold it up, and its loop over open tasks. |
| StoreObject.Store.ListRequirements | internal/store/sqlstore/store.go:711-739 | A page over the identifiers above the cursor whose current revision has the level asked for and which read as the state asked for: the smallest ones, at most the limit, and a next cursor exactly if more are left. |
| StoreObject.Store.FetchAll | internal/transport/webui/assets/app.js:109-118 | Following cursors over an unchanging store ends, for every limit of at least 1, and yields in ascending order exactly the stored identifiers whose current revision has the level asked for and which read as the state asked for. |
| Listing.PageIsPrefix | internal/store/sqlstore/store.go:730-737 | A page with its cursor is exactly the first part of the ascending listing of what matches, cut at the limit, with the last item as cursor if something was cut off and none otherwise. |
| StateFilters.DerivedIsListed | internal/store/sqlstore/store.go:718-726 | A requirement with active children is listed as satisfied exactly if every leaf below it is stored as satisfied or has no state, whatever its own column holds. |
| StateFilters.LeafIsListed | internal/store/sqlstore/store.go:718-726 | A requirement without active children is listed under the state of its column, and under pending review if that is NULL. |
| StateFilters.StatesPartition | internal/store/sqlstore/store.go:711-739 | The listings of the three states together hold every requirement exactly once. |
| Listing.ListingIsUnique | internal/store/sqlstore/store.go:711-739 | There is only one ascending listing of a set, so the pages put together do not depend on the limit. |
| ServiceObject.Service.Handle | internal/application/service.go:314-366 | One request does exactly one step of a run and keeps the store sound; a failing read after the commit turns success into an error without undoing the step; a wake token is left exactly after a committed lease, heartbeat, release or completion that also reads back, or if one was there. |
| ServiceObject.Service.WakeLeaseScheduler | internal/application/service.go:70-78 | After it the slot holds a token, whether or not it did before. |
| ServiceObject.OnlyWakersChangeLeases | internal/application/service.go:314-384 | Every request that leaves the scheduler asleep, expiry aside, leaves the lease table alone. |
| ServiceObject.SilentOnlyRemoves | internal/application/service.go:353-366 | A waking request that commits without waking is a completion whose last read failed, and all it did to the lease table is to take its own lease away. |
| Scheduler.NoLostWakeup | cmd/reqdb/main.go:238-275 | In any interleaving, when the scheduler is blocked, the slot empty and no request between commit and wake, the armed timer is the earliest stored expiry, none for an empty table, exactly if the last read of the table succeeded or the table is empty; this is so unless a completion failed to read back since. |
| Scheduler.TimerIsNeverLate | cmd/reqdb/main.go:244-253 | Even after such a completion the armed timer is no later than any stored expiry, exactly if the last read of the table succeeded or the table is empty. |
| Scheduler.SleepsOverExpiryExactly | cmd/reqdb/main.go:240-253 | A blocked scheduler sleeps over an expired lease exactly when nothing is on its way to wake it and its last read failed. |
| Scheduler.FailedReadSleeps | cmd/reqdb/main.go:240-243 | Such a sleep is reachable: one failed read over an expired lease. |
| Scheduler.CanAlwaysExpire | cmd/reqdb/main.go:238-275 | From every state of the invariant that is neither stopped nor asleep that way, wake-ups and successful scheduler steps alone lead to a table without expired leases. |
| Scheduler.ExpiryRemovesExactly | internal/application/service.go:378-384 | A successful expiry step removes every lease that has run out and no other, and the scheduler reads again. |
| BrokerObject.Broker.Record | internal/observability/broker.go:24-47 | With receivers taking events between any two channel operations, the second send is never refused, afterwards each open subscriber has the new event buffered or took it last, and no receiver loses what it took. |
| BrokerObject.Broker.Deliver | internal/observability/broker.go:33-44 | The same for one subscriber: send, drain, send again always delivers, and disturbs other subscribers only by their own receivers. |
| BrokerObject.Broker.Receive | internal/observability/broker.go:59 | Taking the buffered event at any moment keeps every subscriber's order, and keeps it up to date. |
| BrokerObject.Broker.Subscribe | internal/observability/broker.go:49-75 | A new subscription starts empty and sees only later events; a closed broker hands out a closed channel and changes nothing. |
| BrokerObject.Broker.Cancel | internal/observability/broker.go:62-73 | Closes the channel once, however often it is called and also after Close, and touches no other subscription. |
| BrokerObject.Broker.Close | internal/observability/broker.go:78-89 | Closes every open channel exactly once, and none that is closed. |
| BrokerObject.RisingIsIncreasing | internal/observability/broker.go:30-31 | What the class invariant says of each subscriber: the sequence numbers it takes increase strictly and are later than its subscription. |
| BrokerObject.TakingKeepsOrder | internal/observability/broker.go:32-45 | Receiving at any moment keeps that order and keeps the newest event last. |
| Timestamps.FormatOrder | internal/store/sqlstore/store.go:277 | The stored text orders instants by whole seconds first and by the text of the fraction after that. |
| Timestamps.MisorderedExactly | internal/store/sqlstore/store.go:277 | For instants a before b in the years 0 to 9999, the text orders them wrongly exactly when they share the second and a's trimmed fraction is a proper prefix of b's. |
| Timestamps.ExpiryTestWrongExactly | internal/store/sqlstore/store.go:1709 | The expiry test on text differs from time exactly when expiry and now share the second and one fraction is a proper prefix of the other, so it is off by less than a second. |
| Timestamps.ExpiryIsFinalExactly | internal/store/sqlstore/store.go:1709 | A lease that the text test counts as expired is counted so at every later instant exactly if its expiry lies in the past, or has nine digits and is now or one nanosecond away. |
| Timestamps.WholeSecondSortsLast | internal/store/sqlstore/store.go:277 | The text of a whole second sorts after that of every later instant within the second. |
| Timestamps.ExpiredLeaseCountsAsRunning | internal/store/sqlstore/store.go:1709 | Two concrete instants: a lease that ran out at noon counts as running half a second later. |

## Left out

- Several projects in one database: the model has one project.
- SQL engines, the object mapper, triggers, isolation levels and collation: each
  transaction is one atomic step, keys are map keys, strings compare by
  character. How the driver turns a NULL into a string while scanning is not
  part of this model; the roll-up loop works on the value of the row.
- HTTP, authentication, the command line, presenters, the web UI and YAML.
- The text of requirement references: they arrive parsed. Titles, statements,
  priorities, actors, correlation identifiers, pull requests, the JSON of audit
  events and pruning.
- StoreObject.Store.ExpireLeases: the place of an expiry record among the other
  audit rows; the order of the rows of one request is not fixed.
- History.HistoryReplays: histories are kept per entity and field; the global
  order of records across entities is not represented.
- Review identifiers and other identifiers made from the clock: taken to be
  unique. A lease identifier is the pair of claim time and task that its text
  spells.
- StoreObject.Store.LeaseTask: only the two clock readings that matter, around
  the deletion of an expired row, are told apart (`lag`).
- StoreObject.Store.Heartbeat: likewise for its test and its stamp. The clock
  is an integer that never runs back.
- Leases.HoldingIsAnInterval: holds for that clock. Under the text order a lease
  can count as expired and then as running again, exactly as
  Timestamps.ExpiryIsFinalExactly says.
- Leases.CompletionNeedsOpen: likewise; see TextLeases.ClosedStaysClosedExactly.
- Leases.FinishedStaysFinished: likewise.
- Leases.PrefixAdvances: likewise for "a lease that is over never comes back".
- TextLeases.ClosedStaysClosedExactly: the columns and the lease of one task; what
  other tables say can only refuse a claim.
- StoreObject.Store.TaskWorkability: the wording and order of the reasons, and
  reasons that are one fixed text for their status.
- StoreObject.Store.RequirementWorkability: likewise, and which ready task the
  reason names.
- Workable listings, task pages, lease and review listings and the trace query.
- StoreObject.Store.Impact: what is read of each listed item.
- Scheduler.NoLostWakeup: assumes that no completion since the last read of the
  lease table failed to read its task back; Scheduler.TimerIsNeverLate covers
  the rest. The goroutine is a state machine over its steps, not loop code. A
  timer fires at its time and never early.
- BrokerObject.Broker.Record: channels are values in a table, so the identity of a
  channel is not represented, and the once-only guard of the cancel function is
  folded into its test of membership. Filtering by project after the broker is
  left out.
- Timestamps.MisorderedExactly: the calendar, that is how a moment becomes year,
  month, day and time of day.
- Domain.ValidReview: blank text in findings is recognised for Latin-1 white space only.
