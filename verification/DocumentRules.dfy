/** The status rules of the design document, each in its own words, against the
    statuses that the store reports. */
module DocumentRules {
  import opened Domain
  import opened Tables
  import opened Queries
  import opened Transactions
  import opened Soundness
  import opened Workability
  import opened LeafWork
  import Leases
  import TaskOrder

  /* ----- the words of the document ----- */

  /** All transitive dependencies of its linked requirements are current and
      satisfied. */
  ghost predicate DependenciesHold(db: Db, t: string)
  {
    forall l, d :: l in db.taskLinks && l.task == t && DependsOn(db, l.ref, d) ==>
      IsCurrent(db, d) && Effective(db, d.id) == Satisfied
  }

  /** It links to a retired requirement, or depends on one. */
  ghost predicate TouchesRetired(db: Db, t: string)
  {
    || (exists l :: l in db.taskLinks && l.task == t && IsRetiredRow(db, l.ref.id))
    || (exists l, d :: l in db.taskLinks && l.task == t && DependsOn(db, l.ref, d) && IsRetiredRow(db, d.id))
  }

  /** A task is workable when it is open, has no active lease, and both kinds of
      dependencies are as they should be; never when it touches a retired
      requirement. */
  ghost predicate DocumentedReady(db: Db, t: string)
  {
    && t in db.tasks && db.tasks[t].state == TaskOpen && !HasActiveLease(db, t)
    && TaskOrder.DependenciesComplete(db, t) && DependenciesHold(db, t) && !TouchesRetired(db, t)
  }

  predicate IsRetiredRow(db: Db, id: string)
  {
    id in db.requirements && db.requirements[id].lifecycle == Retired
  }

  /** The five task statuses; waiting is what is left. */
  ghost function DocumentedTaskStatus(db: Db, t: string): Status
    requires t in db.tasks
  {
    if DocumentedReady(db, t) then ReadyToLease
    else if HasActiveLease(db, t) then WorkInProgress
    else if db.tasks[t].state == Complete then TaskIsComplete
    else if db.tasks[t].state == Closed then TaskIsClosed
    else Waiting
  }

  /** It is business level, or stakeholder level with active system children. */
  predicate ManagedByChildren(db: Db, ref: Ref)
  {
    ref in db.revisions &&
    (|| db.revisions[ref].level == Business
     || (db.revisions[ref].level == Stakeholder
         && exists c :: c in Children(db, ref) && c in db.revisions && db.revisions[c].level == System))
  }

  /** A requirement dependency, direct or not, is not satisfied. */
  ghost predicate DependencyUnsatisfied(db: Db, ref: Ref)
  {
    exists d :: DependsOn(db, ref, d) && !(d.id in db.requirements && Effective(db, d.id) == Satisfied)
  }

  predicate OpenLeased(db: Db, ref: Ref)
  {
    exists t :: t in OpenTasks(db, ref) && HasActiveLease(db, t)
  }

  predicate SomeUnleased(db: Db, ref: Ref)
  {
    exists t :: t in OpenTasks(db, ref) && !HasActiveLease(db, t)
  }

  ghost predicate SomeDocumentedReady(db: Db, ref: Ref)
  {
    exists t :: t in OpenTasks(db, ref) && DocumentedReady(db, t)
  }

  /** Linked open tasks exist while none has an active lease and none is ready
      to lease. */
  ghost predicate TasksStuck(db: Db, ref: Ref)
  {
    OpenTasks(db, ref) != {} && !OpenLeased(db, ref) && !SomeDocumentedReady(db, ref)
  }

  /** The eight numbered rules for a requirement; the first match wins. All task
      checks use tasks linked to the current revision. */
  ghost function DocumentedStatus(db: Db, id: string): Status
    requires id in db.requirements
  {
    var ref := CurrentRef(db, id);
    if db.requirements[id].lifecycle == Retired then Inactive
    else if ManagedByChildren(db, ref) then ManagedThroughChildren
    else if DependencyUnsatisfied(db, ref) || TasksStuck(db, ref) then Waiting
    else if Effective(db, id) == Satisfied then NoWorkRequired
    else if SomeUnleased(db, ref) then ReadyForWork
    else if LinkLeased(db, ref) then WorkInProgress
    else if Effective(db, id) == PendingReview && OpenTasks(db, ref) == {} && !LinkLeased(db, ref) then AwaitingReview
    else NeedsTask
  }

  /* ----- words and tests mean the same where they do ----- */

  /** What the comparison rests on; every run keeps it. */
  ghost predicate Regular(db: Db)
  {
    && RequirementsSound(db) && LinksSound(db) && TasksSound(db) && ReferencesSound(db) && RevisionsSound(db)
    && WorkOnLeaves(db)
    && forall t :: HasActiveLease(db, t) ==> t in db.tasks && db.tasks[t].state == TaskOpen
  }

  lemma RunIsRegular(ops: seq<Op>)
    ensures Regular(Run(ops))
  {
    RunIsSound(ops);
    RunKeepsWork(ops);
    Leases.RunFollowsProtocol(ops);
  }

  lemma UnblockedInWords(db: Db, t: string)
    ensures !TaskBlocked(db, t) && !LinksRetired(db, t) <==> DependenciesHold(db, t) && !TouchesRetired(db, t)
  {
    if TaskBlocked(db, t) {
      var l :| l in db.taskLinks && l.task == t && RequirementBlocked(db, l.ref);
      var d :| DependsOn(db, l.ref, d) && !Met(db, d);
    } else {
      forall l, d | l in db.taskLinks && l.task == t && DependsOn(db, l.ref, d)
        ensures Met(db, d)
      {
        assert !RequirementBlocked(db, l.ref);
      }
    }
  }

  lemma CompleteInWords(db: Db, t: string)
    requires TasksSound(db)
    ensures !HasIncompleteDependency(db, t) <==> TaskOrder.DependenciesComplete(db, t)
  {
  }

  lemma LeavesInWords(db: Db, t: string)
    requires WorkOnLeaves(db)
    ensures !LinksNonLeaf(db, t)
  {
    forall l | l in db.taskLinks && l.task == t
      ensures Actionable(db, l.ref)
    {
      assert HasWork(db, l.ref);
    }
  }

  /** A task is ready in the document's words exactly if it can be leased. */
  lemma ReadyInWords(db: Db, t: string)
    requires TasksSound(db) && WorkOnLeaves(db) && t in db.tasks
    ensures DocumentedReady(db, t) <==> Leasable(db, t)
    ensures DocumentedReady(db, t) <==> TaskReport(db, t).workable
  {
    UnblockedInWords(db, t);
    CompleteInWords(db, t);
    LeavesInWords(db, t);
    WorkableIsLeasable(db, t);
  }

  lemma WorkableIsLeasable(db: Db, t: string)
    requires t in db.tasks
    ensures TaskReport(db, t).workable <==> Leasable(db, t)
  {
    TaskWorkableIffLeasable(db, t, "", 0, 0);
  }

  lemma ManagedInWords(db: Db, ref: Ref)
    requires LinksSound(db) && ref in db.revisions
    ensures ManagedByChildren(db, ref) <==> !Actionable(db, ref)
  {
    forall c | c in Children(db, ref)
      ensures c in db.revisions && (db.revisions[ref].level == Stakeholder ==> db.revisions[c].level == System)
    {
      ChildrenAre(db, ref, c);
      assert LinksBack(db, Link(c, ref));
    }
  }

  lemma ReadyTasksInWords(db: Db, ref: Ref)
    requires Regular(db)
    ensures SomeDocumentedReady(db, ref) <==> SomeReady(db, ref)
  {
    forall t | t in OpenTasks(db, ref)
      ensures DocumentedReady(db, t) <==> TaskReport(db, t).workable
    {
      ReadyInWords(db, t);
    }
  }

  /** Among linked tasks, only open ones are leased. */
  lemma LeasedIsOpen(db: Db, ref: Ref)
    requires Regular(db)
    ensures LinkLeased(db, ref) <==> OpenLeased(db, ref)
  {
    if l :| l in db.taskLinks && l.ref == ref && HasActiveLease(db, l.task) {
      assert l.task in OpenTasks(db, ref);
    }
    if t :| t in OpenTasks(db, ref) && HasActiveLease(db, t) {
      var l :| l in db.taskLinks && l.ref == ref && l.task == t;
    }
  }

  /** A task on a blocked revision is not ready. */
  lemma BlockedHasNoneReady(db: Db, ref: Ref)
    ensures SomeReady(db, ref) ==> !RequirementBlocked(db, ref)
  {
    if t :| t in OpenTasks(db, ref) && TaskReport(db, t).workable {
      WorkableIsLeasable(db, t);
      var l :| l in db.taskLinks && l.ref == ref && l.task == t;
      assert !TaskBlocked(db, t);
    }
  }

  /* ----- where they do not ----- */

  /** An active leaf seen at its current revision. */
  predicate ActiveLeaf(db: Db, ref: Ref)
  {
    ActiveCurrent(db, ref) && Actionable(db, ref)
  }

  /** Satisfied and unblocked, with stuck tasks: the store says
      no_work_required, the document waiting. */
  ghost predicate SatisfiedWithStuckTasks(db: Db, ref: Ref)
  {
    && ActiveLeaf(db, ref) && !RequirementBlocked(db, ref) && Effective(db, ref.id) == Satisfied && TasksStuck(db, ref)
  }

  /** Not satisfied and unblocked, with one open task leased and another that is
      not, none ready: the store says work_in_progress, the document
      ready_for_work. */
  ghost predicate LeasedBesideStuckTask(db: Db, ref: Ref)
  {
    && ActiveLeaf(db, ref) && !RequirementBlocked(db, ref) && Effective(db, ref.id) != Satisfied
    && OpenLeased(db, ref) && SomeUnleased(db, ref) && !SomeDocumentedReady(db, ref)
  }

  /** Every dependency is satisfied, but one is retired or stale, and no open
      task without a lease is there to wait: the store says waiting, the document
      goes on to the later rules. */
  ghost predicate HeldBySatisfiedDependency(db: Db, ref: Ref)
  {
    && ActiveLeaf(db, ref) && !DependencyUnsatisfied(db, ref)
    && (exists d :: DependsOn(db, ref, d) && !ActiveCurrent(db, d))
    && (OpenTasks(db, ref) == {} || OpenLeased(db, ref))
  }

  /** An active requirement seen at an old revision: the store says inactive,
      the document goes by the current revision. */
  predicate SeenAtOldRevision(db: Db, ref: Ref)
    requires ref.id in db.requirements
  {
    !IsCurrent(db, ref) && db.requirements[ref.id].lifecycle == Active
  }

  ghost predicate Departs(db: Db, ref: Ref)
    requires ref.id in db.requirements
  {
    || SatisfiedWithStuckTasks(db, ref) || LeasedBesideStuckTask(db, ref)
    || HeldBySatisfiedDependency(db, ref) || SeenAtOldRevision(db, ref)
  }

  /** Blocked though no dependency is unsatisfied: one is retired or stale. */
  lemma BlockedInWords(db: Db, ref: Ref)
    ensures RequirementBlocked(db, ref) <==>
            DependencyUnsatisfied(db, ref) || exists d :: DependsOn(db, ref, d) && !ActiveCurrent(db, d)
  {
    if RequirementBlocked(db, ref) {
      var d :| DependsOn(db, ref, d) && !Met(db, d);
      assert ActiveCurrent(db, d) ==> Effective(db, d.id) != Satisfied;
    }
    if d :| DependsOn(db, ref, d) && !ActiveCurrent(db, d) {
      assert !Met(db, d);
    }
    if d :| DependsOn(db, ref, d) && !(d.id in db.requirements && Effective(db, d.id) == Satisfied) {
      assert !Met(db, d);
    }
  }

  lemma OpenTaskIsLeasedOrNot(db: Db, ref: Ref)
    ensures OpenTasks(db, ref) != {} <==> OpenLeased(db, ref) || SomeUnleased(db, ref)
    ensures SomeReady(db, ref) ==> SomeUnleased(db, ref)
  {
    if t :| t in OpenTasks(db, ref) {
      assert HasActiveLease(db, t) || !HasActiveLease(db, t);
    }
    if t :| t in OpenTasks(db, ref) && TaskReport(db, t).workable {
      assert !HasActiveLease(db, t);
    }
  }

  /** The words and the store's tests, one against the other. */
  ghost predicate WordsAgree(db: Db, ref: Ref)
  {
    && (ManagedByChildren(db, ref) <==> !Actionable(db, ref))
    && (SomeDocumentedReady(db, ref) <==> SomeReady(db, ref))
    && (LinkLeased(db, ref) <==> OpenLeased(db, ref))
    && (ReasonsOf(db, AllDependencies(db, {ref})) == {} <==> !RequirementBlocked(db, ref))
    && (RequirementBlocked(db, ref) <==>
          DependencyUnsatisfied(db, ref) || exists d :: DependsOn(db, ref, d) && !ActiveCurrent(db, d))
    && (SomeReady(db, ref) ==> SomeUnleased(db, ref) && !RequirementBlocked(db, ref))
    && (OpenTasks(db, ref) != {} <==> OpenLeased(db, ref) || SomeUnleased(db, ref))
  }

  lemma RegularAgrees(db: Db, ref: Ref)
    requires Regular(db) && ref in db.revisions
    ensures WordsAgree(db, ref)
  {
    ManagedInWords(db, ref);
    NoReasonsIffUnblocked(db, {ref});
    ReadyTasksInWords(db, ref);
    LeasedIsOpen(db, ref);
    OpenTaskIsLeasedOrNot(db, ref);
    BlockedInWords(db, ref);
    BlockedHasNoneReady(db, ref);
  }

  lemma AgreedStatus(db: Db, ref: Ref)
    requires ref.id in db.requirements && WordsAgree(db, CurrentRef(db, ref.id))
    ensures RequirementReport(db, ref).status != DocumentedStatus(db, ref.id) <==> Departs(db, ref)
  {
  }

  /** In every run, the reported status of a requirement is the first rule of
      the document that matches, except in exactly four cases. */
  lemma StatusMatchesDocumentExactly(ops: seq<Op>, ref: Ref)
    requires ref.id in Run(ops).requirements
    ensures RequirementReport(Run(ops), ref).status != DocumentedStatus(Run(ops), ref.id) <==> Departs(Run(ops), ref)
  {
    RunIsRegular(ops);
    RegularAgrees(Run(ops), CurrentRef(Run(ops), ref.id));
    AgreedStatus(Run(ops), ref);
  }

  /** Some rule always matches: the last one decides only where its own words
      hold. Workable means ready for work. */
  lemma RulesAreComplete(ops: seq<Op>, ref: Ref)
    requires ref.id in Run(ops).requirements
    ensures DocumentedStatus(Run(ops), ref.id) == NeedsTask ==>
              && Effective(Run(ops), ref.id) == NotSatisfied && OpenTasks(Run(ops), CurrentRef(Run(ops), ref.id)) == {}
    ensures RequirementReport(Run(ops), ref).workable <==> RequirementReport(Run(ops), ref).status == ReadyForWork
  {
    RunIsRegular(ops);
    RegularAgrees(Run(ops), CurrentRef(Run(ops), ref.id));
    AgreedRules(Run(ops), ref);
  }

  lemma AgreedRules(db: Db, ref: Ref)
    requires ref.id in db.requirements && WordsAgree(db, CurrentRef(db, ref.id))
    ensures DocumentedStatus(db, ref.id) == NeedsTask ==>
              Effective(db, ref.id) == NotSatisfied && OpenTasks(db, CurrentRef(db, ref.id)) == {}
    ensures RequirementReport(db, ref).workable <==> RequirementReport(db, ref).status == ReadyForWork
  {
  }

  /** What the two sides say where they differ at a current revision. */
  lemma StatusOfDepartures(db: Db, ref: Ref)
    requires ref.id in db.requirements && WordsAgree(db, ref)
    ensures SatisfiedWithStuckTasks(db, ref) ==>
              RequirementReport(db, ref).status == NoWorkRequired && DocumentedStatus(db, ref.id) == Waiting
    ensures LeasedBesideStuckTask(db, ref) ==>
              RequirementReport(db, ref).status == WorkInProgress && DocumentedStatus(db, ref.id) == ReadyForWork
    ensures HeldBySatisfiedDependency(db, ref) ==>
              RequirementReport(db, ref).status == Waiting && DocumentedStatus(db, ref.id) != Waiting
  {
    if ActiveCurrent(db, ref) {
      assert CurrentRef(db, ref.id) == ref;
    }
  }

  lemma StatusAtOldRevision(db: Db, ref: Ref)
    requires ref.id in db.requirements && SeenAtOldRevision(db, ref)
    ensures RequirementReport(db, ref).status == Inactive && DocumentedStatus(db, ref.id) != Inactive
  {
  }

  lemma RegularTaskStatus(db: Db, t: string)
    requires Regular(db) && t in db.tasks
    ensures TaskReport(db, t).status == DocumentedTaskStatus(db, t)
    ensures TaskReport(db, t).workable <==> DocumentedReady(db, t)
  {
    ReadyInWords(db, t);
  }

  /** In every run, the reported status of a task is the documented one. */
  lemma TaskStatusMatchesDocument(ops: seq<Op>, t: string)
    requires t in Run(ops).tasks
    ensures TaskReport(Run(ops), t).status == DocumentedTaskStatus(Run(ops), t)
    ensures TaskReport(Run(ops), t).workable <==> DocumentedReady(Run(ops), t)
  {
    RunIsRegular(ops);
    RegularTaskStatus(Run(ops), t);
  }
}
