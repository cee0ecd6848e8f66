/** What a report that lists reasons says: each reason is listed exactly when its
    own words hold of the tables. */
module Reasons {
  import opened Domain
  import opened Tables
  import opened Queries
  import opened Loops
  import opened Workability
  import opened Acceptance

  /** The revision d lies among everything that the given revisions depend on. */
  ghost predicate DependedOn(db: Db, refs: set<Ref>, d: Ref)
  {
    exists r :: r in refs && DependsOn(db, r, d)
  }

  /** The words of a reason about a dependency of the given revisions. */
  ghost predicate SaysOfDependency(db: Db, refs: set<Ref>, reason: Reason)
  {
    match reason
    case DoesNotExist(d) => DependedOn(db, refs, d) && d.id !in db.requirements
    case IsStale(d, current) =>
      DependedOn(db, refs, d) && d.id in db.requirements && db.requirements[d.id].current == current != d.revision
    case IsRetired(d) => DependedOn(db, refs, d) && IsCurrent(db, d) && db.requirements[d.id].lifecycle == Retired
    case StateIs(d, state) =>
      DependedOn(db, refs, d) && ActiveCurrent(db, d) && Effective(db, d.id) == state != Satisfied
    case _ => false
  }

  /** The words of a reason about a task that waits. */
  ghost predicate SaysOfTask(db: Db, t: string, reason: Reason)
  {
    match reason
    case TaskIs(u, state) =>
      TaskDependency(t, u) in db.taskDependencies && u in db.tasks && db.tasks[u].state == state != Complete
    case LinkRetired(id) =>
      && id in db.requirements && db.requirements[id].lifecycle == Retired
      && exists l :: l in db.taskLinks && l.task == t && l.ref.id == id
    case LinkNotLeaf(ref) =>
      !IsLeafRevision(db, ref) && exists l :: l in db.taskLinks && l.task == t && l.ref == ref
    case _ => SaysOfDependency(db, LinkedRefs(db, t), reason)
  }

  lemma ReasonsSay(db: Db, refs: set<Ref>, reason: Reason)
    ensures reason in ReasonsOf(db, AllDependencies(db, refs)) <==> SaysOfDependency(db, refs, reason)
  {
    if reason in ReasonsOf(db, AllDependencies(db, refs)) {
      var d :| d in AllDependencies(db, refs) && DependencyReason(db, d) == Some(reason);
      AllDependenciesAre(db, refs, d);
    }
    if SaysOfDependency(db, refs, reason) {
      var d := reason.ref;
      AllDependenciesAre(db, refs, d);
      assert DependencyReason(db, d) == Some(reason);
    }
  }

  lemma LinkReasonsSay(db: Db, t: string, reason: Reason)
    ensures reason in IncompleteDependencies(db, t) <==> reason.TaskIs? && SaysOfTask(db, t, reason)
    ensures reason in RetiredLinks(db, t) <==> reason.LinkRetired? && SaysOfTask(db, t, reason)
    ensures reason in NonLeafLinks(db, LinkedRefs(db, t)) <==> reason.LinkNotLeaf? && SaysOfTask(db, t, reason)
  {
    if reason.LinkNotLeaf? {
      LeafRevisionIs(db, reason.ref);
      forall l | l in db.taskLinks && l.task == t
        ensures l.ref in LinkedRefs(db, t)
      {
      }
    }
    if reason.TaskIs? && SaysOfTask(db, t, reason) {
      var d := TaskDependency(t, reason.task);
      assert d in db.taskDependencies && d.task == t && d.dependency == reason.task;
    }
  }

  lemma WaitingReportSays(db: Db, t: string, reason: Reason)
    requires t in db.tasks && db.tasks[t].state == TaskOpen && !HasActiveLease(db, t)
    ensures reason in TaskReport(db, t).reasons <==> SaysOfTask(db, t, reason)
    ensures TaskReport(db, t).status == if exists r :: SaysOfTask(db, t, r) then Waiting else ReadyToLease
  {
    forall r: Reason
      ensures r in TaskReasons(db, t) <==> SaysOfTask(db, t, r)
    {
      LinkReasonsSay(db, t, r);
      ReasonsSay(db, LinkedRefs(db, t), r);
    }
    if r :| r in TaskReasons(db, t) {
      assert SaysOfTask(db, t, r);
    }
  }

  /** The report on a task lists a reason exactly if the task is open and the
      reason's words hold: while somebody holds the task, only that lease and its
      agent; otherwise whatever the task waits for. It waits exactly if it is open,
      nobody holds it and there is a reason. */
  lemma TaskReportSays(db: Db, t: string, reason: Reason)
    requires t in db.tasks
    ensures reason in TaskReport(db, t).reasons <==>
            && db.tasks[t].state == TaskOpen
            && if t in db.leases && db.clock < db.leases[t].expires
               then reason.LeaseCovers? && reason.lease == db.leases[t].id && reason.agent == db.leases[t].agent
               else SaysOfTask(db, t, reason)
    ensures TaskReport(db, t).status == Waiting <==>
            && db.tasks[t].state == TaskOpen && (t in db.leases ==> db.leases[t].expires <= db.clock)
            && exists r :: SaysOfTask(db, t, r)
  {
    if db.tasks[t].state == TaskOpen && !HasActiveLease(db, t) {
      WaitingReportSays(db, t, reason);
    }
  }

  /** The report on a requirement at a revision lists a reason exactly if the
      revision is an active current leaf and the words hold of one of its
      dependencies. */
  lemma RequirementReportSays(db: Db, ref: Ref, reason: Reason)
    requires ref.id in db.requirements
    ensures reason in RequirementReport(db, ref).reasons <==>
            ActiveCurrent(db, ref) && IsLeafRevision(db, ref) && SaysOfDependency(db, {ref}, reason)
  {
    LeafRevisionIs(db, ref);
    ReasonsSay(db, {ref}, reason);
  }

  /** Each unmet dependency of a waiting report has exactly one reason. */
  lemma OneReasonEach(db: Db, refs: set<Ref>, d: Ref)
    requires DependedOn(db, refs, d)
    ensures (exists reason :: SaysOfDependency(db, refs, reason) && reason.ref == d) <==> !Met(db, d)
    ensures forall r, s :: SaysOfDependency(db, refs, r) && SaysOfDependency(db, refs, s) && r.ref == s.ref == d ==>
              r == s
  {
    if !Met(db, d) {
      var reason := if d.id !in db.requirements then DoesNotExist(d)
        else if db.requirements[d.id].current != d.revision then IsStale(d, db.requirements[d.id].current)
        else if db.requirements[d.id].lifecycle == Retired then IsRetired(d)
        else StateIs(d, Effective(db, d.id));
      assert SaysOfDependency(db, refs, reason) && reason.ref == d;
    }
  }
}
