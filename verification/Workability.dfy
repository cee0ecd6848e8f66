/** Workability reports against what the lease transaction accepts. */
module Workability {
  import opened Domain
  import opened Graph
  import opened Tables
  import opened Queries
  import opened Transactions
  import opened Soundness
  import opened Loops
  import opened Listing
  import Text

  datatype Status =
    | Inactive | ManagedThroughChildren | Waiting | NoWorkRequired
    | ReadyForWork | WorkInProgress | AwaitingReview | NeedsTask
    | ReadyToLease | TaskIsComplete | TaskIsClosed

  /** What keeps work waiting, item by item. */
  datatype Reason =
    | TaskIs(task: string, state: TaskState)
    | DoesNotExist(ref: Ref)
    | IsStale(ref: Ref, current: int)
    | IsRetired(ref: Ref)
    | StateIs(ref: Ref, reported: Recon)
    | LinkRetired(id: string)
    | LinkNotLeaf(ref: Ref)
    | LeaseCovers(lease: LeaseId, agent: string)

  /** The reasons are the listed items, without their order; a status whose
      reason is a fixed text lists none. */
  datatype Report = Report(workable: bool, status: Status, reasons: set<Reason>)

  /** Why a dependency holds up work: the four cases of the reports. */
  ghost function DependencyReason(db: Db, d: Ref): (reason: Option<Reason>)
    ensures reason == None <==> Met(db, d)
  {
    if d.id !in db.requirements then Some(DoesNotExist(d))
    else if !IsCurrent(db, d) then Some(IsStale(d, db.requirements[d.id].current))
    else if db.requirements[d.id].lifecycle != Active then Some(IsRetired(d))
    else if Effective(db, d.id) != Satisfied then Some(StateIs(d, Effective(db, d.id)))
    else None
  }

  ghost function ReasonsOf(db: Db, dependencies: set<Ref>): set<Reason>
  {
    set d | d in dependencies && DependencyReason(db, d).Some? :: DependencyReason(db, d).value
  }

  lemma ReasonsOfOne(db: Db, done: set<Ref>, d: Ref)
    ensures ReasonsOf(db, done + {d}) ==
            ReasonsOf(db, done) + (if DependencyReason(db, d).Some? then {DependencyReason(db, d).value} else {})
  {
    if DependencyReason(db, d).Some? {
      assert d in done + {d};
    }
  }

  /** Everything the given revisions depend on, however indirectly. */
  ghost function AllDependencies(db: Db, refs: set<Ref>): set<Ref>
  {
    set l | l in db.dependencies && (exists r :: r in refs && DependsOn(db, r, l.parent)) :: l.parent
  }

  lemma AllDependenciesAre(db: Db, refs: set<Ref>, d: Ref)
    ensures d in AllDependencies(db, refs) <==> exists r :: r in refs && DependsOn(db, r, d)
  {
    if r :| r in refs && DependsOn(db, r, d) {
      var n: nat :| Steps(DependencyEdges(db), n, r, d);
      var m := LastEdge(DependencyEdges(db), n, r, d);
      DependencyEdgesAre(db, m, d);
      assert Link(m, d).parent in AllDependencies(db, refs);
    }
  }

  /** The reports list a dependency exactly if something is blocked. */
  lemma NoReasonsIffUnblocked(db: Db, refs: set<Ref>)
    ensures ReasonsOf(db, AllDependencies(db, refs)) == {} <==> forall r :: r in refs ==> !RequirementBlocked(db, r)
  {
    if r :| r in refs && RequirementBlocked(db, r) {
      var d :| DependsOn(db, r, d) && !Met(db, d);
      AllDependenciesAre(db, refs, d);
      assert DependencyReason(db, d).value in ReasonsOf(db, AllDependencies(db, refs));
    }
    if reason :| reason in ReasonsOf(db, AllDependencies(db, refs)) {
      var d :| d in AllDependencies(db, refs) && DependencyReason(db, d) == Some(reason);
      AllDependenciesAre(db, refs, d);
      var r :| r in refs && DependsOn(db, r, d);
      assert RequirementBlocked(db, r);
    }
  }

  function IncompleteDependencies(db: Db, t: string): set<Reason>
  {
    set d | d in db.taskDependencies && d.task == t && d.dependency in db.tasks
        && db.tasks[d.dependency].state != Complete
      :: TaskIs(d.dependency, db.tasks[d.dependency].state)
  }

  function RetiredLinks(db: Db, t: string): set<Reason>
  {
    set l | l in db.taskLinks && l.task == t && l.ref.id in db.requirements
        && db.requirements[l.ref.id].lifecycle == Retired
      :: LinkRetired(l.ref.id)
  }

  function NonLeafLinks(db: Db, refs: set<Ref>): set<Reason>
  {
    set r | r in refs && !Actionable(db, r) :: LinkNotLeaf(r)
  }

  ghost function TaskReasons(db: Db, t: string): set<Reason>
  {
    IncompleteDependencies(db, t) + ReasonsOf(db, AllDependencies(db, LinkedRefs(db, t)))
    + RetiredLinks(db, t) + NonLeafLinks(db, LinkedRefs(db, t))
  }

  ghost function TaskReport(db: Db, t: string): Report
    requires t in db.tasks
  {
    if db.tasks[t].state == Complete then Report(false, TaskIsComplete, {})
    else if db.tasks[t].state == Closed then Report(false, TaskIsClosed, {})
    else if HasActiveLease(db, t) then Report(false, WorkInProgress, {LeaseCovers(db.leases[t].id, db.leases[t].agent)})
    else if TaskReasons(db, t) != {} then Report(false, Waiting, TaskReasons(db, t))
    else Report(true, ReadyToLease, {})
  }

  /** Open tasks linked to exactly this requirement revision. */
  function OpenTasks(db: Db, ref: Ref): set<string>
  {
    set l | l in db.taskLinks && l.ref == ref && l.task in db.tasks && db.tasks[l.task].state == TaskOpen :: l.task
  }

  predicate LinkLeased(db: Db, ref: Ref)
  {
    exists l :: l in db.taskLinks && l.ref == ref && HasActiveLease(db, l.task)
  }

  ghost predicate SomeReady(db: Db, ref: Ref)
  {
    exists t :: t in OpenTasks(db, ref) && TaskReport(db, t).workable
  }

  /** The report on a requirement seen at the given revision. */
  ghost function RequirementReport(db: Db, ref: Ref): Report
    requires ref.id in db.requirements
  {
    if !IsCurrent(db, ref) || db.requirements[ref.id].lifecycle == Retired then Report(false, Inactive, {})
    else if !Actionable(db, ref) then Report(false, ManagedThroughChildren, {})
    else if ReasonsOf(db, AllDependencies(db, {ref})) != {}
    then Report(false, Waiting, ReasonsOf(db, AllDependencies(db, {ref})))
    else if Effective(db, ref.id) == Satisfied then Report(false, NoWorkRequired, {})
    else if OpenTasks(db, ref) != {} && !LinkLeased(db, ref) && !SomeReady(db, ref) then Report(false, Waiting, {})
    else if SomeReady(db, ref) then Report(true, ReadyForWork, {})
    else if LinkLeased(db, ref) then Report(false, WorkInProgress, {})
    else if Effective(db, ref.id) == PendingReview then Report(false, AwaitingReview, {})
    else Report(false, NeedsTask, {})
  }

  lemma IncompleteAreGuard(db: Db, t: string)
    ensures IncompleteDependencies(db, t) == {} <==> !HasIncompleteDependency(db, t)
  {
    if d :| d in db.taskDependencies && d.task == t &&
            d.dependency in db.tasks && db.tasks[d.dependency].state != Complete {
      assert TaskIs(d.dependency, db.tasks[d.dependency].state) in IncompleteDependencies(db, t);
    }
  }

  lemma RetiredAreGuard(db: Db, t: string)
    ensures RetiredLinks(db, t) == {} <==> !LinksRetired(db, t)
  {
    if l :| l in db.taskLinks && l.task == t &&
            l.ref.id in db.requirements && db.requirements[l.ref.id].lifecycle == Retired {
      assert LinkRetired(l.ref.id) in RetiredLinks(db, t);
    }
  }

  lemma NonLeavesAreGuard(db: Db, t: string)
    ensures NonLeafLinks(db, LinkedRefs(db, t)) == {} <==> !LinksNonLeaf(db, t)
  {
    LinkedNonLeaf(db, t);
    if r :| r in LinkedRefs(db, t) && !Actionable(db, r) {
      assert LinkNotLeaf(r) in NonLeafLinks(db, LinkedRefs(db, t));
    }
  }

  lemma BlockersAreGuard(db: Db, t: string)
    ensures ReasonsOf(db, AllDependencies(db, LinkedRefs(db, t))) == {} <==> !TaskBlocked(db, t)
  {
    NoReasonsIffUnblocked(db, LinkedRefs(db, t));
    forall l | l in db.taskLinks && l.task == t
      ensures l.ref in LinkedRefs(db, t)
    {
    }
  }

  /** A task's report lists nothing exactly if every guard of the lease
      transaction that reads these tables lets the task through. */
  lemma TaskReasonsAreGuards(db: Db, t: string)
    ensures TaskReasons(db, t) == {} <==>
            !HasIncompleteDependency(db, t) && !TaskBlocked(db, t) && !LinksRetired(db, t) && !LinksNonLeaf(db, t)
  {
    IncompleteAreGuard(db, t);
    BlockersAreGuard(db, t);
    RetiredAreGuard(db, t);
    NonLeavesAreGuard(db, t);
  }

  ghost predicate CanLease(db: Db, t: string)
  {
    forall agent, ttl, lag :: LeaseTask(db, t, agent, ttl, lag).Commit?
  }

  /** At one moment, a task is reported workable exactly when a lease request
      for it succeeds, and otherwise the request is a conflict. */
  lemma TaskWorkableIffLeasable(db: Db, t: string, agent: string, ttl: int, lag: nat)
    requires t in db.tasks
    ensures TaskReport(db, t).workable <==> LeaseTask(db, t, agent, ttl, lag).Commit?
    ensures !TaskReport(db, t).workable <==> LeaseTask(db, t, agent, ttl, lag) == Abort(Conflict)
    ensures TaskReport(db, t).workable <==> CanLease(db, t)
  {
    TaskReasonsAreGuards(db, t);
  }

  /** A requirement is reported workable exactly when it is active, current,
      a leaf, not satisfied, and some task linked to the revision can be leased:
      that its own dependencies are met follows from the task. */
  lemma RequirementWorkableIffTaskLeasable(db: Db, ref: Ref)
    requires ref.id in db.requirements
    ensures RequirementReport(db, ref).workable <==>
            && ActiveCurrent(db, ref) && Actionable(db, ref) && Effective(db, ref.id) != Satisfied
            && exists l :: l in db.taskLinks && l.ref == ref && l.task in db.tasks && CanLease(db, l.task)
  {
    if l :| l in db.taskLinks && l.ref == ref && l.task in db.tasks && CanLease(db, l.task) {
      TaskWorkableIffLeasable(db, l.task, "", 0, 0);
      assert l.task in OpenTasks(db, ref) && SomeReady(db, ref);
      assert !RequirementBlocked(db, ref);
    }
    NoReasonsIffUnblocked(db, {ref});
    if SomeReady(db, ref) {
      var t :| t in OpenTasks(db, ref) && TaskReport(db, t).workable;
      TaskWorkableIffLeasable(db, t, "", 0, 0);
      var l :| l in db.taskLinks && l.ref == ref && l.task == t;
      assert l.task in db.tasks && CanLease(db, l.task);
    }
  }

  /** While a requirement's own dependencies are unmet, no task linked to its
      revision can be leased by anyone. */
  lemma BlockedRequirementBlocksTasks(db: Db, l: TaskLink, agent: string, ttl: int, lag: nat)
    requires l in db.taskLinks && RequirementBlocked(db, l.ref)
    ensures LeaseTask(db, l.task, agent, ttl, lag).Abort?
  {
  }

  /** The requirements a listing with these filters shows. */
  ghost function Matching(db: Db, level: Option<Level>, state: Option<Recon>): set<string>
  {
    set id | id in db.requirements && AtLevel(db, level, id) && (state == None || state == Some(Effective(db, id)))
  }

  /** The level of the current revision. */
  function LevelOf(db: Db, id: string): Option<Level>
    requires id in db.requirements
  {
    var ref := CurrentRef(db, id);
    if ref in db.revisions then Some(db.revisions[ref].level) else None
  }

  predicate AtLevel(db: Db, level: Option<Level>, id: string)
    requires id in db.requirements
  {
    level == None || LevelOf(db, id) == level
  }

  lemma MatchingIs(db: Db, level: Option<Level>, state: Option<Recon>)
    ensures forall id :: id in Matching(db, level, state) <==>
              && id in db.requirements && (level == None || LevelOf(db, id) == level)
              && (state == None || Some(Effective(db, id)) == state)
  {
  }

  lemma MatchingAbove(db: Db, cursor: string, level: Option<Level>, state: Option<Recon>)
    ensures Above(Matching(db, level, state), cursor) ==
            set id | id in db.requirements && Text.Less(cursor, id) &&
                     (level == None || LevelOf(db, id) == level) &&
                     (state == None || Some(Effective(db, id)) == state)
  {
  }

  /* ----- the order of the impact listing ----- */

  function Rank(level: Level): nat
  {
    match level
    case Business => 0
    case Stakeholder => 1
    case System => 2
  }

  predicate Precedes(db: Db, a: string, b: string)
  {
    && a in db.requirements && b in db.requirements && CurrentRef(db, a) in db.revisions
        && CurrentRef(db, b) in db.revisions
    && var m, n := db.revisions[CurrentRef(db, a)].level, db.revisions[CurrentRef(db, b)].level;
       Rank(m) < Rank(n) || (m == n && Text.Less(a, b))
  }

  predicate ByLevel(db: Db, items: seq<string>)
  {
    forall i, j :: 0 <= i < j < |items| ==> Precedes(db, items[i], items[j])
  }

  /** Business comes first, system last, and a level is ordered by identifier. */
  lemma ByLevelSays(db: Db, items: seq<string>)
    requires ByLevel(db, items) && forall b :: b in items ==> b in db.requirements
    ensures forall i, j :: 0 <= i < j < |items| ==>
              if LevelOf(db, items[i]) == LevelOf(db, items[j]) then Text.Less(items[i], items[j])
              else LevelOf(db, items[i]) == Some(Business) || LevelOf(db, items[j]) == Some(System)
  {
    forall i, j | 0 <= i < j < |items|
      ensures if LevelOf(db, items[i]) == LevelOf(db, items[j]) then Text.Less(items[i], items[j])
              else LevelOf(db, items[i]) == Some(Business) || LevelOf(db, items[j]) == Some(System)
    {
      assert Precedes(db, items[i], items[j]);
    }
  }

  ghost predicate ListsLevel(db: Db, ids: set<string>, level: Level, items: seq<string>)
    requires ids <= db.requirements.Keys
  {
    IsListing(items, set id | id in ids && AtLevel(db, Some(level), id))
  }

  lemma LevelsConcatenated(db: Db, ids: set<string>, business: seq<string>, stakeholder: seq<string>,
      system: seq<string>)
    requires RequirementsSound(db) && ids <= db.requirements.Keys
    requires ListsLevel(db, ids, Business, business) && ListsLevel(db, ids, Stakeholder, stakeholder)
             && ListsLevel(db, ids, System, system)
    ensures ByLevel(db, business + stakeholder + system)
    ensures forall b :: b in business + stakeholder + system <==> b in ids
  {
    var items := business + stakeholder + system;
    forall b | b in ids
      ensures b in items
    {
      var level := db.revisions[CurrentRef(db, b)].level;
      assert AtLevel(db, Some(level), b);
      assert b in business || b in stakeholder || b in system;
    }
    forall i | 0 <= i < |items|
      ensures items[i] in ids
      ensures CurrentRef(db, items[i]) in db.revisions
      ensures Rank(db.revisions[CurrentRef(db, items[i])].level) ==
              if i < |business| then 0 else if i < |business| + |stakeholder| then 1 else 2
    {
      if i < |business| {
        assert items[i] == business[i];
      } else if i < |business| + |stakeholder| {
        assert items[i] == stakeholder[i - |business|];
      } else {
        assert items[i] == system[i - |business| - |stakeholder|];
      }
    }
    forall i, j | 0 <= i < j < |items|
      ensures Precedes(db, items[i], items[j])
    {
    }
  }

  /** Everything downstream of a root is stored. */
  lemma ImpactStored(db: Db, root: string)
    ensures forall b :: Reaches(Edges(db), root, b) ==> b in db.requirements
  {
    forall b | Reaches(Edges(db), root, b)
      ensures b in db.requirements
    {
      var n: nat :| Steps(Edges(db), n, root, b);
      var m := LastEdge(Edges(db), n, root, b);
      EdgesAre(db, m, b);
    }
  }
}
