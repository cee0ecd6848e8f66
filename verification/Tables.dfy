/** The tables of the store for one project, and the non-recursive queries the
    transactions make on them. */
module Tables {
  import opened Domain

  datatype Lifecycle = Active | Retired

  datatype Recon = PendingReview | Satisfied | NotSatisfied

  /** One row of state_history, for a fixed entity and field. */
  datatype Change<+T> = Change(from: Option<T>, to: T)

  /** A requirement row together with its own state history. A missing state is
      the database NULL, which is not the same as pending_review. */
  datatype Requirement = Requirement(
    current: int, lifecycle: Lifecycle, state: Option<Recon>,
    lifecycleLog: seq<Change<Lifecycle>>, reconLog: seq<Change<Recon>>)

  /** createdAt is the position of the creating event in the audit log. */
  datatype Revision = Revision(level: Level, createdAt: nat)

  /** A refinement row (child refines parent) or a dependency row (child
      depends on parent). */
  datatype Link = Link(child: Ref, parent: Ref)

  datatype ReviewKey = ReviewKey(ref: Ref, commit: string)

  datatype Review = Review(verdict: Verdict, task: Option<string>, findings: seq<Finding>, reviewedAt: nat)

  datatype CauseKey = CauseKey(ref: Ref, cause: Ref)

  datatype CauseState = Open | Resolved

  datatype TaskState = TaskOpen | Complete | Closed

  datatype Task = Task(state: TaskState, fence: nat, commit: Option<string>, log: seq<Change<TaskState>>,
      createdAt: nat)

  datatype TaskLink = TaskLink(task: string, ref: Ref, purpose: Purpose)

  datatype TaskDependency = TaskDependency(task: string, dependency: string)

  /** The text "L-<claim time>-<task>". */
  datatype LeaseId = LeaseId(claimed: int, task: string)

  datatype Lease = Lease(id: LeaseId, agent: string, fence: nat, expires: int)

  datatype Event =
    | RequirementCreated(ref: Ref)
    | RequirementRevised(ref: Ref)
    | RequirementRetired(id: string)
    | RequirementReviewed(key: ReviewKey, verdict: Verdict)
    | TaskCreated(task: string)
    | TaskLeased(task: string, fence: nat)
    | TaskCompleted(task: string)
    | TaskClosed(task: string)
    | LeaseHeartbeat(lease: LeaseId)
    | LeaseReleased(lease: LeaseId)

  /** The requirement whose content or lifecycle an event changed. */
  function Changed(e: Event): Option<string>
  {
    match e
    case RequirementCreated(ref) => Some(ref.id)
    case RequirementRevised(ref) => Some(ref.id)
    case RequirementRetired(id) => Some(id)
    case _ => None
  }

  /** A recorded lease expiry. The fence tells apart leases that share their
      claim time. */
  datatype Expiration = Expiration(task: string, lease: LeaseId, fence: nat)

  /** The events of lease expiry are kept apart from the audit log: those of one
      request have the order of its rows, which is not fixed. */
  datatype Db = Db(
    requirements: map<string, Requirement>,
    revisions: map<Ref, Revision>,
    refinements: set<Link>,
    dependencies: set<Link>,
    reviews: map<ReviewKey, Review>,
    causes: map<CauseKey, CauseState>,
    tasks: map<string, Task>,
    taskLinks: set<TaskLink>,
    taskDependencies: set<TaskDependency>,
    leases: map<string, Lease>,
    audit: seq<Event>,
    expirations: set<Expiration>,
    clock: int)

  const EMPTY: Db := Db(map[], map[], {}, {}, map[], map[], map[], {}, {}, map[], [], {}, 0)

  predicate IsCurrent(db: Db, ref: Ref)
  {
    ref.id in db.requirements && db.requirements[ref.id].current == ref.revision
  }

  predicate ActiveCurrent(db: Db, ref: Ref)
  {
    IsCurrent(db, ref) && db.requirements[ref.id].lifecycle == Active
  }

  function CurrentRef(db: Db, id: string): Ref
    requires id in db.requirements
  {
    Ref(id, db.requirements[id].current)
  }

  /** The active children that refine exactly this parent revision. */
  function Children(db: Db, parent: Ref): set<Ref>
  {
    set l | l in db.refinements && l.parent == parent && ActiveCurrent(db, l.child) :: l.child
  }

  predicate Actionable(db: Db, ref: Ref)
  {
    && ref in db.revisions
    && match db.revisions[ref].level
       case Business => false
       case Stakeholder => Children(db, ref) == {}
       case System => true
  }

  /** The `edges` table of the downstream query: both kinds of link, kept only
      where they belong to the child's current revision, by requirement ID. */
  function Edges(db: Db): set<(string, string)>
  {
    set l | l in db.refinements + db.dependencies && IsCurrent(db, l.child) :: (l.parent.id, l.child.id)
  }

  /** Refinement links to active current children, by revision. */
  function ChildEdges(db: Db): set<(Ref, Ref)>
  {
    set l | l in db.refinements && ActiveCurrent(db, l.child) :: (l.parent, l.child)
  }

  /** Dependency links by revision, from the dependent to its dependency. */
  function DependencyEdges(db: Db): set<(Ref, Ref)>
  {
    set l | l in db.dependencies :: (l.child, l.parent)
  }

  function TaskEdges(db: Db): set<(string, string)>
  {
    set d | d in db.taskDependencies :: (d.task, d.dependency)
  }

  /** The state a reader sees for a stored value. */
  function StoredState(state: Option<Recon>): Recon
  {
    if state == None then PendingReview else state.value
  }

  predicate Linked(db: Db, a: string, b: string, l: Link)
  {
    l in db.refinements + db.dependencies && IsCurrent(db, l.child) && l.parent.id == a && l.child.id == b
  }

  lemma EdgesAre(db: Db, a: string, b: string)
    ensures (a, b) in Edges(db) <==> exists l :: Linked(db, a, b, l)
  {
    if (a, b) in Edges(db) {
      var l :| l in db.refinements + db.dependencies && IsCurrent(db, l.child) && (l.parent.id, l.child.id) == (a, b);
      assert Linked(db, a, b, l);
    }
    if l :| Linked(db, a, b, l) {
      assert (l.parent.id, l.child.id) == (a, b);
    }
  }

  lemma ChildrenAre(db: Db, parent: Ref, child: Ref)
    ensures child in Children(db, parent) <==> Link(child, parent) in db.refinements && ActiveCurrent(db, child)
    ensures child in Children(db, parent) <==> (parent, child) in ChildEdges(db)
  {
  }

  lemma DependencyEdgesAre(db: Db, child: Ref, parent: Ref)
    ensures (child, parent) in DependencyEdges(db) <==> Link(child, parent) in db.dependencies
  {
  }
}
