/** Each transaction of the store as a function from tables to tables. */
module Transactions {
  import opened Domain
  import opened Tables
  import opened Queries

  /** ReadFailed is no error of a transaction: it reports that the read of the
      item after a commit failed. */
  datatype Error = NotFound | Conflict | Constraint | Invalid | ReadFailed

  /** A transaction commits new tables or leaves the old ones in place. */
  datatype Tx = Commit(db: Db) | Abort(error: Error)

  /* ----- state changes of one row ----- */

  /** setRequirementState on one row: NULL is recorded as a missing `from`. */
  function WithState(r: Requirement, state: Recon): Requirement
  {
    if r.state == Some(state) then r
    else r.(state := Some(state), reconLog := r.reconLog + [Change(r.state, state)])
  }

  function MarkPending(rows: map<string, Requirement>, ids: set<string>): map<string, Requirement>
  {
    map id | id in rows :: if id in ids then WithState(rows[id], PendingReview) else rows[id]
  }

  function ClearStates(rows: map<string, Requirement>, parents: seq<Ref>): map<string, Requirement>
  {
    map id | id in rows ::
      if exists p :: p in parents && p.id == id then rows[id].(state := None) else rows[id]
  }

  /* ----- revisions ----- */

  /** A stakeholder revision that work already refers to while it is a leaf. */
  predicate GuardsDecomposition(db: Db, parent: Ref)
  {
    && Children(db, parent) == {}
    && ((exists l :: l in db.taskLinks && l.ref == parent) || (exists k :: k in db.reviews && k.ref == parent))
  }

  predicate Distinct<T(==)>(s: seq<T>)
  {
    forall i, j :: 0 <= i < j < |s| ==> s[i] != s[j]
  }

  function NewLinks(child: Ref, parents: seq<Ref>): set<Link>
  {
    set p | p in parents :: Link(child, p)
  }

  /** What the reads before the first insert object to. */
  function ReadError(db: Db, input: RequirementInput): Option<Error>
  {
    if exists p :: p in input.parents && p !in db.revisions then Some(NotFound)
    else if input.level == System && exists p :: p in input.parents && GuardsDecomposition(db, p) then Some(Conflict)
    else if exists d :: d in input.dependsOn && d !in db.revisions then Some(NotFound)
    else None
  }

  /** What the keys and checks of the tables object to. */
  predicate BreaksConstraint(db: Db, input: RequirementInput)
  {
    || Ref(input.id, input.revision) in db.revisions
    || !Distinct(input.parents) || !Distinct(input.dependsOn)
    || (exists p :: p in input.parents + input.dependsOn && p.id == input.id)
  }

  function RevisionError(db: Db, input: RequirementInput): Option<Error>
  {
    if ReadError(db, input).Some? then ReadError(db, input)
    else if BreaksConstraint(db, input) then Some(Constraint)
    else None
  }

  function AddRevision(db: Db, input: RequirementInput): Tx
  {
    var ref := Ref(input.id, input.revision);
    match RevisionError(db, input)
    case Some(error) => Abort(error)
    case None => Commit(db.(
      revisions := db.revisions[ref := Revision(input.level, |db.audit|)],
      refinements := db.refinements + NewLinks(ref, input.parents),
      dependencies := db.dependencies + NewLinks(ref, input.dependsOn),
      requirements := if input.level == System then ClearStates(db.requirements, input.parents) else db.requirements))
  }

  function NewRow(input: RequirementInput): Requirement
  {
    var pending := input.level != Business;
    Requirement(input.revision, Active,
                if pending then Some(PendingReview) else None,
                [Change(None, Active)],
                if pending then [Change(None, PendingReview)] else [])
  }

  function RowInserted(db: Db, input: RequirementInput): Db
  {
    db.(requirements := db.requirements[input.id := NewRow(input)])
  }

  function CreateRequirement(db: Db, input: RequirementInput): Tx
  {
    if input.id in db.requirements || input.revision < 1 then Abort(Conflict)
    else
      match AddRevision(RowInserted(db, input), input)
      case Abort(error) => Abort(error)
      case Commit(d) => Commit(d.(audit := d.audit + [RequirementCreated(Ref(input.id, input.revision))]))
  }

  /* ----- invalidation ----- */

  function CauseKeys(db: Db, ids: set<string>, cause: Ref): set<CauseKey>
    requires ids <= db.requirements.Keys
  {
    set id | id in ids :: CauseKey(CurrentRef(db, id), cause)
  }

  function NewCauses(db: Db, ids: set<string>, cause: Ref): map<CauseKey, CauseState>
    requires ids <= db.requirements.Keys
  {
    map k | k in CauseKeys(db, ids, cause) :: Open
  }

  /** The loop over the rows of the downstream query, as one update. A cause
      that is already stored keeps its state. */
  ghost function Invalidate(db: Db, root: string, cause: Ref): Db
  {
    var items := Downstream(db, root);
    db.(requirements := MarkPending(db.requirements, set id | id in items && Actionable(db, CurrentRef(db, id))),
        causes := NewCauses(db, items, cause) + db.causes)
  }

  /** The row of a requirement after a content change. */
  function RevisedRow(r: Requirement, input: RequirementInput): Requirement
  {
    if input.level == Business then r.(current := input.revision, state := None)
    else WithState(r.(current := input.revision), PendingReview)
  }

  function Revise(db: Db, input: RequirementInput): Tx
    requires input.id in db.requirements
  {
    match AddRevision(db, input)
    case Abort(error) => Abort(error)
    case Commit(d) =>
      Commit(d.(requirements := d.requirements[input.id := RevisedRow(db.requirements[input.id], input)]))
  }

  /** A revision and everything it invalidates. */
  ghost function ReviseAndInvalidate(db: Db, input: RequirementInput): Tx
    requires input.id in db.requirements
  {
    var ref := Ref(input.id, input.revision);
    match Revise(db, input)
    case Abort(error) => Abort(error)
    case Commit(d) =>
      var e := Invalidate(d, input.id, ref);
      Commit(e.(audit := e.audit + [RequirementRevised(ref)]))
  }

  ghost function UpdateRequirement(db: Db, input: RequirementInput, expected: int): Tx
  {
    if input.id !in db.requirements then Abort(NotFound)
    else
      var row := db.requirements[input.id];
      if row.current != expected || input.revision != expected + 1 || row.lifecycle == Retired then Abort(Conflict)
      else ReviseAndInvalidate(db, input)
  }

  /** The parents that a retiring system requirement refines. */
  function SystemParents(db: Db, ref: Ref): set<Ref>
  {
    set l | l in db.refinements && l.child == ref && ref in db.revisions
        && db.revisions[ref].level == System :: l.parent
  }

  function RetiredRow(r: Requirement): Requirement
  {
    r.(lifecycle := Retired, lifecycleLog := r.lifecycleLog + [Change(Some(r.lifecycle), Retired)])
  }

  /** The tables right after the row of id has been retired. */
  function RowRetired(db: Db, id: string): Db
    requires id in db.requirements
  {
    db.(requirements := db.requirements[id := RetiredRow(db.requirements[id])])
  }

  /** The owners of those of the given parents that are actionable. */
  function FreedBy(d: Db, parents: set<Ref>): set<string>
  {
    set p | p in parents && Actionable(d, p) :: p.id
  }

  /** The last writes of a retirement: pending parents and the event. The
      parents are actionable or not as the tables d have it. */
  function FreeAndRecord(e: Db, d: Db, parents: set<Ref>, id: string): Db
  {
    e.(requirements := MarkPending(e.requirements, FreedBy(d, parents)), audit := e.audit + [RequirementRetired(id)])
  }

  /** The writes of a retirement. */
  ghost function RetireAndInvalidate(db: Db, id: string): Db
    requires id in db.requirements
  {
    var ref := CurrentRef(db, id);
    var d := RowRetired(db, id);
    FreeAndRecord(Invalidate(d, id, ref), d, SystemParents(db, ref), id)
  }

  ghost function RetireRequirement(db: Db, id: string): Tx
  {
    if id !in db.requirements then Abort(NotFound)
    else if db.requirements[id].lifecycle == Retired then Abort(Conflict)
    else Commit(RetireAndInvalidate(db, id))
  }

  /* ----- reviews ----- */

  predicate TaskSupports(db: Db, task: string, ref: Ref, commit: string)
    requires task in db.tasks
  {
    && db.tasks[task].state == Complete && db.tasks[task].commit == Some(commit)
    && exists l :: l in db.taskLinks && l.task == task && l.ref == ref
  }

  function ResolveCauses(causes: map<CauseKey, CauseState>, ref: Ref): map<CauseKey, CauseState>
  {
    map k | k in causes :: if k.ref == ref then Resolved else causes[k]
  }

  function ReviewRequirement(db: Db, input: ReviewInput): Tx
  {
    if input.ref.id !in db.requirements then Abort(NotFound)
    else
      var row := db.requirements[input.ref.id];
      var ref := if input.ref.revision == 0 then CurrentRef(db, input.ref.id) else input.ref;
      var key := ReviewKey(ref, input.commit);
      if ref.revision != row.current || row.lifecycle == Retired || !Actionable(db, ref) then Abort(Conflict)
      else if key in db.reviews then
        var prior := db.reviews[key];
        if prior.verdict == input.verdict && prior.task == input.task && prior.findings == input.findings
        then Commit(db)
        else Abort(Conflict)
      else if StoredState(row.state) == Satisfied then Abort(Conflict)
      else if input.task.Some? && input.task.value !in db.tasks then Abort(NotFound)
      else if input.task.Some? && !TaskSupports(db, input.task.value, ref, input.commit) then Abort(Conflict)
      else
        Commit(db.(
          reviews := db.reviews[key := Review(input.verdict, input.task, input.findings, |db.audit|)],
          causes := if input.verdict == Accept then ResolveCauses(db.causes, ref) else db.causes,
          requirements := db.requirements[ref.id :=
            WithState(row, if input.verdict == Accept then Satisfied else NotSatisfied)],
          audit := db.audit + [RequirementReviewed(key, input.verdict)]))
  }

  /* ----- tasks and leases ----- */

  /** The first dependency that cannot be inserted. */
  function DependencyError(db: Db, input: TaskInput, i: nat): Option<Error>
    decreases |input.dependsOn| - i
  {
    if i >= |input.dependsOn| then None
    else if input.dependsOn[i] !in db.tasks && input.dependsOn[i] != input.id then Some(NotFound)
    else if input.dependsOn[i] == input.id || input.dependsOn[i] in input.dependsOn[..i] then Some(Constraint)
    else DependencyError(db, input, i + 1)
  }

  /** The first requirement link that cannot be inserted. */
  function LinkError(db: Db, input: TaskInput, i: nat): Option<Error>
    decreases |input.requirements| - i
  {
    if i >= |input.requirements| then None
    else if input.requirements[i].ref !in db.revisions then Some(NotFound)
    else if !Actionable(db, input.requirements[i].ref) then Some(Conflict)
    else if input.requirements[i] in input.requirements[..i] then Some(Constraint)
    else LinkError(db, input, i + 1)
  }

  function NewTask(db: Db): Task
  {
    Task(TaskOpen, 0, None, [Change(None, TaskOpen)], |db.audit|)
  }

  function DependencyRows(task: string, dependencies: seq<string>): set<TaskDependency>
  {
    set d | d in dependencies :: TaskDependency(task, d)
  }

  function LinkRows(task: string, links: seq<TaskRequirementInput>): set<TaskLink>
  {
    set l | l in links :: TaskLink(task, l.ref, l.purpose)
  }

  /** The first row that cannot be inserted. */
  function TaskError(db: Db, input: TaskInput): Option<Error>
  {
    if DependencyError(db, input, 0).Some? then DependencyError(db, input, 0) else LinkError(db, input, 0)
  }

  function CreateTask(db: Db, input: TaskInput): Tx
  {
    if input.id in db.tasks then Abort(Conflict)
    else
      match TaskError(db, input)
      case Some(error) => Abort(error)
      case None => Commit(db.(
        tasks := db.tasks[input.id := NewTask(db)],
        taskDependencies := db.taskDependencies + DependencyRows(input.id, input.dependsOn),
        taskLinks := db.taskLinks + LinkRows(input.id, input.requirements),
        audit := db.audit + [TaskCreated(input.id)]))
  }

  ghost predicate Leasable(db: Db, id: string)
    requires id in db.tasks
  {
    && db.tasks[id].state == TaskOpen
    && !LinksRetired(db, id)
    && !LinksNonLeaf(db, id)
    && !HasIncompleteDependency(db, id)
    && !TaskBlocked(db, id)
    && !HasActiveLease(db, id)
  }

  /** `lag` is the time between deleting an expired lease and the claim. */
  ghost function LeaseTask(db: Db, id: string, agent: string, ttl: int, lag: nat): Tx
  {
    if id !in db.tasks then Abort(NotFound)
    else if !Leasable(db, id) then Abort(Conflict)
    else
      var task := db.tasks[id];
      var claimed := db.clock + lag;
      Commit(db.(
        leases := db.leases[id := Lease(LeaseId(claimed, id), agent, task.fence + 1, claimed + ttl)],
        tasks := db.tasks[id := task.(fence := task.fence + 1)],
        audit := db.audit + [TaskLeased(id, task.fence + 1)],
        clock := claimed))
  }

  /** The lease row with this identifier and fence. */
  predicate HoldsLease(db: Db, id: LeaseId, fence: int)
  {
    id.task in db.leases && db.leases[id.task].id == id && db.leases[id.task].fence == fence
  }

  function Heartbeat(db: Db, id: LeaseId, fence: int, ttl: int, lag: nat): Tx
  {
    if !HoldsLease(db, id, fence) || !HasActiveLease(db, id.task) then Abort(Conflict)
    else
      var stamp := db.clock + lag;
      Commit(db.(
        leases := db.leases[id.task := db.leases[id.task].(expires := stamp + ttl)],
        audit := db.audit + [LeaseHeartbeat(id)],
        clock := stamp))
  }

  function Release(db: Db, id: LeaseId, fence: int): Tx
  {
    if !HoldsLease(db, id, fence) then Abort(Conflict)
    else Commit(db.(leases := db.leases - {id.task}, audit := db.audit + [LeaseReleased(id)]))
  }

  /** setTaskState, which records no change to the same state. */
  function WithTaskState(t: Task, state: TaskState): Task
  {
    if t.state == state then t else t.(state := state, log := t.log + [Change(Some(t.state), state)])
  }

  predicate Corrected(db: Db, l: TaskLink)
  {
    IsCurrent(db, l.ref) && Actionable(db, l.ref) && StoredState(db.requirements[l.ref.id].state) == NotSatisfied
  }

  /** The requirements that completing a task with these links corrects. */
  function CorrectedBy(db: Db, links: set<TaskLink>): set<string>
  {
    set l | l in links && Corrected(db, l) :: l.ref.id
  }

  function TaskLinksOf(db: Db, task: string): set<TaskLink>
  {
    set l | l in db.taskLinks && l.task == task
  }

  function CompletedTask(t: Task, commit: string): Task
  {
    WithTaskState(t, Complete).(commit := Some(commit))
  }

  /** Completion tests the lease and its fence, never the state of the task. */
  function CompleteTask(db: Db, task: string, id: LeaseId, fence: int, commit: string): Tx
  {
    if id.task != task || !HoldsLease(db, id, fence) || !HasActiveLease(db, task) then Abort(Conflict)
    else if task !in db.tasks then Abort(NotFound)
    else
      Commit(db.(
        tasks := db.tasks[task := CompletedTask(db.tasks[task], commit)],
        leases := db.leases - {task},
        requirements := MarkPending(db.requirements, CorrectedBy(db, TaskLinksOf(db, task))),
        audit := db.audit + [TaskCompleted(task)]))
  }

  function CloseTask(db: Db, id: string): Tx
  {
    if id !in db.tasks then Abort(NotFound)
    else if db.tasks[id].state != TaskOpen || HasActiveLease(db, id) then Abort(Conflict)
    else
      Commit(db.(
        tasks := db.tasks[id := WithTaskState(db.tasks[id], Closed)],
        audit := db.audit + [TaskClosed(id)]))
  }

  function RecordsOf(leases: map<string, Lease>, ended: set<string>): set<Expiration>
    requires ended <= leases.Keys
  {
    set t | t in ended :: Expiration(t, leases[t].id, leases[t].fence)
  }

  function ExpireLeases(db: Db): Tx
  {
    Commit(db.(
      leases := map t | t in db.leases && db.leases[t].expires > db.clock :: db.leases[t],
      expirations := db.expirations + RecordsOf(db.leases, set t | t in db.leases && db.leases[t].expires <= db.clock)))
  }

  /* ----- runs ----- */

  datatype Op =
    | OpCreateRequirement(requirement: RequirementInput)
    | OpUpdateRequirement(revised: RequirementInput, expected: int)
    | OpRetireRequirement(id: string)
    | OpReviewRequirement(review: ReviewInput)
    | OpCreateTask(task: TaskInput)
    | OpLeaseTask(leased: string, agent: string, ttl: int, lag: nat)
    | OpHeartbeat(beating: LeaseId, beatFence: int, beatTtl: int, beatLag: nat)
    | OpRelease(released: LeaseId, releaseFence: int)
    | OpCompleteTask(completed: string, held: LeaseId, heldFence: int, commit: string)
    | OpCloseTask(closed: string)
    | OpExpireLeases
    | OpAdvance(elapsed: nat)

  /** What the service does with a request: check the input, then run the
      transaction. Advance lets time pass. */
  ghost function Perform(db: Db, op: Op): Tx
  {
    match op
    case OpCreateRequirement(input) => if ValidRequirement(input) then CreateRequirement(db, input) else Abort(Invalid)
    case OpUpdateRequirement(input, expected) =>
      if ValidRequirement(input) then UpdateRequirement(db, input, expected) else Abort(Invalid)
    case OpRetireRequirement(id) => RetireRequirement(db, id)
    case OpReviewRequirement(input) => if ValidReview(input) then ReviewRequirement(db, input) else Abort(Invalid)
    case OpCreateTask(input) => if ValidTask(input) then CreateTask(db, input) else Abort(Invalid)
    case OpLeaseTask(id, agent, ttl, lag) => LeaseTask(db, id, agent, ttl, lag)
    case OpHeartbeat(id, fence, ttl, lag) => Heartbeat(db, id, fence, ttl, lag)
    case OpRelease(id, fence) => Release(db, id, fence)
    case OpCompleteTask(task, id, fence, commit) =>
      if ValidCommit(commit) then CompleteTask(db, task, id, fence, commit) else Abort(Invalid)
    case OpCloseTask(id) => CloseTask(db, id)
    case OpExpireLeases => ExpireLeases(db)
    case OpAdvance(elapsed) => Commit(db.(clock := db.clock + elapsed))
  }

  ghost function Step(db: Db, op: Op): Db
  {
    match Perform(db, op)
    case Commit(d) => d
    case Abort(_) => db
  }

  /** The tables after a run from the empty store. */
  ghost function Run(ops: seq<Op>): Db
  {
    if ops == [] then EMPTY else Step(Run(ops[..|ops| - 1]), ops[|ops| - 1])
  }

  lemma RunNext(ops: seq<Op>, k: nat)
    requires k < |ops|
    ensures Run(ops[..k + 1]) == Step(Run(ops[..k]), ops[k])
  {
    assert ops[..k + 1][..k] == ops[..k];
  }
}
