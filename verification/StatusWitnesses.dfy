/** Runs that show where the answers of the store depart from the design
    document: reported statuses, and a repeated submission. */
module StatusWitnesses {
  import opened Domain
  import opened Graph
  import opened Tables
  import opened Queries
  import opened Transactions
  import opened Soundness
  import opened Workability
  import opened DocumentRules
  import opened Witnesses

  const FIRST := "T-1"
  const SECOND := "T-2"

  function WorkOn(task: string, s: string, dependsOn: seq<string>): Op
  {
    OpCreateTask(TaskInput(task, [TaskRequirementInput(Ref(s, 1), Implement)], dependsOn))
  }

  lemma TaskIds()
    ensures IsTaskId(FIRST) && IsTaskId(SECOND) && FIRST != SECOND
  {
    assert FIRST[2] != SECOND[2];
  }

  /** s is an active stakeholder leaf that depends on nothing. */
  ghost predicate Leaf(db: Db, s: string, state: Recon)
  {
    && RowIs(db, s, 1, Some(state)) && LevelIs(db, Ref(s, 1), Stakeholder)
    && db.dependencies == {} && forall l :: l in db.refinements ==> l.parent != Ref(s, 1)
  }

  lemma LeafIsFree(db: Db, s: string, state: Recon)
    requires Leaf(db, s, state)
    ensures ActiveLeaf(db, Ref(s, 1)) && !RequirementBlocked(db, Ref(s, 1))
    ensures CurrentRef(db, s) == Ref(s, 1) && Effective(db, s) == state
  {
    assert Children(db, Ref(s, 1)) == {};
    forall d
      ensures !DependsOn(db, Ref(s, 1), d)
    {
      if DependsOn(db, Ref(s, 1), d) {
        var m := FirstEdge(DependencyEdges(db), Ref(s, 1), d);
        assert false;
      }
    }
  }

  /** Two tasks on s, of which the second waits for the first. */
  ghost predicate Queued(db: Db, s: string, first: TaskState)
  {
    && db.tasks.Keys == {FIRST, SECOND} && db.tasks[FIRST].state == first && db.tasks[SECOND].state == TaskOpen
    && db.taskLinks == {TaskLink(FIRST, Ref(s, 1), Implement), TaskLink(SECOND, Ref(s, 1), Implement)}
    && db.taskDependencies == {TaskDependency(SECOND, FIRST)}
  }

  /** Before any task. */
  ghost predicate Idle(db: Db)
  {
    db.tasks == map[] && db.taskLinks == {} && db.taskDependencies == {} && db.leases == map[] && db.reviews == map[]
  }

  lemma Start(b: string, s: string) returns (ops: seq<Op>)
    requires IdMatches(Business, b) && IdMatches(Stakeholder, s) && b != s && HasPrefix(b, "BR-")
    ensures Leaf(Run(ops), s, PendingReview) && Idle(Run(ops)) && Branched(Run(ops), b, s)
  {
    var first := OpCreateRequirement(RequirementInput(b, Business, 1, [], []));
    var second := OpCreateRequirement(RequirementInput(s, Stakeholder, 1, [Ref(b, 1)], []));
    RunThen([], first);
    Root(b);
    RunThen([] + [first], second);
    Branch(Run([] + [first]), b, s);
    CreateStaysIdle(EMPTY, first);
    CreateStaysIdle(Run([] + [first]), second);
    ops := [] + [first] + [second];
  }

  lemma CreateStaysIdle(db: Db, op: Op)
    requires op.OpCreateRequirement? && Idle(db)
    ensures Idle(Step(db, op))
  {
    if Perform(db, op).Commit? {
      CreateAdds(db, op.requirement);
    }
  }

  lemma FirstTask(db: Db, s: string)
    requires Leaf(db, s, PendingReview) && Idle(db)
    ensures var d := Step(db, WorkOn(FIRST, s, []));
            && d == db.(tasks := map[FIRST := NewTask(db)], taskLinks := {TaskLink(FIRST, Ref(s, 1), Implement)},
                audit := d.audit)
  {
    TaskIds();
    LeafIsFree(db, s, PendingReview);
    var input := TaskInput(FIRST, [TaskRequirementInput(Ref(s, 1), Implement)], []);
    TaskCreatedExactly(db, input);
    assert CreateTask(db, input).Commit?;
  }

  lemma SecondTask(db: Db, s: string)
    requires Leaf(db, s, PendingReview) && db.leases == map[] && db.reviews == map[] && db.taskDependencies == {}
    requires db.tasks.Keys == {FIRST} && db.tasks[FIRST].state == TaskOpen
    requires db.taskLinks == {TaskLink(FIRST, Ref(s, 1), Implement)}
    ensures var d := Step(db, WorkOn(SECOND, s, [FIRST]));
            Queued(d, s, TaskOpen) && Leaf(d, s, PendingReview) && d.leases == map[] && d.reviews == map[]
  {
    TaskIds();
    LeafIsFree(db, s, PendingReview);
    var input := TaskInput(SECOND, [TaskRequirementInput(Ref(s, 1), Implement)], [FIRST]);
    TaskCreatedExactly(db, input);
    assert CreateTask(db, input).Commit?;
  }

  lemma Queue(b: string, s: string) returns (ops: seq<Op>)
    requires IdMatches(Business, b) && IdMatches(Stakeholder, s) && b != s && HasPrefix(b, "BR-")
    ensures Queued(Run(ops), s, TaskOpen) && Leaf(Run(ops), s, PendingReview)
    ensures Run(ops).leases == map[] && Run(ops).reviews == map[]
  {
    ops := Start(b, s);
    RunThen(ops, WorkOn(FIRST, s, []));
    FirstTask(Run(ops), s);
    ops := ops + [WorkOn(FIRST, s, [])];
    RunThen(ops, WorkOn(SECOND, s, [FIRST]));
    SecondTask(Run(ops), s);
    ops := ops + [WorkOn(SECOND, s, [FIRST])];
  }

  /** While the first task is not complete, the second is not ready. */
  lemma SecondWaits(db: Db, s: string, first: TaskState)
    requires Queued(db, s, first) && first != Complete && SECOND !in db.leases
    ensures !DocumentedReady(db, SECOND)
    ensures SECOND in OpenTasks(db, Ref(s, 1)) && OpenTasks(db, Ref(s, 1)) <= {FIRST, SECOND}
    ensures first != TaskOpen ==> OpenTasks(db, Ref(s, 1)) == {SECOND}
  {
    TaskIds();
    assert TaskDependency(SECOND, FIRST) in db.taskDependencies;
    assert TaskLink(SECOND, Ref(s, 1), Implement).task in OpenTasks(db, Ref(s, 1));
  }

  /* ----- one task leased, another stuck ----- */

  lemma FirstIsLeased(db: Db, s: string)
    requires Queued(db, s, TaskOpen) && Leaf(db, s, PendingReview) && db.leases == map[]
    ensures var d := Step(db, OpLeaseTask(FIRST, "agent", 1, 0));
            && Queued(d, s, TaskOpen) && Leaf(d, s, PendingReview)
            && HasActiveLease(d, FIRST) && SECOND !in d.leases
  {
    TaskIds();
    LeafIsFree(db, s, PendingReview);
    assert !HasIncompleteDependency(db, FIRST);
    assert Leasable(db, FIRST);
  }

  lemma LeasedDeparts(db: Db, s: string)
    requires Queued(db, s, TaskOpen) && Leaf(db, s, PendingReview)
    requires HasActiveLease(db, FIRST) && SECOND !in db.leases
    ensures LeasedBesideStuckTask(db, Ref(s, 1))
  {
    LeafIsFree(db, s, PendingReview);
    SecondWaits(db, s, TaskOpen);
    assert TaskLink(FIRST, Ref(s, 1), Implement) in db.taskLinks;
    assert TaskLink(FIRST, Ref(s, 1), Implement).task in OpenTasks(db, Ref(s, 1));
    assert !DocumentedReady(db, FIRST);
  }

  /** A leaf with one task leased and a second one waiting for it is reported as
      work in progress, where the document says ready for work. */
  lemma LeasedBesideStuckTaskIsReachable() returns (ops: seq<Op>)
    ensures "STR-A" in Run(ops).requirements
    ensures RequirementReport(Run(ops), Ref("STR-A", 1)).status == WorkInProgress
    ensures DocumentedStatus(Run(ops), "STR-A") == ReadyForWork
  {
    SomeCast();
    CastDiffers("BR-A", "STR-A", "STR-B", "SYR-A");
    ops := Queue("BR-A", "STR-A");
    var lease := OpLeaseTask(FIRST, "agent", 1, 0);
    RunThen(ops, lease);
    FirstIsLeased(Run(ops), "STR-A");
    ops := ops + [lease];
    LeasedDeparts(Run(ops), "STR-A");
    RunIsRegular(ops);
    RegularAgrees(Run(ops), Ref("STR-A", 1));
    StatusOfDepartures(Run(ops), Ref("STR-A", 1));
  }

  /* ----- satisfied with a stuck task ----- */

  lemma FirstIsClosed(db: Db, s: string)
    requires Queued(db, s, TaskOpen) && Leaf(db, s, PendingReview) && db.leases == map[] && db.reviews == map[]
    ensures var d := Step(db, OpCloseTask(FIRST));
            Queued(d, s, Closed) && Leaf(d, s, PendingReview) && d.leases == map[] && d.reviews == map[]
  {
    TaskIds();
  }

  lemma ThenAccepted(db: Db, s: string, commit: string)
    requires Queued(db, s, Closed) && Leaf(db, s, PendingReview) && db.leases == map[] && db.reviews == map[]
             && ValidCommit(commit)
    ensures var d := Step(db, AcceptOf(Ref(s, 1), commit));
            Queued(d, s, Closed) && Leaf(d, s, Satisfied) && d.leases == map[]
  {
    LeafIsFree(db, s, PendingReview);
    Accepting(db, Ref(s, 1), commit);
  }

  lemma SatisfiedDeparts(db: Db, s: string)
    requires Queued(db, s, Closed) && Leaf(db, s, Satisfied) && db.leases == map[]
    ensures SatisfiedWithStuckTasks(db, Ref(s, 1))
  {
    LeafIsFree(db, s, Satisfied);
    SecondWaits(db, s, Closed);
  }

  /** A satisfied leaf with an open task that waits for a closed one is reported
      as needing no work, where the document says waiting. */
  lemma SatisfiedWithStuckTaskIsReachable() returns (ops: seq<Op>)
    ensures "STR-A" in Run(ops).requirements
    ensures RequirementReport(Run(ops), Ref("STR-A", 1)).status == NoWorkRequired
    ensures DocumentedStatus(Run(ops), "STR-A") == Waiting
  {
    SomeCast();
    SomeCommit();
    CastDiffers("BR-A", "STR-A", "STR-B", "SYR-A");
    ops := Queue("BR-A", "STR-A");
    RunThen(ops, OpCloseTask(FIRST));
    FirstIsClosed(Run(ops), "STR-A");
    ops := ops + [OpCloseTask(FIRST)];
    var accept := AcceptOf(Ref("STR-A", 1), COMMIT);
    RunThen(ops, accept);
    ThenAccepted(Run(ops), "STR-A", COMMIT);
    ops := ops + [accept];
    SatisfiedDeparts(Run(ops), "STR-A");
    RunIsRegular(ops);
    RegularAgrees(Run(ops), Ref("STR-A", 1));
    StatusOfDepartures(Run(ops), Ref("STR-A", 1));
  }

  /* ----- read at an old revision ----- */

  lemma RevisedLeaf(db: Db, b: string, s: string)
    requires Branched(db, b, s) && IdMatches(Stakeholder, s) && b != s && HasPrefix(b, "BR-")
    ensures var d := Step(db, OpUpdateRequirement(RequirementInput(s, Stakeholder, 2, [Ref(b, 1)], []), 1));
            s in d.requirements && Ref(s, 1) in d.revisions && SeenAtOldRevision(d, Ref(s, 1))
  {
    Updated(db, RequirementInput(s, Stakeholder, 2, [Ref(b, 1)], []), 1);
  }

  /** An active requirement read at its first revision after a second one is
      reported as inactive; the document keeps that for retired ones. */
  lemma OldRevisionIsReachable() returns (ops: seq<Op>)
    ensures "STR-A" in Run(ops).requirements && Ref("STR-A", 1) in Run(ops).revisions
    ensures RequirementReport(Run(ops), Ref("STR-A", 1)).status == Inactive
    ensures DocumentedStatus(Run(ops), "STR-A") != Inactive
  {
    SomeCast();
    CastDiffers("BR-A", "STR-A", "STR-B", "SYR-A");
    ops := Start("BR-A", "STR-A");
    var update := OpUpdateRequirement(RequirementInput("STR-A", Stakeholder, 2, [Ref("BR-A", 1)], []), 1);
    RunThen(ops, update);
    RevisedLeaf(Run(ops), "BR-A", "STR-A");
    ops := ops + [update];
    StatusAtOldRevision(Run(ops), Ref("STR-A", 1));
  }

  /* ----- held by a retired dependency that is satisfied ----- */

  /** t depends on s, which was accepted. */
  ghost predicate Leaning(db: Db, b: string, s: string, t: string)
  {
    && db.requirements.Keys == {b, s, t} && RowIs(db, s, 1, Some(Satisfied)) && RowIs(db, t, 1, Some(PendingReview))
    && LevelIs(db, Ref(t, 1), Stakeholder) && db.taskLinks == {}
    && db.refinements == {Link(Ref(s, 1), Ref(b, 1)), Link(Ref(t, 1), Ref(b, 1))}
    && db.dependencies == {Link(Ref(t, 1), Ref(s, 1))}
  }

  lemma AcceptedLeans(db: Db, b: string, s: string, t: string, commit: string)
    requires Opened(db, b, s, t, [Ref(s, 1)]) && b != s && s != t && b != t && ValidCommit(commit)
    ensures Leaning(Step(db, AcceptOf(Ref(s, 1), commit)), b, s, t)
  {
    assert Children(db, Ref(s, 1)) == {};
    Accepting(db, Ref(s, 1), commit);
  }

  /** s is retired and still stored as satisfied; t depends on it alone. */
  ghost predicate LeansOnRetired(db: Db, b: string, s: string, t: string)
  {
    && s in db.requirements && db.requirements[s].current == 1 && db.requirements[s].lifecycle == Retired
    && db.requirements[s].state == Some(Satisfied)
    && RowIs(db, t, 1, Some(PendingReview)) && LevelIs(db, Ref(t, 1), Stakeholder) && db.taskLinks == {}
    && db.refinements == {Link(Ref(s, 1), Ref(b, 1)), Link(Ref(t, 1), Ref(b, 1))}
    && db.dependencies == {Link(Ref(t, 1), Ref(s, 1))}
  }

  lemma RetireLeavesSatisfied(db: Db, d: Db, b: string, s: string, t: string)
    requires Leaning(db, b, s, t) && b != s && s != t && b != t && RetireRequirement(db, s) == Commit(d)
    ensures LeansOnRetired(d, b, s, t)
  {
    RetireEffect(db, s);
    NotBelowItself(d, b, s, t);
    assert SystemParents(db, Ref(s, 1)) <= {Ref(b, 1)};
  }

  /** Nothing leads back to s. */
  lemma NotBelowItself(d: Db, b: string, s: string, t: string)
    requires b != s && s != t && b != t
    requires d.refinements == {Link(Ref(s, 1), Ref(b, 1)), Link(Ref(t, 1), Ref(b, 1))}
    requires d.dependencies == {Link(Ref(t, 1), Ref(s, 1))}
    ensures !Reaches(Edges(d), s, s)
  {
    if Reaches(Edges(d), s, s) {
      var m := FirstEdge(Edges(d), s, s);
      EdgesAre(d, s, m);
      assert m == t;
      var k := FirstEdge(Edges(d), t, s);
      EdgesAre(d, t, k);
      assert false;
    }
  }

  lemma RetiredHolds(db: Db, b: string, s: string, t: string)
    requires LeansOnRetired(db, b, s, t) && b != s && s != t && b != t
    ensures HeldBySatisfiedDependency(db, Ref(t, 1)) && DocumentedStatus(db, t) == AwaitingReview
  {
    assert Children(db, Ref(s, 1)) == {} && Children(db, Ref(t, 1)) == {};
    DependencyEdgesAre(db, Ref(t, 1), Ref(s, 1));
    EdgeReaches(DependencyEdges(db), Ref(t, 1), Ref(s, 1));
    assert DependsOn(db, Ref(t, 1), Ref(s, 1));
    forall d | DependsOn(db, Ref(t, 1), d)
      ensures d == Ref(s, 1)
    {
      OnlyDependency(db, s, t, d);
    }
    assert OpenTasks(db, Ref(t, 1)) == {};
  }

  lemma OnlyDependency(db: Db, s: string, t: string, d: Ref)
    requires db.dependencies == {Link(Ref(t, 1), Ref(s, 1))} && s != t && DependsOn(db, Ref(t, 1), d)
    ensures d == Ref(s, 1)
  {
    var n: nat :| Steps(DependencyEdges(db), n, Ref(t, 1), d);
    var m := LastEdge(DependencyEdges(db), n, Ref(t, 1), d);
    DependencyEdgesAre(db, m, d);
  }

  lemma AcceptCommits(db: Db, s: string, commit: string)
    requires RowIs(db, s, 1, Some(PendingReview)) && RowIs(Step(db, AcceptOf(Ref(s, 1), commit)), s, 1, Some(Satisfied))
    ensures Perform(db, AcceptOf(Ref(s, 1), commit)).Commit?
  {
  }

  lemma RetireAccepted(ops: seq<Op>, b: string, s: string, t: string, commit: string) returns (more: seq<Op>)
    requires Opened(Run(ops), b, s, t, [Ref(s, 1)]) && b != s && s != t && b != t && ValidCommit(commit)
    ensures LeansOnRetired(Run(more), b, s, t)
    ensures more == ops + [AcceptOf(Ref(s, 1), commit), OpRetireRequirement(s)]
    ensures Perform(Run(ops), AcceptOf(Ref(s, 1), commit)).Commit?
  {
    var accept := AcceptOf(Ref(s, 1), commit);
    RunThen(ops, accept);
    AcceptedLeans(Run(ops), b, s, t, commit);
    AcceptCommits(Run(ops), s, commit);
    var middle := ops + [accept];
    RunThen(middle, OpRetireRequirement(s));
    RetireSucceeds(Run(middle), s);
    more := middle + [OpRetireRequirement(s)];
    RetireLeavesSatisfied(Run(middle), Run(more), b, s, t);
    assert more == ops + [accept, OpRetireRequirement(s)];
  }

  /** A requirement whose only dependency was accepted and then retired is
      reported as waiting, where the document says awaiting review. */
  lemma HeldBySatisfiedDependencyIsReachable() returns (ops: seq<Op>)
    ensures "STR-B" in Run(ops).requirements
    ensures RequirementReport(Run(ops), Ref("STR-B", 1)).status == Waiting
    ensures DocumentedStatus(Run(ops), "STR-B") == AwaitingReview
  {
    SomeCast();
    SomeCommit();
    CastDiffers("BR-A", "STR-A", "STR-B", "SYR-A");
    ops := Opening("BR-A", "STR-A", "STR-B", "SYR-A", [Ref("STR-A", 1)]);
    ops := RetireAccepted(ops, "BR-A", "STR-A", "STR-B", COMMIT);
    RetiredHolds(Run(ops), "BR-A", "STR-A", "STR-B");
    RunIsRegular(ops);
    RegularAgrees(Run(ops), Ref("STR-B", 1));
    StatusOfDepartures(Run(ops), Ref("STR-B", 1));
  }

  /* ----- a submission repeated too late ----- */

  /** An accept review is stored, the requirement is retired, and the identical
      submission, which the document wants answered with the stored review, is
      refused as a conflict. */
  lemma RefusedRepetitionIsReachable() returns (ops: seq<Op>, i: nat)
    ensures i < |ops| && ops[i].OpReviewRequirement? && Perform(Run(ops[..i]), ops[i]).Commit?
    ensures ReviewRequirement(Run(ops), ops[i].review) == Abort(Conflict)
  {
    SomeCast();
    SomeCommit();
    CastDiffers("BR-A", "STR-A", "STR-B", "SYR-A");
    var start := Opening("BR-A", "STR-A", "STR-B", "SYR-A", [Ref("STR-A", 1)]);
    ops := RetireAccepted(start, "BR-A", "STR-A", "STR-B", COMMIT);
    i := |start|;
    assert ops[..i] == start;
    RetiredRefuses(Run(ops), ops[i].review);
  }

  lemma RetiredRefuses(db: Db, input: ReviewInput)
    requires input.ref.id in db.requirements && db.requirements[input.ref.id].lifecycle == Retired
    ensures ReviewRequirement(db, input) == Abort(Conflict)
  {
  }
}
