/** What the input checks leave behind: stored rows that no request can have
    written without passing them. */
module StoredInputs {
  import opened Domain
  import opened Tables
  import opened Transactions
  import opened Soundness
  import opened Acceptance
  import TaskAcceptance

  /** Exactly the business revisions refine nothing. */
  ghost predicate ParentsFit(db: Db)
  {
    forall r :: r in db.revisions ==>
      (db.revisions[r].level == Business <==> forall l :: l in db.refinements ==> l.child != r)
  }

  /** Tasks have their kind of identifier and link to something. */
  ghost predicate TasksFit(db: Db)
  {
    forall t :: t in db.tasks ==>
      && IsTaskId(t) && (exists l :: l in db.taskLinks && l.task == t)
      && (db.tasks[t].commit.Some? ==> ValidCommit(db.tasks[t].commit.value))
  }

  /** Reviews are of full commits, and a rejection says what it found. */
  ghost predicate ReviewsFit(db: Db)
  {
    forall k :: k in db.reviews ==>
      && ValidCommit(k.commit) && (db.reviews[k].verdict == Reject ==> db.reviews[k].findings != [])
      && forall f :: f in db.reviews[k].findings ==>
            !Blank(f.message) && f.line >= 0 && (f.line > 0 ==> !Blank(f.path))
  }

  ghost predicate InputsFit(db: Db)
  {
    ParentsFit(db) && TasksFit(db) && ReviewsFit(db)
  }

  lemma AddedParentsFit(db: Db, d: Db, input: RequirementInput)
    requires LinksSound(db) && ParentsFit(db) && ValidRequirement(input) && RevisionAdded(db, d, input)
    ensures ParentsFit(d)
  {
    var ref := Ref(input.id, input.revision);
    forall l | l in db.refinements
      ensures l.child != ref
    {
      assert LinksBack(db, l);
    }
    if input.level != Business {
      assert Link(ref, input.parents[0]) in d.refinements;
    }
    forall r | r in db.revisions
      ensures (forall l :: l in d.refinements ==> l.child != r) <==> forall l :: l in db.refinements ==> l.child != r
    {
    }
  }

  lemma CreateFits(db: Db, d: Db, input: RequirementInput)
    requires Sound(db) && InputsFit(db) && ValidRequirement(input) && CreateRequirement(db, input) == Commit(d)
    ensures InputsFit(d)
  {
    CreateAdds(db, input);
    AddedParentsFit(db, d, input);
  }

  lemma UpdateFits(db: Db, d: Db, input: RequirementInput, expected: int)
    requires Sound(db) && InputsFit(db) && ValidRequirement(input)
    requires UpdateRequirement(db, input, expected) == Commit(d)
    ensures InputsFit(d)
  {
    UpdateAdds(db, input, expected);
    AddedParentsFit(db, d, input);
  }

  lemma RetireFits(db: Db, d: Db, id: string)
    requires InputsFit(db) && RetireRequirement(db, id) == Commit(d)
    ensures InputsFit(d)
  {
    RetireEffect(db, id);
  }

  lemma ReviewFits(db: Db, d: Db, input: ReviewInput)
    requires InputsFit(db) && ValidReview(input) && ReviewRequirement(db, input) == Commit(d)
    ensures InputsFit(d)
  {
    ReviewEffect(db, input);
    if d != db {
      ReviewLeaves(db, d, input);
    }
  }

  lemma TaskFits(db: Db, d: Db, input: TaskInput)
    requires ReferencesSound(db) && InputsFit(db) && ValidTask(input) && CreateTask(db, input) == Commit(d)
    ensures InputsFit(d)
  {
    CreateTaskEffect(db, input);
    TaskCreatedExactly(db, input);
    var first := input.requirements[0];
    assert TaskLink(input.id, first.ref, first.purpose) in d.taskLinks;
  }

  lemma CompletionFits(db: Db, d: Db, t: string, id: LeaseId, fence: int, commit: string)
    requires InputsFit(db) && ValidCommit(commit) && CompleteTask(db, t, id, fence, commit) == Commit(d)
    ensures InputsFit(d)
  {
    TaskAcceptance.CompletionLeaves(db, d, t, id, fence, commit);
    forall u | u in d.tasks && u != t
      ensures u in db.tasks && d.tasks[u] == db.tasks[u]
    {
      assert u in d.tasks - {t} && u in db.tasks - {t};
    }
  }

  lemma LeaseOpKeepsCommits(db: Db, op: Op)
    requires IsLeaseOp(op)
    ensures forall t :: t in db.tasks ==>
              t in Step(db, op).tasks && Step(db, op).tasks[t].commit == db.tasks[t].commit
  {
  }

  lemma SameWorkFits(db: Db, d: Db)
    requires InputsFit(db) && LeaseStep(db, d)
    requires forall t :: t in db.tasks ==> t in d.tasks && d.tasks[t].commit == db.tasks[t].commit
    ensures InputsFit(d)
  {
  }

  lemma LeaseOpFits(db: Db, op: Op)
    requires InputsFit(db) && IsLeaseOp(op)
    ensures InputsFit(Step(db, op))
  {
    LeaseOpEffect(db, op);
    LeaseOpKeepsCommits(db, op);
    if Perform(db, op).Commit? {
      SameWorkFits(db, Step(db, op));
    }
  }

  lemma StepFits(db: Db, op: Op)
    requires Sound(db) && InputsFit(db)
    ensures InputsFit(Step(db, op))
  {
    var tx := Perform(db, op);
    if IsLeaseOp(op) {
      LeaseOpFits(db, op);
    } else if tx.Commit? {
      match op
      case OpCreateRequirement(input) => CreateFits(db, tx.db, input);
      case OpUpdateRequirement(input, expected) => UpdateFits(db, tx.db, input, expected);
      case OpRetireRequirement(id) => RetireFits(db, tx.db, id);
      case OpReviewRequirement(input) => ReviewFits(db, tx.db, input);
      case OpCreateTask(input) => TaskFits(db, tx.db, input);
      case OpCompleteTask(t, id, fence, commit) => CompletionFits(db, tx.db, t, id, fence, commit);
    }
  }

  /** In every run: exactly the business revisions refine nothing; each task links
      to a revision and is complete only at a full commit; each review is of a full
      commit, and each rejection says what it found. */
  lemma {:induction false} RunFits(ops: seq<Op>)
    ensures InputsFit(Run(ops))
  {
    if ops != [] {
      RunFits(ops[..|ops| - 1]);
      RunIsSound(ops[..|ops| - 1]);
      StepFits(Run(ops[..|ops| - 1]), ops[|ops| - 1]);
    }
  }
}
