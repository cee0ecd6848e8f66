/** Tasks and reviews stay on leaves: decomposition never takes a revision away
    from the work that refers to it. */
module LeafWork {
  import opened Domain
  import opened Tables
  import opened Queries
  import opened Transactions
  import opened Soundness
  import opened Verdicts

  ghost predicate HasWork(db: Db, ref: Ref)
  {
    (exists l :: l in db.taskLinks && l.ref == ref) || (exists k :: k in db.reviews && k.ref == ref)
  }

  ghost predicate WorkOnLeaves(db: Db)
  {
    forall ref :: HasWork(db, ref) ==> Actionable(db, ref)
  }

  /** A revision that guards against decomposition refuses its first child. */
  lemma GuardHolds(db: Db, e: Db, input: RequirementInput, ref: Ref)
    requires HasWork(db, ref) && Children(db, ref) == {} && ref in input.parents && input.level == System
    requires Children(e, ref) == Children(db, ref) && e.taskLinks == db.taskLinks && e.reviews == db.reviews
    ensures RevisionError(e, input).Some?
  {
  }

  /** A row for an unknown requirement gives nobody a child. */
  lemma InsertedRowHasNoLinks(db: Db, input: RequirementInput, ref: Ref)
    requires LinksSound(db) && RevisionsSound(db) && input.id !in db.requirements
    ensures Children(RowInserted(db, input), ref) == Children(db, ref)
  {
  }

  /** A revision keeps work on leaves if the guard let it through. */
  lemma RevisionKeepsWork(db: Db, d: Db, input: RequirementInput)
    requires Sound(db) && LinksSound(d) && WorkOnLeaves(db) && RevisionAdded(db, d, input)
    requires d.taskLinks == db.taskLinks && d.reviews == db.reviews
    requires forall ref :: HasWork(db, ref) && Children(db, ref) == {} && input.level == System ==>
             ref !in input.parents
    ensures WorkOnLeaves(d)
  {
    forall ref | HasWork(d, ref)
      ensures Actionable(d, ref)
    {
      assert HasWork(db, ref) && Actionable(db, ref);
      if db.revisions[ref].level == Stakeholder {
        forall c
          ensures c !in Children(d, ref)
        {
          if c in Children(d, ref) {
            RevisionChildren(db, d, input, ref, c);
            StakeholderChildren(d, ref, c);
          }
        }
      }
    }
  }

  lemma CreateIsGuarded(db: Db, input: RequirementInput, ref: Ref)
    requires LinksSound(db) && RevisionsSound(db) && HasWork(db, ref) && Children(db, ref) == {} && ref in input.parents
    requires input.level == System
    ensures CreateRequirement(db, input).Abort?
  {
    if input.id !in db.requirements {
      InsertedRowHasNoLinks(db, input, ref);
      GuardHolds(db, RowInserted(db, input), input, ref);
    }
  }

  lemma UpdateIsGuarded(db: Db, input: RequirementInput, expected: int, ref: Ref)
    requires HasWork(db, ref) && Children(db, ref) == {} && ref in input.parents && input.level == System
    ensures UpdateRequirement(db, input, expected).Abort?
  {
    GuardHolds(db, db, input, ref);
  }

  lemma CreateKeepsWork(db: Db, d: Db, input: RequirementInput)
    requires Sound(db) && LinksSound(d) && WorkOnLeaves(db) && CreateRequirement(db, input) == Commit(d)
    ensures WorkOnLeaves(d)
  {
    CreateAdds(db, input);
    forall ref | HasWork(db, ref) && Children(db, ref) == {} && input.level == System
      ensures ref !in input.parents
    {
      if ref in input.parents {
        CreateIsGuarded(db, input, ref);
      }
    }
    RevisionKeepsWork(db, d, input);
  }

  lemma UpdateKeepsWork(db: Db, d: Db, input: RequirementInput, expected: int)
    requires Sound(db) && LinksSound(d) && WorkOnLeaves(db) && UpdateRequirement(db, input, expected) == Commit(d)
    ensures WorkOnLeaves(d)
  {
    UpdateAdds(db, input, expected);
    forall ref | HasWork(db, ref) && Children(db, ref) == {} && input.level == System
      ensures ref !in input.parents
    {
      if ref in input.parents {
        UpdateIsGuarded(db, input, expected, ref);
      }
    }
    RevisionKeepsWork(db, d, input);
  }

  lemma RetireKeepsWork(db: Db, d: Db, id: string)
    requires WorkOnLeaves(db) && RetireRequirement(db, id) == Commit(d)
    ensures WorkOnLeaves(d)
  {
    RetireEffect(db, id);
    forall ref | HasWork(d, ref)
      ensures Actionable(d, ref)
    {
      assert HasWork(db, ref);
      RetireChildren(db, d, ref);
    }
  }

  /** Steps that keep the graph and add work to leaves only. */
  lemma SameGraphKeepsWork(db: Db, d: Db)
    requires WorkOnLeaves(db) && SameGraph(db, d)
    requires forall l :: l in d.taskLinks && l !in db.taskLinks ==> Actionable(db, l.ref)
    requires forall k :: k in d.reviews && k !in db.reviews ==> Actionable(db, k.ref)
    ensures WorkOnLeaves(d)
  {
    SameGraphSameQueries(db, d);
    forall ref | HasWork(d, ref)
      ensures Actionable(d, ref)
    {
      if l :| l in d.taskLinks && l.ref == ref {
        assert l in db.taskLinks ==> HasWork(db, ref);
      }
      if k :| k in d.reviews && k.ref == ref {
        assert k in db.reviews ==> HasWork(db, ref);
      }
    }
  }

  lemma ReviewKeepsWork(db: Db, d: Db, input: ReviewInput)
    requires WorkOnLeaves(db) && ReviewRequirement(db, input) == Commit(d)
    ensures WorkOnLeaves(d)
  {
    ReviewEffect(db, input);
    if d != db {
      JudgedTouches(db, d, ReviewedRef(db, input), input.commit, input.verdict);
      SameGraphKeepsWork(db, d);
    }
  }

  lemma CreateTaskKeepsWork(db: Db, d: Db, input: TaskInput)
    requires WorkOnLeaves(db) && CreateTask(db, input) == Commit(d)
    ensures WorkOnLeaves(d)
  {
    CreateTaskEffect(db, input);
    SameGraphKeepsWork(db, d);
  }

  lemma CompleteKeepsWork(db: Db, d: Db, task: string, id: LeaseId, fence: int, commit: string)
    requires WorkOnLeaves(db) && CompleteTask(db, task, id, fence, commit) == Commit(d)
    ensures WorkOnLeaves(d)
  {
    CompleteEffect(db, task, id, fence, commit);
    SameGraphKeepsWork(db, d);
  }

  lemma StepKeepsWork(db: Db, op: Op)
    requires Sound(db) && Sound(Step(db, op)) && WorkOnLeaves(db)
    ensures WorkOnLeaves(Step(db, op))
  {
    var tx := Perform(db, op);
    if IsLeaseOp(op) {
      LeaseOpEffect(db, op);
      if tx.Commit? {
        SameGraphKeepsWork(db, tx.db);
      }
    } else if tx.Commit? {
      match op
      case OpCreateRequirement(input) => CreateKeepsWork(db, tx.db, input);
      case OpUpdateRequirement(input, expected) => UpdateKeepsWork(db, tx.db, input, expected);
      case OpRetireRequirement(id) => RetireKeepsWork(db, tx.db, id);
      case OpReviewRequirement(input) => ReviewKeepsWork(db, tx.db, input);
      case OpCreateTask(input) => CreateTaskKeepsWork(db, tx.db, input);
      case OpCompleteTask(task, id, fence, commit) => CompleteKeepsWork(db, tx.db, task, id, fence, commit);
    }
  }

  lemma {:induction false} RunKeepsWork(ops: seq<Op>)
    ensures WorkOnLeaves(Run(ops))
  {
    if ops != [] {
      var shorter := ops[..|ops| - 1];
      RunKeepsWork(shorter);
      RunIsSound(shorter);
      RunIsSound(ops);
      StepKeepsWork(Run(shorter), ops[|ops| - 1]);
    }
  }

  /** In every run, each revision that a task links to or a review judges is
      still an actionable leaf revision, so the non-leaf test of the lease
      transaction never decides. */
  lemma WorkStaysOnLeaves(ops: seq<Op>, ref: Ref, task: string)
    ensures HasWork(Run(ops), ref) ==> Actionable(Run(ops), ref)
    ensures !LinksNonLeaf(Run(ops), task)
  {
    RunKeepsWork(ops);
    var db := Run(ops);
    forall l | l in db.taskLinks
      ensures Actionable(db, l.ref)
    {
      assert HasWork(db, l.ref);
    }
  }
}
