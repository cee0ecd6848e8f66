/** Reviews over whole runs: those that cite a task keep citing completed work
    for the same commit, and what a repeated submission gets. */
module Citations {
  import opened Domain
  import opened Tables
  import opened Transactions
  import opened Soundness
  import opened Leases
  import LeafWork

  /** The cited task is complete at the reviewed commit and links to the
      reviewed revision. */
  ghost predicate CitesWork(db: Db, k: ReviewKey, task: string)
  {
    && task in db.tasks && db.tasks[task].state == Complete && db.tasks[task].commit == Some(k.commit)
    && exists l :: l in db.taskLinks && l.task == task && l.ref == k.ref
  }

  ghost predicate Cited(db: Db)
  {
    forall k :: k in db.reviews && db.reviews[k].task.Some? ==> CitesWork(db, k, db.reviews[k].task.value)
  }

  /** Work that is cited stays cited while finished tasks and links stay. */
  lemma CitedStays(db: Db, d: Db)
    requires Cited(db) && Progress(db, d) && db.taskLinks <= d.taskLinks
    requires forall k :: k in d.reviews ==> k in db.reviews && d.reviews[k] == db.reviews[k]
    ensures Cited(d)
  {
  }

  lemma ReviewCites(db: Db, d: Db, input: ReviewInput)
    requires Cited(db) && ReviewRequirement(db, input) == Commit(d)
    ensures Cited(d)
  {
  }

  lemma StepKeepsCitations(db: Db, op: Op)
    requires Protocol(db) && Cited(db)
    ensures Cited(Step(db, op))
  {
    var tx := Perform(db, op);
    StepAdvances(db, op);
    if IsLeaseOp(op) {
      LeaseOpEffect(db, op);
      CitedStays(db, Step(db, op));
    } else if tx.Commit? {
      match op
      case OpCreateRequirement(input) => CreateAdds(db, input); CitedStays(db, tx.db);
      case OpUpdateRequirement(input, expected) => UpdateAdds(db, input, expected); CitedStays(db, tx.db);
      case OpRetireRequirement(r) => RetireEffect(db, r); CitedStays(db, tx.db);
      case OpReviewRequirement(input) => ReviewCites(db, tx.db, input);
      case OpCreateTask(input) => CreateTaskEffect(db, input); CitedStays(db, tx.db);
      case OpCompleteTask(task, l, fence, commit) => CompleteEffect(db, task, l, fence, commit); CitedStays(db, tx.db);
    }
  }

  /** In every run, a review that cites a task cites one that is complete at the
      reviewed commit and linked to the reviewed revision. */
  lemma {:induction false} ReviewsCiteFinishedWork(ops: seq<Op>)
    ensures Cited(Run(ops))
  {
    if ops != [] {
      var shorter := ops[..|ops| - 1];
      ReviewsCiteFinishedWork(shorter);
      RunFollowsProtocol(shorter);
      StepKeepsCitations(Run(shorter), ops[|ops| - 1]);
    }
  }

  /* ----- submissions that repeat a stored review ----- */

  ghost predicate ReviewsKept(db: Db, d: Db)
  {
    forall k :: k in db.reviews ==> k in d.reviews && d.reviews[k] == db.reviews[k]
  }

  lemma ReviewKeepsReviews(db: Db, d: Db, input: ReviewInput)
    requires ReviewRequirement(db, input) == Commit(d)
    ensures ReviewsKept(db, d)
  {
    ReviewEffect(db, input);
  }

  /** Reviews are immutable. */
  lemma StepKeepsReviews(db: Db, op: Op)
    ensures ReviewsKept(db, Step(db, op))
  {
    var tx := Perform(db, op);
    if IsLeaseOp(op) {
      LeaseOpEffect(db, op);
    } else if tx.Commit? {
      match op
      case OpCreateRequirement(input) => CreateAdds(db, input);
      case OpUpdateRequirement(input, expected) => UpdateAdds(db, input, expected);
      case OpRetireRequirement(r) => RetireEffect(db, r);
      case OpReviewRequirement(input) => ReviewKeepsReviews(db, tx.db, input);
      case OpCreateTask(input) => CreateTaskEffect(db, input);
      case OpCompleteTask(task, l, fence, commit) => CompleteEffect(db, task, l, fence, commit);
    }
  }

  lemma {:induction false} ReviewsPersist(ops: seq<Op>, i: nat)
    requires i <= |ops|
    ensures ReviewsKept(Run(ops[..i]), Run(ops))
    decreases |ops|
  {
    if i == |ops| {
      assert ops[..i] == ops;
    } else {
      var shorter := ops[..|ops| - 1];
      assert shorter[..i] == ops[..i];
      ReviewsPersist(shorter, i);
      StepKeepsReviews(Run(shorter), ops[|ops| - 1]);
    }
  }

  predicate SameContent(review: Review, input: ReviewInput)
  {
    review.verdict == input.verdict && review.task == input.task && review.findings == input.findings
  }

  /** Where the key is stored, the answer goes by content and by whether the
      requirement is still active at that revision; the leaf test never decides. */
  lemma RepeatedReview(db: Db, input: ReviewInput)
    requires LeafWork.WorkOnLeaves(db) && input.ref.id in db.requirements
    requires ReviewKey(ReviewedRef(db, input), input.commit) in db.reviews
    ensures var ref := ReviewedRef(db, input);
            ReviewRequirement(db, input) ==
            if ActiveCurrent(db, ref) && SameContent(db.reviews[ReviewKey(ref, input.commit)], input)
            then Commit(db) else Abort(Conflict)
  {
    var ref := ReviewedRef(db, input);
    assert ReviewKey(ref, input.commit).ref == ref;
    assert LeafWork.HasWork(db, ref);
  }

  /** What the committed submission leaves under its key. */
  lemma SubmissionIsStored(db: Db, d: Db, input: ReviewInput)
    requires ReviewRequirement(db, input) == Commit(d)
    ensures var key := ReviewKey(ReviewedRef(db, input), input.commit);
            key in d.reviews && SameContent(d.reviews[key], input) && ActiveCurrent(db, key.ref)
  {
  }

  /** In every run, once a submission has been accepted, submitting for the same
      revision and commit again returns the stored review exactly while the
      requirement is active at that revision and the content is the same; it is
      a conflict otherwise. */
  lemma IdenticalSubmissionExactly(ops: seq<Op>, i: nat, again: ReviewInput)
    requires i < |ops| && ops[i].OpReviewRequirement? && Perform(Run(ops[..i]), ops[i]).Commit?
    requires again.ref == ReviewedRef(Run(ops[..i]), ops[i].review) && again.commit == ops[i].review.commit
    ensures ReviewRequirement(Run(ops), again) ==
            if ActiveCurrent(Run(ops), again.ref) && again == ops[i].review.(ref := again.ref)
            then Commit(Run(ops)) else Abort(Conflict)
  {
    var before, input := Run(ops[..i]), ops[i].review;
    RunNext(ops, i);
    SubmissionIsStored(before, Step(before, ops[i]), input);
    ReviewsPersist(ops, i + 1);
    RunIsSound(ops[..i]);
    RunIsSound(ops);
    LeafWork.RunKeepsWork(ops);
    StoredKeyIsKnown(before, Run(ops), again);
    RepeatedReview(Run(ops), again);
  }

  lemma StoredKeyIsKnown(before: Db, d: Db, again: ReviewInput)
    requires RequirementsSound(before) && RevisionsSound(before) && ActiveCurrent(before, again.ref)
    requires ReferencesSound(d) && RevisionsSound(d) && ReviewKey(again.ref, again.commit) in d.reviews
    ensures again.ref.revision != 0 && again.ref.id in d.requirements && ReviewedRef(d, again) == again.ref
  {
    assert CurrentRef(before, again.ref.id) == again.ref;
    assert ReviewKey(again.ref, again.commit).ref in d.revisions;
  }
}
