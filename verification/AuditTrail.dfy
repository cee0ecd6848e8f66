/** The audit log: which request appends what, and that nothing is ever taken
    back. */
module AuditTrail {
  import opened Domain
  import opened Tables
  import opened Transactions
  import opened Soundness
  import opened Acceptance

  /** What a committed request appends to the log. */
  ghost predicate Appends(db: Db, d: Db, events: seq<Event>)
  {
    d.audit == db.audit + events
  }

  /** Each committed request appends exactly one event of its kind that names its
      item, except that a repeated review, an expiry and the passing of time
      append none. */
  lemma TrailExactly(db: Db, op: Op)
    requires Perform(db, op).Commit?
    ensures var d := Step(db, op);
            match op
            case OpCreateRequirement(input) => Appends(db, d, [RequirementCreated(Ref(input.id, input.revision))])
            case OpUpdateRequirement(input, _) => Appends(db, d, [RequirementRevised(Ref(input.id, input.revision))])
            case OpRetireRequirement(id) => Appends(db, d, [RequirementRetired(id)])
            case OpReviewRequirement(input) =>
              input.ref.id in db.requirements &&
              Appends(db, d, if KeyOf(db, input) in db.reviews then []
                             else [RequirementReviewed(KeyOf(db, input), input.verdict)])
            case OpCreateTask(input) => Appends(db, d, [TaskCreated(input.id)])
            case OpLeaseTask(t, _, _, _) => t in d.tasks && Appends(db, d, [TaskLeased(t, d.tasks[t].fence)])
            case OpHeartbeat(id, _, _, _) => Appends(db, d, [LeaseHeartbeat(id)])
            case OpRelease(id, _) => Appends(db, d, [LeaseReleased(id)])
            case OpCompleteTask(t, _, _, _) => Appends(db, d, [TaskCompleted(t)])
            case OpCloseTask(t) => Appends(db, d, [TaskClosed(t)])
            case OpExpireLeases => Appends(db, d, [])
            case OpAdvance(_) => Appends(db, d, [])
  {
    match op
    case OpCreateRequirement(input) => CreateAdds(db, input);
    case OpUpdateRequirement(input, expected) => UpdateAdds(db, input, expected);
    case OpRetireRequirement(id) => RetireEffect(db, id);
    case OpReviewRequirement(input) => ReviewEffect(db, input);
    case OpCreateTask(input) => CreateTaskEffect(db, input);
    case _ =>
  }

  lemma StepAppends(db: Db, op: Op)
    ensures db.audit <= Step(db, op).audit
    ensures |Step(db, op).audit| <= |db.audit| + 1
  {
    if Perform(db, op).Commit? {
      TrailExactly(db, op);
    }
  }

  /** The log only grows: what it holds at one moment of a run it holds, in its
      place, ever after. */
  lemma {:induction false} TrailIsKept(ops: seq<Op>, i: nat)
    requires i <= |ops|
    ensures Run(ops[..i]).audit <= Run(ops).audit
    decreases |ops|
  {
    if i == |ops| {
      assert ops[..i] == ops;
    } else {
      var shorter := ops[..|ops| - 1];
      assert shorter[..i] == ops[..i];
      TrailIsKept(shorter, i);
      StepAppends(Run(shorter), ops[|ops| - 1]);
    }
  }
}
