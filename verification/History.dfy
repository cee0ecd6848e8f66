/** State history: replaying it gives back the stored states. */
module History {
  import opened Domain
  import opened Tables
  import opened Transactions
  import opened Soundness

  function Last<T>(log: seq<Change<T>>): T
    requires log != []
  {
    log[|log| - 1].to
  }

  /** The value before record i, as far as the log tells. */
  function Previous<T>(log: seq<Change<T>>, i: nat): Option<T>
    requires i < |log|
  {
    if i == 0 then None else Some(log[i - 1].to)
  }

  /** Every record changes the value, and starts from the value the previous
      record left, or from NULL. */
  ghost predicate Chain<T>(log: seq<Change<T>>)
  {
    forall i :: 0 <= i < |log| ==>
      log[i].from != Some(log[i].to) && (log[i].from == None || log[i].from == Previous(log, i))
  }

  /** A chain in which only the first record starts from nothing. */
  ghost predicate ExactChain<T>(log: seq<Change<T>>)
  {
    Chain(log) && forall i :: 0 <= i < |log| ==> (log[i].from == None <==> i == 0)
  }

  ghost predicate RowReplays(r: Requirement)
  {
    && Chain(r.reconLog)
    && (r.state.Some? ==> r.reconLog != [] && Last(r.reconLog) == r.state.value)
    && ExactChain(r.lifecycleLog) && r.lifecycleLog != [] && Last(r.lifecycleLog) == r.lifecycle
  }

  ghost predicate TaskReplays(t: Task)
  {
    ExactChain(t.log) && t.log != [] && Last(t.log) == t.state
  }

  ghost predicate Replays(db: Db)
  {
    && (forall id :: id in db.requirements ==> RowReplays(db.requirements[id]))
    && (forall t :: t in db.tasks ==> TaskReplays(db.tasks[t]))
  }

  /* ----- each way a row can change ----- */

  lemma ChainExtends<T>(log: seq<Change<T>>, c: Change<T>)
    requires Chain(log) && c.from != Some(c.to)
    requires c.from == None || (log != [] && c.from == Some(Last(log)))
    ensures Chain(log + [c]) && Last(log + [c]) == c.to
    ensures ExactChain(log) && (c.from == None <==> log == []) ==> ExactChain(log + [c])
  {
    var longer := log + [c];
    forall i | 0 <= i < |longer|
      ensures longer[i].from != Some(longer[i].to) && (longer[i].from == None || longer[i].from == Previous(longer, i))
    {
      if i < |log| {
        assert longer[i] == log[i] && Previous(longer, i) == Previous(log, i);
      }
    }
  }

  lemma WithStateReplays(r: Requirement, state: Recon)
    requires RowReplays(r)
    ensures RowReplays(WithState(r, state))
  {
    if r.state != Some(state) {
      ChainExtends(r.reconLog, Change(r.state, state));
    }
  }

  lemma ClearedReplays(r: Requirement)
    requires RowReplays(r)
    ensures RowReplays(r.(state := None))
  {
  }

  lemma RetiredReplays(r: Requirement)
    requires RowReplays(r) && r.lifecycle == Active
    ensures RowReplays(RetiredRow(r))
  {
    ChainExtends(r.lifecycleLog, Change(Some(r.lifecycle), Retired));
  }

  lemma RevisedReplays(r: Requirement, input: RequirementInput)
    requires RowReplays(r)
    ensures RowReplays(RevisedRow(r, input))
  {
    WithStateReplays(r.(current := input.revision), PendingReview);
  }

  lemma TaskStateReplays(t: Task, state: TaskState)
    requires TaskReplays(t)
    ensures TaskReplays(WithTaskState(t, state))
  {
    if t.state != state {
      ChainExtends(t.log, Change(Some(t.state), state));
    }
  }

  /* ----- each transaction ----- */

  lemma CreateReplays(db: Db, d: Db, input: RequirementInput)
    requires Replays(db) && CreateRequirement(db, input) == Commit(d)
    ensures Replays(d)
  {
    CreateAdds(db, input);
    forall id | id in d.requirements
      ensures RowReplays(d.requirements[id])
    {
      if id != input.id {
        ClearedReplays(db.requirements[id]);
      }
    }
  }

  lemma UpdateReplays(db: Db, d: Db, input: RequirementInput, expected: int)
    requires Replays(db) && UpdateRequirement(db, input, expected) == Commit(d)
    ensures Replays(d)
  {
    UpdateAdds(db, input, expected);
    forall id | id in d.requirements
      ensures RowReplays(d.requirements[id])
    {
      if id == input.id {
        RevisedReplays(db.requirements[id], input);
      } else {
        ClearedReplays(db.requirements[id]);
        WithStateReplays(db.requirements[id], PendingReview);
        WithStateReplays(db.requirements[id].(state := None), PendingReview);
      }
    }
  }

  lemma RetireReplays(db: Db, d: Db, id: string)
    requires Replays(db) && RetireRequirement(db, id) == Commit(d)
    ensures Replays(d)
  {
    RetireEffect(db, id);
    RetiredReplays(db.requirements[id]);
    forall b | b in d.requirements
      ensures RowReplays(d.requirements[b])
    {
      WithStateReplays(if b == id then RetiredRow(db.requirements[b]) else db.requirements[b], PendingReview);
    }
  }

  lemma ReviewReplays(db: Db, d: Db, input: ReviewInput)
    requires Replays(db) && ReviewRequirement(db, input) == Commit(d)
    ensures Replays(d)
  {
    ReviewEffect(db, input);
    if d != db {
      WithStateReplays(db.requirements[input.ref.id], if input.verdict == Accept then Satisfied else NotSatisfied);
    }
  }

  lemma CompleteReplays(db: Db, d: Db, task: string, id: LeaseId, fence: int, commit: string)
    requires Replays(db) && CompleteTask(db, task, id, fence, commit) == Commit(d)
    ensures Replays(d)
  {
    CompleteEffect(db, task, id, fence, commit);
    forall b | b in d.requirements
      ensures RowReplays(d.requirements[b])
    {
      WithStateReplays(db.requirements[b], PendingReview);
    }
    TaskStateReplays(db.tasks[task], Complete);
  }

  lemma CloseReplays(db: Db, d: Db, id: string)
    requires Replays(db) && CloseTask(db, id) == Commit(d)
    ensures Replays(d)
  {
    TaskStateReplays(db.tasks[id], Closed);
  }

  lemma CreateTaskReplays(db: Db, d: Db, input: TaskInput)
    requires Replays(db) && CreateTask(db, input) == Commit(d)
    ensures Replays(d)
  {
    CreateTaskEffect(db, input);
  }

  lemma LeaseReplays(db: Db, d: Db, id: string, agent: string, ttl: int, lag: nat)
    requires Replays(db) && LeaseTask(db, id, agent, ttl, lag) == Commit(d)
    ensures Replays(d)
  {
  }

  lemma StepReplays(db: Db, op: Op)
    requires Replays(db)
    ensures Replays(Step(db, op))
  {
    var tx := Perform(db, op);
    if tx.Commit? {
      match op
      case OpCreateRequirement(input) => CreateReplays(db, tx.db, input);
      case OpUpdateRequirement(input, expected) => UpdateReplays(db, tx.db, input, expected);
      case OpRetireRequirement(id) => RetireReplays(db, tx.db, id);
      case OpReviewRequirement(input) => ReviewReplays(db, tx.db, input);
      case OpCreateTask(input) => CreateTaskReplays(db, tx.db, input);
      case OpLeaseTask(id, agent, ttl, lag) => LeaseReplays(db, tx.db, id, agent, ttl, lag);
      case OpCompleteTask(task, id, fence, commit) => CompleteReplays(db, tx.db, task, id, fence, commit);
      case OpCloseTask(id) => CloseReplays(db, tx.db, id);
      case _ =>
    }
  }

  /** In every run, the histories are chains without idle records, the last
      lifecycle and task records are the stored values, and so is the last
      reconciliation record wherever the stored value is not NULL. */
  lemma {:induction false} HistoryReplays(ops: seq<Op>)
    ensures Replays(Run(ops))
  {
    if ops != [] {
      HistoryReplays(ops[..|ops| - 1]);
      StepReplays(Run(ops[..|ops| - 1]), ops[|ops| - 1]);
    }
  }
}
