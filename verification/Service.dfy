/** The service in front of the store: input checks before a transaction, and
    the wake-up of the lease scheduler after it. */
module ServiceObject {
  import opened Domain
  import opened Tables
  import opened Transactions
  import opened Soundness
  import opened StoreObject

  /** The requests after whose commit the service wakes the lease scheduler. */
  predicate WakesScheduler(op: Op)
  {
    op.OpLeaseTask? || op.OpHeartbeat? || op.OpRelease? || op.OpCompleteTask?
  }

  /** The requests that read their item once more after the commit. */
  predicate Rereads(op: Op)
  {
    || op.OpCreateRequirement? || op.OpUpdateRequirement? || op.OpRetireRequirement? || op.OpReviewRequirement?
    || op.OpCreateTask? || op.OpCompleteTask? || op.OpCloseTask?
  }

  /** A committed request whose last read, if it has one, succeeds wakes the
      scheduler if it is of the waking kind. */
  ghost predicate Wakes(db: Db, op: Op, readable: bool)
  {
    Perform(db, op).Commit? && (readable || !Rereads(op)) && WakesScheduler(op)
  }

  /** Of the waking requests only a completion can fail to wake, and all it does
      to the lease table is to take its own lease away. */
  lemma SilentOnlyRemoves(db: Db, op: Op, readable: bool)
    requires WakesScheduler(op) && !Wakes(db, op, readable)
    ensures Step(db, op).leases == db.leases
            || (op.OpCompleteTask? && Step(db, op).leases == db.leases - {op.completed})
  {
  }

  /** No request can change the lease table without waking the scheduler,
      except the expiry that the scheduler itself requests. */
  lemma OnlyWakersChangeLeases(db: Db, op: Op)
    requires !WakesScheduler(op) && !op.OpExpireLeases?
    ensures Step(db, op).leases == db.leases
  {
    if Perform(db, op).Commit? {
      match op
      case OpCreateRequirement(input) => CreateAdds(db, input);
      case OpUpdateRequirement(input, expected) => UpdateAdds(db, input, expected);
      case OpRetireRequirement(id) => RetireEffect(db, id);
      case OpReviewRequirement(input) => ReviewEffect(db, input);
      case OpCreateTask(input) => CreateTaskEffect(db, input);
      case OpCloseTask(id) =>
      case OpAdvance(elapsed) =>
    }
  }

  /** Exactly the requests with an input that fails its check are invalid, and
      no other error hides behind that. */
  lemma InvalidExactly(db: Db, op: Op)
    ensures Perform(db, op) == Abort(Invalid) <==>
            || (op.OpCreateRequirement? && !ValidRequirement(op.requirement))
            || (op.OpUpdateRequirement? && !ValidRequirement(op.revised))
            || (op.OpReviewRequirement? && !ValidReview(op.review))
            || (op.OpCreateTask? && !ValidTask(op.task))
            || (op.OpCompleteTask? && !ValidCommit(op.commit))
  {
    if op.OpCreateTask? {
      FirstErrors(db, op.task, 0);
    }
  }

  lemma {:induction false} FirstErrors(db: Db, input: TaskInput, i: nat)
    ensures DependencyError(db, input, i) != Some(Invalid) && LinkError(db, input, i) != Some(Invalid)
    decreases |input.dependsOn| + |input.requirements| - i
  {
    if i < |input.dependsOn| || i < |input.requirements| {
      FirstErrors(db, input, i + 1);
    }
  }

  class Service {
    const store: Store
    /** Whether the one-slot wake channel holds a token. */
    var leaseWake: bool

    constructor ()
      ensures fresh(store) && store.Snapshot() == EMPTY && store.Valid() && !leaseWake
    {
      store := new Store();
      leaseWake := false;
    }

    /** A send that gives up when the slot is taken. */
    method WakeLeaseScheduler()
      modifies this`leaseWake
      ensures leaseWake
    {
      if !leaseWake {
        leaseWake := true;
      }
    }

    /** Serves one request. `readable` tells whether the store can be read once
        the transaction is over: if not, a committed request that reads its item
        reports an error, and nobody is woken. */
    method Handle(op: Op, readable: bool) returns (out: Outcome)
      requires store.Valid()
      modifies store, this`leaseWake
      ensures store.Snapshot() == Step(old(store.Snapshot()), op) && store.Valid()
      ensures match Perform(old(store.Snapshot()), op)
              case Abort(e) => out == Failed(e)
              case Commit(_) =>
                if readable || op.OpLeaseTask? || op.OpHeartbeat? || op.OpRelease? || op.OpExpireLeases?
                   || op.OpAdvance?
                then out == Done else out == Failed(ReadFailed)
      ensures leaseWake <==>
                || old(leaseWake)
                || (&& Perform(old(store.Snapshot()), op).Commit?
                    && (|| op.OpLeaseTask? || op.OpHeartbeat? || op.OpRelease?
                        || (op.OpCompleteTask? && readable)))
    {
      StepKeepsSound(store.Snapshot(), op);
      out := Dispatch(op);
      if out == Done && Rereads(op) && !readable {
        return Failed(ReadFailed);
      }
      if out == Done && WakesScheduler(op) {
        WakeLeaseScheduler();
      }
    }

    method Dispatch(op: Op) returns (out: Outcome)
      requires store.Valid()
      modifies store
      ensures Follows(Perform(old(store.Snapshot()), op), old(store.Snapshot()), store.Snapshot(), out)
    {
      store.ValidHasForeignKeys();
      match op
      case OpCreateRequirement(input) =>
        if !ValidRequirement(input) {
          return Failed(Invalid);
        }
        out := store.CreateRequirement(input);
      case OpUpdateRequirement(input, expected) =>
        if !ValidRequirement(input) {
          return Failed(Invalid);
        }
        out := store.UpdateRequirement(input, expected);
      case OpRetireRequirement(id) => out := store.RetireRequirement(id);
      case OpReviewRequirement(input) =>
        if !ValidReview(input) {
          return Failed(Invalid);
        }
        out := store.ReviewRequirement(input);
      case OpCreateTask(input) =>
        if !ValidTask(input) {
          return Failed(Invalid);
        }
        out := store.CreateTask(input);
      case OpLeaseTask(id, agent, ttl, lag) => out := store.LeaseTask(id, agent, ttl, lag);
      case OpHeartbeat(id, fence, ttl, lag) => out := store.Heartbeat(id, fence, ttl, lag);
      case OpRelease(id, fence) => out := store.Release(id, fence);
      case OpCompleteTask(task, id, fence, commit) =>
        if !ValidCommit(commit) {
          return Failed(Invalid);
        }
        out := store.CompleteTask(task, id, fence, commit);
      case OpCloseTask(id) => out := store.CloseTask(id);
      case OpExpireLeases => out := store.ExpireLeases();
      case OpAdvance(elapsed) =>
        store.clock := store.clock + elapsed;
        out := Done;
    }
  }
}
