/** The task and lease protocol over whole runs. */
module Leases {
  import opened Domain
  import opened Tables
  import opened Queries
  import opened Transactions
  import opened Soundness

  /** Somebody holds task t under fence f right now. */
  predicate Held(db: Db, t: string, f: nat)
  {
    HasActiveLease(db, t) && db.leases[t].fence == f
  }

  function UpTo(n: nat): (s: seq<nat>)
    ensures |s| == n && forall i :: 0 <= i < n ==> s[i] == i + 1
  {
    if n == 0 then [] else UpTo(n - 1) + [n]
  }

  /** The fences issued for t, in the order of the audit log. */
  function Fences(log: seq<Event>, t: string): seq<nat>
  {
    if log == [] then []
    else
      var last := log[|log| - 1];
      Fences(log[..|log| - 1], t) + (if last.TaskLeased? && last.task == t then [last.fence] else [])
  }

  function IssuedFence(db: Db, t: string): nat
  {
    if t in db.tasks then db.tasks[t].fence else 0
  }

  ghost predicate Protocol(db: Db)
  {
    && LeasesSound(db)
    && (forall t :: HasActiveLease(db, t) ==> db.tasks[t].state == TaskOpen)
    && IssuedInOrder(db)
  }

  ghost predicate IssuedInOrder(db: Db)
  {
    forall t :: Fences(db.audit, t) == UpTo(IssuedFence(db, t))
  }

  /** How one task may move in a step. */
  ghost predicate TaskMoves(db: Db, d: Db, t: string)
    requires t in db.tasks
  {
    && t in d.tasks
    && db.tasks[t].fence <= d.tasks[t].fence
    && (db.tasks[t].state != TaskOpen ==> d.tasks[t] == db.tasks[t])
  }

  ghost predicate Progress(db: Db, d: Db)
  {
    db.clock <= d.clock && forall t :: t in db.tasks ==> TaskMoves(db, d, t)
  }

  /* ----- one step ----- */

  ghost predicate Advances(db: Db, d: Db)
  {
    && Protocol(d) && Progress(db, d)
    && forall t, f: nat :: f <= IssuedFence(db, t) && !Held(db, t, f) ==> !Held(d, t, f)
  }

  lemma FencesOfOne(log: seq<Event>, e: Event, t: string)
    ensures Fences(log + [e], t) == Fences(log, t) + (if e.TaskLeased? && e.task == t then [e.fence] else [])
  {
    assert (log + [e])[..|log|] == log;
  }

  /** Events other than grants issue no fence. */
  lemma NoneIssued(db: Db, d: Db)
    requires IssuedInOrder(db) && forall t :: IssuedFence(d, t) == IssuedFence(db, t)
    requires d.audit == db.audit || exists e: Event :: d.audit == db.audit + [e] && !e.TaskLeased?
    ensures IssuedInOrder(d)
  {
    if d.audit != db.audit {
      var e: Event :| d.audit == db.audit + [e] && !e.TaskLeased?;
      forall t
        ensures Fences(d.audit, t) == UpTo(IssuedFence(d, t))
      {
        FencesOfOne(db.audit, e, t);
      }
    }
  }

  /** A grant issues the next one. */
  lemma OneIssued(db: Db, d: Db, id: string)
    requires IssuedInOrder(db) && id in db.tasks
    requires d.audit == db.audit + [TaskLeased(id, db.tasks[id].fence + 1)]
    requires forall t :: IssuedFence(d, t) == IssuedFence(db, t) + if t == id then 1 else 0
    ensures IssuedInOrder(d)
  {
    forall t
      ensures Fences(d.audit, t) == UpTo(IssuedFence(d, t))
    {
      FencesOfOne(db.audit, TaskLeased(id, db.tasks[id].fence + 1), t);
    }
  }

  /** Steps that keep tasks and fences, and lose, shorten or keep leases. */
  lemma NoTaskChange(db: Db, d: Db)
    requires Protocol(db) && d.tasks == db.tasks && db.clock <= d.clock
    requires forall t :: t in d.leases ==>
             t in db.leases && d.leases[t].fence == db.leases[t].fence && d.leases[t].id == db.leases[t].id
    requires forall t :: HasActiveLease(d, t) ==> HasActiveLease(db, t)
    requires d.audit == db.audit || exists e: Event :: d.audit == db.audit + [e] && !e.TaskLeased?
    ensures Advances(db, d)
  {
    NoneIssued(db, d);
  }

  /** What a grant does to the tables of the protocol. */
  ghost predicate Granted(db: Db, d: Db, id: string)
  {
    && id in db.tasks && db.tasks[id].state == TaskOpen && !HasActiveLease(db, id) && db.clock <= d.clock
    && d.tasks == db.tasks[id := db.tasks[id].(fence := db.tasks[id].fence + 1)]
    && id in d.leases && d.leases == db.leases[id := d.leases[id]]
    && d.leases[id].id.task == id && d.leases[id].fence == db.tasks[id].fence + 1
    && d.audit == db.audit + [TaskLeased(id, db.tasks[id].fence + 1)]
  }

  lemma LeaseGrants(db: Db, d: Db, id: string, agent: string, ttl: int, lag: nat)
    requires LeaseTask(db, id, agent, ttl, lag) == Commit(d)
    ensures Granted(db, d, id)
  {
  }

  lemma GrantedAdvances(db: Db, d: Db, id: string)
    requires Protocol(db) && Granted(db, d, id)
    ensures Advances(db, d)
  {
    OneIssued(db, d, id);
    assert forall t :: HasActiveLease(d, t) && t != id ==> HasActiveLease(db, t);
  }

  lemma LeaseAdvances(db: Db, d: Db, id: string, agent: string, ttl: int, lag: nat)
    requires Protocol(db) && LeaseTask(db, id, agent, ttl, lag) == Commit(d)
    ensures Advances(db, d)
  {
    LeaseGrants(db, d, id, agent, ttl, lag);
    GrantedAdvances(db, d, id);
  }

  lemma HeartbeatAdvances(db: Db, d: Db, id: LeaseId, fence: int, ttl: int, lag: nat)
    requires Protocol(db) && Heartbeat(db, id, fence, ttl, lag) == Commit(d)
    ensures Advances(db, d)
  {
    NoTaskChange(db, d);
  }

  lemma ReleaseAdvances(db: Db, d: Db, id: LeaseId, fence: int)
    requires Protocol(db) && Release(db, id, fence) == Commit(d)
    ensures Advances(db, d)
  {
    NoTaskChange(db, d);
  }

  lemma ExpireAdvances(db: Db, d: Db)
    requires Protocol(db) && ExpireLeases(db) == Commit(d)
    ensures Advances(db, d)
  {
    NoTaskChange(db, d);
  }

  lemma CreateTaskAdvances(db: Db, d: Db, input: TaskInput)
    requires Protocol(db) && CreateTask(db, input) == Commit(d)
    ensures Advances(db, d)
  {
    CreateTaskEffect(db, input);
    TaskAddedAdvances(db, d, input);
  }

  lemma TaskAddedAdvances(db: Db, d: Db, input: TaskInput)
    requires Protocol(db) && TaskAdded(db, d, input)
    ensures Advances(db, d)
  {
    NoneIssued(db, d);
  }

  /** A task leaves the open state under its fence, and its lease, if any, ends
      or has run out. */
  ghost predicate Finished(db: Db, d: Db, id: string)
  {
    && id in db.tasks && db.tasks[id].state == TaskOpen && d.clock == db.clock
    && id in d.tasks && d.tasks == db.tasks[id := d.tasks[id]] && d.tasks[id].fence == db.tasks[id].fence
    && (d.leases == db.leases || d.leases == db.leases - {id}) && !HasActiveLease(d, id)
    && exists e: Event :: d.audit == db.audit + [e] && !e.TaskLeased?
  }

  lemma FinishedAdvances(db: Db, d: Db, id: string)
    requires Protocol(db) && Finished(db, d, id)
    ensures Advances(db, d)
  {
    NoneIssued(db, d);
    assert forall t :: HasActiveLease(d, t) ==> HasActiveLease(db, t) && t != id;
  }

  lemma CompletesOpen(db: Db, d: Db, task: string, id: LeaseId, fence: int, commit: string)
    requires Protocol(db) && CompleteTask(db, task, id, fence, commit) == Commit(d)
    ensures Finished(db, d, task) && d.tasks[task].state == Complete
  {
    assert d.audit == db.audit + [TaskCompleted(task)];
  }

  lemma CompleteAdvances(db: Db, d: Db, task: string, id: LeaseId, fence: int, commit: string)
    requires Protocol(db) && CompleteTask(db, task, id, fence, commit) == Commit(d)
    ensures Advances(db, d)
  {
    CompletesOpen(db, d, task, id, fence, commit);
    FinishedAdvances(db, d, task);
  }

  lemma CloseAdvances(db: Db, d: Db, id: string)
    requires Protocol(db) && CloseTask(db, id) == Commit(d)
    ensures Advances(db, d)
  {
    assert d.audit == db.audit + [TaskClosed(id)];
    FinishedAdvances(db, d, id);
  }

  lemma CreateAdvances(db: Db, d: Db, input: RequirementInput)
    requires Protocol(db) && CreateRequirement(db, input) == Commit(d)
    ensures Advances(db, d)
  {
    CreateAdds(db, input);
    NoTaskChange(db, d);
  }

  lemma UpdateAdvances(db: Db, d: Db, input: RequirementInput, expected: int)
    requires Protocol(db) && UpdateRequirement(db, input, expected) == Commit(d)
    ensures Advances(db, d)
  {
    UpdateAdds(db, input, expected);
    NoTaskChange(db, d);
  }

  lemma RetireAdvances(db: Db, d: Db, id: string)
    requires Protocol(db) && RetireRequirement(db, id) == Commit(d)
    ensures Advances(db, d)
  {
    RetireEffect(db, id);
    NoTaskChange(db, d);
  }

  lemma ReviewAdvances(db: Db, d: Db, input: ReviewInput)
    requires Protocol(db) && ReviewRequirement(db, input) == Commit(d)
    ensures Advances(db, d)
  {
    ReviewEffect(db, input);
    NoTaskChange(db, d);
  }

  lemma StepAdvances(db: Db, op: Op)
    requires Protocol(db)
    ensures Advances(db, Step(db, op))
  {
    var tx := Perform(db, op);
    if tx.Abort? {
      NoTaskChange(db, db);
    } else {
      match op
      case OpCreateRequirement(input) => CreateAdvances(db, tx.db, input);
      case OpUpdateRequirement(input, expected) => UpdateAdvances(db, tx.db, input, expected);
      case OpRetireRequirement(id) => RetireAdvances(db, tx.db, id);
      case OpReviewRequirement(input) => ReviewAdvances(db, tx.db, input);
      case OpCreateTask(input) => CreateTaskAdvances(db, tx.db, input);
      case OpLeaseTask(id, agent, ttl, lag) => LeaseAdvances(db, tx.db, id, agent, ttl, lag);
      case OpHeartbeat(id, fence, ttl, lag) => HeartbeatAdvances(db, tx.db, id, fence, ttl, lag);
      case OpRelease(id, fence) => ReleaseAdvances(db, tx.db, id, fence);
      case OpCompleteTask(task, id, fence, commit) => CompleteAdvances(db, tx.db, task, id, fence, commit);
      case OpCloseTask(id) => CloseAdvances(db, tx.db, id);
      case OpExpireLeases => ExpireAdvances(db, tx.db);
      case OpAdvance(elapsed) => NoTaskChange(db, tx.db);
    }
  }

  /* ----- whole runs ----- */

  lemma {:induction false} RunFollowsProtocol(ops: seq<Op>)
    ensures Protocol(Run(ops))
  {
    if ops != [] {
      RunFollowsProtocol(ops[..|ops| - 1]);
      StepAdvances(Run(ops[..|ops| - 1]), ops[|ops| - 1]);
    }
  }

  /** Between two moments of a run, time and fences only grow, states other
      than open stay, and a lease that is over never comes back. */
  lemma {:induction false} PrefixAdvances(ops: seq<Op>, i: nat)
    requires i <= |ops|
    ensures Advances(Run(ops[..i]), Run(ops))
    decreases |ops|
  {
    if i == |ops| {
      assert ops[..i] == ops;
      RunFollowsProtocol(ops);
    } else {
      var shorter := ops[..|ops| - 1];
      assert shorter[..i] == ops[..i];
      PrefixAdvances(shorter, i);
      StepAdvances(Run(shorter), ops[|ops| - 1]);
      AdvancesCompose(Run(ops[..i]), Run(shorter), Run(ops));
    }
  }

  lemma AdvancesCompose(a: Db, b: Db, c: Db)
    requires Advances(a, b) && Advances(b, c)
    ensures Advances(a, c)
  {
    forall t | t in a.tasks
      ensures TaskMoves(a, c, t)
    {
      assert TaskMoves(a, b, t) && TaskMoves(b, c, t);
    }
    forall t, f: nat | f <= IssuedFence(a, t) && !Held(a, t, f)
      ensures !Held(c, t, f)
    {
      if t in a.tasks {
        assert TaskMoves(a, b, t);
      }
      assert f <= IssuedFence(b, t) && !Held(b, t, f);
    }
  }

  /** The fences issued for a task are 1, 2, 3 and so on up to its current one,
      and its lease row, if any, carries the current one. */
  lemma FencesAreConsecutive(ops: seq<Op>, t: string)
    requires t in Run(ops).tasks
    ensures var issued := Fences(Run(ops).audit, t);
            |issued| == Run(ops).tasks[t].fence && forall i :: 0 <= i < |issued| ==> issued[i] == i + 1
    ensures t in Run(ops).leases ==> Run(ops).leases[t].fence == Run(ops).tasks[t].fence
  {
    RunFollowsProtocol(ops);
    assert Fences(Run(ops).audit, t) == UpTo(IssuedFence(Run(ops), t));
  }

  /** The times at which two leases of one task are held do not interleave: the
      larger fence is held strictly later. */
  lemma HoldingsNeverOverlap(ops: seq<Op>, i: nat, j: nat, t: string, f: nat, g: nat)
    requires i <= |ops| && j <= |ops| && f < g
    requires Held(Run(ops[..i]), t, f) && Held(Run(ops[..j]), t, g)
    ensures i < j
  {
    RunFollowsProtocol(ops[..i]);
    RunFollowsProtocol(ops[..j]);
    if j <= i {
      assert ops[..i][..j] == ops[..j];
      PrefixAdvances(ops[..i], j);
    }
  }

  /** A lease is held over one unbroken stretch of the run. */
  lemma HoldingIsAnInterval(ops: seq<Op>, i: nat, j: nat, k: nat, t: string, f: nat)
    requires i <= j <= k <= |ops|
    requires Held(Run(ops[..i]), t, f) && Held(Run(ops[..k]), t, f)
    ensures Held(Run(ops[..j]), t, f)
  {
    RunFollowsProtocol(ops[..i]);
    assert ops[..j][..i] == ops[..i] && ops[..k][..j] == ops[..j];
    PrefixAdvances(ops[..j], i);
    PrefixAdvances(ops[..k], j);
    assert TaskMoves(Run(ops[..i]), Run(ops[..j]), t);
  }

  /** Once a larger fence has been issued, no request with the older fence is
      ever accepted again. */
  lemma OlderFenceIsRefused(ops: seq<Op>, i: nat, id: LeaseId, f: nat, ttl: int, lag: nat, commit: string)
    requires i <= |ops| && id.task in Run(ops[..i]).tasks && f < Run(ops[..i]).tasks[id.task].fence
    ensures Heartbeat(Run(ops), id, f, ttl, lag) == Abort(Conflict)
    ensures Release(Run(ops), id, f) == Abort(Conflict)
    ensures CompleteTask(Run(ops), id.task, id, f, commit) == Abort(Conflict)
  {
    RunFollowsProtocol(ops);
    PrefixAdvances(ops, i);
    assert TaskMoves(Run(ops[..i]), Run(ops), id.task);
  }

  /** Without further requests, a granted lease is held for exactly its time to
      live, counted from the claim. */
  lemma LeaseLastsItsTime(db: Db, d: Db, id: string, agent: string, ttl: int, lag: nat, elapsed: nat)
    requires LeaseTask(db, id, agent, ttl, lag) == Commit(d)
    ensures Held(Step(d, OpAdvance(elapsed)), id, IssuedFence(db, id) + 1) <==> elapsed < ttl
  {
  }

  /** A heartbeat restarts that time for the same holder, whether it lengthens
      or shortens the lease. */
  lemma HeartbeatRestartsTime(db: Db, d: Db, id: LeaseId, fence: nat, ttl: int, lag: nat, elapsed: nat)
    requires Heartbeat(db, id, fence, ttl, lag) == Commit(d)
    ensures Held(db, id.task, fence)
    ensures Held(Step(d, OpAdvance(elapsed)), id.task, fence) <==> elapsed < ttl
  {
  }

  /** The blockers of a task are read from the requirement tables and from the
      states of tasks, never from leases, fences or the clock. */
  lemma SameBlockers(db: Db, d: Db, id: string)
    requires d.requirements == db.requirements && d.revisions == db.revisions
    requires d.refinements == db.refinements && d.dependencies == db.dependencies
    requires d.taskLinks == db.taskLinks && d.taskDependencies == db.taskDependencies
    requires d.tasks.Keys == db.tasks.Keys && forall t :: t in db.tasks ==> d.tasks[t].state == db.tasks[t].state
    ensures LinksRetired(d, id) == LinksRetired(db, id) && LinksNonLeaf(d, id) == LinksNonLeaf(db, id)
    ensures HasIncompleteDependency(d, id) == HasIncompleteDependency(db, id)
    ensures TaskBlocked(d, id) == TaskBlocked(db, id)
  {
    assert SameGraph(db, d);
    SameGraphSameQueries(db, d);
    assert DependencyEdges(d) == DependencyEdges(db);
    forall r: Ref
      ensures Met(d, r) == Met(db, r)
    {
      SameEffective(db, d, r);
    }
    forall r: Ref
      ensures RequirementBlocked(d, r) == RequirementBlocked(db, r)
    {
      assert forall x :: DependsOn(d, r, x) == DependsOn(db, r, x);
    }
  }

  lemma SameEffective(db: Db, d: Db, r: Ref)
    requires d.requirements == db.requirements && ChildEdges(d) == ChildEdges(db)
    requires forall c :: Children(d, c) == Children(db, c)
    ensures Met(d, r) == Met(db, r)
  {
    if ActiveCurrent(db, r) {
      forall c, x
        ensures LeafBelow(d, c, x) == LeafBelow(db, c, x)
      {
      }
      assert RollUp(d, CurrentRef(d, r.id)) == RollUp(db, CurrentRef(db, r.id));
    }
  }

  /** A lease keeps others out exactly until its time to live is over, and a
      release lets them in at once: the task can then be leased again. */
  lemma LeaseOverIsLeasable(db: Db, d: Db, id: string, agent: string, ttl: int, lag: nat, elapsed: nat)
    requires LeaseTask(db, id, agent, ttl, lag) == Commit(d)
    ensures Leasable(Step(d, OpAdvance(elapsed)), id) <==> ttl <= elapsed
    ensures var e := Step(d, OpRelease(d.leases[id].id, d.leases[id].fence));
            Leasable(e, id) && e.leases == db.leases - {id} && e.tasks[id].fence == db.tasks[id].fence + 1
  {
    SameBlockers(db, Step(d, OpAdvance(elapsed)), id);
    var e := Step(d, OpRelease(d.leases[id].id, d.leases[id].fence));
    assert HoldsLease(d, d.leases[id].id, d.leases[id].fence);
    SameBlockers(db, e, id);
  }

  /* ----- how leases end ----- */

  /** The lease that t has before the step is no longer its lease after it. */
  predicate LeaseEnds(db: Db, d: Db, t: string)
    requires t in db.leases
  {
    t in d.leases ==> d.leases[t].fence != db.leases[t].fence
  }

  /** A lease ends in four ways only. It is released; its task is completed; it
      has run out and is removed and recorded; or it has run out and makes room
      for the next claim, which records nothing. */
  lemma EndingIsRecordedExactly(db: Db, op: Op, t: string)
    requires LeasesSound(db) && t in db.leases && LeaseEnds(db, Step(db, op), t)
    ensures match op
            case OpRelease(id, _) => id == db.leases[t].id
            case OpCompleteTask(task, _, _, _) => task == t
            case OpExpireLeases => db.leases[t].expires <= db.clock
            case OpLeaseTask(id, _, _, _) => id == t && db.leases[t].expires <= db.clock
            case _ => false
    ensures var record := Expiration(t, db.leases[t].id, db.leases[t].fence);
            record in Step(db, op).expirations <==> op.OpExpireLeases? || record in db.expirations
  {
    if IsLeaseOp(op) || op.OpCompleteTask? {
      LeaseOpEnds(db, op, t);
    } else {
      ContentKeepsLeases(db, op);
    }
  }

  lemma LeaseOpEnds(db: Db, op: Op, t: string)
    requires LeasesSound(db) && t in db.leases && LeaseEnds(db, Step(db, op), t)
    requires IsLeaseOp(op) || op.OpCompleteTask?
    ensures match op
            case OpRelease(id, _) => id == db.leases[t].id
            case OpCompleteTask(task, _, _, _) => task == t
            case OpExpireLeases => db.leases[t].expires <= db.clock
            case OpLeaseTask(id, _, _, _) => id == t && db.leases[t].expires <= db.clock
            case _ => false
    ensures var record := Expiration(t, db.leases[t].id, db.leases[t].fence);
            record in Step(db, op).expirations <==> op.OpExpireLeases? || record in db.expirations
  {
    if op.OpExpireLeases? {
      ExpireEnds(db, t);
    } else if op.OpLeaseTask? {
      ClaimEnds(db, Step(db, op), op.leased, op.agent, op.ttl, op.lag, t);
    } else if op.OpCompleteTask? {
      FinishEnds(db, op.completed, op.held, op.heldFence, op.commit, t);
    }
  }

  lemma ClaimEnds(db: Db, d: Db, id: string, agent: string, ttl: int, lag: nat, t: string)
    requires t in db.leases && LeaseEnds(db, d, t) && d == Step(db, OpLeaseTask(id, agent, ttl, lag))
    ensures id == t && db.leases[t].expires <= db.clock && d.expirations == db.expirations
  {
    if LeaseTask(db, id, agent, ttl, lag).Commit? {
      LeaseGrants(db, d, id, agent, ttl, lag);
    }
  }

  lemma FinishEnds(db: Db, task: string, id: LeaseId, fence: int, commit: string, t: string)
    requires t in db.leases
    requires LeaseEnds(db, Step(db, OpCompleteTask(task, id, fence, commit)), t)
    ensures task == t && Step(db, OpCompleteTask(task, id, fence, commit)).expirations == db.expirations
  {
  }

  /** Requests about requirements and new tasks leave leases and records alone. */
  lemma ContentKeepsLeases(db: Db, op: Op)
    requires !IsLeaseOp(op) && !op.OpCompleteTask?
    ensures Step(db, op).leases == db.leases && Step(db, op).expirations == db.expirations
  {
    if Perform(db, op).Commit? {
      match op
      case OpCreateRequirement(input) => CreateAdds(db, input);
      case OpUpdateRequirement(input, expected) => UpdateAdds(db, input, expected);
      case OpRetireRequirement(r) => RetireEffect(db, r);
      case OpReviewRequirement(input) => ReviewEffect(db, input);
      case OpCreateTask(input) => CreateTaskEffect(db, input);
    }
  }

  lemma ExpireEnds(db: Db, t: string)
    requires t in db.leases && LeaseEnds(db, ExpireLeases(db).db, t)
    ensures db.leases[t].expires <= db.clock
    ensures Expiration(t, db.leases[t].id, db.leases[t].fence) in ExpireLeases(db).db.expirations
  {
    var ended := set u | u in db.leases && db.leases[u].expires <= db.clock;
    assert t in ended;
  }

  /** Recorded leases are over for good. */
  ghost predicate RecordsAreOver(db: Db)
  {
    forall r :: r in db.expirations ==>
      && r.task in db.tasks && r.fence <= db.tasks[r.task].fence
      && (r.task in db.leases ==> db.leases[r.task].fence != r.fence)
  }

  /** Steps that record nothing and add no lease. */
  lemma FewerRowsKeepRecords(db: Db, d: Db)
    requires RecordsAreOver(db) && d.expirations == db.expirations && Progress(db, d)
    requires forall t :: t in d.leases ==> t in db.leases && d.leases[t].fence == db.leases[t].fence
    ensures RecordsAreOver(d)
  {
    forall r | r in d.expirations
      ensures r.task in d.tasks && r.fence <= d.tasks[r.task].fence
    {
      assert TaskMoves(db, d, r.task);
    }
  }

  lemma ClaimKeepsRecords(db: Db, d: Db, id: string)
    requires RecordsAreOver(db) && d.expirations == db.expirations && Granted(db, d, id)
    ensures RecordsAreOver(d)
  {
  }

  lemma ExpireKeepsRecords(db: Db)
    requires LeasesSound(db) && RecordsAreOver(db)
    ensures RecordsAreOver(ExpireLeases(db).db)
  {
  }

  lemma StepKeepsRecords(db: Db, op: Op)
    requires Protocol(db) && RecordsAreOver(db)
    ensures RecordsAreOver(Step(db, op))
  {
    StepAdvances(db, op);
    if op.OpExpireLeases? {
      ExpireKeepsRecords(db);
    } else if op.OpLeaseTask? {
      if Perform(db, op).Commit? {
        LeaseGrants(db, Step(db, op), op.leased, op.agent, op.ttl, op.lag);
        ClaimKeepsRecords(db, Step(db, op), op.leased);
      }
    } else {
      if !IsLeaseOp(op) && !op.OpCompleteTask? {
        ContentKeepsLeases(db, op);
      }
      FewerRowsKeepRecords(db, Step(db, op));
    }
  }

  /** In every run, a lease whose expiry is recorded is over: its fence was
      issued and is not the fence of a stored lease. */
  lemma {:induction false} RecordedLeasesAreOver(ops: seq<Op>)
    ensures RecordsAreOver(Run(ops))
  {
    if ops != [] {
      RecordedLeasesAreOver(ops[..|ops| - 1]);
      RunFollowsProtocol(ops[..|ops| - 1]);
      StepKeepsRecords(Run(ops[..|ops| - 1]), ops[|ops| - 1]);
    }
  }

  /** Completion, which never looks at the task's state, only completes open
      tasks; complete and closed tasks stay what they are. */
  lemma CompletionNeedsOpen(ops: seq<Op>, task: string, id: LeaseId, fence: int, commit: string)
    requires CompleteTask(Run(ops), task, id, fence, commit).Commit?
    ensures task in Run(ops).tasks && Run(ops).tasks[task].state == TaskOpen
  {
    RunFollowsProtocol(ops);
  }

  lemma FinishedStaysFinished(ops: seq<Op>, i: nat, t: string)
    requires i <= |ops| && t in Run(ops[..i]).tasks && Run(ops[..i]).tasks[t].state != TaskOpen
    ensures t in Run(ops).tasks && Run(ops).tasks[t] == Run(ops[..i]).tasks[t]
    ensures !HasActiveLease(Run(ops), t)
  {
    PrefixAdvances(ops, i);
    assert TaskMoves(Run(ops[..i]), Run(ops), t);
    RunFollowsProtocol(ops);
  }
}
