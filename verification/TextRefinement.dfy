/** The machine of TextLeases is the store's protocol seen from one task: every
    request moves it as the transaction moves the tables, whenever the test on
    text and the test on the clock agree about the lease that is stored. */
module TextRefinement {
  import opened Domain
  import opened Tables
  import opened Queries
  import opened Transactions
  import opened Soundness
  import opened TaskAcceptance
  import opened Timestamps
  import opened TextLeases

  /** The columns of one task and its lease, with each time read as an instant. */
  function View(db: Db, t: string, at: int -> Instant): World
    requires t in db.tasks
  {
    World(db.tasks[t].state, db.tasks[t].fence,
          if t in db.leases then Some(Row(db.leases[t].fence, at(db.leases[t].expires))) else None,
          at(db.clock))
  }

  ghost predicate AllValid(at: int -> Instant)
  {
    forall x :: at(x).Valid()
  }

  /** Time reads as valid instants that do not run back. */
  ghost predicate ReadsTime(at: int -> Instant)
  {
    AllValid(at) && forall x, y :: x <= y ==> !Before(at(y), at(x))
  }

  /** The two tests give the same answer about the lease of t. */
  ghost predicate TestsAgree(db: Db, t: string, at: int -> Instant)
  {
    t in db.leases ==>
      (StoredExpired(at(db.leases[t].expires), at(db.clock)) <==> db.leases[t].expires <= db.clock)
  }

  /** The request names the stored lease of t; the machine knows leases by their
      fences alone. */
  predicate NamesLease(db: Db, t: string, id: LeaseId, fence: int)
  {
    t in db.leases && db.leases[t].id == id && fence >= 0
  }

  /** What a request is to the machine. A claim that other tables refuse, and a
      request that concerns another task, is nothing. */
  ghost function MoveOf(db: Db, op: Op, t: string, at: int -> Instant): Option<Move>
  {
    match op
    case OpLeaseTask(id, _, ttl, lag) =>
      if id == t && NothingHoldsUp(db, t) then Some(Claim(at(db.clock + lag + ttl))) else None
    case OpHeartbeat(id, fence, ttl, lag) =>
      if NamesLease(db, t, id, fence) then Some(Beat(fence, at(db.clock + lag + ttl))) else None
    case OpRelease(id, fence) => if NamesLease(db, t, id, fence) then Some(GiveBack(fence)) else None
    case OpCompleteTask(task, id, fence, commit) =>
      if task == t && NamesLease(db, t, id, fence) && ValidCommit(commit) then Some(Finish(fence)) else None
    case OpCloseTask(id) => if id == t then Some(Close) else None
    case OpExpireLeases => Some(Sweep)
    case _ => None
  }

  function Moved(w: World, m: Option<Move>): World
  {
    match m
    case None => w
    case Some(move) => Next(w, move)
  }

  /** The view of the new tables is the old one after the move, at the new time. */
  ghost predicate Matches(db: Db, d: Db, m: Option<Move>, t: string, at: int -> Instant)
    requires t in db.tasks
  {
    t in d.tasks && View(d, t, at) == Moved(View(db, t, at), m).(now := at(d.clock))
  }

  lemma OtherLeaseStays(db: Db, d: Db, id: string, t: string)
    requires d.leases - {id} == db.leases - {id} && id != t
    ensures t in d.leases <==> t in db.leases
    ensures t in db.leases ==> d.leases[t] == db.leases[t]
  {
    assert t in d.leases <==> t in d.leases - {id};
    assert t in db.leases <==> t in db.leases - {id};
  }

  /** What a claim does to the columns of its task. */
  lemma ClaimColumns(db: Db, d: Db, id: string, agent: string, ttl: int, lag: nat)
    requires LeaseTask(db, id, agent, ttl, lag) == Commit(d)
    ensures NothingHoldsUp(db, id) && id in db.tasks && db.tasks[id].state == TaskOpen && !HasActiveLease(db, id)
    ensures id in d.tasks && d.tasks[id].state == TaskOpen && d.tasks[id].fence == db.tasks[id].fence + 1
    ensures id in d.leases && d.leases[id].fence == db.tasks[id].fence + 1
    ensures d.leases[id].expires == db.clock + lag + ttl
  {
    LeaseCommitsExactly(db, id, agent, ttl, lag);
    LeaseLeaves(db, d, id, agent, ttl, lag);
  }

  lemma OwnClaimMatches(db: Db, d: Db, id: string, ttl: int, lag: nat, at: int -> Instant)
    requires id in db.tasks && db.tasks[id].state == TaskOpen && !HasActiveLease(db, id)
    requires AllValid(at) && TestsAgree(db, id, at)
    requires id in d.tasks && d.tasks[id].state == TaskOpen && d.tasks[id].fence == db.tasks[id].fence + 1
    requires id in d.leases && d.leases[id].fence == db.tasks[id].fence + 1
    requires d.leases[id].expires == db.clock + lag + ttl
    ensures Matches(db, d, Some(Claim(at(db.clock + lag + ttl))), id, at)
  {
  }

  lemma OtherClaimMatches(db: Db, d: Db, id: string, agent: string, ttl: int, lag: nat, t: string, at: int -> Instant)
    requires t in db.tasks && t != id && LeaseTask(db, id, agent, ttl, lag) == Commit(d)
    ensures Matches(db, d, None, t, at)
  {
    LeaseLeaves(db, d, id, agent, ttl, lag);
    OtherLeaseStays(db, d, id, t);
  }

  lemma ClaimMatches(db: Db, d: Db, id: string, agent: string, ttl: int, lag: nat, t: string, at: int -> Instant)
    requires t in db.tasks && AllValid(at) && TestsAgree(db, t, at)
    requires LeaseTask(db, id, agent, ttl, lag) == Commit(d)
    ensures NothingHoldsUp(db, id)
    ensures Matches(db, d, if id == t then Some(Claim(at(db.clock + lag + ttl))) else None, t, at)
  {
    ClaimColumns(db, d, id, agent, ttl, lag);
    if id == t {
      OwnClaimMatches(db, d, id, ttl, lag, at);
    } else {
      OtherClaimMatches(db, d, id, agent, ttl, lag, t, at);
    }
  }

  lemma RefusedClaimMatches(db: Db, id: string, agent: string, ttl: int, lag: nat, t: string, at: int -> Instant)
    requires t in db.tasks && AllValid(at) && TestsAgree(db, t, at)
    requires LeaseTask(db, id, agent, ttl, lag).Abort?
    ensures Matches(db, db, if id == t && NothingHoldsUp(db, t) then Some(Claim(at(db.clock + lag + ttl))) else None,
                    t, at)
  {
    LeaseCommitsExactly(db, id, agent, ttl, lag);
  }

  /** What a heartbeat does to the columns of its task. */
  lemma BeatColumns(db: Db, d: Db, id: LeaseId, fence: int, ttl: int, lag: nat)
    requires Heartbeat(db, id, fence, ttl, lag) == Commit(d)
    ensures d.tasks == db.tasks && NamesLease(db, id.task, id, fence) && db.leases[id.task].fence == fence
    ensures db.clock < db.leases[id.task].expires
    ensures id.task in d.leases && d.leases[id.task].fence == fence && d.leases[id.task].expires == db.clock + lag + ttl
  {
    HeartbeatCommitsExactly(db, id, fence, ttl, lag);
  }

  lemma OwnHeartbeatMatches(db: Db, d: Db, id: LeaseId, fence: int, ttl: int, lag: nat, at: int -> Instant)
    requires id.task in db.tasks && AllValid(at) && TestsAgree(db, id.task, at)
    requires d.tasks == db.tasks && NamesLease(db, id.task, id, fence) && db.leases[id.task].fence == fence
    requires db.clock < db.leases[id.task].expires
    requires id.task in d.leases && d.leases[id.task].fence == fence
    requires d.leases[id.task].expires == db.clock + lag + ttl
    ensures Matches(db, d, Some(Beat(fence, at(db.clock + lag + ttl))), id.task, at)
  {
  }

  lemma OtherHeartbeatMatches(db: Db, d: Db, id: LeaseId, fence: int, ttl: int, lag: nat, t: string,
      at: int -> Instant)
    requires LeasesSound(db) && t in db.tasks && t != id.task
    requires Heartbeat(db, id, fence, ttl, lag) == Commit(d)
    ensures !NamesLease(db, t, id, fence) && Matches(db, d, None, t, at)
  {
    HeartbeatCommitsExactly(db, id, fence, ttl, lag);
    OtherLeaseStays(db, d, id.task, t);
  }

  lemma HeartbeatMatches(db: Db, d: Db, id: LeaseId, fence: int, ttl: int, lag: nat, t: string, at: int -> Instant)
    requires LeasesSound(db) && t in db.tasks && AllValid(at) && TestsAgree(db, t, at)
    requires Heartbeat(db, id, fence, ttl, lag) == Commit(d)
    ensures Matches(db, d, if NamesLease(db, t, id, fence) then Some(Beat(fence, at(db.clock + lag + ttl))) else None,
                    t, at)
  {
    if id.task == t {
      BeatColumns(db, d, id, fence, ttl, lag);
      OwnHeartbeatMatches(db, d, id, fence, ttl, lag, at);
    } else {
      OtherHeartbeatMatches(db, d, id, fence, ttl, lag, t, at);
    }
  }

  lemma RefusedHeartbeatMatches(db: Db, id: LeaseId, fence: int, ttl: int, lag: nat, t: string, at: int -> Instant)
    requires LeasesSound(db) && t in db.tasks && AllValid(at) && TestsAgree(db, t, at)
    requires Heartbeat(db, id, fence, ttl, lag).Abort?
    ensures Matches(db, db, if NamesLease(db, t, id, fence) then Some(Beat(fence, at(db.clock + lag + ttl))) else None,
                    t, at)
  {
    HeartbeatCommitsExactly(db, id, fence, ttl, lag);
  }

  lemma ReleaseMatches(db: Db, d: Db, id: LeaseId, fence: int, t: string, at: int -> Instant)
    requires LeasesSound(db) && t in db.tasks
    requires d == match Release(db, id, fence) { case Commit(e) => e case Abort(_) => db }
    ensures Matches(db, d, if NamesLease(db, t, id, fence) then Some(GiveBack(fence)) else None, t, at)
  {
    ReleaseCommitsExactly(db, id, fence);
  }

  lemma CompletionMatches(db: Db, d: Db, task: string, id: LeaseId, fence: int, commit: string, t: string,
      at: int -> Instant)
    requires LeasesSound(db) && t in db.tasks && TestsAgree(db, t, at)
    requires CompleteTask(db, task, id, fence, commit) == Commit(d)
    ensures Matches(db, d, if task == t && NamesLease(db, t, id, fence) then Some(Finish(fence)) else None, t, at)
  {
    CompleteCommitsExactly(db, task, id, fence, commit);
    CompletionLeaves(db, d, task, id, fence, commit);
    if task != t {
      assert t in d.tasks <==> t in d.tasks - {task};
      assert t in db.tasks - {task};
    }
  }

  lemma RefusedCompletionMatches(db: Db, task: string, id: LeaseId, fence: int, commit: string, t: string,
      at: int -> Instant)
    requires LeasesSound(db) && t in db.tasks && TestsAgree(db, t, at)
    requires CompleteTask(db, task, id, fence, commit).Abort?
    ensures Matches(db, db, if task == t && NamesLease(db, t, id, fence) then Some(Finish(fence)) else None, t, at)
  {
    CompleteCommitsExactly(db, task, id, fence, commit);
  }

  lemma CloseMatches(db: Db, d: Db, id: string, t: string, at: int -> Instant)
    requires t in db.tasks && TestsAgree(db, t, at)
    requires d == match CloseTask(db, id) { case Commit(e) => e case Abort(_) => db }
    ensures Matches(db, d, if id == t then Some(Close) else None, t, at)
  {
    CloseCommitsExactly(db, id);
  }

  lemma ExpiryMatches(db: Db, d: Db, t: string, at: int -> Instant)
    requires t in db.tasks && TestsAgree(db, t, at) && ExpireLeases(db) == Commit(d)
    ensures Matches(db, d, Some(Sweep), t, at)
  {
  }

  lemma WorkKeptMatches(db: Db, d: Db, t: string, at: int -> Instant)
    requires t in db.tasks && d.leases == db.leases && t in d.tasks && d.tasks[t] == db.tasks[t]
    ensures Matches(db, d, None, t, at)
  {
  }

  lemma ContentKeepsTask(db: Db, op: Op, t: string)
    requires t in db.tasks && !IsLeaseOp(op) && !op.OpCompleteTask?
    ensures var d := Step(db, op); d.leases == db.leases && t in d.tasks && d.tasks[t] == db.tasks[t]
  {
    if Perform(db, op).Commit? {
      match op
      case OpCreateRequirement(input) => CreateAdds(db, input);
      case OpUpdateRequirement(input, expected) => UpdateAdds(db, input, expected);
      case OpRetireRequirement(r) => RetireEffect(db, r);
      case OpReviewRequirement(input) => ReviewEffect(db, input);
      case OpCreateTask(input) => CreateTaskEffect(db, input);
    }
  }

  lemma LeaseOpIs(db: Db, op: Op, t: string, at: int -> Instant)
    requires op.OpLeaseTask?
    ensures var tx := LeaseTask(db, op.leased, op.agent, op.ttl, op.lag);
            Step(db, op) == if tx.Commit? then tx.db else db
    ensures MoveOf(db, op, t, at) == if op.leased == t && NothingHoldsUp(db, t)
              then Some(Claim(at(db.clock + op.lag + op.ttl))) else None
  {
  }

  lemma LeaseOpMatches(db: Db, op: Op, d: Db, m: Option<Move>, t: string, at: int -> Instant)
    requires t in db.tasks && AllValid(at) && TestsAgree(db, t, at) && op.OpLeaseTask?
    requires var tx := LeaseTask(db, op.leased, op.agent, op.ttl, op.lag);
             d == if tx.Commit? then tx.db else db
    requires m == if op.leased == t && NothingHoldsUp(db, t) then Some(Claim(at(db.clock + op.lag + op.ttl))) else None
    ensures Matches(db, d, m, t, at)
  {
    if LeaseTask(db, op.leased, op.agent, op.ttl, op.lag).Commit? {
      ClaimMatches(db, d, op.leased, op.agent, op.ttl, op.lag, t, at);
    } else {
      RefusedClaimMatches(db, op.leased, op.agent, op.ttl, op.lag, t, at);
    }
  }

  lemma HeartbeatOpIs(db: Db, op: Op, t: string, at: int -> Instant)
    requires op.OpHeartbeat?
    ensures var tx := Heartbeat(db, op.beating, op.beatFence, op.beatTtl, op.beatLag);
            Step(db, op) == if tx.Commit? then tx.db else db
    ensures MoveOf(db, op, t, at) == if NamesLease(db, t, op.beating, op.beatFence)
              then Some(Beat(op.beatFence, at(db.clock + op.beatLag + op.beatTtl))) else None
  {
  }

  lemma HeartbeatOpMatches(db: Db, op: Op, tx: Tx, t: string, at: int -> Instant)
    requires LeasesSound(db) && t in db.tasks && AllValid(at) && TestsAgree(db, t, at) && op.OpHeartbeat?
    requires tx == Heartbeat(db, op.beating, op.beatFence, op.beatTtl, op.beatLag)
    ensures Matches(db, if tx.Commit? then tx.db else db,
                    if NamesLease(db, t, op.beating, op.beatFence)
                    then Some(Beat(op.beatFence, at(db.clock + op.beatLag + op.beatTtl))) else None, t, at)
  {
    match tx
    case Commit(d) => HeartbeatMatches(db, d, op.beating, op.beatFence, op.beatTtl, op.beatLag, t, at);
    case Abort(_) => RefusedHeartbeatMatches(db, op.beating, op.beatFence, op.beatTtl, op.beatLag, t, at);
  }

  lemma CompletionOpMatches(db: Db, op: Op, t: string, at: int -> Instant)
    requires LeasesSound(db) && t in db.tasks && TestsAgree(db, t, at) && op.OpCompleteTask?
    ensures Matches(db, Step(db, op), MoveOf(db, op, t, at), t, at)
  {
    if !ValidCommit(op.commit) {
      WorkKeptMatches(db, Step(db, op), t, at);
    } else if CompleteTask(db, op.completed, op.held, op.heldFence, op.commit).Commit? {
      CompletionMatches(db, Step(db, op), op.completed, op.held, op.heldFence, op.commit, t, at);
    } else {
      RefusedCompletionMatches(db, op.completed, op.held, op.heldFence, op.commit, t, at);
    }
  }

  lemma PlainOpMatches(db: Db, op: Op, t: string, at: int -> Instant)
    requires LeasesSound(db) && t in db.tasks && TestsAgree(db, t, at)
    requires op.OpRelease? || op.OpCloseTask? || op.OpExpireLeases? || op.OpAdvance?
    ensures Matches(db, Step(db, op), MoveOf(db, op, t, at), t, at)
  {
    var d := Step(db, op);
    match op
    case OpRelease(id, fence) => ReleaseMatches(db, d, id, fence, t, at);
    case OpCloseTask(id) => CloseMatches(db, d, id, t, at);
    case OpExpireLeases => ExpiryMatches(db, d, t, at);
    case OpAdvance(_) => WorkKeptMatches(db, d, t, at);
  }

  lemma StepMatches(db: Db, op: Op, t: string, at: int -> Instant)
    requires LeasesSound(db) && t in db.tasks && AllValid(at) && TestsAgree(db, t, at)
    ensures Matches(db, Step(db, op), MoveOf(db, op, t, at), t, at)
  {
    if op.OpLeaseTask? {
      LeaseOpIs(db, op, t, at);
      LeaseOpMatches(db, op, Step(db, op), MoveOf(db, op, t, at), t, at);
    } else if op.OpHeartbeat? {
      HeartbeatOpIs(db, op, t, at);
      HeartbeatOpMatches(db, op, Heartbeat(db, op.beating, op.beatFence, op.beatTtl, op.beatLag), t, at);
    } else if op.OpCompleteTask? {
      CompletionOpMatches(db, op, t, at);
    } else if IsLeaseOp(op) {
      PlainOpMatches(db, op, t, at);
    } else {
      ContentKeepsTask(db, op, t);
      WorkKeptMatches(db, Step(db, op), t, at);
    }
  }

  /** The move of a request, and then the time that has passed. */
  ghost function MovesOf(db: Db, op: Op, t: string, at: int -> Instant): seq<Move>
  {
    var m := MoveOf(db, op, t, at);
    (if m == None then [] else [m.value]) + [Wait(at(Step(db, op).clock))]
  }

  /** Time never runs back in a step, and a move takes none. */
  lemma WaitMatches(db: Db, d: Db, m: Option<Move>, t: string, at: int -> Instant)
    requires t in db.tasks && ReadsTime(at) && db.clock <= d.clock && Matches(db, d, m, t, at)
    requires m != None ==> !m.value.Wait?
    ensures After(View(db, t, at), (if m == None then [] else [m.value]) + [Wait(at(d.clock))]) == View(d, t, at)
  {
    var w, now := View(db, t, at), Wait(at(d.clock));
    var moves := (if m == None then [] else [m.value]) + [now];
    assert Next(Moved(w, m), now) == View(d, t, at);
    assert After(Moved(w, m), [now]) == Next(Moved(w, m), now) by {
      assert [now][1..] == [];
    }
    if m == None {
      assert moves == [now];
    } else {
      assert moves[0] == m.value && moves[1..] == [now];
    }
  }

  lemma StepFollowsMachine(db: Db, op: Op, t: string, at: int -> Instant)
    requires LeasesSound(db) && t in db.tasks && ReadsTime(at) && TestsAgree(db, t, at)
    ensures t in Step(db, op).tasks
    ensures After(View(db, t, at), MovesOf(db, op, t, at)) == View(Step(db, op), t, at)
  {
    StepMatches(db, op, t, at);
    ClockAdvances(db, op);
    WaitMatches(db, Step(db, op), MoveOf(db, op, t, at), t, at);
  }

  /** The moves of the run from moment i on. */
  ghost function MovesFrom(ops: seq<Op>, i: nat, t: string, at: int -> Instant): seq<Move>
    requires i <= |ops|
    decreases |ops| - i
  {
    if i == |ops| then [] else MovesOf(Run(ops[..i]), ops[i], t, at) + MovesFrom(ops, i + 1, t, at)
  }

  lemma {:induction false} AfterBoth(w: World, a: seq<Move>, b: seq<Move>)
    ensures After(w, a + b) == After(After(w, a), b)
    decreases |a|
  {
    if a == [] {
      assert a + b == b;
    } else {
      assert (a + b)[1..] == a[1..] + b;
      AfterBoth(Next(w, a[0]), a[1..], b);
    }
  }

  /** Every run of the store, from any moment at which the task exists, is a run of
      the machine, request by request, accepted or refused, as long as the two
      tests agree about the task's lease whenever a request is made. */
  lemma {:induction false} RunFollowsMachine(ops: seq<Op>, i: nat, t: string, at: int -> Instant)
    requires i <= |ops| && t in Run(ops[..i]).tasks && ReadsTime(at)
    requires forall j :: i <= j < |ops| ==> TestsAgree(Run(ops[..j]), t, at)
    ensures t in Run(ops).tasks
    ensures After(View(Run(ops[..i]), t, at), MovesFrom(ops, i, t, at)) == View(Run(ops), t, at)
    decreases |ops| - i
  {
    if i == |ops| {
      assert ops[..i] == ops;
    } else {
      RunIsSound(ops[..i]);
      StepFollowsMachine(Run(ops[..i]), ops[i], t, at);
      RunNext(ops, i);
      RunFollowsMachine(ops, i + 1, t, at);
      AfterBoth(View(Run(ops[..i]), t, at), MovesOf(Run(ops[..i]), ops[i], t, at), MovesFrom(ops, i + 1, t, at));
    }
  }

  lemma ClockAdvances(db: Db, op: Op)
    ensures db.clock <= Step(db, op).clock
  {
    if Perform(db, op).Commit? && !IsLeaseOp(op) {
      match op
      case OpCreateRequirement(input) => CreateAdds(db, input);
      case OpUpdateRequirement(input, expected) => UpdateAdds(db, input, expected);
      case OpRetireRequirement(r) => RetireEffect(db, r);
      case OpReviewRequirement(input) => ReviewEffect(db, input);
      case OpCreateTask(input) => CreateTaskEffect(db, input);
      case OpCompleteTask(task, id, fence, commit) => CompletionLeaves(db, Step(db, op), task, id, fence, commit);
    }
  }
}
