/** When the transactions on tasks and leases commit, which error they give
    otherwise, and what they leave, told from the rows of the tables. */
module TaskAcceptance {
  import opened Domain
  import opened Tables
  import opened Queries
  import opened Transactions
  import opened Soundness
  import opened Acceptance
  import Leases

  /* ----- creating tasks ----- */

  /** The first i dependencies are other stored tasks, each named once. */
  predicate DependenciesFit(db: Db, input: TaskInput, i: nat)
    requires i <= |input.dependsOn|
  {
    forall j :: 0 <= j < i ==>
      && input.dependsOn[j] in db.tasks && input.dependsOn[j] != input.id
      && forall k :: 0 <= k < j ==> input.dependsOn[k] != input.dependsOn[j]
  }

  /** The first i links name leaf revisions, each once for its purpose. */
  predicate LinksFit(db: Db, input: TaskInput, i: nat)
    requires i <= |input.requirements|
  {
    forall j :: 0 <= j < i ==>
      && IsLeafRevision(db, input.requirements[j].ref)
      && forall k :: 0 <= k < j ==> input.requirements[k] != input.requirements[j]
  }

  lemma {:induction false} FirstBadDependency(db: Db, input: TaskInput, i: nat, from: nat)
    requires from <= i <= |input.dependsOn| && DependenciesFit(db, input, i)
    ensures DependencyError(db, input, from) == DependencyError(db, input, i)
    decreases i - from
  {
    if from < i {
      assert input.dependsOn[from] !in input.dependsOn[..from];
      FirstBadDependency(db, input, i, from + 1);
    }
  }

  lemma {:induction false} FirstBadLink(db: Db, input: TaskInput, i: nat, from: nat)
    requires from <= i <= |input.requirements| && LinksFit(db, input, i)
    ensures LinkError(db, input, from) == LinkError(db, input, i)
    decreases i - from
  {
    if from < i {
      assert input.requirements[from] !in input.requirements[..from];
      LeafRevisionIs(db, input.requirements[from].ref);
      FirstBadLink(db, input, i, from + 1);
    }
  }

  /** Which error: a taken identifier is a conflict; otherwise the first row that
      does not fit decides, dependencies before links. */
  lemma TaskErrors(db: Db, input: TaskInput)
    ensures input.id in db.tasks ==> CreateTask(db, input) == Abort(Conflict)
    ensures forall i :: 0 <= i < |input.dependsOn| && input.id !in db.tasks
                        && DependenciesFit(db, input, i) && !DependenciesFit(db, input, i + 1) ==>
              CreateTask(db, input) ==
              if input.dependsOn[i] !in db.tasks && input.dependsOn[i] != input.id then Abort(NotFound)
              else Abort(Constraint)
    ensures forall i :: 0 <= i < |input.requirements| && input.id !in db.tasks
                        && DependenciesFit(db, input, |input.dependsOn|)
                        && LinksFit(db, input, i) && !LinksFit(db, input, i + 1) ==>
              CreateTask(db, input) ==
              if input.requirements[i].ref !in db.revisions then Abort(NotFound)
              else if !IsLeafRevision(db, input.requirements[i].ref) then Abort(Conflict)
              else Abort(Constraint)
  {
    forall i | 0 <= i < |input.dependsOn| && DependenciesFit(db, input, i) && !DependenciesFit(db, input, i + 1)
      ensures DependencyError(db, input, 0) ==
              Some(if input.dependsOn[i] !in db.tasks && input.dependsOn[i] != input.id then NotFound else Constraint)
    {
      BadDependency(db, input, i);
    }
    if DependenciesFit(db, input, |input.dependsOn|) {
      FirstBadDependency(db, input, |input.dependsOn|, 0);
    }
    forall i | 0 <= i < |input.requirements| && LinksFit(db, input, i) && !LinksFit(db, input, i + 1)
      ensures LinkError(db, input, 0) ==
              Some(if input.requirements[i].ref !in db.revisions then NotFound
                   else if !IsLeafRevision(db, input.requirements[i].ref) then Conflict
                   else Constraint)
    {
      BadLink(db, input, i);
    }
  }

  lemma BadDependency(db: Db, input: TaskInput, i: nat)
    requires i < |input.dependsOn| && DependenciesFit(db, input, i) && !DependenciesFit(db, input, i + 1)
    ensures DependencyError(db, input, 0) ==
            Some(if input.dependsOn[i] !in db.tasks && input.dependsOn[i] != input.id then NotFound else Constraint)
  {
    FirstBadDependency(db, input, i, 0);
    if k :| 0 <= k < i && input.dependsOn[k] == input.dependsOn[i] {
      assert input.dependsOn[..i][k] == input.dependsOn[i];
    }
  }

  lemma BadLink(db: Db, input: TaskInput, i: nat)
    requires i < |input.requirements| && LinksFit(db, input, i) && !LinksFit(db, input, i + 1)
    ensures LinkError(db, input, 0) ==
            Some(if input.requirements[i].ref !in db.revisions then NotFound
                 else if !IsLeafRevision(db, input.requirements[i].ref) then Conflict
                 else Constraint)
  {
    FirstBadLink(db, input, i, 0);
    LeafRevisionIs(db, input.requirements[i].ref);
    if k :| 0 <= k < i && input.requirements[k] == input.requirements[i] {
      assert input.requirements[..i][k] == input.requirements[i];
    }
  }

  /* ----- claiming ----- */

  /** No row of the table keeps the task from being worked on. */
  ghost predicate NothingHoldsUp(db: Db, t: string)
  {
    && (forall l :: l in db.taskLinks && l.task == t ==>
          && IsLeafRevision(db, l.ref)
          && (l.ref.id in db.requirements ==> db.requirements[l.ref.id].lifecycle == Active))
    && (forall l, r :: l in db.taskLinks && l.task == t && DependsOn(db, l.ref, r) ==>
          && r.id in db.requirements && db.requirements[r.id].current == r.revision
          && db.requirements[r.id].lifecycle == Active && Effective(db, r.id) == Satisfied)
    && (forall u :: TaskDependency(t, u) in db.taskDependencies && u in db.tasks ==> db.tasks[u].state == Complete)
  }

  lemma NothingBlocks(db: Db, t: string)
    ensures NothingHoldsUp(db, t) <==>
            && !LinksNonLeaf(db, t) && !LinksRetired(db, t)
            && !TaskBlocked(db, t) && !HasIncompleteDependency(db, t)
  {
    forall l | l in db.taskLinks && l.task == t
      ensures IsLeafRevision(db, l.ref) <==> Actionable(db, l.ref)
    {
      LeafRevisionIs(db, l.ref);
    }
    UnblockedByRows(db, t);
    CompleteByRows(db, t);
  }

  lemma UnblockedByRows(db: Db, t: string)
    ensures !TaskBlocked(db, t) <==>
            forall l, r :: l in db.taskLinks && l.task == t && DependsOn(db, l.ref, r) ==>
              && r.id in db.requirements && db.requirements[r.id].current == r.revision
              && db.requirements[r.id].lifecycle == Active && Effective(db, r.id) == Satisfied
  {
    if TaskBlocked(db, t) {
      var l :| l in db.taskLinks && l.task == t && RequirementBlocked(db, l.ref);
      var r :| DependsOn(db, l.ref, r) && !Met(db, r);
    }
    forall l, r | l in db.taskLinks && l.task == t && DependsOn(db, l.ref, r) && !TaskBlocked(db, t)
      ensures Met(db, r)
    {
      assert !RequirementBlocked(db, l.ref);
    }
  }

  lemma CompleteByRows(db: Db, t: string)
    ensures !HasIncompleteDependency(db, t) <==>
            forall u :: TaskDependency(t, u) in db.taskDependencies && u in db.tasks ==> db.tasks[u].state == Complete
  {
    if d :| d in db.taskDependencies && d.task == t &&
            d.dependency in db.tasks && db.tasks[d.dependency].state != Complete {
      assert TaskDependency(t, d.dependency) in db.taskDependencies;
    }
  }

  /** A claim commits exactly for an open task that nothing holds up and nobody
      holds. An unknown task is not found; every other refusal is a conflict. */
  lemma LeaseCommitsExactly(db: Db, t: string, agent: string, ttl: int, lag: nat)
    ensures LeaseTask(db, t, agent, ttl, lag).Commit? <==>
            && t in db.tasks && db.tasks[t].state == TaskOpen && NothingHoldsUp(db, t)
            && (t in db.leases ==> db.leases[t].expires <= db.clock)
    ensures LeaseTask(db, t, agent, ttl, lag) == Abort(NotFound) <==> t !in db.tasks
    ensures LeaseTask(db, t, agent, ttl, lag).Abort? && t in db.tasks ==>
              LeaseTask(db, t, agent, ttl, lag) == Abort(Conflict)
  {
    NothingBlocks(db, t);
  }

  /** What a claim leaves: one lease, for the agent that asked, under the next
      fence and from the moment of the claim on; and the fence on the task. */
  lemma LeaseLeaves(db: Db, d: Db, t: string, agent: string, ttl: int, lag: nat)
    requires LeaseTask(db, t, agent, ttl, lag) == Commit(d)
    ensures t in db.tasks && t in d.leases
    ensures d == db.(tasks := d.tasks, leases := d.leases, clock := db.clock + lag,
                     audit := db.audit + [TaskLeased(t, d.leases[t].fence)])
    ensures d.tasks == db.tasks[t := db.tasks[t].(fence := d.leases[t].fence)]
    ensures d.leases - {t} == db.leases - {t}
    ensures d.leases[t].agent == agent && d.leases[t].fence == db.tasks[t].fence + 1
    ensures d.leases[t].id.task == t && d.leases[t].id.claimed == d.clock && d.leases[t].expires == d.clock + ttl
  {
  }

  /* ----- holding ----- */

  /** A heartbeat commits exactly for the stored lease, at its fence, in time; any
      other one is a conflict. It moves the expiry, later or earlier, and nothing
      else of the lease. */
  lemma HeartbeatCommitsExactly(db: Db, id: LeaseId, fence: int, ttl: int, lag: nat)
    ensures var tx := Heartbeat(db, id, fence, ttl, lag);
            if id.task in db.leases && db.leases[id.task].id == id && db.leases[id.task].fence == fence
               && db.clock < db.leases[id.task].expires
            then tx == Commit(db.(leases := tx.db.leases, clock := db.clock + lag,
                                  audit := db.audit + [LeaseHeartbeat(id)]))
                 && id.task in tx.db.leases && tx.db.leases - {id.task} == db.leases - {id.task}
                 && tx.db.leases[id.task] == Lease(id, db.leases[id.task].agent, fence, tx.db.clock + ttl)
            else tx == Abort(Conflict)
  {
  }

  /** A release commits exactly for the stored lease at its fence, in time or
      not; any other one is a conflict. The lease is gone and nothing else. */
  lemma ReleaseCommitsExactly(db: Db, id: LeaseId, fence: int)
    ensures var tx := Release(db, id, fence);
            if id.task in db.leases && db.leases[id.task].id == id && db.leases[id.task].fence == fence
            then tx == Commit(db.(leases := tx.db.leases, audit := db.audit + [LeaseReleased(id)]))
                 && id.task !in tx.db.leases && tx.db.leases == db.leases - {id.task}
            else tx == Abort(Conflict)
  {
  }

  /* ----- finishing ----- */

  /** A completion commits exactly for the stored lease of the task, at its fence,
      in time, whatever the fence is; any other one is a conflict. */
  lemma CompleteCommitsExactly(db: Db, t: string, id: LeaseId, fence: int, commit: string)
    requires LeasesSound(db)
    ensures var tx := CompleteTask(db, t, id, fence, commit);
            if t in db.leases && db.leases[t].id == id && db.leases[t].fence == fence
               && db.clock < db.leases[t].expires
            then tx.Commit? else tx == Abort(Conflict)
  {
  }

  /** What a completion leaves, requirements aside: the task complete at the
      commit, and no lease on it. */
  lemma CompletionLeaves(db: Db, d: Db, t: string, id: LeaseId, fence: int, commit: string)
    requires CompleteTask(db, t, id, fence, commit) == Commit(d)
    ensures t in db.tasks && t in d.tasks && t !in d.leases
    ensures d == db.(tasks := d.tasks, leases := db.leases - {t}, requirements := d.requirements,
                     audit := db.audit + [TaskCompleted(t)])
    ensures d.tasks - {t} == db.tasks - {t}
    ensures d.tasks[t].state == Complete && d.tasks[t].commit == Some(commit)
    ensures d.tasks[t].fence == db.tasks[t].fence && d.tasks[t].createdAt == db.tasks[t].createdAt
  {
  }

  lemma HeldCompletes(db: Db, t: string, f: nat, commit: string)
    requires LeasesSound(db) && Leases.Held(db, t, f)
    ensures CompleteTask(db, t, db.leases[t].id, f, commit).Commit?
    ensures var d := CompleteTask(db, t, db.leases[t].id, f, commit).db;
            t in d.tasks && d.tasks[t].state == Complete && d.tasks[t].commit == Some(commit) && t !in d.leases
  {
    CompleteCommitsExactly(db, t, db.leases[t].id, f, commit);
    CompletionLeaves(db, CompleteTask(db, t, db.leases[t].id, f, commit).db, t, db.leases[t].id, f, commit);
  }

  /** In every run, whoever holds a task can complete it, under any fence and at
      any commit. */
  lemma HolderCanComplete(ops: seq<Op>, t: string, f: nat, commit: string)
    requires Leases.Held(Run(ops), t, f)
    ensures CompleteTask(Run(ops), t, Run(ops).leases[t].id, f, commit).Commit?
    ensures var d := CompleteTask(Run(ops), t, Run(ops).leases[t].id, f, commit).db;
            t in d.tasks && d.tasks[t].state == Complete && d.tasks[t].commit == Some(commit) && t !in d.leases
  {
    RunIsSound(ops);
    HeldCompletes(Run(ops), t, f, commit);
  }

  lemma HeldGoesOn(db: Db, t: string, f: nat, ttl: int, lag: nat, delay: nat)
    requires LeasesSound(db) && Leases.Held(db, t, f)
    ensures var d := Step(Step(db, OpHeartbeat(db.leases[t].id, f, ttl, lag)), OpAdvance(delay));
            && (Leases.Held(d, t, f) <==> delay < ttl)
            && t in d.leases && d.leases[t].id == db.leases[t].id && d.leases[t].agent == db.leases[t].agent
  {
    HeartbeatCommitsExactly(db, db.leases[t].id, f, ttl, lag);
  }

  /** In every run, whoever holds a task can send a heartbeat, and then holds it as
      the same agent for exactly the time asked for, more or less than before. */
  lemma HolderCanGoOn(ops: seq<Op>, t: string, f: nat, ttl: int, lag: nat, delay: nat)
    requires Leases.Held(Run(ops), t, f)
    ensures var d := Step(Step(Run(ops), OpHeartbeat(Run(ops).leases[t].id, f, ttl, lag)), OpAdvance(delay));
            && (Leases.Held(d, t, f) <==> delay < ttl)
            && t in d.leases && d.leases[t].id == Run(ops).leases[t].id && d.leases[t].agent == Run(ops).leases[t].agent
  {
    RunIsSound(ops);
    HeldGoesOn(Run(ops), t, f, ttl, lag, delay);
  }

  lemma ClaimedIsHeld(db: Db, d: Db, t: string, agent: string, ttl: int, lag: nat)
    requires LeasesSound(db) && LeaseTask(db, t, agent, ttl, lag) == Commit(d)
    ensures LeasesSound(d) && t in db.tasks && t in d.leases && d.leases[t].agent == agent
    ensures d.leases[t].fence == db.tasks[t].fence + 1 && d.leases[t].expires == d.clock + ttl
  {
    LeaseLeaves(db, d, t, agent, ttl, lag);
    forall u | u in d.leases && u != t
      ensures u in db.leases && d.leases[u] == db.leases[u]
    {
      assert u in d.leases - {t} && u in db.leases - {t};
    }
  }

  lemma ClaimCompletes(db: Db, d: Db, t: string, agent: string, ttl: int, lag: nat, delay: nat, commit: string)
    requires LeasesSound(db) && LeaseTask(db, t, agent, ttl, lag) == Commit(d) && delay < ttl
    ensures t in db.tasks && t in d.leases && d.leases[t].agent == agent
    ensures CompleteTask(d.(clock := d.clock + delay), t, d.leases[t].id, db.tasks[t].fence + 1, commit).Commit?
  {
    ClaimedIsHeld(db, d, t, agent, ttl, lag);
    HeldCompletes(d.(clock := d.clock + delay), t, db.tasks[t].fence + 1, commit);
  }

  /** Whoever leases a task, as the first or after any number of others, can
      complete it while the time to live lasts. */
  lemma NextHolderCanComplete(ops: seq<Op>, d: Db, t: string, agent: string, ttl: int, lag: nat, delay: nat,
      commit: string)
    requires LeaseTask(Run(ops), t, agent, ttl, lag) == Commit(d) && delay < ttl
    ensures t in Run(ops).tasks && t in d.leases && d.leases[t].agent == agent
    ensures CompleteTask(Step(d, OpAdvance(delay)), t, d.leases[t].id, Run(ops).tasks[t].fence + 1, commit).Commit?
  {
    RunIsSound(ops);
    ClaimCompletes(Run(ops), d, t, agent, ttl, lag, delay, commit);
  }

  /** A close commits exactly for an open task that nobody holds. An unknown task
      is not found; every other refusal is a conflict. */
  lemma CloseCommitsExactly(db: Db, t: string)
    ensures CloseTask(db, t).Commit? <==>
            && t in db.tasks && db.tasks[t].state == TaskOpen
            && (t in db.leases ==> db.leases[t].expires <= db.clock)
    ensures CloseTask(db, t) == Abort(NotFound) <==> t !in db.tasks
    ensures CloseTask(db, t).Abort? && t in db.tasks ==> CloseTask(db, t) == Abort(Conflict)
    ensures var tx := CloseTask(db, t);
            tx.Commit? ==>
              && tx.db == db.(tasks := tx.db.tasks, audit := db.audit + [TaskClosed(t)])
              && tx.db.tasks == db.tasks[t := db.tasks[t].(state := Closed,
                   log := db.tasks[t].log + [Change(Some(TaskOpen), Closed)])]
  {
  }
}
