/** Task dependencies: completion respects them over whole runs, and work can
    always go on while no task is closed. */
module TaskOrder {
  import opened Domain
  import opened Graph
  import opened Tables
  import opened Queries
  import opened Transactions
  import opened Soundness
  import opened Leases

  ghost predicate DependenciesComplete(db: Db, t: string)
  {
    forall d :: d in db.taskDependencies && d.task == t ==>
      d.dependency in db.tasks && db.tasks[d.dependency].state == Complete
  }

  /** Leased and completed tasks have their direct dependencies complete. */
  ghost predicate Ordered(db: Db)
  {
    forall t :: t in db.leases || (t in db.tasks && db.tasks[t].state == Complete) ==> DependenciesComplete(db, t)
  }

  /** What a step does to dependencies, leases and completed tasks. */
  ghost predicate WorkMoves(db: Db, d: Db)
  {
    && (forall e :: e in d.taskDependencies && e !in db.taskDependencies ==> e.task !in db.tasks && e.task !in d.leases)
    && (forall t :: t in d.leases && t !in db.leases ==> t in db.tasks && !HasIncompleteDependency(db, t))
    && (forall t :: t in d.tasks && d.tasks[t].state == Complete ==>
          t in db.tasks && (db.tasks[t].state == Complete || t in db.leases))
  }

  lemma CreateTaskMoves(db: Db, d: Db, input: TaskInput)
    requires LeasesSound(db) && CreateTask(db, input) == Commit(d)
    ensures WorkMoves(db, d)
  {
  }

  lemma LeaseTaskMoves(db: Db, d: Db, id: string, agent: string, ttl: int, lag: nat)
    requires LeaseTask(db, id, agent, ttl, lag) == Commit(d)
    ensures WorkMoves(db, d)
  {
  }

  lemma StepMovesWork(db: Db, op: Op)
    requires LeasesSound(db)
    ensures WorkMoves(db, Step(db, op))
  {
    var tx := Perform(db, op);
    if tx.Commit? {
      match op
      case OpCreateRequirement(input) => CreateAdds(db, input);
      case OpUpdateRequirement(input, expected) => UpdateAdds(db, input, expected);
      case OpRetireRequirement(id) => RetireEffect(db, id);
      case OpReviewRequirement(input) => ReviewEffect(db, input);
      case OpCreateTask(input) => CreateTaskMoves(db, tx.db, input);
      case OpLeaseTask(id, agent, ttl, lag) => LeaseTaskMoves(db, tx.db, id, agent, ttl, lag);
      case _ =>
    }
  }

  lemma MovesKeepOrder(db: Db, d: Db)
    requires TasksSound(db) && LeasesSound(db) && Ordered(db) && WorkMoves(db, d) && Progress(db, d)
    ensures Ordered(d)
  {
  }

  lemma {:induction false} RunIsOrdered(ops: seq<Op>)
    ensures Ordered(Run(ops))
  {
    if ops != [] {
      var db := Run(ops[..|ops| - 1]);
      RunIsOrdered(ops[..|ops| - 1]);
      RunIsSound(ops[..|ops| - 1]);
      RunFollowsProtocol(ops[..|ops| - 1]);
      StepAdvances(db, ops[|ops| - 1]);
      StepMovesWork(db, ops[|ops| - 1]);
      MovesKeepOrder(db, Step(db, ops[|ops| - 1]));
    }
  }

  lemma TaskEdgesAre(db: Db, t: string, u: string)
    ensures (t, u) in TaskEdges(db) <==> TaskDependency(t, u) in db.taskDependencies
  {
  }

  lemma {:induction false} CompleteAllTheWay(db: Db, n: nat, t: string, u: string)
    requires Ordered(db) && (t in db.leases || (t in db.tasks && db.tasks[t].state == Complete))
    requires Steps(TaskEdges(db), n, t, u)
    ensures u in db.tasks && db.tasks[u].state == Complete
  {
    assert DependenciesComplete(db, t);
    if n == 0 {
      TaskEdgesAre(db, t, u);
      assert TaskDependency(t, u).task == t;
    } else {
      var m :| (t, m) in TaskEdges(db) && Steps(TaskEdges(db), n - 1, m, u);
      TaskEdgesAre(db, t, m);
      assert TaskDependency(t, m).task == t;
      CompleteAllTheWay(db, n - 1, m, u);
    }
  }

  /** Everything a leased or completed task depends on, directly or through
      other tasks, is complete. */
  lemma CompletionRespectsDependencies(ops: seq<Op>, t: string, u: string)
    requires t in Run(ops).leases || (t in Run(ops).tasks && Run(ops).tasks[t].state == Complete)
    requires Reaches(TaskEdges(Run(ops)), t, u)
    ensures u in Run(ops).tasks && Run(ops).tasks[u].state == Complete
  {
    RunIsOrdered(ops);
    var n: nat :| Steps(TaskEdges(Run(ops)), n, t, u);
    CompleteAllTheWay(Run(ops), n, t, u);
  }

  /** No task depends on itself, however indirectly. */
  lemma TasksAreAcyclic(ops: seq<Op>, t: string)
    ensures !Reaches(TaskEdges(Run(ops)), t, t)
  {
    RunIsSound(ops);
    var db := Run(ops);
    var births: map<string, int> := map u | u in db.tasks :: db.tasks[u].createdAt;
    forall e | e in TaskEdges(db)
      ensures e.0 in births && e.1 in births && births[e.1] < births[e.0]
    {
      TaskEdgesAre(db, e.0, e.1);
    }
    RankedIsAcyclic(TaskEdges(db), births, t);
  }

  lemma {:induction false} Proceeds(db: Db, t: string) returns (u: string)
    requires TasksSound(db) && t in db.tasks && db.tasks[t].state == TaskOpen
    requires forall c :: Reaches(TaskEdges(db), t, c) ==> c in db.tasks && db.tasks[c].state != Closed
    ensures u == t || Reaches(TaskEdges(db), t, u)
    ensures u in db.tasks && db.tasks[u].state == TaskOpen && DependenciesComplete(db, u)
    decreases db.tasks[t].createdAt
  {
    u := t;
    if !DependenciesComplete(db, t) {
      var d :| d in db.taskDependencies && d.task == t && db.tasks[d.dependency].state != Complete;
      var m := d.dependency;
      TaskEdgesAre(db, t, m);
      EdgeReaches(TaskEdges(db), t, m);
      forall c | Reaches(TaskEdges(db), m, c)
        ensures c in db.tasks && db.tasks[c].state != Closed
      {
        Prepend(TaskEdges(db), t, m, c);
      }
      u := Proceeds(db, m);
      if u != m {
        Prepend(TaskEdges(db), t, m, u);
      }
    }
  }

  /** An open task that depends on no closed task can make progress: it, or
      something it depends on, is open with every dependency complete. */
  lemma OpenTaskCanProceed(ops: seq<Op>, t: string)
    requires t in Run(ops).tasks && Run(ops).tasks[t].state == TaskOpen
    requires forall c :: c in Run(ops).tasks && Reaches(TaskEdges(Run(ops)), t, c) ==> Run(ops).tasks[c].state != Closed
    ensures exists u :: (u == t || Reaches(TaskEdges(Run(ops)), t, u))
                        && u in Run(ops).tasks && Run(ops).tasks[u].state == TaskOpen
                            && DependenciesComplete(Run(ops), u)
  {
    RunIsSound(ops);
    var db := Run(ops);
    forall c | Reaches(TaskEdges(db), t, c)
      ensures c in db.tasks
    {
      var n: nat :| Steps(TaskEdges(db), n, t, c);
      var m := LastEdge(TaskEdges(db), n, t, c);
      TaskEdgesAre(db, m, c);
    }
    var u := Proceeds(db, t);
  }

  lemma {:induction false} DependenciesPersist(ops: seq<Op>, i: nat)
    requires i <= |ops|
    ensures Run(ops[..i]).taskDependencies <= Run(ops).taskDependencies
    decreases |ops|
  {
    if i == |ops| {
      assert ops[..i] == ops;
    } else {
      var shorter := ops[..|ops| - 1];
      assert shorter[..i] == ops[..i];
      DependenciesPersist(shorter, i);
      StepKeepsDependencies(Run(shorter), ops[|ops| - 1]);
    }
  }

  lemma StepKeepsDependencies(db: Db, op: Op)
    ensures db.taskDependencies <= Step(db, op).taskDependencies
  {
  }

  lemma {:induction false} StepsGrow(few: set<(string, string)>, many: set<(string, string)>, n: nat, a: string,
      b: string)
    requires few <= many && Steps(few, n, a, b)
    ensures Steps(many, n, a, b)
  {
    if n > 0 {
      var m :| (a, m) in few && Steps(few, n - 1, m, b);
      StepsGrow(few, many, n - 1, m, b);
    }
  }

  /** An open task that depends, however indirectly, on a closed one is blocked
      for good: no continuation of the run ever completes it. */
  lemma ClosedDependencyBlocksForever(ops: seq<Op>, i: nat, t: string, c: string)
    requires i <= |ops|
    requires t in Run(ops[..i]).tasks && Run(ops[..i]).tasks[t].state == TaskOpen
    requires c in Run(ops[..i]).tasks && Run(ops[..i]).tasks[c].state == Closed
    requires Reaches(TaskEdges(Run(ops[..i])), t, c)
    ensures t in Run(ops).tasks && Run(ops).tasks[t].state != Complete && t !in Run(ops).leases
  {
    PrefixAdvances(ops, i);
    assert TaskMoves(Run(ops[..i]), Run(ops), t);
    FinishedStaysFinished(ops, i, c);
    DependenciesPersist(ops, i);
    var n: nat :| Steps(TaskEdges(Run(ops[..i])), n, t, c);
    assert TaskEdges(Run(ops[..i])) <= TaskEdges(Run(ops));
    StepsGrow(TaskEdges(Run(ops[..i])), TaskEdges(Run(ops)), n, t, c);
    RunIsOrdered(ops);
    if t in Run(ops).leases || Run(ops).tasks[t].state == Complete {
      CompleteAllTheWay(Run(ops), n, t, c);
    }
  }
}
