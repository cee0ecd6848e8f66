/** Stored verdicts: where they can stand, what backs them, and that a stored
    "satisfied" outlives no change of anything upstream. */
module Verdicts {
  import opened Domain
  import opened Graph
  import opened Tables
  import opened Queries
  import opened Transactions
  import opened Soundness

  predicate IsVerdict(state: Option<Recon>)
  {
    state == Some(Satisfied) || state == Some(NotSatisfied)
  }

  /** Verdicts stand only on requirements actionable at their current revision. */
  ghost predicate VerdictsPlaced(db: Db)
  {
    forall id :: id in db.requirements && IsVerdict(db.requirements[id].state) ==> Actionable(db, CurrentRef(db, id))
  }

  /** The event changed the requirement itself or something upstream of it. */
  ghost predicate Disturbs(db: Db, e: Event, id: string)
  {
    match Changed(e)
    case None => false
    case Some(u) => u == id || Reaches(Edges(db), u, id)
  }

  /** An accept review of the current revision, with its event in the log. */
  ghost predicate Accepted(db: Db, id: string, commit: string)
    requires id in db.requirements
  {
    var key := ReviewKey(CurrentRef(db, id), commit);
    && key in db.reviews && db.reviews[key].verdict == Accept
    && db.reviews[key].reviewedAt < |db.audit|
    && db.audit[db.reviews[key].reviewedAt] == RequirementReviewed(key, Accept)
  }

  /** No later event created, revised or retired the requirement or anything
      upstream of it in the present graph. */
  ghost predicate AcceptedLast(db: Db, id: string, commit: string)
    requires id in db.requirements
  {
    && Accepted(db, id, commit)
    && forall j :: db.reviews[ReviewKey(CurrentRef(db, id), commit)].reviewedAt < j < |db.audit| ==>
         !Disturbs(db, db.audit[j], id)
  }

  ghost predicate NoOpenCause(db: Db, ref: Ref)
  {
    forall k :: k in db.causes && k.ref == ref ==> db.causes[k] == Resolved
  }

  ghost predicate Backed(db: Db, id: string)
    requires id in db.requirements
  {
    && NoOpenCause(db, CurrentRef(db, id))
    && (exists commit :: Accepted(db, id, commit))
    && (db.requirements[id].lifecycle == Active ==> exists commit :: AcceptedLast(db, id, commit))
  }

  ghost predicate VerdictsBacked(db: Db)
  {
    forall id :: id in db.requirements && db.requirements[id].state == Some(Satisfied) ==> Backed(db, id)
  }

  ghost predicate Trusted(db: Db)
  {
    Sound(db) && VerdictsPlaced(db) && VerdictsBacked(db)
  }

  /* ----- the graph under a change of content ----- */

  lemma SameContentSameEdges(db: Db, d: Db)
    requires SameContent(db, d)
    ensures Edges(db) == Edges(d)
  {
  }

  /** A revision rewrites only the edges into the revised requirement. */
  lemma RevisionAgrees(db: Db, d: Db, input: RequirementInput)
    requires RevisionAdded(db, d, input) && LinksSound(db) && RequirementsSound(db) && RevisionsSound(db)
    ensures AgreeExceptInto(Edges(db), Edges(d), input.id)
  {
    forall a, b | b != input.id
      ensures (a, b) in Edges(db) <==> (a, b) in Edges(d)
    {
      EdgesAre(db, a, b);
      EdgesAre(d, a, b);
      if l :| Linked(db, a, b, l) {
        assert Linked(d, a, b, l);
      }
      if l :| Linked(d, a, b, l) {
        assert Linked(db, a, b, l);
      }
    }
  }

  /** Whatever reaches something exists. */
  lemma ReacherExists(db: Db, x: string, b: string)
    requires LinksSound(db) && RevisionsSound(db) && Reaches(Edges(db), x, b)
    ensures x in db.requirements
  {
  }

  /* ----- verdicts stay on actionable leaves ----- */

  /** Rows of other requirements that keep a verdict through a revision. */
  ghost predicate KeptVerdict(db: Db, d: Db, input: RequirementInput, id: string)
    requires id in db.requirements && id in d.requirements
  {
    && d.requirements[id] == db.requirements[id]
    && (input.level == System ==> forall p :: p in input.parents ==> p.id != id)
  }

  /** The only active child a revision can add is the revision itself. */
  lemma RevisionChildren(db: Db, d: Db, input: RequirementInput, parent: Ref, c: Ref)
    requires LinksSound(db) && RevisionAdded(db, d, input) && c in Children(d, parent)
    ensures c in Children(db, parent) || (c == Ref(input.id, input.revision) && parent in input.parents)
  {
  }

  /** Only system requirements refine a stakeholder requirement. */
  lemma StakeholderChildren(d: Db, parent: Ref, c: Ref)
    requires LinksSound(d) && parent in d.revisions && d.revisions[parent].level == Stakeholder
    requires c in Children(d, parent)
    ensures c in d.revisions && d.revisions[c].level == System
  {
  }

  lemma RevisionKeepsActionable(db: Db, d: Db, input: RequirementInput, id: string)
    requires LinksSound(db) && LinksSound(d) && RevisionAdded(db, d, input)
    requires id in db.requirements && id != input.id && KeptVerdict(db, d, input, id)
    requires Actionable(db, CurrentRef(db, id))
    ensures CurrentRef(d, id) == CurrentRef(db, id) && Actionable(d, CurrentRef(d, id))
  {
    var ref := CurrentRef(db, id);
    if db.revisions[ref].level == Stakeholder {
      forall c
        ensures c !in Children(d, ref)
      {
        if c in Children(d, ref) {
          RevisionChildren(db, d, input, ref, c);
          StakeholderChildren(d, ref, c);
        }
      }
    }
  }

  lemma UpdateKeepsVerdict(db: Db, d: Db, input: RequirementInput, id: string)
    requires id in db.requirements && id in d.requirements && d.requirements[id] == RowAfterUpdate(db, d, input, id)
    requires IsVerdict(d.requirements[id].state)
    ensures KeptVerdict(db, d, input, id)
    ensures !(id in Downstream(d, input.id) && Actionable(d, CurrentRef(d, id)))
  {
  }

  /** The row, its revision and its reviews are the ones it had. */
  ghost predicate SameBasis(db: Db, d: Db, id: string)
  {
    && id in db.requirements && id in d.requirements
    && CurrentRef(d, id) == CurrentRef(db, id)
    && (forall k :: k in db.reviews ==> k in d.reviews && d.reviews[k] == db.reviews[k])
    && |db.audit| <= |d.audit| && db.audit == d.audit[..|db.audit|]
  }

  lemma AcceptedStays(db: Db, d: Db, id: string, commit: string)
    requires SameBasis(db, d, id) && Accepted(db, id, commit)
    ensures Accepted(d, id, commit)
  {
  }

  /** A change of x leaves an acceptance the latest word on everything that x
      does not reach. */
  lemma AcceptedLastStays(db: Db, d: Db, id: string, commit: string, x: string, e: Event)
    requires SameBasis(db, d, id) && AcceptedLast(db, id, commit)
    requires d.audit == db.audit + [e] && Changed(e) == Some(x)
    requires AgreeExceptInto(Edges(db), Edges(d), x)
    requires id != x && !Reaches(Edges(d), x, id)
    ensures AcceptedLast(d, id, commit)
  {
    AcceptedStays(db, d, id, commit);
    ReachFromSame(Edges(db), Edges(d), x, id);
    forall j | db.reviews[ReviewKey(CurrentRef(db, id), commit)].reviewedAt < j < |d.audit|
      ensures !Disturbs(d, d.audit[j], id)
    {
      if j < |db.audit| {
        assert !Disturbs(db, db.audit[j], id);
        var c := Changed(d.audit[j]);
        if c.Some? && Reaches(Edges(d), c.value, id) {
          ReachSurvives(Edges(db), Edges(d), x, c.value, id);
        }
      }
    }
  }

  /** Events that change no requirement disturb no acceptance. */
  lemma AcceptedLastQuiet(db: Db, d: Db, id: string, commit: string)
    requires SameBasis(db, d, id) && AcceptedLast(db, id, commit)
    requires Edges(db) == Edges(d) && AuditExtends(db, d)
    ensures AcceptedLast(d, id, commit)
  {
    AcceptedStays(db, d, id, commit);
    forall j | db.reviews[ReviewKey(CurrentRef(db, id), commit)].reviewedAt < j < |d.audit|
      ensures !Disturbs(d, d.audit[j], id)
    {
      if j < |db.audit| {
        assert !Disturbs(db, db.audit[j], id);
        assert d.audit[..|db.audit|][j] == d.audit[j];
      }
    }
  }

  lemma BackedStays(db: Db, d: Db, id: string, x: string, e: Event)
    requires SameBasis(db, d, id) && Backed(db, id)
    requires d.audit == db.audit + [e] && Changed(e) == Some(x)
    requires AgreeExceptInto(Edges(db), Edges(d), x)
    requires d.requirements[id].lifecycle == Active ==>
               db.requirements[id].lifecycle == Active && id != x && !Reaches(Edges(d), x, id)
    requires NoOpenCause(d, CurrentRef(d, id))
    ensures Backed(d, id)
  {
    var commit :| Accepted(db, id, commit);
    AcceptedStays(db, d, id, commit);
    if d.requirements[id].lifecycle == Active {
      var last :| AcceptedLast(db, id, last);
      AcceptedLastStays(db, d, id, last, x, e);
    }
  }

  lemma BackedQuiet(db: Db, d: Db, id: string)
    requires SameBasis(db, d, id) && Backed(db, id)
    requires Edges(db) == Edges(d) && AuditExtends(db, d)
    requires db.requirements[id].lifecycle == d.requirements[id].lifecycle
    requires NoOpenCause(d, CurrentRef(d, id))
    ensures Backed(d, id)
  {
    var commit :| Accepted(db, id, commit);
    AcceptedStays(db, d, id, commit);
    if d.requirements[id].lifecycle == Active {
      var last :| AcceptedLast(db, id, last);
      AcceptedLastQuiet(db, d, id, last);
    }
  }

  /* ----- create ----- */

  lemma CreateKeepsPlaced(db: Db, d: Db, input: RequirementInput)
    requires LinksSound(db) && LinksSound(d) && VerdictsPlaced(db)
    requires CreateRequirement(db, input) == Commit(d)
    ensures VerdictsPlaced(d)
  {
    CreateAdds(db, input);
    forall id | id in d.requirements && IsVerdict(d.requirements[id].state)
      ensures Actionable(d, CurrentRef(d, id))
    {
      if id != input.id {
        assert KeptVerdict(db, d, input, id);
        RevisionKeepsActionable(db, d, input, id);
      }
    }
  }

  lemma CreateKeepsRowBacked(db: Db, d: Db, input: RequirementInput, id: string)
    requires LinksSound(db) && RevisionsSound(db)
    requires RevisionAdded(db, d, input) && AgreeExceptInto(Edges(db), Edges(d), input.id)
    requires input.id !in db.requirements && d.reviews == db.reviews && d.causes == db.causes
    requires d.audit == db.audit + [RequirementCreated(Ref(input.id, input.revision))]
    requires id in db.requirements && Backed(db, id) && d.requirements[id] == db.requirements[id]
    ensures Backed(d, id)
  {
    ReachFromSame(Edges(db), Edges(d), input.id, id);
    if Reaches(Edges(db), input.id, id) {
      ReacherExists(db, input.id, id);
    }
    BackedStays(db, d, id, input.id, RequirementCreated(Ref(input.id, input.revision)));
  }

  lemma CreateKeepsBacked(db: Db, d: Db, input: RequirementInput)
    requires Sound(db) && VerdictsBacked(db)
    requires CreateRequirement(db, input) == Commit(d)
    ensures VerdictsBacked(d)
  {
    CreateAdds(db, input);
    RevisionAgrees(db, d, input);
    forall id | id in d.requirements && d.requirements[id].state == Some(Satisfied)
      ensures Backed(d, id)
    {
      CreateKeepsRowBacked(db, d, input, id);
    }
  }

  /* ----- update ----- */

  lemma UpdateKeepsPlaced(db: Db, d: Db, input: RequirementInput, expected: int)
    requires LinksSound(db) && LinksSound(d) && VerdictsPlaced(db)
    requires UpdateRequirement(db, input, expected) == Commit(d)
    ensures VerdictsPlaced(d)
  {
    UpdateAdds(db, input, expected);
    forall id | id in d.requirements && IsVerdict(d.requirements[id].state)
      ensures Actionable(d, CurrentRef(d, id))
    {
      if id != input.id {
        UpdateKeepsVerdict(db, d, input, id);
        RevisionKeepsActionable(db, d, input, id);
      }
    }
  }

  lemma NewCausesElsewhere(d: Db, items: set<string>, cause: Ref, id: string)
    requires items <= d.requirements.Keys && id in d.requirements && id !in items
    ensures forall k :: k in NewCauses(d, items, cause) ==> k.ref != CurrentRef(d, id)
  {
  }

  lemma UpdateKeepsRowBacked(db: Db, d: Db, input: RequirementInput, id: string)
    requires RevisionAdded(db, d, input) && AgreeExceptInto(Edges(db), Edges(d), input.id)
    requires d.reviews == db.reviews
    requires d.causes == NewCauses(d, Downstream(d, input.id), Ref(input.id, input.revision)) + db.causes
    requires d.audit == db.audit + [RequirementRevised(Ref(input.id, input.revision))]
    requires id in db.requirements && id != input.id && d.requirements[id] == RowAfterUpdate(db, d, input, id)
    requires Backed(db, id) && d.requirements[id].state == Some(Satisfied) && Actionable(d, CurrentRef(d, id))
    ensures Backed(d, id)
  {
    UpdateKeepsVerdict(db, d, input, id);
    NewCausesElsewhere(d, Downstream(d, input.id), Ref(input.id, input.revision), id);
    BackedStays(db, d, id, input.id, RequirementRevised(Ref(input.id, input.revision)));
  }

  lemma UpdatedRowsBacked(db: Db, d: Db, input: RequirementInput)
    requires VerdictsBacked(db) && VerdictsPlaced(d)
    requires RevisionAdded(db, d, input) && AgreeExceptInto(Edges(db), Edges(d), input.id)
    requires d.reviews == db.reviews
    requires d.causes == NewCauses(d, Downstream(d, input.id), Ref(input.id, input.revision)) + db.causes
    requires d.audit == db.audit + [RequirementRevised(Ref(input.id, input.revision))]
    requires d.requirements[input.id].state != Some(Satisfied)
    requires forall id :: id in db.requirements && id != input.id ==>
             d.requirements[id] == RowAfterUpdate(db, d, input, id)
    ensures VerdictsBacked(d)
  {
    forall id | id in d.requirements && d.requirements[id].state == Some(Satisfied)
      ensures Backed(d, id)
    {
      UpdateKeepsVerdict(db, d, input, id);
      UpdateKeepsRowBacked(db, d, input, id);
    }
  }

  /** What an update does that matters to stored verdicts. */
  ghost predicate Updated(db: Db, d: Db, input: RequirementInput)
  {
    && RevisionAdded(db, d, input) && d.reviews == db.reviews
    && d.causes == NewCauses(d, Downstream(d, input.id), Ref(input.id, input.revision)) + db.causes
    && d.audit == db.audit + [RequirementRevised(Ref(input.id, input.revision))]
    && d.requirements[input.id].state != Some(Satisfied)
    && forall id :: id in db.requirements && id != input.id ==> d.requirements[id] == RowAfterUpdate(db, d, input, id)
  }

  lemma UpdateIsUpdated(db: Db, d: Db, input: RequirementInput, expected: int)
    requires UpdateRequirement(db, input, expected) == Commit(d)
    ensures Updated(db, d, input)
  {
    UpdateAdds(db, input, expected);
  }

  lemma UpdatedKeepsBacked(db: Db, d: Db, input: RequirementInput)
    requires LinksSound(db) && RequirementsSound(db) && RevisionsSound(db)
    requires VerdictsBacked(db) && VerdictsPlaced(d) && Updated(db, d, input)
    ensures VerdictsBacked(d)
  {
    RevisionAgrees(db, d, input);
    UpdatedRowsBacked(db, d, input);
  }

  /* ----- retire ----- */

  lemma RetireKeepsVerdict(db: Db, d: Db, id: string, b: string)
    requires id in db.requirements && b in db.requirements && b in d.requirements
    requires d.requirements[b] == RowAfterRetire(db, d, id, b) && IsVerdict(d.requirements[b].state)
    ensures d.requirements[b].state == db.requirements[b].state
    ensures d.requirements[b].lifecycle == (if b == id then Retired else db.requirements[b].lifecycle)
    ensures !(b in Downstream(d, id) && Actionable(d, CurrentRef(d, b)))
  {
  }

  /** Retirement takes children away and adds none. */
  lemma RetireChildren(db: Db, d: Db, parent: Ref)
    requires SameContent(db, d)
    requires forall b :: b in db.requirements && d.requirements[b].lifecycle == Active ==>
             db.requirements[b].lifecycle == Active
    ensures Children(d, parent) <= Children(db, parent)
    ensures Actionable(db, parent) ==> Actionable(d, parent)
  {
  }

  lemma RetireKeepsPlaced(db: Db, d: Db, id: string)
    requires VerdictsPlaced(db) && RetireRequirement(db, id) == Commit(d)
    ensures VerdictsPlaced(d)
  {
    RetireEffect(db, id);
    forall b | b in d.requirements && IsVerdict(d.requirements[b].state)
      ensures Actionable(d, CurrentRef(d, b))
    {
      RetireKeepsVerdict(db, d, id, b);
      RetireChildren(db, d, CurrentRef(db, b));
    }
  }

  lemma RetireKeepsBacked(db: Db, d: Db, id: string)
    requires VerdictsBacked(db) && VerdictsPlaced(d) && RetireRequirement(db, id) == Commit(d)
    ensures VerdictsBacked(d)
  {
    RetireEffect(db, id);
    SameContentSameEdges(db, d);
    forall b | b in d.requirements && d.requirements[b].state == Some(Satisfied)
      ensures Backed(d, b)
    {
      RetireKeepsVerdict(db, d, id, b);
      NewCausesElsewhere(d, Downstream(d, id), CurrentRef(db, id), b);
      BackedStays(db, d, b, id, RequirementRetired(id));
    }
  }

  /* ----- reviews, work and leases ----- */

  lemma JudgedBacksItself(db: Db, d: Db, ref: Ref, commit: string)
    requires Judged(db, d, ref, commit, Accept)
    ensures Backed(d, ref.id)
  {
    assert CurrentRef(d, ref.id) == ref;
    var key := ReviewKey(ref, commit);
    assert d.reviews[key].reviewedAt == |db.audit|;
    assert AcceptedLast(d, ref.id, commit);
  }

  lemma JudgedKeepsTrust(db: Db, d: Db, ref: Ref, commit: string, verdict: Verdict)
    requires VerdictsPlaced(db) && VerdictsBacked(db) && Judged(db, d, ref, commit, verdict)
    ensures VerdictsPlaced(d) && VerdictsBacked(d)
  {
    JudgedTouches(db, d, ref, commit, verdict);
    assert SameGraph(db, d);
    SameGraphSameQueries(db, d);
    assert AuditExtends(db, d);
    forall id | id in d.requirements && d.requirements[id].state == Some(Satisfied)
      ensures Backed(d, id)
    {
      if id == ref.id {
        JudgedBacksItself(db, d, ref, commit);
      } else {
        BackedQuiet(db, d, id);
      }
    }
    forall id | id in d.requirements && IsVerdict(d.requirements[id].state)
      ensures Actionable(d, CurrentRef(d, id))
    {
      assert CurrentRef(d, id) == CurrentRef(db, id);
    }
  }

  /** Steps that keep graph, reviews and causes, and give no verdict. */
  lemma QuietKeepsTrust(db: Db, d: Db)
    requires VerdictsPlaced(db) && VerdictsBacked(db)
    requires SameGraph(db, d) && d.reviews == db.reviews && d.causes == db.causes && AuditExtends(db, d)
    requires forall id :: id in db.requirements && IsVerdict(d.requirements[id].state) ==>
               d.requirements[id].state == db.requirements[id].state
    ensures VerdictsPlaced(d) && VerdictsBacked(d)
  {
    SameGraphSameQueries(db, d);
    forall id | id in d.requirements && d.requirements[id].state == Some(Satisfied)
      ensures Backed(d, id)
    {
      BackedQuiet(db, d, id);
    }
    forall id | id in d.requirements && IsVerdict(d.requirements[id].state)
      ensures Actionable(d, CurrentRef(d, id))
    {
      assert CurrentRef(d, id) == CurrentRef(db, id);
    }
  }

  lemma ReviewKeepsTrust(db: Db, d: Db, input: ReviewInput)
    requires VerdictsPlaced(db) && VerdictsBacked(db) && ReviewRequirement(db, input) == Commit(d)
    ensures VerdictsPlaced(d) && VerdictsBacked(d)
  {
    ReviewEffect(db, input);
    if d != db {
      JudgedKeepsTrust(db, d, ReviewedRef(db, input), input.commit, input.verdict);
    }
  }

  lemma CompleteKeepsTrust(db: Db, d: Db, task: string, id: LeaseId, fence: int, commit: string)
    requires VerdictsPlaced(db) && VerdictsBacked(db) && CompleteTask(db, task, id, fence, commit) == Commit(d)
    ensures VerdictsPlaced(d) && VerdictsBacked(d)
  {
    CompleteEffect(db, task, id, fence, commit);
    QuietKeepsTrust(db, d);
  }

  lemma CreateTaskKeepsTrust(db: Db, d: Db, input: TaskInput)
    requires VerdictsPlaced(db) && VerdictsBacked(db) && CreateTask(db, input) == Commit(d)
    ensures VerdictsPlaced(d) && VerdictsBacked(d)
  {
    CreateTaskEffect(db, input);
    QuietKeepsTrust(db, d);
  }

  lemma StepKeepsVerdicts(db: Db, op: Op)
    requires Trusted(db) && Sound(Step(db, op))
    ensures VerdictsPlaced(Step(db, op)) && VerdictsBacked(Step(db, op))
  {
    var tx := Perform(db, op);
    if IsLeaseOp(op) {
      LeaseOpEffect(db, op);
      if tx.Commit? {
        QuietKeepsTrust(db, tx.db);
      }
    } else if tx.Commit? {
      match op
      case OpCreateRequirement(input) => CreateKeepsPlaced(db, tx.db, input); CreateKeepsBacked(db, tx.db, input);
      case OpUpdateRequirement(input, expected) =>
        UpdateKeepsPlaced(db, tx.db, input, expected);
        UpdateIsUpdated(db, tx.db, input, expected);
        UpdatedKeepsBacked(db, tx.db, input);
      case OpRetireRequirement(id) => RetireKeepsPlaced(db, tx.db, id); RetireKeepsBacked(db, tx.db, id);
      case OpReviewRequirement(input) => ReviewKeepsTrust(db, tx.db, input);
      case OpCreateTask(input) => CreateTaskKeepsTrust(db, tx.db, input);
      case OpCompleteTask(task, id, fence, commit) => CompleteKeepsTrust(db, tx.db, task, id, fence, commit);
    }
  }

  lemma {:induction false} RunIsTrusted(ops: seq<Op>)
    ensures Trusted(Run(ops))
  {
    if ops != [] {
      RunIsTrusted(ops[..|ops| - 1]);
      StepKeepsSound(Run(ops[..|ops| - 1]), ops[|ops| - 1]);
      StepKeepsVerdicts(Run(ops[..|ops| - 1]), ops[|ops| - 1]);
    }
  }

  /* ----- main results ----- */

  /** The content or lifecycle of id differs between the two. */
  ghost predicate ContentChanged(db: Db, d: Db, id: string)
  {
    id in d.requirements && (id in db.requirements ==>
      || d.requirements[id].current != db.requirements[id].current
      || d.requirements[id].lifecycle != db.requirements[id].lifecycle)
  }

  /** A single event was appended, and it names id. */
  ghost predicate Logged(db: Db, d: Db, id: string)
  {
    |d.audit| == |db.audit| + 1 && d.audit[..|db.audit|] == db.audit && Changed(d.audit[|db.audit|]) == Some(id)
  }

  lemma CreateIsLogged(db: Db, d: Db, input: RequirementInput, id: string)
    requires CreateRequirement(db, input) == Commit(d) && ContentChanged(db, d, id)
    ensures Logged(db, d, id)
  {
    CreateAdds(db, input);
  }

  lemma UpdateIsLogged(db: Db, d: Db, input: RequirementInput, expected: int, id: string)
    requires UpdateRequirement(db, input, expected) == Commit(d) && ContentChanged(db, d, id)
    ensures Logged(db, d, id)
  {
    UpdateAdds(db, input, expected);
  }

  lemma RetireIsLogged(db: Db, d: Db, x: string, id: string)
    requires RetireRequirement(db, x) == Commit(d) && ContentChanged(db, d, id)
    ensures Logged(db, d, id)
  {
  }

  /** Whatever a step changes about the content or lifecycle of a requirement,
      the audit log names that requirement. */
  lemma ChangesAreLogged(db: Db, op: Op, id: string)
    requires ContentChanged(db, Step(db, op), id)
    ensures Logged(db, Step(db, op), id)
  {
    var tx := Perform(db, op);
    if IsLeaseOp(op) {
      LeaseOpEffect(db, op);
    } else if tx.Commit? {
      match op
      case OpCreateRequirement(input) => CreateIsLogged(db, tx.db, input, id);
      case OpUpdateRequirement(input, expected) => UpdateIsLogged(db, tx.db, input, expected, id);
      case OpRetireRequirement(r) => RetireIsLogged(db, tx.db, r, id);
      case OpReviewRequirement(input) => ReviewEffect(db, input);
      case OpCreateTask(input) => CreateTaskEffect(db, input);
      case OpCompleteTask(task, l, fence, commit) => CompleteEffect(db, task, l, fence, commit);
    }
  }

  lemma BackedIsNeverStale(db: Db, id: string)
    requires id in db.requirements && db.requirements[id].lifecycle == Active && Backed(db, id)
    ensures exists k, commit :: 0 <= k < |db.audit|
              && db.audit[k] == RequirementReviewed(ReviewKey(CurrentRef(db, id), commit), Accept)
              && forall j :: k < j < |db.audit| && Changed(db.audit[j]).Some? ==>
                   && Changed(db.audit[j]).value != id
                   && !Reaches(Edges(db), Changed(db.audit[j]).value, id)
  {
  }

  /** A satisfied active requirement was accepted, at its current revision,
      after the last creation, revision or retirement of itself and of every
      requirement upstream of it, through retired ones and around cycles. */
  lemma SatisfiedIsNeverStale(ops: seq<Op>, id: string)
    requires id in Run(ops).requirements
    requires Run(ops).requirements[id].lifecycle == Active && Run(ops).requirements[id].state == Some(Satisfied)
    ensures var db := Run(ops);
            exists k, commit :: 0 <= k < |db.audit|
              && db.audit[k] == RequirementReviewed(ReviewKey(CurrentRef(db, id), commit), Accept)
              && forall j :: k < j < |db.audit| && Changed(db.audit[j]).Some? ==>
                   && Changed(db.audit[j]).value != id
                   && !Reaches(Edges(db), Changed(db.audit[j]).value, id)
  {
    RunIsTrusted(ops);
    BackedIsNeverStale(Run(ops), id);
  }

  /** A stored verdict belongs to an actionable leaf; "satisfied" rests on an
      accept review of the current revision and leaves no cause open. */
  lemma VerdictsRest(ops: seq<Op>, id: string)
    requires id in Run(ops).requirements && IsVerdict(Run(ops).requirements[id].state)
    ensures Actionable(Run(ops), CurrentRef(Run(ops), id))
    ensures Run(ops).requirements[id].state == Some(Satisfied) ==>
              && NoOpenCause(Run(ops), CurrentRef(Run(ops), id))
              && exists k :: k in Run(ops).reviews && k.ref == CurrentRef(Run(ops), id)
                  && Run(ops).reviews[k].verdict == Accept
  {
    RunIsTrusted(ops);
    var db := Run(ops);
    if db.requirements[id].state == Some(Satisfied) {
      assert Backed(db, id);
      var commit :| Accepted(db, id, commit);
      assert ReviewKey(CurrentRef(db, id), commit).ref == CurrentRef(db, id);
    }
  }

  /** A verdict that stands after a step and already stood before it. */
  ghost predicate VerdictStood(db: Db, d: Db, id: string)
  {
    id in d.requirements && IsVerdict(d.requirements[id].state) ==>
      id in db.requirements && db.requirements[id].state == d.requirements[id].state
  }

  lemma CreateGivesNoVerdict(db: Db, d: Db, input: RequirementInput, id: string)
    requires CreateRequirement(db, input) == Commit(d)
    ensures VerdictStood(db, d, id)
  {
    CreateAdds(db, input);
  }

  lemma UpdateGivesNoVerdict(db: Db, d: Db, input: RequirementInput, expected: int, id: string)
    requires UpdateRequirement(db, input, expected) == Commit(d)
    ensures VerdictStood(db, d, id)
  {
  }

  lemma RetireGivesNoVerdict(db: Db, d: Db, x: string, id: string)
    requires RetireRequirement(db, x) == Commit(d)
    ensures VerdictStood(db, d, id)
  {
  }

  /** Requests other than reviews leave verdicts alone or take them away. */
  lemma OthersGiveNoVerdict(db: Db, op: Op, id: string)
    requires !op.OpReviewRequirement?
    ensures VerdictStood(db, Step(db, op), id)
  {
    var tx := Perform(db, op);
    if IsLeaseOp(op) {
      LeaseOpEffect(db, op);
    } else if tx.Commit? {
      match op
      case OpCreateRequirement(input) => CreateGivesNoVerdict(db, tx.db, input, id);
      case OpUpdateRequirement(input, expected) => UpdateGivesNoVerdict(db, tx.db, input, expected, id);
      case OpRetireRequirement(r) => RetireGivesNoVerdict(db, tx.db, r, id);
      case OpCreateTask(input) => CreateTaskEffect(db, input);
      case OpCompleteTask(task, l, fence, commit) => CompleteEffect(db, task, l, fence, commit);
    }
  }

  lemma ReviewJudges(db: Db, d: Db, input: ReviewInput, id: string)
    requires ReviewRequirement(db, input) == Commit(d) && id in db.requirements && id in d.requirements
    requires d.requirements[id].state != db.requirements[id].state
    ensures input.ref.id == id && StoredState(db.requirements[id].state) != Satisfied
    ensures d.requirements[id].state == Some(if input.verdict == Accept then Satisfied else NotSatisfied)
    ensures ReviewKey(CurrentRef(db, id), input.commit) !in db.reviews
  {
  }

  /** Only a newly stored review gives a verdict, and never to a requirement
      that is satisfied: no step leads from satisfied to not satisfied. */
  lemma OnlyReviewsJudge(db: Db, op: Op, id: string)
    requires id in Step(db, op).requirements && IsVerdict(Step(db, op).requirements[id].state)
    requires id in db.requirements ==> Step(db, op).requirements[id].state != db.requirements[id].state
    ensures op.OpReviewRequirement? && op.review.ref.id == id
    ensures id in db.requirements && StoredState(db.requirements[id].state) != Satisfied
    ensures Step(db, op).requirements[id].state == Some(if op.review.verdict == Accept then Satisfied else NotSatisfied)
    ensures ReviewKey(CurrentRef(db, id), op.review.commit) !in db.reviews
  {
    if op.OpReviewRequirement? {
      if Perform(db, op).Commit? {
        ReviewEffect(db, op.review);
        ReviewJudges(db, Step(db, op), op.review, id);
      }
    } else {
      OthersGiveNoVerdict(db, op, id);
    }
  }

  /** Submitting a commit that was already reviewed at the current revision
      changes nothing at all, so an invalidated accept cannot come back. */
  lemma ResubmissionChangesNothing(db: Db, input: ReviewInput)
    requires input.ref.id in db.requirements
    requires ReviewKey(CurrentRef(db, input.ref.id), input.commit) in db.reviews
    ensures Step(db, OpReviewRequirement(input)) == db
  {
  }

  /** After a new review, the same submission is accepted again without effect,
      and any other one for the same revision and commit is a conflict. */
  lemma ReviewIsIdempotent(db: Db, d: Db, input: ReviewInput, again: ReviewInput)
    requires ReviewRequirement(db, input) == Commit(d) && d != db
    requires again.ref == input.ref && again.commit == input.commit
    ensures ReviewRequirement(d, again) ==
            if again == input then Commit(d) else Abort(Conflict)
  {
    ReviewEffect(db, input);
    JudgedTouches(db, d, ReviewedRef(db, input), input.commit, input.verdict);
    JudgedKeepsLeaf(db, d, ReviewedRef(db, input), input.commit, input.verdict);
    StoresReview(db, d, input);
  }

  /** What a step may do to the stored causes: add some, and resolve those of a
      revision whose acceptance it stores. */
  ghost predicate CausesKept(db: Db, d: Db, k: CauseKey)
    requires k in db.causes
  {
    k in d.causes && (d.causes[k] == db.causes[k] ||
      (d.causes[k] == Resolved && exists commit ::
         d.audit == db.audit + [RequirementReviewed(ReviewKey(k.ref, commit), Accept)]))
  }

  lemma ReviewKeepsCauses(db: Db, d: Db, input: ReviewInput, k: CauseKey)
    requires ReviewRequirement(db, input) == Commit(d) && k in db.causes
    ensures CausesKept(db, d, k)
  {
    ReviewEffect(db, input);
    if d != db && k.ref == ReviewedRef(db, input) && input.verdict == Accept {
      assert d.audit == db.audit + [RequirementReviewed(ReviewKey(k.ref, input.commit), Accept)];
    }
  }

  /** A cause is never lost, a resolved one never opens again, and only storing
      an accept review of the caused revision resolves one. */
  lemma OnlyAcceptsResolve(db: Db, op: Op, k: CauseKey)
    requires k in db.causes
    ensures CausesKept(db, Step(db, op), k)
  {
    var tx := Perform(db, op);
    if IsLeaseOp(op) {
      LeaseOpEffect(db, op);
    } else if tx.Commit? {
      match op
      case OpCreateRequirement(input) => CreateAdds(db, input);
      case OpUpdateRequirement(input, expected) => UpdateAdds(db, input, expected);
      case OpRetireRequirement(r) => RetireEffect(db, r);
      case OpReviewRequirement(input) => ReviewKeepsCauses(db, tx.db, input, k);
      case OpCreateTask(input) => CreateTaskEffect(db, input);
      case OpCompleteTask(task, l, fence, commit) => CompleteEffect(db, task, l, fence, commit);
    }
  }

  /** A completed task moves a requirement exactly if it links to its current
      revision, which is a leaf that is not satisfied; the requirement is then
      pending. The task is complete at the commit and its lease is gone. */
  lemma CompletionCorrectsExactly(db: Db, d: Db, task: string, id: LeaseId, fence: int, commit: string, b: string)
    requires CompleteTask(db, task, id, fence, commit) == Commit(d) && b in db.requirements
    ensures b in d.requirements
    ensures d.requirements[b].state != db.requirements[b].state <==>
            && Actionable(db, CurrentRef(db, b)) && db.requirements[b].state == Some(NotSatisfied)
            && exists l :: l in db.taskLinks && l.task == task && l.ref == CurrentRef(db, b)
    ensures d.requirements[b].state == db.requirements[b].state || d.requirements[b].state == Some(PendingReview)
    ensures d.tasks[task].state == Complete && d.tasks[task].commit == Some(commit) && task !in d.leases
  {
    var links := TaskLinksOf(db, task);
    if l :| l in db.taskLinks && l.task == task && l.ref == CurrentRef(db, b) {
      assert l in links && IsCurrent(db, l.ref);
    }
    if b in CorrectedBy(db, links) {
      var l :| l in links && Corrected(db, l) && l.ref.id == b;
      assert l.ref == CurrentRef(db, b);
    }
  }

  lemma JudgedKeepsLeaf(db: Db, d: Db, ref: Ref, commit: string, verdict: Verdict)
    requires Judged(db, d, ref, commit, verdict)
    ensures ActiveCurrent(d, ref) && Actionable(d, ref) && CurrentRef(d, ref.id) == ref
  {
  }

  lemma StoresReview(db: Db, d: Db, input: ReviewInput)
    requires ReviewRequirement(db, input) == Commit(d) && d != db
    ensures var key := ReviewKey(ReviewedRef(db, input), input.commit);
            key in d.reviews && d.reviews[key] == Review(input.verdict, input.task, input.findings, |db.audit|)
  {
  }
}
