/** What the keys, the input checks and the order of the transactions keep true
    of the tables: levels, current revisions, and links that only lead back in
    time. */
module Soundness {
  import opened Domain
  import opened Tables
  import opened Queries
  import opened Transactions

  ghost predicate RequirementsSound(db: Db)
  {
    forall id :: id in db.requirements ==>
      && CurrentRef(db, id) in db.revisions
      && (db.revisions[CurrentRef(db, id)].level == Business ==> db.requirements[id].state == None)
  }

  ghost predicate RevisionsSound(db: Db)
  {
    forall r :: r in db.revisions ==>
      && r.id in db.requirements && 1 <= r.revision <= db.requirements[r.id].current
      && IdMatches(db.revisions[r].level, r.id) && db.revisions[r].createdAt < |db.audit|
  }

  /** Links name stored revisions, and the parent revision is the older one. */
  ghost predicate LinksBack(db: Db, l: Link)
  {
    && l.child in db.revisions && l.parent in db.revisions
    && db.revisions[l.parent].createdAt < db.revisions[l.child].createdAt
    && l.child.id != l.parent.id
  }

  ghost predicate LinksSound(db: Db)
  {
    && (forall l :: l in db.refinements ==>
        LinksBack(db, l) && Refines(db.revisions[l.child].level, db.revisions[l.parent].level))
    && (forall l :: l in db.dependencies ==> LinksBack(db, l))
  }

  ghost predicate ReferencesSound(db: Db)
  {
    && (forall k :: k in db.reviews ==> k.ref in db.revisions)
    && (forall k :: k in db.causes ==> k.ref in db.revisions && k.cause in db.revisions)
    && (forall l :: l in db.taskLinks ==> l.task in db.tasks && l.ref in db.revisions)
  }

  ghost predicate TasksSound(db: Db)
  {
    && (forall t :: t in db.tasks ==> db.tasks[t].createdAt < |db.audit|)
    && (forall d :: d in db.taskDependencies ==>
          d.task in db.tasks && d.dependency in db.tasks
              && db.tasks[d.dependency].createdAt < db.tasks[d.task].createdAt)
  }

  ghost predicate LeasesSound(db: Db)
  {
    forall t :: t in db.leases ==> t in db.tasks && db.leases[t].id.task == t && db.leases[t].fence == db.tasks[t].fence
  }

  ghost predicate Sound(db: Db)
  {
    && RequirementsSound(db) && RevisionsSound(db) && LinksSound(db)
    && ReferencesSound(db) && TasksSound(db) && LeasesSound(db)
  }

  /* ----- effects ----- */

  /** Rows keep their revision and lifecycle. */
  ghost predicate SameRevisions(before: map<string, Requirement>, after: map<string, Requirement>)
  {
    && before.Keys == after.Keys
    && forall id :: id in before ==> before[id].current == after[id].current
  }

  /** No revision or link is added and no current revision moves. */
  ghost predicate SameContent(db: Db, d: Db)
  {
    && d.revisions == db.revisions && d.refinements == db.refinements && d.dependencies == db.dependencies
    && SameRevisions(db.requirements, d.requirements)
  }

  ghost predicate SameWork(db: Db, d: Db)
  {
    d.tasks == db.tasks && d.taskLinks == db.taskLinks && d.taskDependencies == db.taskDependencies
    && d.leases == db.leases && d.expirations == db.expirations && d.clock == db.clock
  }

  /** What creating or revising a requirement does to revisions and links. */
  ghost predicate RevisionAdded(db: Db, d: Db, input: RequirementInput)
  {
    var ref := Ref(input.id, input.revision);
    && ref !in db.revisions
    && d.revisions == db.revisions[ref := Revision(input.level, |db.audit|)]
    && d.refinements == db.refinements + NewLinks(ref, input.parents)
    && d.dependencies == db.dependencies + NewLinks(ref, input.dependsOn)
    && (forall p :: p in input.parents + input.dependsOn ==> p in db.revisions && p.id != input.id)
    && d.requirements.Keys == db.requirements.Keys + {input.id}
    && d.requirements[input.id].current == input.revision
    && (forall id :: id in db.requirements && id != input.id ==>
          d.requirements[id].current == db.requirements[id].current
          && d.requirements[id].lifecycle == db.requirements[id].lifecycle)
    && |d.audit| == |db.audit| + 1
  }

  lemma CreateAdds(db: Db, input: RequirementInput)
    requires CreateRequirement(db, input).Commit?
    ensures var d := CreateRequirement(db, input).db;
            && RevisionAdded(db, d, input) && SameWork(db, d)
            && d.reviews == db.reviews && d.causes == db.causes
            && input.id !in db.requirements
            && d.audit == db.audit + [RequirementCreated(Ref(input.id, input.revision))]
            && d.requirements[input.id] == NewRow(input)
            && (forall id :: id in db.requirements ==>
                  d.requirements[id] ==
                  if input.level == System && exists p :: p in input.parents && p.id == id
                  then db.requirements[id].(state := None) else db.requirements[id])
  {
  }

  /** The row of another requirement after a revision of `input.id`. */
  ghost function RowAfterUpdate(db: Db, d: Db, input: RequirementInput, id: string): Requirement
    requires id in db.requirements && id in d.requirements
  {
    var cleared := if input.level == System && exists p :: p in input.parents && p.id == id
                   then db.requirements[id].(state := None) else db.requirements[id];
    if id in Downstream(d, input.id) && Actionable(d, CurrentRef(d, id))
    then WithState(cleared, PendingReview) else cleared
  }

  /** Only states, logs and causes may differ. */
  ghost predicate SameGraph(db: Db, d: Db)
  {
    && SameContent(db, d)
    && forall id :: id in db.requirements ==> db.requirements[id].lifecycle == d.requirements[id].lifecycle
  }

  lemma SameGraphSameQueries(db: Db, d: Db)
    requires SameGraph(db, d)
    ensures Edges(db) == Edges(d) && ChildEdges(db) == ChildEdges(d)
    ensures forall ref :: Children(db, ref) == Children(d, ref)
    ensures forall ref :: Actionable(db, ref) == Actionable(d, ref)
    ensures forall root :: Downstream(db, root) == Downstream(d, root)
  {
    forall ref: Ref
      ensures IsCurrent(db, ref) == IsCurrent(d, ref) && ActiveCurrent(db, ref) == ActiveCurrent(d, ref)
    {
    }
    assert Edges(db) == Edges(d);
    assert ChildEdges(db) == ChildEdges(d);
    forall ref: Ref
      ensures Children(db, ref) == Children(d, ref)
    {
    }
  }

  lemma UpdateKeepsGraph(db: Db, input: RequirementInput, expected: int)
    requires UpdateRequirement(db, input, expected).Commit?
    ensures SameGraph(Revise(db, input).db, UpdateRequirement(db, input, expected).db)
  {
  }

  lemma UpdateRevision(db: Db, input: RequirementInput, expected: int)
    requires UpdateRequirement(db, input, expected).Commit?
    ensures RevisionAdded(db, UpdateRequirement(db, input, expected).db, input)
  {
  }

  lemma UpdateOwnRow(db: Db, input: RequirementInput, expected: int)
    requires UpdateRequirement(db, input, expected).Commit?
    ensures var d := UpdateRequirement(db, input, expected).db;
            input.id in d.requirements && d.requirements[input.id] == RevisedRow(db.requirements[input.id], input)
  {
  }

  lemma UpdateOtherRow(db: Db, input: RequirementInput, expected: int, id: string)
    requires UpdateRequirement(db, input, expected).Commit? && id in db.requirements && id != input.id
    ensures var d := UpdateRequirement(db, input, expected).db;
            id in d.requirements && d.requirements[id] == RowAfterUpdate(db, d, input, id)
  {
    var e := Revise(db, input).db;
    var d := UpdateRequirement(db, input, expected).db;
    UpdateKeepsGraph(db, input, expected);
    SameGraphSameQueries(e, d);
    assert CurrentRef(e, id) == CurrentRef(d, id);
  }

  lemma UpdateRows(db: Db, input: RequirementInput, expected: int)
    requires UpdateRequirement(db, input, expected).Commit?
    ensures var d := UpdateRequirement(db, input, expected).db;
            && RevisionAdded(db, d, input)
            && d.requirements[input.id] == RevisedRow(db.requirements[input.id], input)
            && (forall id :: id in db.requirements && id != input.id ==>
                d.requirements[id] == RowAfterUpdate(db, d, input, id))
  {
    var d := UpdateRequirement(db, input, expected).db;
    UpdateRevision(db, input, expected);
    UpdateOwnRow(db, input, expected);
    forall id | id in db.requirements && id != input.id
      ensures d.requirements[id] == RowAfterUpdate(db, d, input, id)
    {
      UpdateOtherRow(db, input, expected, id);
    }
  }

  lemma UpdateAdds(db: Db, input: RequirementInput, expected: int)
    requires UpdateRequirement(db, input, expected).Commit?
    ensures var d := UpdateRequirement(db, input, expected).db;
            && RevisionAdded(db, d, input) && SameWork(db, d)
            && d.reviews == db.reviews
            && input.id in db.requirements && db.requirements[input.id].lifecycle == Active
            && input.revision == db.requirements[input.id].current + 1
            && d.requirements[input.id] == RevisedRow(db.requirements[input.id], input)
            && (forall id :: id in db.requirements && id != input.id ==>
                d.requirements[id] == RowAfterUpdate(db, d, input, id))
            && d.causes == NewCauses(d, Downstream(d, input.id), Ref(input.id, input.revision)) + db.causes
            && d.audit == db.audit + [RequirementRevised(Ref(input.id, input.revision))]
  {
    UpdateRows(db, input, expected);
    UpdateKeepsGraph(db, input, expected);
    SameCauses(Revise(db, input).db, UpdateRequirement(db, input, expected).db, input.id,
        Ref(input.id, input.revision));
  }

  /** How a transaction that adds no content may change a row: it leaves the
      state alone, or it marks or judges a row that is no business row. */
  ghost predicate RowsTouched(db: Db, d: Db)
  {
    && SameContent(db, d)
    && forall id :: id in db.requirements ==>
         d.requirements[id].state == db.requirements[id].state || Actionable(db, CurrentRef(db, id))
             || LeveledAbove(db, id)
  }

  ghost predicate LeveledAbove(db: Db, id: string)
    requires id in db.requirements
  {
    CurrentRef(db, id) in db.revisions && db.revisions[CurrentRef(db, id)].level != Business
  }

  /* ----- preservation ----- */

  ghost predicate NewLevelsSound(d: Db, input: RequirementInput)
  {
    && input.id in d.requirements
    && (input.level == Business ==> d.requirements[input.id].state == None)
  }

  lemma RevisionKeepsRows(db: Db, d: Db, input: RequirementInput)
    requires RequirementsSound(db) && RevisionAdded(db, d, input) && NewLevelsSound(d, input)
    requires forall id :: id in db.requirements && id != input.id ==>
               d.requirements[id].state == db.requirements[id].state || d.requirements[id].state == None
                   || LeveledAbove(db, id)
    ensures RequirementsSound(d)
  {
    forall id | id in d.requirements && id != input.id
      ensures CurrentRef(d, id) == CurrentRef(db, id) && CurrentRef(d, id) in db.revisions
    {
    }
  }

  lemma RevisionKeepsRevisions(db: Db, d: Db, input: RequirementInput)
    requires RevisionsSound(db) && ValidRequirement(input) && RevisionAdded(db, d, input)
    requires input.id in db.requirements ==> db.requirements[input.id].current <= input.revision
    ensures RevisionsSound(d)
  {
  }

  lemma RevisionKeepsLinks(db: Db, d: Db, input: RequirementInput)
    requires RevisionsSound(db) && LinksSound(db) && ValidRequirement(input) && RevisionAdded(db, d, input)
    ensures LinksSound(d)
  {
    var ref := Ref(input.id, input.revision);
    forall l | l in d.refinements
      ensures LinksBack(d, l) && Refines(d.revisions[l.child].level, d.revisions[l.parent].level)
    {
      if l !in db.refinements {
        assert l.child == ref && l.parent in input.parents;
        assert l.parent in input.parents + input.dependsOn;
        ParentLevel(input.level, db.revisions[l.parent].level, l.parent.id);
      }
    }
    forall l | l in d.dependencies
      ensures LinksBack(d, l)
    {
      if l !in db.dependencies {
        assert l.child == ref && l.parent in input.dependsOn;
        assert l.parent in input.parents + input.dependsOn;
      }
    }
  }

  lemma CreateKeepsSound(db: Db, input: RequirementInput)
    requires Sound(db) && ValidRequirement(input) && CreateRequirement(db, input).Commit?
    ensures Sound(CreateRequirement(db, input).db)
  {
    CreateAdds(db, input);
    CreatedIsSound(db, CreateRequirement(db, input).db, input);
  }

  lemma CreatedIsSound(db: Db, d: Db, input: RequirementInput)
    requires Sound(db) && ValidRequirement(input) && input.id !in db.requirements
    requires RevisionAdded(db, d, input) && SameWork(db, d) && d.reviews == db.reviews && d.causes == db.causes
    requires d.requirements[input.id] == NewRow(input)
    requires forall id :: id in db.requirements ==>
               d.requirements[id].state == db.requirements[id].state || d.requirements[id].state == None
    ensures Sound(d)
  {
    RevisionKeepsRows(db, d, input);
    RevisionKeepsRevisions(db, d, input);
    RevisionKeepsLinks(db, d, input);
  }

  /** An update leaves other rows alone, clears them, or marks leaves. */
  lemma UpdateTouches(db: Db, d: Db, input: RequirementInput, id: string)
    requires RequirementsSound(db) && RevisionAdded(db, d, input)
    requires id in db.requirements && id != input.id && d.requirements[id] == RowAfterUpdate(db, d, input, id)
    ensures d.requirements[id].state == db.requirements[id].state || d.requirements[id].state == None
            || LeveledAbove(db, id)
  {
  }

  lemma UpdateKeepsSound(db: Db, input: RequirementInput, expected: int)
    requires Sound(db) && ValidRequirement(input) && UpdateRequirement(db, input, expected).Commit?
    ensures Sound(UpdateRequirement(db, input, expected).db)
  {
    var d := UpdateRequirement(db, input, expected).db;
    UpdateAdds(db, input, expected);
    UpdatedIsSound(db, d, input);
  }

  lemma UpdatedIsSound(db: Db, d: Db, input: RequirementInput)
    requires Sound(db) && ValidRequirement(input)
    requires RevisionAdded(db, d, input) && SameWork(db, d) && d.reviews == db.reviews
    requires input.id in db.requirements && input.revision == db.requirements[input.id].current + 1
    requires d.requirements[input.id] == RevisedRow(db.requirements[input.id], input)
    requires forall id :: id in db.requirements && id != input.id ==>
             d.requirements[id] == RowAfterUpdate(db, d, input, id)
    requires d.causes == NewCauses(d, Downstream(d, input.id), Ref(input.id, input.revision)) + db.causes
    ensures Sound(d)
  {
    forall id | id in db.requirements && id != input.id
      ensures d.requirements[id].state == db.requirements[id].state || d.requirements[id].state == None
              || LeveledAbove(db, id)
    {
      UpdateTouches(db, d, input, id);
    }
    RevisionKeepsRows(db, d, input);
    RevisionKeepsRevisions(db, d, input);
    RevisionKeepsLinks(db, d, input);
    NewCausesSound(d, input.id, Ref(input.id, input.revision));
  }

  lemma NewCausesSound(d: Db, root: string, cause: Ref)
    requires RequirementsSound(d)
    ensures forall k :: k in NewCauses(d, Downstream(d, root), cause) ==> k.ref in d.revisions && k.cause == cause
  {
  }

  lemma ContentKeepsRows(db: Db, d: Db)
    requires RequirementsSound(db) && RowsTouched(db, d)
    ensures RequirementsSound(d)
  {
  }

  lemma ContentKeepsRevisions(db: Db, d: Db)
    requires RevisionsSound(db) && LinksSound(db) && SameContent(db, d) && |db.audit| <= |d.audit|
    ensures RevisionsSound(d) && LinksSound(d)
  {
  }

  /** Transactions that add no content keep the tables sound. */
  lemma ContentKeepsSound(db: Db, d: Db)
    requires Sound(db) && RowsTouched(db, d) && |db.audit| <= |d.audit|
    requires ReferencesSound(d) && TasksSound(d) && LeasesSound(d)
    ensures Sound(d)
  {
    ContentKeepsRows(db, d);
    ContentKeepsRevisions(db, d);
  }

  /** What a retirement does, row by row. */
  ghost function RowAfterRetire(db: Db, d: Db, id: string, b: string): Requirement
    requires id in db.requirements && b in db.requirements && b in d.requirements
  {
    var row := if b == id then RetiredRow(db.requirements[b]) else db.requirements[b];
    if (b in Downstream(d, id) && Actionable(d, CurrentRef(d, b))) || Freed(db, d, id, b)
    then WithState(row, PendingReview) else row
  }

  /** b owns a revision that the retiring system requirement refines and that
      is actionable afterwards. */
  ghost predicate Freed(db: Db, d: Db, id: string, b: string)
    requires id in db.requirements
  {
    exists p :: p in SystemParents(db, CurrentRef(db, id)) && Actionable(d, p) && p.id == b
  }

  lemma RetireKeepsGraph(db: Db, id: string)
    requires RetireRequirement(db, id).Commit?
    ensures SameGraph(RowRetired(db, id), RetireRequirement(db, id).db)
  {
  }

  lemma SameCauses(e: Db, d: Db, root: string, cause: Ref)
    requires SameGraph(e, d)
    ensures NewCauses(e, Downstream(e, root), cause) == NewCauses(d, Downstream(d, root), cause)
  {
    SameGraphSameQueries(e, d);
    forall id | id in e.requirements
      ensures CurrentRef(e, id) == CurrentRef(d, id)
    {
    }
    assert CauseKeys(e, Downstream(e, root), cause) == CauseKeys(d, Downstream(d, root), cause);
  }

  lemma RetireContent(db: Db, id: string)
    requires RetireRequirement(db, id).Commit?
    ensures id in db.requirements && SameContent(db, RetireRequirement(db, id).db)
  {
    RetireKeepsGraph(db, id);
  }

  lemma RetireOneRow(db: Db, id: string, b: string)
    requires RetireRequirement(db, id).Commit? && b in db.requirements
    ensures id in db.requirements && b in RetireRequirement(db, id).db.requirements
    ensures RetireRequirement(db, id).db.requirements[b] == RowAfterRetire(db, RetireRequirement(db, id).db, id, b)
  {
    var e, d := RowRetired(db, id), RetireRequirement(db, id).db;
    RetireKeepsGraph(db, id);
    SameGraphSameQueries(e, d);
    assert CurrentRef(e, b) == CurrentRef(d, b) == CurrentRef(db, b);
  }

  lemma RetireRows(db: Db, id: string)
    requires RetireRequirement(db, id).Commit?
    ensures var d := RetireRequirement(db, id).db;
            && id in db.requirements && SameContent(db, d)
            && (forall b :: b in db.requirements ==> d.requirements[b] == RowAfterRetire(db, d, id, b))
  {
    var d := RetireRequirement(db, id).db;
    RetireContent(db, id);
    forall b | b in db.requirements
      ensures d.requirements[b] == RowAfterRetire(db, d, id, b)
    {
      RetireOneRow(db, id, b);
    }
  }

  lemma RetireEffect(db: Db, id: string)
    requires RetireRequirement(db, id).Commit?
    ensures var d := RetireRequirement(db, id).db;
            && id in db.requirements && db.requirements[id].lifecycle == Active
            && SameContent(db, d) && SameWork(db, d) && d.reviews == db.reviews
            && d.audit == db.audit + [RequirementRetired(id)]
            && (forall b :: b in db.requirements ==> d.requirements[b] == RowAfterRetire(db, d, id, b))
            && d.causes == NewCauses(d, Downstream(d, id), CurrentRef(db, id)) + db.causes
  {
    RetireRows(db, id);
    RetireKeepsGraph(db, id);
    SameCauses(RowRetired(db, id), RetireRequirement(db, id).db, id, CurrentRef(db, id));
  }

  lemma RetireTouches(db: Db, d: Db, id: string, b: string)
    requires RequirementsSound(db) && RevisionsSound(db) && SameContent(db, d)
    requires id in db.requirements && b in db.requirements && d.requirements[b] == RowAfterRetire(db, d, id, b)
    ensures d.requirements[b].state == db.requirements[b].state || LeveledAbove(db, b)
  {
    assert CurrentRef(d, b) == CurrentRef(db, b);
    if Freed(db, d, id, b) && db.revisions[CurrentRef(db, b)].level == Business {
      var p :| p in SystemParents(db, CurrentRef(db, id)) && Actionable(d, p) && p.id == b;
      LevelIsUnique(db.revisions[p].level, Business, b);
    }
  }

  lemma RetireKeepsSound(db: Db, id: string)
    requires Sound(db) && RetireRequirement(db, id).Commit?
    ensures Sound(RetireRequirement(db, id).db)
  {
    RetireEffect(db, id);
    RetiredIsSound(db, RetireRequirement(db, id).db, id);
  }

  lemma RetiredIsSound(db: Db, d: Db, id: string)
    requires Sound(db) && id in db.requirements
    requires SameContent(db, d) && SameWork(db, d) && d.reviews == db.reviews && |db.audit| <= |d.audit|
    requires forall b :: b in db.requirements ==> d.requirements[b] == RowAfterRetire(db, d, id, b)
    requires d.causes == NewCauses(d, Downstream(d, id), CurrentRef(db, id)) + db.causes
    ensures Sound(d)
  {
    forall b | b in db.requirements
      ensures d.requirements[b].state == db.requirements[b].state || LeveledAbove(db, b)
    {
      RetireTouches(db, d, id, b);
    }
    ContentKeepsRows(db, d);
    ContentKeepsRevisions(db, d);
    NewCausesSound(d, id, CurrentRef(db, id));
  }

  /** A review that is stored and not a repetition. */
  ghost predicate Judged(db: Db, d: Db, ref: Ref, commit: string, verdict: Verdict)
  {
    var state := if verdict == Accept then Satisfied else NotSatisfied;
    && ActiveCurrent(db, ref) && Actionable(db, ref)
    && StoredState(db.requirements[ref.id].state) != Satisfied
    && ReviewKey(ref, commit) !in db.reviews
    && (exists r :: d.reviews == db.reviews[ReviewKey(ref, commit) := r] &&
                    r.verdict == verdict && r.reviewedAt == |db.audit|)
    && d.causes == (if verdict == Accept then ResolveCauses(db.causes, ref) else db.causes)
    && d.requirements == db.requirements[ref.id := WithState(db.requirements[ref.id], state)]
    && d.audit == db.audit + [RequirementReviewed(ReviewKey(ref, commit), verdict)]
    && d.revisions == db.revisions && d.refinements == db.refinements && d.dependencies == db.dependencies
    && SameWork(db, d)
  }

  function ReviewedRef(db: Db, input: ReviewInput): Ref
  {
    if input.ref.revision == 0 && input.ref.id in db.requirements then CurrentRef(db, input.ref.id) else input.ref
  }

  lemma ReviewEffect(db: Db, input: ReviewInput)
    requires ReviewRequirement(db, input).Commit?
    ensures var d := ReviewRequirement(db, input).db;
            if ReviewKey(ReviewedRef(db, input), input.commit) in db.reviews then d == db
            else Judged(db, d, ReviewedRef(db, input), input.commit, input.verdict)
  {
  }

  lemma JudgedTouches(db: Db, d: Db, ref: Ref, commit: string, verdict: Verdict)
    requires Judged(db, d, ref, commit, verdict)
    ensures RowsTouched(db, d)
    ensures d.causes.Keys == db.causes.Keys && d.reviews.Keys == db.reviews.Keys + {ReviewKey(ref, commit)}
  {
  }

  lemma JudgedIsSound(db: Db, d: Db, ref: Ref, commit: string, verdict: Verdict)
    requires Sound(db) && Judged(db, d, ref, commit, verdict)
    ensures Sound(d)
  {
    JudgedTouches(db, d, ref, commit, verdict);
    ContentKeepsRows(db, d);
    ContentKeepsRevisions(db, d);
    JudgedKeepsReferences(db, d, ref, commit, verdict);
  }

  lemma JudgedKeepsReferences(db: Db, d: Db, ref: Ref, commit: string, verdict: Verdict)
    requires ReferencesSound(db) && TasksSound(db) && LeasesSound(db) && Judged(db, d, ref, commit, verdict)
    requires d.causes.Keys == db.causes.Keys
    ensures ReferencesSound(d) && TasksSound(d) && LeasesSound(d)
  {
  }

  lemma ReviewKeepsSound(db: Db, input: ReviewInput)
    requires Sound(db) && ReviewRequirement(db, input).Commit?
    ensures Sound(ReviewRequirement(db, input).db)
  {
    ReviewEffect(db, input);
    var d := ReviewRequirement(db, input).db;
    if d != db {
      JudgedIsSound(db, d, ReviewedRef(db, input), input.commit, input.verdict);
    }
  }

  lemma {:induction false} LinksChecked(db: Db, input: TaskInput, i: nat)
    requires LinkError(db, input, i) == None
    ensures forall j :: i <= j < |input.requirements| ==>
      && input.requirements[j].ref in db.revisions && Actionable(db, input.requirements[j].ref)
      && input.requirements[j] !in input.requirements[..j]
    decreases |input.requirements| - i
  {
    if i < |input.requirements| {
      LinksChecked(db, input, i + 1);
    }
  }

  lemma {:induction false} DependenciesChecked(db: Db, input: TaskInput, i: nat)
    requires DependencyError(db, input, i) == None
    ensures forall j :: i <= j < |input.dependsOn| ==>
      input.dependsOn[j] in db.tasks && input.dependsOn[j] != input.id && input.dependsOn[j] !in input.dependsOn[..j]
    decreases |input.dependsOn| - i
  {
    if i < |input.dependsOn| {
      DependenciesChecked(db, input, i + 1);
    }
  }

  lemma {:induction false} LinksPass(db: Db, input: TaskInput, i: nat)
    requires Distinct(input.requirements)
    requires forall l :: l in input.requirements ==> l.ref in db.revisions && Actionable(db, l.ref)
    ensures LinkError(db, input, i) == None
    decreases |input.requirements| - i
  {
    if i < |input.requirements| {
      assert input.requirements[i] in input.requirements;
      LinksPass(db, input, i + 1);
    }
  }

  lemma {:induction false} DependenciesPass(db: Db, input: TaskInput, i: nat)
    requires Distinct(input.dependsOn)
    requires forall t :: t in input.dependsOn ==> t in db.tasks && t != input.id
    ensures DependencyError(db, input, i) == None
    decreases |input.dependsOn| - i
  {
    if i < |input.dependsOn| {
      assert input.dependsOn[i] in input.dependsOn;
      DependenciesPass(db, input, i + 1);
    }
  }

  lemma DistinctMeansNew<T>(s: seq<T>)
    ensures Distinct(s) <==> forall j :: 0 <= j < |s| ==> s[j] !in s[..j]
  {
    if !Distinct(s) {
      var i, j :| 0 <= i < j < |s| && s[i] == s[j];
      assert s[..j][i] == s[j];
    }
  }

  /** A task is created exactly if its identifier is new, its dependencies are
      other stored tasks, its links name leaf revisions, and neither list
      repeats itself; the stored rows are then those of the input. */
  lemma TaskCreatedExactly(db: Db, input: TaskInput)
    ensures CreateTask(db, input).Commit? <==>
            && input.id !in db.tasks && Distinct(input.dependsOn) && Distinct(input.requirements)
            && (forall t :: t in input.dependsOn ==> t in db.tasks && t != input.id)
            && (forall l :: l in input.requirements ==> l.ref in db.revisions && Actionable(db, l.ref))
    ensures CreateTask(db, input).Commit? && TasksSound(db) ==>
              forall t :: TaskDependency(input.id, t) in CreateTask(db, input).db.taskDependencies <==>
                  t in input.dependsOn
    ensures CreateTask(db, input).Commit? && ReferencesSound(db) ==>
              forall ref, purpose :: TaskLink(input.id, ref, purpose) in CreateTask(db, input).db.taskLinks <==>
                                     TaskRequirementInput(ref, purpose) in input.requirements
  {
    if LinkError(db, input, 0) == None {
      LinksChecked(db, input, 0);
    }
    if DependencyError(db, input, 0) == None {
      DependenciesChecked(db, input, 0);
    }
    DistinctMeansNew(input.requirements);
    DistinctMeansNew(input.dependsOn);
    if Distinct(input.requirements) && forall l :: l in input.requirements ==>
        l.ref in db.revisions && Actionable(db, l.ref) {
      LinksPass(db, input, 0);
    }
    if Distinct(input.dependsOn) && forall t :: t in input.dependsOn ==> t in db.tasks && t != input.id {
      DependenciesPass(db, input, 0);
    }
    if input.id !in db.tasks {
      CreatedRows(db, input);
    }
  }

  lemma CreatedRows(db: Db, input: TaskInput)
    requires input.id !in db.tasks
    ensures CreateTask(db, input).Commit? && TasksSound(db) ==>
              forall t :: TaskDependency(input.id, t) in CreateTask(db, input).db.taskDependencies <==>
                  t in input.dependsOn
    ensures CreateTask(db, input).Commit? && ReferencesSound(db) ==>
              forall ref, purpose :: TaskLink(input.id, ref, purpose) in CreateTask(db, input).db.taskLinks <==>
                                     TaskRequirementInput(ref, purpose) in input.requirements
  {
  }

  /** A new open task, its checked links and its checked dependencies. */
  ghost predicate TaskAdded(db: Db, d: Db, input: TaskInput)
  {
    && input.id !in db.tasks
    && d == db.(tasks := db.tasks[input.id := NewTask(db)], taskLinks := d.taskLinks,
                taskDependencies := d.taskDependencies, audit := db.audit + [TaskCreated(input.id)])
    && db.taskLinks <= d.taskLinks && db.taskDependencies <= d.taskDependencies
    && (forall l :: l in d.taskLinks && l !in db.taskLinks ==>
        l.task == input.id && l.ref in db.revisions && Actionable(db, l.ref))
    && (forall t :: t in d.taskDependencies && t !in db.taskDependencies ==>
          t.task == input.id && t.dependency in input.dependsOn && t.dependency in db.tasks)
  }

  lemma CreateTaskEffect(db: Db, input: TaskInput)
    requires CreateTask(db, input).Commit?
    ensures TaskAdded(db, CreateTask(db, input).db, input)
  {
    LinksChecked(db, input, 0);
    DependenciesChecked(db, input, 0);
    var d := CreateTask(db, input).db;
    forall l | l in d.taskLinks && l !in db.taskLinks
      ensures l.task == input.id && l.ref in db.revisions && Actionable(db, l.ref)
    {
      var r :| r in input.requirements && l == TaskLink(input.id, r.ref, r.purpose);
    }
    forall t | t in d.taskDependencies && t !in db.taskDependencies
      ensures t.task == input.id && t.dependency in input.dependsOn && t.dependency in db.tasks
    {
    }
  }

  lemma CreateTaskKeepsSound(db: Db, input: TaskInput)
    requires Sound(db) && CreateTask(db, input).Commit?
    ensures Sound(CreateTask(db, input).db)
  {
    var d := CreateTask(db, input).db;
    CreateTaskEffect(db, input);
    TaskAddedIsSound(db, d, input);
  }

  lemma TaskAddedIsSound(db: Db, d: Db, input: TaskInput)
    requires Sound(db) && TaskAdded(db, d, input)
    ensures Sound(d)
  {
    ContentKeepsRevisions(db, d);
    assert ReferencesSound(d) && TasksSound(d) && LeasesSound(d);
  }

  /** Only events that change no requirement are appended. */
  ghost predicate AuditExtends(db: Db, d: Db)
  {
    && |db.audit| <= |d.audit| && db.audit == d.audit[..|db.audit|]
    && forall j :: |db.audit| <= j < |d.audit| ==> Changed(d.audit[j]) == None
  }

  /** Requirement tables as they were, rows aside. */
  ghost predicate LeaseStep(db: Db, d: Db)
  {
    && d.requirements == db.requirements && d.revisions == db.revisions
    && d.refinements == db.refinements && d.dependencies == db.dependencies
    && d.reviews == db.reviews && d.causes == db.causes
    && d.taskLinks == db.taskLinks && d.taskDependencies == db.taskDependencies
    && AuditExtends(db, d)
    && d.tasks.Keys == db.tasks.Keys
    && forall t :: t in db.tasks ==> d.tasks[t].createdAt == db.tasks[t].createdAt
  }

  lemma LeaseStepKeepsSound(db: Db, d: Db)
    requires Sound(db) && LeaseStep(db, d) && LeasesSound(d)
    ensures Sound(d)
  {
    ContentKeepsRevisions(db, d);
  }

  /** What completion does to the linked requirements. */
  lemma CompleteEffect(db: Db, task: string, id: LeaseId, fence: int, commit: string)
    requires CompleteTask(db, task, id, fence, commit).Commit?
    ensures var d := CompleteTask(db, task, id, fence, commit).db;
            && SameGraph(db, d) && RowsTouched(db, d)
            && (forall b :: b in db.requirements && d.requirements[b] != db.requirements[b] ==>
                  && Actionable(db, CurrentRef(db, b)) && db.requirements[b].state == Some(NotSatisfied)
                  && d.requirements[b] == WithState(db.requirements[b], PendingReview))
            && LeaseStep(db, d.(requirements := db.requirements))
            && d.audit == db.audit + [TaskCompleted(task)]
  {
  }

  lemma CompleteKeepsSound(db: Db, task: string, id: LeaseId, fence: int, commit: string)
    requires Sound(db) && CompleteTask(db, task, id, fence, commit).Commit?
    ensures Sound(CompleteTask(db, task, id, fence, commit).db)
  {
    var d := CompleteTask(db, task, id, fence, commit).db;
    CompleteEffect(db, task, id, fence, commit);
    CompletedIsSound(db, d, task);
  }

  lemma CompletedIsSound(db: Db, d: Db, task: string)
    requires Sound(db) && RowsTouched(db, d) && LeaseStep(db, d.(requirements := db.requirements))
    requires LeasesSound(d)
    ensures Sound(d)
  {
    ContentKeepsSound(db, d);
  }

  /** The requests that touch neither content nor verdicts. */
  predicate IsLeaseOp(op: Op)
  {
    op.OpLeaseTask? || op.OpHeartbeat? || op.OpRelease? || op.OpCloseTask? || op.OpExpireLeases? || op.OpAdvance?
  }

  ghost predicate LeasesKept(db: Db, tx: Tx)
  {
    tx.Commit? ==> LeaseStep(db, tx.db) && (LeasesSound(db) ==> LeasesSound(tx.db))
  }

  lemma LeaseTaskKeeps(db: Db, id: string, agent: string, ttl: int, lag: nat)
    ensures LeasesKept(db, LeaseTask(db, id, agent, ttl, lag))
  {
  }

  lemma HeartbeatKeeps(db: Db, id: LeaseId, fence: int, ttl: int, lag: nat)
    ensures LeasesKept(db, Heartbeat(db, id, fence, ttl, lag))
  {
  }

  lemma ReleaseKeeps(db: Db, id: LeaseId, fence: int)
    ensures LeasesKept(db, Release(db, id, fence))
  {
  }

  lemma CloseKeeps(db: Db, id: string)
    ensures LeasesKept(db, CloseTask(db, id))
  {
  }

  lemma ExpireKeeps(db: Db)
    ensures LeasesKept(db, ExpireLeases(db))
  {
  }

  lemma LeaseOpEffect(db: Db, op: Op)
    requires IsLeaseOp(op)
    ensures LeasesKept(db, Perform(db, op))
  {
    match op
    case OpLeaseTask(id, agent, ttl, lag) => LeaseTaskKeeps(db, id, agent, ttl, lag);
    case OpHeartbeat(id, fence, ttl, lag) => HeartbeatKeeps(db, id, fence, ttl, lag);
    case OpRelease(id, fence) => ReleaseKeeps(db, id, fence);
    case OpCloseTask(id) => CloseKeeps(db, id);
    case OpExpireLeases => ExpireKeeps(db);
    case OpAdvance(elapsed) =>
  }

  /** Requests that neither create, revise nor retire a requirement. */
  lemma OthersKeepGraph(db: Db, op: Op)
    requires !op.OpCreateRequirement? && !op.OpUpdateRequirement? && !op.OpRetireRequirement?
    ensures SameGraph(db, Step(db, op))
  {
    var tx := Perform(db, op);
    if IsLeaseOp(op) {
      LeaseOpEffect(db, op);
    } else if tx.Commit? {
      match op
      case OpReviewRequirement(input) => ReviewEffect(db, input);
      case OpCreateTask(input) => CreateTaskEffect(db, input);
      case OpCompleteTask(task, l, fence, commit) => CompleteEffect(db, task, l, fence, commit);
    }
  }

  lemma StepKeepsSound(db: Db, op: Op)
    requires Sound(db)
    ensures Sound(Step(db, op))
  {
    if IsLeaseOp(op) {
      LeaseOpEffect(db, op);
      if Perform(db, op).Commit? {
        LeaseStepKeepsSound(db, Step(db, op));
      }
    } else if Perform(db, op).Commit? {
      match op
      case OpCreateRequirement(input) => CreateKeepsSound(db, input);
      case OpUpdateRequirement(input, expected) => UpdateKeepsSound(db, input, expected);
      case OpRetireRequirement(id) => RetireKeepsSound(db, id);
      case OpReviewRequirement(input) => ReviewKeepsSound(db, input);
      case OpCreateTask(input) => CreateTaskKeepsSound(db, input);
      case OpCompleteTask(task, id, fence, commit) => CompleteKeepsSound(db, task, id, fence, commit);
    }
  }

  lemma {:induction false} RunIsSound(ops: seq<Op>)
    ensures Sound(Run(ops))
  {
    if ops != [] {
      RunIsSound(ops[..|ops| - 1]);
      StepKeepsSound(Run(ops[..|ops| - 1]), ops[|ops| - 1]);
    }
  }
}
