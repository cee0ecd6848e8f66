/** Runs that show where a plausible claim about the store fails. */
module Witnesses {
  import opened Domain
  import opened Graph
  import opened Tables
  import opened Queries
  import opened Transactions
  import opened Soundness
  import opened Verdicts
  import opened Impact
  import opened Acyclicity

  lemma RunThen(ops: seq<Op>, op: Op)
    ensures Run(ops + [op]) == Step(Run(ops), op)
  {
  }

  /** A new requirement whose links are in order, where no work exists yet. */
  lemma CreateSucceeds(db: Db, input: RequirementInput)
    requires ValidRequirement(input) && input.id !in db.requirements && Ref(input.id, input.revision) !in db.revisions
    requires forall p :: p in input.parents + input.dependsOn ==> p in db.revisions && p.id != input.id
    requires Distinct(input.parents) && Distinct(input.dependsOn) && db.taskLinks == {} && db.reviews == map[]
    ensures Perform(db, OpCreateRequirement(input)).Commit?
  {
  }

  lemma UpdateSucceeds(db: Db, input: RequirementInput, expected: int)
    requires ValidRequirement(input) && input.id in db.requirements && Ref(input.id, input.revision) !in db.revisions
    requires db.requirements[input.id].current == expected && input.revision == expected + 1
    requires db.requirements[input.id].lifecycle == Active
    requires forall p :: p in input.parents + input.dependsOn ==> p in db.revisions && p.id != input.id
    requires Distinct(input.parents) && Distinct(input.dependsOn) && db.taskLinks == {} && db.reviews == map[]
    ensures Perform(db, OpUpdateRequirement(input, expected)).Commit?
  {
    assert forall p :: p in input.parents ==> p in input.parents + input.dependsOn;
    assert forall p :: p in input.dependsOn ==> p in input.parents + input.dependsOn;
  }

  /** A business requirement b, stakeholder requirements s and t below it, and a
      system requirement y. */
  ghost predicate Cast(b: string, s: string, t: string, y: string)
  {
    && IdMatches(Business, b) && IdMatches(Stakeholder, s) && IdMatches(Stakeholder, t) && IdMatches(System, y)
    && s != t
  }

  lemma CastDiffers(b: string, s: string, t: string, y: string)
    requires Cast(b, s, t, y)
    ensures b != s && b != t && b != y && s != y && t != y
    ensures HasPrefix(b, "BR-") && HasPrefix(s, "STR-") && HasPrefix(t, "STR-")
  {
  }

  lemma SomeCast()
    ensures Cast("BR-A", "STR-A", "STR-B", "SYR-A")
  {
    assert SlugContinues("");
    assert IsSlug("A") && IsSlug("B");
    assert "BR-A"[3..] == "A" && "STR-A"[4..] == "A" && "STR-B"[4..] == "B" && "SYR-A"[4..] == "A";
    assert "STR-A"[4] != "STR-B"[4];
  }

  ghost predicate Untouched(db: Db)
  {
    db.taskLinks == {} && db.reviews == map[]
  }

  /** An active row at the given revision and state. */
  ghost predicate RowIs(db: Db, id: string, revision: int, state: Option<Recon>)
  {
    && id in db.requirements && db.requirements[id].current == revision
    && db.requirements[id].lifecycle == Active && db.requirements[id].state == state
  }

  ghost predicate LevelIs(db: Db, ref: Ref, level: Level)
  {
    ref in db.revisions && db.revisions[ref].level == level
  }

  lemma Created(db: Db, input: RequirementInput)
    requires ValidRequirement(input) && input.id !in db.requirements && Ref(input.id, input.revision) !in db.revisions
    requires forall p :: p in input.parents + input.dependsOn ==> p in db.revisions && p.id != input.id
    requires Distinct(input.parents) && Distinct(input.dependsOn) && Untouched(db)
    ensures var d := Step(db, OpCreateRequirement(input));
            && RevisionAdded(db, d, input) && Untouched(d) && d.causes == db.causes
            && RowIs(d, input.id, input.revision, if input.level == Business then None else Some(PendingReview))
            && forall id :: id in db.requirements ==>
                 d.requirements[id] == if input.level == System && exists p :: p in input.parents && p.id == id
                                       then db.requirements[id].(state := None) else db.requirements[id]
  {
    CreateSucceeds(db, input);
    CreateAdds(db, input);
  }

  lemma Updated(db: Db, input: RequirementInput, expected: int)
    requires ValidRequirement(input) && input.id in db.requirements && Ref(input.id, input.revision) !in db.revisions
    requires db.requirements[input.id].current == expected && input.revision == expected + 1
    requires db.requirements[input.id].lifecycle == Active
    requires forall p :: p in input.parents + input.dependsOn ==> p in db.revisions && p.id != input.id
    requires Distinct(input.parents) && Distinct(input.dependsOn) && Untouched(db)
    ensures var d := Step(db, OpUpdateRequirement(input, expected));
            && RevisionAdded(db, d, input) && Untouched(d)
            && d.causes == NewCauses(d, Downstream(d, input.id), Ref(input.id, input.revision)) + db.causes
            && RowIs(d, input.id, input.revision, if input.level == Business then None else Some(PendingReview))
            && forall id :: id in db.requirements && id != input.id ==>
                d.requirements[id] == RowAfterUpdate(db, d, input, id)
  {
    UpdateSucceeds(db, input, expected);
    UpdateAdds(db, input, expected);
  }

  /** b alone. */
  ghost predicate Rooted(db: Db, b: string)
  {
    && Untouched(db) && db.causes == map[]
    && db.requirements.Keys == {b} && RowIs(db, b, 1, None)
    && db.revisions.Keys == {Ref(b, 1)} && LevelIs(db, Ref(b, 1), Business)
    && db.refinements == {} && db.dependencies == {}
  }

  lemma Root(b: string)
    requires IdMatches(Business, b)
    ensures Rooted(Step(EMPTY, OpCreateRequirement(RequirementInput(b, Business, 1, [], []))), b)
  {
  }

  /** b, with s refining it. */
  ghost predicate Branched(db: Db, b: string, s: string)
  {
    && Untouched(db) && db.causes == map[]
    && db.requirements.Keys == {b, s} && RowIs(db, b, 1, None) && RowIs(db, s, 1, Some(PendingReview))
    && db.revisions.Keys == {Ref(b, 1), Ref(s, 1)}
    && LevelIs(db, Ref(b, 1), Business) && LevelIs(db, Ref(s, 1), Stakeholder)
    && db.refinements == {Link(Ref(s, 1), Ref(b, 1))} && db.dependencies == {}
  }

  lemma Branch(db: Db, b: string, s: string)
    requires Rooted(db, b) && IdMatches(Stakeholder, s) && b != s && HasPrefix(b, "BR-")
    ensures Branched(Step(db, OpCreateRequirement(RequirementInput(s, Stakeholder, 1, [Ref(b, 1)], []))), b, s)
  {
    Created(db, RequirementInput(s, Stakeholder, 1, [Ref(b, 1)], []));
  }

  /** b, with s and t refining it; t may depend on s. */
  ghost predicate Opened(db: Db, b: string, s: string, t: string, dependsOn: seq<Ref>)
  {
    && Untouched(db) && db.causes == map[]
    && db.requirements.Keys == {b, s, t}
    && RowIs(db, b, 1, None) && RowIs(db, s, 1, Some(PendingReview)) && RowIs(db, t, 1, Some(PendingReview))
    && db.revisions.Keys == {Ref(b, 1), Ref(s, 1), Ref(t, 1)}
    && LevelIs(db, Ref(b, 1), Business) && LevelIs(db, Ref(s, 1), Stakeholder) && LevelIs(db, Ref(t, 1), Stakeholder)
    && db.refinements == {Link(Ref(s, 1), Ref(b, 1)), Link(Ref(t, 1), Ref(b, 1))}
    && db.dependencies == NewLinks(Ref(t, 1), dependsOn)
  }

  lemma BranchAgain(db: Db, b: string, s: string, t: string, dependsOn: seq<Ref>)
    requires Branched(db, b, s) && IdMatches(Stakeholder, t) && b != t && s != t && HasPrefix(b, "BR-")
    requires dependsOn == [] || dependsOn == [Ref(s, 1)]
    ensures Opened(Step(db, OpCreateRequirement(RequirementInput(t, Stakeholder, 1, [Ref(b, 1)], dependsOn))),
                   b, s, t, dependsOn)
  {
    Created(db, RequirementInput(t, Stakeholder, 1, [Ref(b, 1)], dependsOn));
  }

  lemma Opening(b: string, s: string, t: string, y: string, dependsOn: seq<Ref>) returns (ops: seq<Op>)
    requires Cast(b, s, t, y) && (dependsOn == [] || dependsOn == [Ref(s, 1)])
    ensures Opened(Run(ops), b, s, t, dependsOn)
  {
    CastDiffers(b, s, t, y);
    var first := OpCreateRequirement(RequirementInput(b, Business, 1, [], []));
    var second := OpCreateRequirement(RequirementInput(s, Stakeholder, 1, [Ref(b, 1)], []));
    var third := OpCreateRequirement(RequirementInput(t, Stakeholder, 1, [Ref(b, 1)], dependsOn));
    RunThen([], first);
    Root(b);
    RunThen([] + [first], second);
    Branch(Run([] + [first]), b, s);
    RunThen([] + [first] + [second], third);
    BranchAgain(Run([] + [first] + [second]), b, s, t, dependsOn);
    ops := [] + [first] + [second] + [third];
  }

  /* ----- a leaf without a state ----- */

  /** y refines s: the state of s is cleared. */
  ghost predicate Decomposed(db: Db, b: string, s: string, t: string, y: string)
  {
    && Untouched(db)
    && db.requirements.Keys == {b, s, t, y}
    && RowIs(db, b, 1, None) && RowIs(db, s, 1, None) && RowIs(db, t, 1, Some(PendingReview))
        && RowIs(db, y, 1, Some(PendingReview))
    && db.revisions.Keys == {Ref(b, 1), Ref(s, 1), Ref(t, 1), Ref(y, 1)}
    && LevelIs(db, Ref(b, 1), Business) && LevelIs(db, Ref(s, 1), Stakeholder)
    && LevelIs(db, Ref(t, 1), Stakeholder) && LevelIs(db, Ref(y, 1), System)
    && db.refinements == {Link(Ref(s, 1), Ref(b, 1)), Link(Ref(t, 1), Ref(b, 1)), Link(Ref(y, 1), Ref(s, 1))}
    && db.dependencies == {}
  }

  ghost predicate AddedBelow(db: Db, d: Db, y: string, parent: Ref)
  {
    && Untouched(d) && RowIs(d, y, 1, Some(PendingReview)) && d.requirements.Keys == db.requirements.Keys + {y}
    && d.revisions == db.revisions[Ref(y, 1) := Revision(System, |db.audit|)]
    && d.refinements == db.refinements + {Link(Ref(y, 1), parent)} && d.dependencies == db.dependencies
    && forall id :: id in db.requirements ==>
         d.requirements[id] == if id == parent.id then db.requirements[id].(state := None) else db.requirements[id]
  }

  lemma AddedRows(db: Db, d: Db, y: string, parent: Ref)
    requires Untouched(d) && RowIs(d, y, 1, Some(PendingReview)) && y !in db.requirements
    requires RevisionAdded(db, d, RequirementInput(y, System, 1, [parent], []))
    requires forall id :: id in db.requirements ==>
               d.requirements[id] == if exists p :: p in [parent] && p.id == id
                                     then db.requirements[id].(state := None) else db.requirements[id]
    ensures AddedBelow(db, d, y, parent)
  {
    assert parent in [parent];
  }

  /** A new system requirement with one parent, where no work exists yet. */
  lemma CreatedBelow(db: Db, y: string, parent: Ref)
    requires Untouched(db) && IdMatches(System, y) && y !in db.requirements && Ref(y, 1) !in db.revisions
    requires parent in db.revisions && parent.id != y && HasPrefix(parent.id, "STR-") && parent.revision >= 1
    ensures AddedBelow(db, Step(db, OpCreateRequirement(RequirementInput(y, System, 1, [parent], []))), y, parent)
  {
    var input := RequirementInput(y, System, 1, [parent], []);
    Created(db, input);
    AddedRows(db, Step(db, OpCreateRequirement(input)), y, parent);
  }

  lemma Decompose(db: Db, b: string, s: string, t: string, y: string)
    requires Opened(db, b, s, t, []) && Cast(b, s, t, y)
    ensures Decomposed(Step(db, OpCreateRequirement(RequirementInput(y, System, 1, [Ref(s, 1)], []))), b, s, t, y)
  {
    CastDiffers(b, s, t, y);
    CreatedBelow(db, y, Ref(s, 1));
  }

  /** y has moved from s to t: neither has a state of its own any more. */
  ghost predicate Moved(db: Db, b: string, s: string, t: string, y: string, state: Recon)
  {
    && db.requirements.Keys == {b, s, t, y}
    && RowIs(db, b, 1, None) && RowIs(db, s, 1, None) && RowIs(db, t, 1, None) && RowIs(db, y, 2, Some(state))
    && LevelIs(db, Ref(b, 1), Business) && LevelIs(db, Ref(s, 1), Stakeholder) && LevelIs(db, Ref(y, 2), System)
    && db.refinements == {Link(Ref(s, 1), Ref(b, 1)), Link(Ref(t, 1), Ref(b, 1)), Link(Ref(y, 1), Ref(s, 1)),
        Link(Ref(y, 2), Ref(t, 1))}
  }

  ghost predicate MovedBelow(db: Db, d: Db, y: string, parent: Ref)
  {
    && Untouched(d) && RowIs(d, y, 2, Some(PendingReview)) && d.requirements.Keys == db.requirements.Keys
    && d.revisions == db.revisions[Ref(y, 2) := Revision(System, |db.audit|)]
    && d.refinements == db.refinements + {Link(Ref(y, 2), parent)} && d.dependencies == db.dependencies
    && forall id :: id in db.requirements && id != y ==>
         d.requirements[id] == if id == parent.id then db.requirements[id].(state := None) else db.requirements[id]
  }

  lemma MovedRows(db: Db, d: Db, y: string, parent: Ref)
    requires y in db.requirements && parent.id != y && Untouched(d) && RowIs(d, y, 2, Some(PendingReview))
    requires RevisionAdded(db, d, RequirementInput(y, System, 2, [parent], []))
    requires forall id :: id in db.requirements && id != y ==>
               d.requirements[id] == RowAfterUpdate(db, d, RequirementInput(y, System, 2, [parent], []), id)
    requires forall l :: l in db.refinements + db.dependencies ==> l.parent.id != y
    ensures MovedBelow(db, d, y, parent)
  {
  }

  /** Moving a system requirement that nothing refers to. */
  lemma UpdatedBelow(db: Db, y: string, parent: Ref)
    requires Untouched(db) && IdMatches(System, y) && Ref(y, 2) !in db.revisions
    requires y in db.requirements && db.requirements[y].current == 1 && db.requirements[y].lifecycle == Active
    requires parent in db.revisions && parent.id != y && HasPrefix(parent.id, "STR-") && parent.revision >= 1
    requires forall l :: l in db.refinements + db.dependencies ==> l.parent.id != y
    ensures MovedBelow(db, Step(db, OpUpdateRequirement(RequirementInput(y, System, 2, [parent], []), 1)), y, parent)
  {
    var input := RequirementInput(y, System, 2, [parent], []);
    Updated(db, input, 1);
    MovedRows(db, Step(db, OpUpdateRequirement(input, 1)), y, parent);
  }

  lemma Move(db: Db, b: string, s: string, t: string, y: string)
    requires Decomposed(db, b, s, t, y) && Cast(b, s, t, y)
    ensures var d := Step(db, OpUpdateRequirement(RequirementInput(y, System, 2, [Ref(t, 1)], []), 1));
            Moved(d, b, s, t, y, PendingReview) && Untouched(d)
  {
    CastDiffers(b, s, t, y);
    UpdatedBelow(db, y, Ref(t, 1));
  }

  function AcceptOf(ref: Ref, commit: string): Op
  {
    OpReviewRequirement(ReviewInput(ref, commit, Accept, None, []))
  }

  lemma Accepting(db: Db, ref: Ref, commit: string)
    requires ValidCommit(commit) && db.reviews == map[] && ActiveCurrent(db, ref) && Actionable(db, ref)
             && ref.revision != 0
    requires db.requirements[ref.id].state == Some(PendingReview)
    ensures Judged(db, Step(db, AcceptOf(ref, commit)), ref, commit, Accept)
  {
    var input := ReviewInput(ref, commit, Accept, None, []);
    assert ReviewRequirement(db, input).Commit?;
    ReviewEffect(db, input);
  }

  /** With y moved away and accepted, s is an active leaf whose state is NULL:
      it reads as pending, while the roll-up of b over it reads as satisfied. */
  lemma NullLeafMisleads(db: Db, b: string, s: string, t: string, y: string)
    requires Moved(db, b, s, t, y, Satisfied) && Cast(b, s, t, y)
    ensures MisleadingNull(db, b, s)
  {
  }

  /** s is an active leaf with a NULL state below b; s reads as pending while
      b reads as satisfied. */
  ghost predicate MisleadingNull(db: Db, b: string, s: string)
  {
    && b in db.requirements && ActiveCurrent(db, Ref(s, 1)) && Actionable(db, Ref(s, 1))
    && db.requirements[s].state == None && Ref(s, 1) in Children(db, CurrentRef(db, b))
    && Effective(db, s) == PendingReview && Effective(db, b) == Satisfied
  }

  lemma AcceptedMisleads(db: Db, b: string, s: string, t: string, y: string, commit: string)
    requires Cast(b, s, t, y) && Moved(db, b, s, t, y, PendingReview) && Untouched(db) && ValidCommit(commit)
    ensures MisleadingNull(Step(db, AcceptOf(Ref(y, 2), commit)), b, s)
  {
    CastDiffers(b, s, t, y);
    Accepting(db, Ref(y, 2), commit);
    NullLeafMisleads(Step(db, AcceptOf(Ref(y, 2), commit)), b, s, t, y);
  }

  lemma NullLeafRun(ops: seq<Op>, b: string, s: string, t: string, y: string, commit: string) returns (more: seq<Op>)
    requires Cast(b, s, t, y) && Opened(Run(ops), b, s, t, []) && ValidCommit(commit)
    ensures MisleadingNull(Run(more), b, s)
  {
    var create := OpCreateRequirement(RequirementInput(y, System, 1, [Ref(s, 1)], []));
    var move := OpUpdateRequirement(RequirementInput(y, System, 2, [Ref(t, 1)], []), 1);
    RunThen(ops, create);
    Decompose(Run(ops), b, s, t, y);
    RunThen(ops + [create], move);
    Move(Run(ops + [create]), b, s, t, y);
    more := ops + [create] + [move];
    RunThen(more, AcceptOf(Ref(y, 2), commit));
    AcceptedMisleads(Run(more), b, s, t, y, commit);
    more := more + [AcceptOf(Ref(y, 2), commit)];
  }

  const COMMIT := "0123456789012345678901234567890123456789"

  lemma SomeCommit()
    ensures ValidCommit(COMMIT)
  {
  }

  /** A run leads to a leaf without a state, and to a roll-up that overlooks it:
      create two stakeholder requirements, decompose one, move the system
      requirement to the other, accept it. */
  lemma NullLeafIsReachable() returns (ops: seq<Op>)
    ensures MisleadingNull(Run(ops), "BR-A", "STR-A")
  {
    SomeCast();
    SomeCommit();
    ops := Opening("BR-A", "STR-A", "STR-B", "SYR-A", []);
    ops := NullLeafRun(ops, "BR-A", "STR-A", "STR-B", "SYR-A", COMMIT);
  }

  /* ----- an identifier cycle, and a retirement without an open cause ----- */

  /** t@1 depends on s@1, and s@2 on t@1. */
  ghost predicate Crossed(db: Db, b: string, s: string, t: string)
  {
    && Untouched(db)
    && db.requirements.Keys == {b, s, t}
    && RowIs(db, s, 2, Some(PendingReview)) && RowIs(db, t, 1, Some(PendingReview))
    && LevelIs(db, Ref(t, 1), Stakeholder)
    && db.refinements == {Link(Ref(s, 1), Ref(b, 1)), Link(Ref(t, 1), Ref(b, 1)), Link(Ref(s, 2), Ref(b, 1))}
    && db.dependencies == {Link(Ref(t, 1), Ref(s, 1)), Link(Ref(s, 2), Ref(t, 1))}
    && CauseKey(Ref(t, 1), Ref(s, 2)) in db.causes
    && forall k :: k in db.causes ==> k.cause == Ref(s, 2)
  }

  function Crossing(b: string, s: string, t: string): Op
  {
    OpUpdateRequirement(RequirementInput(s, Stakeholder, 2, [Ref(b, 1)], [Ref(t, 1)]), 1)
  }

  lemma CrossCommits(db: Db, b: string, s: string, t: string)
    requires Opened(db, b, s, t, [Ref(s, 1)]) && b != s && s != t
    requires IdMatches(Stakeholder, s) && HasPrefix(b, "BR-")
    ensures Perform(db, Crossing(b, s, t)).Commit?
  {
  }

  lemma CrossLinks(db: Db, d: Db, b: string, s: string, t: string)
    requires db.refinements == {Link(Ref(s, 1), Ref(b, 1)), Link(Ref(t, 1), Ref(b, 1))}
    requires db.dependencies == NewLinks(Ref(t, 1), [Ref(s, 1)])
    requires RevisionAdded(db, d, RequirementInput(s, Stakeholder, 2, [Ref(b, 1)], [Ref(t, 1)]))
    ensures d.refinements == {Link(Ref(s, 1), Ref(b, 1)), Link(Ref(t, 1), Ref(b, 1)), Link(Ref(s, 2), Ref(b, 1))}
    ensures d.dependencies == {Link(Ref(t, 1), Ref(s, 1)), Link(Ref(s, 2), Ref(t, 1))}
  {
  }

  /** What revising a stakeholder requirement leaves of another pending one. */
  lemma RevisedBeside(db: Db, d: Db, input: RequirementInput, expected: int, t: string)
    requires UpdateRequirement(db, input, expected) == Commit(d) && input.level == Stakeholder
    requires RowIs(db, t, 1, Some(PendingReview)) && t != input.id
    ensures d.requirements.Keys == db.requirements.Keys
    ensures RowIs(d, input.id, input.revision, Some(PendingReview)) && RowIs(d, t, 1, Some(PendingReview))
  {
    UpdateAdds(db, input, expected);
    PendingStays(db, d, input, t);
  }

  lemma RevisedTables(db: Db, d: Db, input: RequirementInput, expected: int)
    requires UpdateRequirement(db, input, expected) == Commit(d) && Untouched(db) && db.causes == map[]
    ensures RevisionAdded(db, d, input) && Untouched(d)
    ensures d.causes == NewCauses(d, Downstream(d, input.id), Ref(input.id, input.revision))
  {
    UpdateAdds(db, input, expected);
    OnlyNewCauses(d, Downstream(d, input.id), Ref(input.id, input.revision));
  }

  lemma OnlyNewCauses(d: Db, items: set<string>, cause: Ref)
    requires items <= d.requirements.Keys
    ensures NewCauses(d, items, cause) + map[] == NewCauses(d, items, cause)
  {
  }

  /** Revising s to depend on t. */
  lemma CrossRows(db: Db, d: Db, b: string, s: string, t: string)
    requires Opened(db, b, s, t, [Ref(s, 1)]) && b != s && s != t
    requires UpdateRequirement(db, RequirementInput(s, Stakeholder, 2, [Ref(b, 1)], [Ref(t, 1)]), 1) == Commit(d)
    ensures Untouched(d) && d.requirements.Keys == {b, s, t}
    ensures RowIs(d, s, 2, Some(PendingReview)) && RowIs(d, t, 1, Some(PendingReview))
            && LevelIs(d, Ref(t, 1), Stakeholder)
    ensures RevisionAdded(db, d, RequirementInput(s, Stakeholder, 2, [Ref(b, 1)], [Ref(t, 1)]))
    ensures d.causes == NewCauses(d, Downstream(d, s), Ref(s, 2))
  {
    RevisedBeside(db, d, RequirementInput(s, Stakeholder, 2, [Ref(b, 1)], [Ref(t, 1)]), 1, t);
    RevisedTables(db, d, RequirementInput(s, Stakeholder, 2, [Ref(b, 1)], [Ref(t, 1)]), 1);
  }

  lemma PendingStays(db: Db, d: Db, input: RequirementInput, id: string)
    requires id in db.requirements && id in d.requirements && d.requirements[id] == RowAfterUpdate(db, d, input, id)
    requires input.level != System && db.requirements[id].state == Some(PendingReview)
    ensures d.requirements[id] == db.requirements[id]
  {
  }

  lemma Cross(db: Db, b: string, s: string, t: string)
    requires Opened(db, b, s, t, [Ref(s, 1)]) && b != s && b != t && s != t
    requires IdMatches(Stakeholder, s) && HasPrefix(b, "BR-")
    ensures Crossed(Step(db, Crossing(b, s, t)), b, s, t)
  {
    var d := Step(db, Crossing(b, s, t));
    CrossCommits(db, b, s, t);
    CrossRows(db, d, b, s, t);
    CrossLinks(db, d, b, s, t);
    CrossedIsCycle(d, s, t);
    assert t in Downstream(d, s) && CurrentRef(d, t) == Ref(t, 1);
    CauseKeysAre(d, Downstream(d, s), Ref(s, 2), t);
    forall k | k in d.causes
      ensures k.cause == Ref(s, 2)
    {
      assert k in CauseKeys(d, Downstream(d, s), Ref(s, 2));
    }
  }

  lemma CrossedIsCycle(db: Db, s: string, t: string)
    requires db.dependencies == {Link(Ref(t, 1), Ref(s, 1)), Link(Ref(s, 2), Ref(t, 1))}
    requires IsCurrent(db, Ref(s, 2)) && IsCurrent(db, Ref(t, 1))
    ensures Reaches(IdDependencyEdges(db), s, s)
    ensures Reaches(Edges(db), s, t)
  {
    var there, back := Link(Ref(s, 2), Ref(t, 1)), Link(Ref(t, 1), Ref(s, 1));
    assert there in db.dependencies && IsCurrent(db, there.child) && (there.child.id, there.parent.id) == (s, t);
    assert back in db.dependencies && IsCurrent(db, back.child) && (back.child.id, back.parent.id) == (t, s);
    assert (s, t) in IdDependencyEdges(db) && (t, s) in IdDependencyEdges(db);
    EdgeReaches(IdDependencyEdges(db), t, s);
    Prepend(IdDependencyEdges(db), s, t, s);
    EdgesAre(db, s, t);
    assert Linked(db, s, t, back);
    EdgeReaches(Edges(db), s, t);
  }

  lemma CrossedRun(b: string, s: string, t: string, y: string) returns (ops: seq<Op>)
    requires Cast(b, s, t, y)
    ensures Crossed(Run(ops), b, s, t)
  {
    CastDiffers(b, s, t, y);
    var start := Opening(b, s, t, y, [Ref(s, 1)]);
    RunThen(start, Crossing(b, s, t));
    Cross(Run(start), b, s, t);
    ops := start + [Crossing(b, s, t)];
  }

  /** Dependencies can form a cycle of identifiers: the document's claim that
      the dependency graph is acyclic holds for revisions only. */
  lemma IdCycleIsReachable() returns (ops: seq<Op>)
    ensures Reaches(IdDependencyEdges(Run(ops)), "STR-A", "STR-A")
  {
    SomeCast();
    ops := CrossedRun("BR-A", "STR-A", "STR-B", "SYR-A");
    CrossedIsCycle(Run(ops), "STR-A", "STR-B");
  }

  /** t is pending because s was retired, yet no open cause says so. */
  ghost predicate UnexplainedPending(db: Db, s: string, t: string)
  {
    && s in db.requirements && db.requirements[s].lifecycle == Retired
    && RowIs(db, t, 1, Some(PendingReview)) && t in Downstream(db, s) && NoOpenCause(db, Ref(t, 1))
  }

  lemma AcceptResolves(db: Db, b: string, s: string, t: string, commit: string)
    requires Crossed(db, b, s, t) && s != t && b != t && ValidCommit(commit)
    ensures Judged(db, Step(db, AcceptOf(Ref(t, 1), commit)), Ref(t, 1), commit, Accept)
  {
    forall c
      ensures c !in Children(db, Ref(t, 1))
    {
      ChildrenAre(db, Ref(t, 1), c);
    }
    Accepting(db, Ref(t, 1), commit);
  }

  lemma RetireSucceeds(db: Db, s: string)
    requires s in db.requirements && db.requirements[s].lifecycle == Active
    ensures RetireRequirement(db, s) == Commit(Step(db, OpRetireRequirement(s)))
  {
  }

  lemma RetiredUnexplained(db: Db, d: Db, e: Db, b: string, s: string, t: string, commit: string)
    requires Crossed(db, b, s, t) && s != t && b != t && Judged(db, d, Ref(t, 1), commit, Accept)
    requires RetireRequirement(d, s) == Commit(e)
    ensures UnexplainedPending(e, s, t)
  {
    RetireEffect(d, s);
    CrossedIsCycle(d, s, t);
    SameContentSameEdges(d, e);
    assert t in Downstream(e, s);
    RetirePending(d, e, b, s, t);
    RetireCauses(db, d, e, s, t, commit);
  }

  lemma RetireUnexplained(db: Db, d: Db, b: string, s: string, t: string, commit: string)
    requires Crossed(db, b, s, t) && s != t && b != t && Judged(db, d, Ref(t, 1), commit, Accept)
    ensures UnexplainedPending(Step(d, OpRetireRequirement(s)), s, t)
  {
    RetireSucceeds(d, s);
    RetiredUnexplained(db, d, Step(d, OpRetireRequirement(s)), b, s, t, commit);
  }

  lemma RetirePending(d: Db, e: Db, b: string, s: string, t: string)
    requires s in d.requirements && t in d.requirements && t in e.requirements && s != t && b != t
    requires e.requirements[t] == RowAfterRetire(d, e, s, t) && t in Downstream(e, s)
    requires d.requirements[t].current == 1 && LevelIs(e, Ref(t, 1), Stakeholder)
    requires e.refinements == {Link(Ref(s, 1), Ref(b, 1)), Link(Ref(t, 1), Ref(b, 1)), Link(Ref(s, 2), Ref(b, 1))}
    ensures e.requirements[t].state == Some(PendingReview)
  {
  }

  lemma RetireCauses(db: Db, d: Db, e: Db, s: string, t: string, commit: string)
    requires CauseKey(Ref(t, 1), Ref(s, 2)) in db.causes && forall k :: k in db.causes ==> k.cause == Ref(s, 2)
    requires d.causes == ResolveCauses(db.causes, Ref(t, 1))
    requires s in d.requirements && CurrentRef(d, s) == Ref(s, 2)
    requires e.causes == NewCauses(e, Downstream(e, s), Ref(s, 2)) + d.causes
    ensures NoOpenCause(e, Ref(t, 1))
  {
  }

  /** A run retires a requirement and leaves a dependent pending without an open
      cause: the cause had been stored by the last update and was resolved by
      an accept in between. */
  lemma UnexplainedPendingIsReachable() returns (ops: seq<Op>)
    ensures UnexplainedPending(Run(ops), "STR-A", "STR-B")
  {
    SomeCast();
    SomeCommit();
    CastDiffers("BR-A", "STR-A", "STR-B", "SYR-A");
    ops := CrossedRun("BR-A", "STR-A", "STR-B", "SYR-A");
    ops := RetireRun(ops, "BR-A", "STR-A", "STR-B", COMMIT);
  }

  lemma RetireRun(ops: seq<Op>, b: string, s: string, t: string, commit: string) returns (more: seq<Op>)
    requires Crossed(Run(ops), b, s, t) && s != t && b != t && ValidCommit(commit)
    ensures UnexplainedPending(Run(more), s, t)
  {
    var accept := AcceptOf(Ref(t, 1), commit);
    RunThen(ops, accept);
    AcceptResolves(Run(ops), b, s, t, commit);
    more := ops + [accept];
    RetireUnexplained(Run(ops), Run(more), b, s, t, commit);
    RunThen(more, OpRetireRequirement(s));
    more := more + [OpRetireRequirement(s)];
  }
}
