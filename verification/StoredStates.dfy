/** States stored where the design document wants none: on an active requirement
    that is no actionable leaf. */
module StoredStates {
  import opened Domain
  import opened Tables
  import opened Transactions
  import opened Soundness
  import opened Verdicts
  import opened Impact
  import opened LeafStates
  import opened Witnesses

  /** An active requirement that stores a state and is no actionable leaf. */
  ghost predicate Misplaced(db: Db, id: string)
  {
    && id in db.requirements && db.requirements[id].lifecycle == Active
    && db.requirements[id].state.Some? && !Actionable(db, CurrentRef(db, id))
  }

  /* ----- retirement ----- */

  /** A stakeholder revision with an active child other than x. */
  predicate HasOtherChild(db: Db, x: string, ref: Ref)
  {
    && ref in db.revisions && db.revisions[ref].level == Stakeholder
    && exists c :: c in Children(db, ref) && c.id != x
  }

  /** x refines a revision of id that has no other active child. */
  predicate LastChildOfSome(db: Db, x: string, id: string)
    requires x in db.requirements
  {
    exists p :: p in SystemParents(db, CurrentRef(db, x)) && p.id == id
                && forall c :: c in Children(db, p) ==> c.id == x
  }

  lemma ChildrenAfterRetire(db: Db, d: Db, x: string, ref: Ref)
    requires OnlyRetires(db, d, x)
    ensures forall c :: c in Children(d, ref) <==> c in Children(db, ref) && c.id != x
  {
    forall c
      ensures c in Children(d, ref) <==> c in Children(db, ref) && c.id != x
    {
      ChildrenAre(d, ref, c);
      ChildrenAre(db, ref, c);
    }
  }

  lemma FreedIsLastChild(db: Db, d: Db, x: string, id: string)
    requires LinksSound(db) && OnlyRetires(db, d, x)
    ensures Freed(db, d, x, id) <==> LastChildOfSome(db, x, id)
  {
    forall p | p in SystemParents(db, CurrentRef(db, x))
      ensures Actionable(d, p) <==> forall c :: c in Children(db, p) ==> c.id == x
    {
      ChildrenAfterRetire(db, d, x, p);
      var l :| l in db.refinements && l.child == CurrentRef(db, x) && l.parent == p;
      assert LinksBack(db, l);
    }
  }

  /** Of an active requirement: it is a stakeholder with another child after x. */
  lemma ManagedAfterRetire(db: Db, d: Db, x: string, id: string)
    requires RequirementsSound(db) && OnlyRetires(db, d, x) && id in db.requirements
    ensures CurrentRef(d, id) == CurrentRef(db, id)
    ensures !Actionable(d, CurrentRef(d, id)) <==>
            HasOtherChild(db, x, CurrentRef(db, id)) || db.revisions[CurrentRef(db, id)].level == Business
  {
    ChildrenAfterRetire(db, d, x, CurrentRef(db, id));
  }

  /** Exactly when another active requirement stores a state on a non-leaf after
      the retirement of x: its current revision keeps an active child, and it had
      a state or owns a revision whose last active child was x. */
  lemma RetireMisplacesExactly(db: Db, d: Db, x: string, id: string)
    requires Sound(db) && RetireRequirement(db, x) == Commit(d)
    requires id in db.requirements && id != x && db.requirements[id].lifecycle == Active
    ensures x in db.requirements
    ensures Misplaced(d, id) <==>
            && HasOtherChild(db, x, CurrentRef(db, id))
            && (db.requirements[id].state.Some? || LastChildOfSome(db, x, id))
  {
    RetireOnlyRetires(db, d, x);
    RetireRow(db, d, x, id);
    FreedIsLastChild(db, d, x, id);
    ManagedAfterRetire(db, d, x, id);
    RetireTouches(db, d, x, id);
  }

  /* ----- every other request ----- */

  lemma RevisionMisplacesNothing(db: Db, d: Db, input: RequirementInput, id: string)
    requires Sound(db) && LinksSound(d) && RevisionAdded(db, d, input) && Misplaced(d, id)
    requires id in db.requirements && id != input.id && d.requirements[id] == db.requirements[id]
    requires input.level == System ==> forall p :: p in input.parents ==> p.id != id
    ensures Misplaced(db, id)
  {
    if Actionable(db, CurrentRef(db, id)) {
      RevisionKeepsActionable(db, d, input, id);
      assert false;
    }
  }

  lemma OwnRowIsLeaf(db: Db, d: Db, input: RequirementInput)
    requires LinksSound(db) && RevisionAdded(db, d, input)
    requires input.level == Business ==> d.requirements[input.id].state == None
    ensures !Misplaced(d, input.id)
  {
    FreshRevisionChildless(db, d, input);
    assert CurrentRef(d, input.id) == Ref(input.id, input.revision);
  }

  lemma CreateMisplacesNothing(db: Db, d: Db, input: RequirementInput, id: string)
    requires Sound(db) && Sound(d) && CreateRequirement(db, input) == Commit(d) && Misplaced(d, id)
    ensures Misplaced(db, id)
  {
    CreateAdds(db, input);
    if id == input.id {
      OwnRowIsLeaf(db, d, input);
    } else {
      RevisionMisplacesNothing(db, d, input, id);
    }
  }

  lemma UpdateMisplacesNothing(db: Db, d: Db, input: RequirementInput, expected: int, id: string)
    requires Sound(db) && Sound(d) && UpdateRequirement(db, input, expected) == Commit(d) && Misplaced(d, id)
    ensures Misplaced(db, id)
  {
    UpdateAdds(db, input, expected);
    if id == input.id {
      OwnRowIsLeaf(db, d, input);
    } else {
      RevisionMisplacesNothing(db, d, input, id);
    }
  }

  lemma ReviewMisplacesNothing(db: Db, d: Db, input: ReviewInput, id: string)
    requires ReviewRequirement(db, input) == Commit(d) && Misplaced(d, id)
    ensures Misplaced(db, id)
  {
    ReviewEffect(db, input);
    if d != db {
      JudgedKeepsLeaf(db, d, ReviewedRef(db, input), input.commit, input.verdict);
      assert SameGraph(db, d);
      SameGraphSameQueries(db, d);
    }
  }

  lemma WorkMisplacesNothing(db: Db, op: Op, id: string)
    requires IsLeaseOp(op) || op.OpCreateTask? || op.OpCompleteTask?
    requires Misplaced(Step(db, op), id)
    ensures Misplaced(db, id)
  {
    OthersKeepGraph(db, op);
    SameGraphSameQueries(db, Step(db, op));
    if IsLeaseOp(op) {
      LeaseOpEffect(db, op);
    } else if Perform(db, op).Commit? {
      if op.OpCreateTask? {
        CreateTaskEffect(db, op.task);
      } else {
        CompleteEffect(db, op.completed, op.held, op.heldFence, op.commit);
      }
    }
  }

  /** Only a retirement can store a state on a non-leaf. */
  lemma OnlyRetirementsMisplace(db: Db, op: Op, id: string)
    requires Sound(db) && Misplaced(Step(db, op), id)
    ensures Misplaced(db, id) || op.OpRetireRequirement?
  {
    StepKeepsSound(db, op);
    if IsLeaseOp(op) || op.OpCreateTask? || op.OpCompleteTask? {
      WorkMisplacesNothing(db, op, id);
    } else if Perform(db, op).Commit? {
      match op
      case OpCreateRequirement(input) => CreateMisplacesNothing(db, Step(db, op), input, id);
      case OpUpdateRequirement(input, expected) => UpdateMisplacesNothing(db, Step(db, op), input, expected, id);
      case OpReviewRequirement(input) => ReviewMisplacesNothing(db, Step(db, op), input, id);
      case _ =>
    }
  }

  /* ----- a run that shows it ----- */

  /** y refines the first revision of s, which is at its second. */
  ghost predicate Overtaken(db: Db, b: string, s: string, y: string)
  {
    && Untouched(db) && db.requirements.Keys == {b, s, y}
    && RowIs(db, s, 2, Some(PendingReview)) && RowIs(db, y, 1, Some(PendingReview))
    && LevelIs(db, Ref(s, 1), Stakeholder) && LevelIs(db, Ref(s, 2), Stakeholder) && LevelIs(db, Ref(y, 1), System)
    && db.revisions.Keys == {Ref(b, 1), Ref(s, 1), Ref(y, 1), Ref(s, 2)}
    && db.refinements == {Link(Ref(s, 1), Ref(b, 1)), Link(Ref(y, 1), Ref(s, 1)), Link(Ref(s, 2), Ref(b, 1))}
  }

  function Revising(b: string, s: string): RequirementInput
  {
    RequirementInput(s, Stakeholder, 2, [Ref(b, 1)], [])
  }

  /** b, s and y, one below the other. */
  ghost predicate Stacked(db: Db, b: string, s: string, y: string)
  {
    && Untouched(db) && db.requirements.Keys == {b, s, y}
    && RowIs(db, s, 1, None) && RowIs(db, y, 1, Some(PendingReview))
    && LevelIs(db, Ref(s, 1), Stakeholder) && LevelIs(db, Ref(y, 1), System)
    && db.revisions.Keys == {Ref(b, 1), Ref(s, 1), Ref(y, 1)}
    && db.refinements == {Link(Ref(s, 1), Ref(b, 1)), Link(Ref(y, 1), Ref(s, 1))}
  }

  lemma Stack(db: Db, b: string, s: string, y: string)
    requires Branched(db, b, s) && IdMatches(System, y) && HasPrefix(s, "STR-") && b != s && b != y && s != y
    ensures Stacked(Step(db, OpCreateRequirement(RequirementInput(y, System, 1, [Ref(s, 1)], []))), b, s, y)
  {
    CreatedBelow(db, y, Ref(s, 1));
  }

  lemma Overtake(db: Db, b: string, s: string, y: string)
    requires Stacked(db, b, s, y) && b != s && b != y && s != y && IdMatches(Stakeholder, s) && HasPrefix(b, "BR-")
    ensures Overtaken(Step(db, OpUpdateRequirement(Revising(b, s), 1)), b, s, y)
  {
    var d := Step(db, OpUpdateRequirement(Revising(b, s), 1));
    Witnesses.Updated(db, Revising(b, s), 1);
    PendingStays(db, d, Revising(b, s), y);
    OvertakenTables(db, d, b, s, y);
  }

  lemma OvertakenTables(db: Db, d: Db, b: string, s: string, y: string)
    requires Stacked(db, b, s, y) && b != s && b != y && s != y && RevisionAdded(db, d, Revising(b, s)) && Untouched(d)
    requires RowIs(d, s, 2, Some(PendingReview)) && y in d.requirements && d.requirements[y] == db.requirements[y]
    ensures Overtaken(d, b, s, y)
  {
  }

  /** z refines the second revision of s. */
  ghost predicate Split(db: Db, s: string, y: string, z: string)
  {
    && RowIs(db, s, 2, None) && RowIs(db, y, 1, Some(PendingReview)) && RowIs(db, z, 1, Some(PendingReview))
    && LevelIs(db, Ref(s, 1), Stakeholder) && LevelIs(db, Ref(s, 2), Stakeholder) && LevelIs(db, Ref(y, 1), System)
    && Link(Ref(y, 1), Ref(s, 1)) in db.refinements && Link(Ref(z, 1), Ref(s, 2)) in db.refinements
    && forall l :: l in db.refinements && l.parent == Ref(s, 1) ==> l.child == Ref(y, 1)
  }

  lemma SplitOver(db: Db, b: string, s: string, y: string, z: string)
    requires Overtaken(db, b, s, y) && IdMatches(System, z) && HasPrefix(s, "STR-")
    requires b != s && s != y && z != b && z != s && z != y
    ensures Split(Step(db, OpCreateRequirement(RequirementInput(z, System, 1, [Ref(s, 2)], []))), s, y, z)
  {
    CreatedBelow(db, z, Ref(s, 2));
    SplitTables(db, Step(db, OpCreateRequirement(RequirementInput(z, System, 1, [Ref(s, 2)], []))), b, s, y, z);
  }

  lemma SplitTables(db: Db, d: Db, b: string, s: string, y: string, z: string)
    requires Overtaken(db, b, s, y) && AddedBelow(db, d, z, Ref(s, 2))
    requires b != s && s != y && z != b && z != s && z != y
    ensures Split(d, s, y, z)
  {
  }

  lemma RetireMisplaces(db: Db, s: string, y: string, z: string)
    requires Sound(db) && Split(db, s, y, z) && s != y && s != z && y != z
    ensures Misplaced(Step(db, OpRetireRequirement(y)), s)
  {
    RetireSucceeds(db, y);
    ChildrenAre(db, Ref(s, 2), Ref(z, 1));
    assert Ref(z, 1) in Children(db, CurrentRef(db, s));
    assert Link(Ref(y, 1), Ref(s, 1)).parent in SystemParents(db, CurrentRef(db, y));
    forall c | c in Children(db, Ref(s, 1))
      ensures c.id == y
    {
      ChildrenAre(db, Ref(s, 1), c);
    }
    RetireMisplacesExactly(db, Step(db, OpRetireRequirement(y)), y, s);
  }

  lemma SplitRun(b: string, s: string, y: string, z: string) returns (ops: seq<Op>)
    requires IdMatches(Business, b) && IdMatches(Stakeholder, s) && IdMatches(System, y) && IdMatches(System, z)
    requires b != s && b != y && s != y && z != b && z != s && z != y && HasPrefix(b, "BR-") && HasPrefix(s, "STR-")
    ensures Split(Run(ops), s, y, z)
  {
    var first := OpCreateRequirement(RequirementInput(b, Business, 1, [], []));
    var second := OpCreateRequirement(RequirementInput(s, Stakeholder, 1, [Ref(b, 1)], []));
    var third := OpCreateRequirement(RequirementInput(y, System, 1, [Ref(s, 1)], []));
    var fourth := OpUpdateRequirement(Revising(b, s), 1);
    var fifth := OpCreateRequirement(RequirementInput(z, System, 1, [Ref(s, 2)], []));
    RunThen([], first);
    Root(b);
    ops := [] + [first];
    RunThen(ops, second);
    Branch(Run(ops), b, s);
    ops := ops + [second];
    RunThen(ops, third);
    Stack(Run(ops), b, s, y);
    ops := ops + [third];
    RunThen(ops, fourth);
    Overtake(Run(ops), b, s, y);
    ops := ops + [fourth];
    RunThen(ops, fifth);
    SplitOver(Run(ops), b, s, y, z);
    ops := ops + [fifth];
  }

  /** A run leads to a non-leaf with a stored state: decompose a requirement,
      revise it, decompose it again, retire the first child. */
  lemma MisplacedIsReachable() returns (ops: seq<Op>)
    ensures Misplaced(Run(ops), "STR-A")
  {
    SomeCast();
    CastDiffers("BR-A", "STR-A", "STR-B", "SYR-A");
    assert IsSlug("B") && "SYR-B"[4..] == "B";
    assert "SYR-A"[4] != "SYR-B"[4];
    CastDiffers("BR-A", "STR-A", "STR-B", "SYR-B");
    ops := SplitRun("BR-A", "STR-A", "SYR-A", "SYR-B");
    RunIsSound(ops);
    RunThen(ops, OpRetireRequirement("SYR-A"));
    RetireMisplaces(Run(ops), "STR-A", "SYR-A", "SYR-B");
    ops := ops + [OpRetireRequirement("SYR-A")];
  }
}
