/** Leaves: what retiring the last child does to its parent, and exactly when an
    active leaf is left without a stored state. */
module LeafStates {
  import opened Domain
  import opened Tables
  import opened Queries
  import opened Transactions
  import opened Soundness
  import opened Impact

  /** Only the retired row changes its lifecycle. */
  ghost predicate OnlyRetires(db: Db, d: Db, x: string)
  {
    && SameContent(db, d) && x in db.requirements && d.requirements[x].lifecycle == Retired
    && forall b :: b in db.requirements && b != x ==> d.requirements[b].lifecycle == db.requirements[b].lifecycle
  }

  lemma RetireOnlyRetires(db: Db, d: Db, x: string)
    requires RetireRequirement(db, x) == Commit(d)
    ensures OnlyRetires(db, d, x)
  {
    RetireEffect(db, x);
  }

  lemma RetireRow(db: Db, d: Db, x: string, b: string)
    requires RetireRequirement(db, x) == Commit(d) && b in d.requirements
    ensures x in db.requirements && b in db.requirements && d.requirements[b] == RowAfterRetire(db, d, x, b)
  {
    RetireEffect(db, x);
  }

  /** Retiring the last active child of a current stakeholder revision makes it
      an actionable leaf that is pending review. */
  lemma LastChildFreesParent(db: Db, d: Db, x: string, parent: Ref)
    requires Sound(db) && RetireRequirement(db, x) == Commit(d)
    requires x in db.requirements && Children(db, parent) == {CurrentRef(db, x)}
    requires IsCurrent(db, parent) && db.revisions[parent].level == Stakeholder
    ensures Actionable(d, parent) && d.requirements[parent.id].state == Some(PendingReview)
    ensures Effective(d, parent.id) == PendingReview
  {
    RetireOnlyRetires(db, d, x);
    ChildIsSystem(db, x, parent);
    ChildGoes(db, d, x, parent);
    RetireRow(db, d, x, parent.id);
    FreedIsPending(db, d, x, parent);
  }

  lemma FreedIsPending(db: Db, d: Db, x: string, parent: Ref)
    requires SameContent(db, d) && IsCurrent(db, parent) && x in db.requirements
    requires parent in SystemParents(db, CurrentRef(db, x)) && Actionable(d, parent) && Children(d, parent) == {}
    requires d.requirements[parent.id] == RowAfterRetire(db, d, x, parent.id)
    ensures d.requirements[parent.id].state == Some(PendingReview) && Effective(d, parent.id) == PendingReview
  {
  }

  lemma ChildIsSystem(db: Db, x: string, parent: Ref)
    requires LinksSound(db) && x in db.requirements && CurrentRef(db, x) in Children(db, parent)
    requires parent in db.revisions && db.revisions[parent].level == Stakeholder
    ensures parent in SystemParents(db, CurrentRef(db, x))
  {
  }

  lemma ChildGoes(db: Db, d: Db, x: string, parent: Ref)
    requires OnlyRetires(db, d, x)
    requires forall c :: c in Children(db, parent) ==> c.id == x
    ensures Children(d, parent) == {}
  {
  }

  /* ----- leaves without a state ----- */

  /** An active leaf whose state is NULL. */
  ghost predicate NullLeaf(db: Db, id: string)
  {
    && id in db.requirements && db.requirements[id].lifecycle == Active
    && Actionable(db, CurrentRef(db, id)) && db.requirements[id].state == None
  }

  ghost predicate NamesParent(input: RequirementInput, id: string)
  {
    input.level == System && exists p :: p in input.parents && p.id == id
  }

  /** Whether id will be a leaf once input.id has the given revision. */
  ghost predicate LeafWithout(db: Db, input: RequirementInput, id: string)
    requires id in db.requirements
  {
    var ref := CurrentRef(db, id);
    && ref in db.revisions
    && match db.revisions[ref].level
       case Business => false
       case System => true
       case Stakeholder => ref !in input.parents && forall c :: c in Children(db, ref) ==> c.id == input.id
  }

  lemma ChildrenAfterRevision(db: Db, d: Db, input: RequirementInput, ref: Ref, c: Ref)
    requires RevisionsSound(db) && LinksSound(db) && RevisionAdded(db, d, input)
    requires input.id in db.requirements ==> db.requirements[input.id].current < input.revision
    requires d.requirements[input.id].lifecycle == Active
    ensures c in Children(d, ref) <==>
            (c in Children(db, ref) && c.id != input.id) || (c == Ref(input.id, input.revision) && ref in input.parents)
  {
    ChildrenAre(d, ref, c);
    ChildrenAre(db, ref, c);
    if Link(c, ref) in db.refinements {
      assert LinksBack(db, Link(c, ref));
    }
  }

  lemma ChildlessAfterRevision(db: Db, d: Db, input: RequirementInput, ref: Ref)
    requires RevisionsSound(db) && LinksSound(db) && RevisionAdded(db, d, input)
    requires input.id in db.requirements ==> db.requirements[input.id].current < input.revision
    requires d.requirements[input.id].lifecycle == Active
    ensures Children(d, ref) == {} <==> ref !in input.parents && forall c :: c in Children(db, ref) ==> c.id == input.id
  {
    forall c
      ensures c in Children(d, ref) <==>
              (c in Children(db, ref) && c.id != input.id)
                  || (c == Ref(input.id, input.revision) && ref in input.parents)
    {
      ChildrenAfterRevision(db, d, input, ref, c);
    }
    assert Ref(input.id, input.revision) in Children(d, ref) <==> ref in input.parents;
  }

  lemma LeafAfterRevision(db: Db, d: Db, input: RequirementInput, id: string)
    requires RevisionsSound(db) && LinksSound(db) && RevisionAdded(db, d, input)
    requires id in db.requirements && id != input.id && CurrentRef(db, id) in db.revisions
    requires input.id in db.requirements ==> db.requirements[input.id].current < input.revision
    requires d.requirements[input.id].lifecycle == Active
    ensures CurrentRef(d, id) == CurrentRef(db, id)
            && (Actionable(d, CurrentRef(d, id)) <==> LeafWithout(db, input, id))
  {
    var ref := CurrentRef(db, id);
    ChildlessAfterRevision(db, d, input, ref);
    assert CurrentRef(d, id) == ref && d.revisions[ref] == db.revisions[ref];
  }

  /** Exactly when another active requirement is a leaf without a state after an
      update: it is a leaf without the revised requirement's old revision and
      with its new one, lies outside the impact, and had no state or loses it as
      a named parent of a system requirement. */
  lemma NullLeafAfterUpdateExactly(db: Db, d: Db, input: RequirementInput, expected: int, id: string)
    requires Sound(db) && ValidRequirement(input) && UpdateRequirement(db, input, expected) == Commit(d)
    requires id in db.requirements && id != input.id && db.requirements[id].lifecycle == Active
    ensures NullLeaf(d, id) <==>
            && LeafWithout(db, input, id) && !InActiveImpact(db, input.id, id)
            && (db.requirements[id].state == None || NamesParent(input, id))
  {
    UpdateAdds(db, input, expected);
    RevisionKeepsLinks(db, d, input);
    LeafAfterRevision(db, d, input, id);
    ImpactForetellsUpdate(db, d, input, expected, id);
    NullAfterUpdate(db, d, input, id);
  }

  lemma NullAfterUpdate(db: Db, d: Db, input: RequirementInput, id: string)
    requires id in db.requirements && id in d.requirements && d.requirements[id] == RowAfterUpdate(db, d, input, id)
    requires d.requirements[id].lifecycle == Active
    ensures NullLeaf(d, id) <==>
            && Actionable(d, CurrentRef(d, id)) && id !in Downstream(d, input.id)
            && (db.requirements[id].state == None || NamesParent(input, id))
  {
  }

  lemma NullLeafAfterCreateExactly(db: Db, d: Db, input: RequirementInput, id: string)
    requires Sound(db) && ValidRequirement(input) && CreateRequirement(db, input) == Commit(d)
    requires id in db.requirements && db.requirements[id].lifecycle == Active
    ensures NullLeaf(d, id) <==>
            LeafWithout(db, input, id) && (db.requirements[id].state == None || NamesParent(input, id))
  {
    CreateAdds(db, input);
    RevisionKeepsLinks(db, d, input);
    LeafAfterRevision(db, d, input, id);
  }

  /** The requirement that a request creates or revises is never such a leaf. */
  lemma OwnRowHasState(db: Db, d: Db, input: RequirementInput, expected: int)
    requires CreateRequirement(db, input) == Commit(d) || UpdateRequirement(db, input, expected) == Commit(d)
    ensures !NullLeaf(d, input.id)
  {
    if CreateRequirement(db, input) == Commit(d) {
      CreateAdds(db, input);
    } else {
      UpdateAdds(db, input, expected);
    }
    assert CurrentRef(d, input.id) == Ref(input.id, input.revision);
  }

  lemma RetireMakesNoNullLeaf(db: Db, d: Db, x: string, id: string)
    requires Sound(db) && RetireRequirement(db, x) == Commit(d) && NullLeaf(d, id)
    ensures NullLeaf(db, id)
  {
    RetireOnlyRetires(db, d, x);
    RetireRow(db, d, x, id);
    StaysLeaf(db, d, x, id);
  }

  lemma StaysLeaf(db: Db, d: Db, x: string, id: string)
    requires RequirementsSound(db) && LinksSound(db) && OnlyRetires(db, d, x) && id in db.requirements
    requires d.requirements[id] == RowAfterRetire(db, d, x, id) && NullLeaf(d, id)
    ensures NullLeaf(db, id)
  {
  }

  lemma NoRowCleared(db: Db, d: Db, id: string)
    requires SameGraph(db, d) && NullLeaf(d, id)
    requires id in db.requirements && (d.requirements[id].state == None ==> db.requirements[id].state == None)
    ensures NullLeaf(db, id)
  {
    SameGraphSameQueries(db, d);
    assert CurrentRef(db, id) == CurrentRef(d, id);
  }

  lemma WorkMakesNoNullLeaf(db: Db, op: Op, id: string)
    requires IsLeaseOp(op) || op.OpCreateTask? || op.OpCompleteTask?
    requires NullLeaf(Step(db, op), id)
    ensures NullLeaf(db, id)
  {
    OthersKeepGraph(db, op);
    if IsLeaseOp(op) {
      LeaseOpEffect(db, op);
    } else if Perform(db, op).Commit? {
      if op.OpCreateTask? {
        CreateTaskEffect(db, op.task);
      } else {
        CompleteEffect(db, op.completed, op.held, op.heldFence, op.commit);
      }
    }
    NoRowCleared(db, Step(db, op), id);
  }

  /** Only creating or revising a requirement can leave an active leaf without
      a state. */
  lemma NullLeavesComeFromRevisions(db: Db, op: Op, id: string)
    requires Sound(db) && NullLeaf(Step(db, op), id)
    ensures NullLeaf(db, id) || op.OpCreateRequirement? || op.OpUpdateRequirement?
  {
    if op.OpRetireRequirement? {
      if Perform(db, op).Commit? {
        RetireMakesNoNullLeaf(db, Step(db, op), op.id, id);
      }
    } else if op.OpReviewRequirement? {
      if Perform(db, op).Commit? {
        ReviewMakesNoNullLeaf(db, Step(db, op), op.review, id);
      }
    } else if !op.OpCreateRequirement? && !op.OpUpdateRequirement? {
      WorkMakesNoNullLeaf(db, op, id);
    }
  }

  lemma ReviewMakesNoNullLeaf(db: Db, d: Db, input: ReviewInput, id: string)
    requires ReviewRequirement(db, input) == Commit(d) && NullLeaf(d, id)
    ensures NullLeaf(db, id)
  {
  }
}
