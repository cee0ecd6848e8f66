/** What a change invalidates, and that the impact query foretells it. */
module Impact {
  import opened Domain
  import opened Graph
  import opened Tables
  import opened Queries
  import opened Transactions
  import opened Soundness
  import opened Verdicts
  import opened RollUps

  /** What the impact query selects: the root and everything downstream. */
  ghost predicate InImpact(db: Db, root: string, id: string)
  {
    Selected(Edges(db), {root}, id)
  }

  lemma ImpactIs(db: Db, root: string, id: string)
    ensures InImpact(db, root, id) <==> id == root || Reaches(Edges(db), root, id)
  {
  }

  ghost predicate InActiveImpact(db: Db, root: string, id: string)
  {
    InImpact(db, root, id) && id in db.requirements && db.requirements[id].lifecycle == Active
  }

  /** Apart from the requirement itself, the active members of the impact taken
      before an update are exactly those the update then processes. */
  lemma ImpactForetellsUpdate(db: Db, d: Db, input: RequirementInput, expected: int, id: string)
    requires Sound(db) && UpdateRequirement(db, input, expected) == Commit(d) && id != input.id
    ensures id in Downstream(d, input.id) <==> InActiveImpact(db, input.id, id)
  {
    UpdateAdds(db, input, expected);
    RevisionAgrees(db, d, input);
    ImpactIs(db, input.id, id);
    ReachFromSame(Edges(db), Edges(d), input.id, id);
  }

  lemma ImpactForetellsRetire(db: Db, d: Db, x: string, id: string)
    requires RetireRequirement(db, x) == Commit(d) && id != x
    ensures id in Downstream(d, x) <==> InActiveImpact(db, x, id)
  {
    RetireEffect(db, x);
    SameContentSameEdges(db, d);
    ImpactIs(db, x, id);
  }

  lemma CauseKeysAre(d: Db, items: set<string>, cause: Ref, id: string)
    requires items <= d.requirements.Keys && id in d.requirements
    ensures CauseKey(CurrentRef(d, id), cause) in NewCauses(d, items, cause) <==> id in items
  {
  }

  /** An update records itself as a cause of another requirement exactly if the
      requirement is active and in the impact. Outside the impact, rows stay as
      they are, except that new system children clear their parents' state. */
  lemma UpdateReachesImpact(db: Db, d: Db, input: RequirementInput, expected: int, id: string)
    requires Sound(db) && UpdateRequirement(db, input, expected) == Commit(d) && id != input.id && id in db.requirements
    ensures id in d.requirements
    ensures CauseKey(CurrentRef(d, id), Ref(input.id, input.revision)) in d.causes <==> InActiveImpact(db, input.id, id)
    ensures !InActiveImpact(db, input.id, id)
            && !(input.level == System && exists p :: p in input.parents && p.id == id) ==>
              d.requirements[id] == db.requirements[id]
  {
    UpdateAdds(db, input, expected);
    ImpactForetellsUpdate(db, d, input, expected, id);
    CauseKeysAre(d, Downstream(d, input.id), Ref(input.id, input.revision), id);
  }

  /** The same for a retirement; outside the impact, only the parents it turns
      into leaves are touched. */
  lemma RetireReachesImpact(db: Db, d: Db, x: string, id: string)
    requires RetireRequirement(db, x) == Commit(d) && id != x && id in db.requirements
    ensures id in d.requirements
    ensures var key := CauseKey(CurrentRef(db, id), CurrentRef(db, x));
            key in d.causes <==> InActiveImpact(db, x, id) || key in db.causes
    ensures !InActiveImpact(db, x, id) && !Freed(db, d, x, id) ==> d.requirements[id] == db.requirements[id]
  {
    RetireEffect(db, x);
    ImpactForetellsRetire(db, d, x, id);
    assert CurrentRef(d, id) == CurrentRef(db, id);
    CauseKeysAre(d, Downstream(d, x), CurrentRef(db, x), id);
  }

  /* ----- what is left behind ----- */

  /** Every actionable active requirement downstream of x is pending. */
  ghost predicate LeavesPending(d: Db, x: string)
  {
    forall id :: id in Downstream(d, x) && Actionable(d, CurrentRef(d, id)) ==>
      d.requirements[id].state == Some(PendingReview)
  }

  lemma UpdateLeavesPending(db: Db, d: Db, input: RequirementInput, expected: int)
    requires UpdateRequirement(db, input, expected) == Commit(d)
    ensures LeavesPending(d, input.id)
  {
    UpdateAdds(db, input, expected);
    forall id | id in Downstream(d, input.id) && Actionable(d, CurrentRef(d, id))
      ensures d.requirements[id].state == Some(PendingReview)
    {
      if id != input.id {
        assert d.requirements[id] == RowAfterUpdate(db, d, input, id);
      } else {
        assert CurrentRef(d, id) == Ref(input.id, input.revision);
      }
    }
  }

  lemma RetireLeavesPending(db: Db, d: Db, x: string)
    requires RetireRequirement(db, x) == Commit(d)
    ensures LeavesPending(d, x)
  {
    RetireEffect(db, x);
    forall id | id in Downstream(d, x) && Actionable(d, CurrentRef(d, id))
      ensures d.requirements[id].state == Some(PendingReview)
    {
      assert d.requirements[id] == RowAfterRetire(db, d, x, id);
    }
  }

  /** If the leaves downstream of x are pending, then every active requirement
      downstream of x reads as pending, leaf or not. */
  lemma DownstreamReadsPending(d: Db, x: string, id: string)
    requires Sound(d) && VerdictsPlaced(d) && LeavesPending(d, x) && id in Downstream(d, x)
    ensures Effective(d, id) == PendingReview
  {
    var ref := CurrentRef(d, id);
    if Children(d, ref) != {} {
      forall leaf | LeafBelow(d, ref, leaf)
        ensures RowState(d, leaf) == Some(PendingReview)
      {
        LeafIsActionable(d, ref, leaf);
        var n: nat :| Steps(ChildEdges(d), n, ref, leaf);
        ChildStepsAreUpstream(d, n, ref, leaf);
        Transitive(Edges(d), x, id, leaf.id);
        assert leaf.id in Downstream(d, x) && CurrentRef(d, leaf.id) == leaf;
      }
      var leaf := RollUpHasLeaf(d, ref);
      assert SomeLeaf(d, ref, PendingReview);
    } else if d.requirements[id].state != None {
      assert IsVerdict(d.requirements[id].state) || d.requirements[id].state == Some(PendingReview);
    }
  }

  /** A fresh revision has no children yet. */
  lemma FreshRevisionChildless(db: Db, d: Db, input: RequirementInput)
    requires LinksSound(db) && RevisionAdded(db, d, input)
    ensures Children(d, Ref(input.id, input.revision)) == {}
  {
  }

  lemma UpdateLeavesCause(db: Db, d: Db, input: RequirementInput, expected: int, id: string)
    requires Sound(db) && UpdateRequirement(db, input, expected) == Commit(d) && id in Downstream(d, input.id)
    ensures var key := CauseKey(CurrentRef(d, id), Ref(input.id, input.revision));
            key in d.causes && d.causes[key] == Open
  {
    UpdateAdds(db, input, expected);
    CauseKeysAre(d, Downstream(d, input.id), Ref(input.id, input.revision), id);
  }

  lemma RetireLeavesCause(db: Db, d: Db, x: string, id: string)
    requires RetireRequirement(db, x) == Commit(d) && id in Downstream(d, x)
    ensures x in db.requirements && id in db.requirements
    ensures var key := CauseKey(CurrentRef(db, id), CurrentRef(db, x));
            key in d.causes && (d.causes[key] == Open <==> !(key in db.causes && db.causes[key] == Resolved))
  {
    RetireEffect(db, x);
    assert CurrentRef(d, id) == CurrentRef(db, id);
    CauseKeysAre(d, Downstream(d, x), CurrentRef(db, x), id);
  }

  lemma UpdatedReadsPending(db: Db, d: Db, input: RequirementInput, expected: int)
    requires Sound(db) && UpdateRequirement(db, input, expected) == Commit(d)
    ensures input.id in d.requirements && Effective(d, input.id) == PendingReview
  {
    UpdateAdds(db, input, expected);
    FreshRevisionChildless(db, d, input);
    assert CurrentRef(d, input.id) == Ref(input.id, input.revision);
  }

  /** After an update in any run, the revised requirement and every active
      requirement downstream of it read as pending, leaf or not, and each of
      the latter has an open cause that names the new revision. */
  lemma UpdateInvalidates(ops: seq<Op>, d: Db, input: RequirementInput, expected: int, id: string)
    requires ValidRequirement(input) && UpdateRequirement(Run(ops), input, expected) == Commit(d)
    requires id in Downstream(d, input.id)
    ensures input.id in d.requirements && Effective(d, input.id) == PendingReview
    ensures Effective(d, id) == PendingReview
    ensures var key := CauseKey(CurrentRef(d, id), Ref(input.id, input.revision));
            key in d.causes && d.causes[key] == Open
  {
    RunIsTrusted(ops);
    var db := Run(ops);
    UpdateKeepsSound(db, input, expected);
    UpdateKeepsPlaced(db, d, input, expected);
    UpdateLeavesPending(db, d, input, expected);
    DownstreamReadsPending(d, input.id, id);
    UpdateLeavesCause(db, d, input, expected, id);
    UpdatedReadsPending(db, d, input, expected);
  }

  /** After a retirement in any run, every active requirement downstream reads
      as pending. Its cause is open exactly unless the same cause had been
      resolved before. */
  lemma RetireInvalidates(ops: seq<Op>, d: Db, x: string, id: string)
    requires RetireRequirement(Run(ops), x) == Commit(d) && id in Downstream(d, x)
    ensures x in Run(ops).requirements && id in Run(ops).requirements && Effective(d, id) == PendingReview
    ensures var db := Run(ops);
            var key := CauseKey(CurrentRef(db, id), CurrentRef(db, x));
            key in d.causes && (d.causes[key] == Open <==> !(key in db.causes && db.causes[key] == Resolved))
  {
    RunIsTrusted(ops);
    var db := Run(ops);
    RetireKeepsSound(db, x);
    RetireKeepsPlaced(db, d, x);
    RetireLeavesPending(db, d, x);
    DownstreamReadsPending(d, x, id);
    RetireLeavesCause(db, d, x, id);
  }
}
