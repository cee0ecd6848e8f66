/** The roll-up of reconciliation states over refinement leaves: the flattened
    query against a recursive definition, and what a read of "satisfied"
    guarantees. */
module RollUps {
  import opened Domain
  import opened Graph
  import opened Tables
  import opened Queries
  import opened Transactions
  import opened Soundness
  import opened Verdicts

  /** How many levels lie below. */
  function Height(level: Level): nat
  {
    match level
    case Business => 2
    case Stakeholder => 1
    case System => 0
  }

  function HeightOf(db: Db, ref: Ref): nat
  {
    if ref in db.revisions then Height(db.revisions[ref].level) else 0
  }

  lemma ChildIsLower(db: Db, ref: Ref, c: Ref)
    requires LinksSound(db) && c in Children(db, ref)
    ensures HeightOf(db, c) < HeightOf(db, ref) && ref in db.revisions && c in db.revisions && ActiveCurrent(db, c)
    ensures (ref, c) in ChildEdges(db) && Reaches(ChildEdges(db), ref, c)
  {
    ChildrenAre(db, ref, c);
    assert LinksBack(db, Link(c, ref));
    EdgeReaches(ChildEdges(db), ref, c);
  }

  /** A leaf's contribution: NULL counts for nothing. */
  function LeafState(db: Db, ref: Ref): Recon
  {
    if RowState(db, ref) == None then Satisfied else RowState(db, ref).value
  }

  /** Not satisfied outweighs pending, which outweighs satisfied. */
  ghost function WorstOf(states: set<Recon>): Recon
  {
    if NotSatisfied in states then NotSatisfied
    else if PendingReview in states then PendingReview
    else Satisfied
  }

  /** The worst state over the active current children, child by child. */
  ghost function Worst(db: Db, ref: Ref): Recon
    requires LinksSound(db)
    decreases HeightOf(db, ref)
  {
    if Children(db, ref) == {} then LeafState(db, ref)
    else WorstOf(set c | c in Children(db, ref) :: (ChildIsLower(db, ref, c); Worst(db, c)))
  }

  /** A leaf below ref is a child without children or lies below a child. */
  lemma LeavesByChild(db: Db, ref: Ref, leaf: Ref)
    ensures LeafBelow(db, ref, leaf) <==>
            exists c :: c in Children(db, ref) && ((c == leaf && Children(db, leaf) == {}) || LeafBelow(db, c, leaf))
  {
    if LeafBelow(db, ref, leaf) {
      var m := FirstEdge(ChildEdges(db), ref, leaf);
      ChildrenAre(db, ref, m);
    }
    if c :| c in Children(db, ref) && ((c == leaf && Children(db, leaf) == {}) || LeafBelow(db, c, leaf)) {
      ChildrenAre(db, ref, c);
      EdgeReaches(ChildEdges(db), ref, c);
      if c != leaf {
        Prepend(ChildEdges(db), ref, c, leaf);
      } else if LeafBelow(db, c, leaf) {
        Prepend(ChildEdges(db), ref, c, leaf);
      }
    }
  }

  /** Whether the part of the roll-up that comes through child c has a leaf in
      the given state. */
  ghost predicate ThroughChild(db: Db, c: Ref, state: Recon)
  {
    if Children(db, c) == {} then RowState(db, c) == Some(state) else SomeLeaf(db, c, state)
  }

  lemma LeafHasNoneBelow(db: Db, c: Ref, leaf: Ref)
    requires Children(db, c) == {}
    ensures !LeafBelow(db, c, leaf)
  {
    if LeafBelow(db, c, leaf) {
      LeavesByChild(db, c, leaf);
    }
  }

  lemma SomeLeafByChild(db: Db, ref: Ref, state: Recon)
    ensures SomeLeaf(db, ref, state) <==> exists c :: c in Children(db, ref) && ThroughChild(db, c, state)
  {
    if SomeLeaf(db, ref, state) {
      var leaf :| LeafBelow(db, ref, leaf) && RowState(db, leaf) == Some(state);
      LeavesByChild(db, ref, leaf);
      var c :| c in Children(db, ref) && ((c == leaf && Children(db, leaf) == {}) || LeafBelow(db, c, leaf));
      if Children(db, c) == {} {
        LeafHasNoneBelow(db, c, leaf);
      }
      assert ThroughChild(db, c, state);
    }
    if c :| c in Children(db, ref) && ThroughChild(db, c, state) {
      var leaf := c;
      if Children(db, c) != {} {
        leaf :| LeafBelow(db, c, leaf) && RowState(db, leaf) == Some(state);
      }
      LeavesByChild(db, ref, leaf);
    }
  }

  /** The flattened roll-up is the recursive worst-of, however many paths lead
      to a shared leaf. */
  lemma {:induction false} RollUpIsWorst(db: Db, ref: Ref)
    requires LinksSound(db) && Children(db, ref) != {}
    ensures RollUp(db, ref) == Worst(db, ref)
    decreases HeightOf(db, ref)
  {
    var states := set c | c in Children(db, ref) :: (ChildIsLower(db, ref, c); Worst(db, c));
    forall c | c in Children(db, ref)
      ensures Worst(db, c) == NotSatisfied <==> ThroughChild(db, c, NotSatisfied)
      ensures Worst(db, c) == PendingReview <==>
              !ThroughChild(db, c, NotSatisfied) && ThroughChild(db, c, PendingReview)
      ensures Worst(db, c) in states
    {
      ChildIsLower(db, ref, c);
      if Children(db, c) != {} {
        RollUpIsWorst(db, c);
      }
    }
    SomeLeafByChild(db, ref, NotSatisfied);
    SomeLeafByChild(db, ref, PendingReview);
    assert NotSatisfied in states <==> SomeLeaf(db, ref, NotSatisfied);
    assert !SomeLeaf(db, ref, NotSatisfied) ==> (PendingReview in states <==> SomeLeaf(db, ref, PendingReview));
  }

  /** A requirement with an active child has a leaf below it, so its roll-up is
      never taken over nothing. */
  lemma {:induction false} RollUpHasLeaf(db: Db, ref: Ref) returns (leaf: Ref)
    requires LinksSound(db) && Children(db, ref) != {}
    ensures LeafBelow(db, ref, leaf)
    decreases HeightOf(db, ref)
  {
    var c :| c in Children(db, ref);
    ChildIsLower(db, ref, c);
    leaf := c;
    if Children(db, c) != {} {
      leaf := RollUpHasLeaf(db, c);
    }
    LeavesByChild(db, ref, leaf);
  }

  /* ----- the roll-up against reading the children ----- */

  /** What reading each active current child reports. */
  ghost function ChildReads(db: Db, ref: Ref): set<Recon>
  {
    set c | c in Children(db, ref) :: (ChildrenAre(db, ref, c); Effective(db, c.id))
  }

  ghost predicate HasNullChild(db: Db, ref: Ref)
  {
    exists c :: c in Children(db, ref) && Children(db, c) == {} && RowState(db, c) == None
  }

  lemma ChildRead(db: Db, ref: Ref, c: Ref)
    requires LinksSound(db) && c in Children(db, ref)
    ensures c.id in db.requirements && Effective(db, c.id) in ChildReads(db, ref)
    ensures Effective(db, c.id) == NotSatisfied <==> ThroughChild(db, c, NotSatisfied)
    ensures Effective(db, c.id) == PendingReview <==>
            || (!ThroughChild(db, c, NotSatisfied) && ThroughChild(db, c, PendingReview))
            || (Children(db, c) == {} && RowState(db, c) == None)
  {
  }

  /** Every leaf below is stored as satisfied or has no state. */
  ghost predicate LeavesSatisfiedOrNull(db: Db, ref: Ref)
  {
    forall leaf :: LeafBelow(db, ref, leaf) ==> RowState(db, leaf) in {None, Some(Satisfied)}
  }

  /** The roll-up says satisfied exactly if no leaf has another state. */
  lemma SatisfiedRollUp(db: Db, ref: Ref)
    ensures RollUp(db, ref) == Satisfied <==> LeavesSatisfiedOrNull(db, ref)
  {
    forall leaf | LeafBelow(db, ref, leaf) && RowState(db, leaf) !in {None, Some(Satisfied)}
      ensures SomeLeaf(db, ref, NotSatisfied) || SomeLeaf(db, ref, PendingReview)
    {
      var state := RowState(db, leaf).value;
      assert RowState(db, leaf) == Some(state) && state != Satisfied;
      assert SomeLeaf(db, ref, state);
    }
  }

  lemma RollUpAgainstReads(db: Db, ref: Ref)
    requires LinksSound(db) && Children(db, ref) != {}
    ensures RollUp(db, ref) == WorstOf(ChildReads(db, ref)) <==>
            !(RollUp(db, ref) == Satisfied && HasNullChild(db, ref))
  {
    SomeLeafByChild(db, ref, NotSatisfied);
    SomeLeafByChild(db, ref, PendingReview);
    forall c | c in Children(db, ref)
      ensures c.id in db.requirements && Effective(db, c.id) in ChildReads(db, ref)
      ensures Effective(db, c.id) == NotSatisfied <==> ThroughChild(db, c, NotSatisfied)
      ensures Effective(db, c.id) == PendingReview <==>
              || (!ThroughChild(db, c, NotSatisfied) && ThroughChild(db, c, PendingReview))
              || (Children(db, c) == {} && RowState(db, c) == None)
    {
      ChildRead(db, ref, c);
    }
    assert NotSatisfied in ChildReads(db, ref) <==> SomeLeaf(db, ref, NotSatisfied);
    assert !SomeLeaf(db, ref, NotSatisfied) ==>
        (PendingReview in ChildReads(db, ref) <==> SomeLeaf(db, ref, PendingReview) || HasNullChild(db, ref));
  }

  /** The roll-up is the worst of what the children read, except exactly when a
      child leaf is NULL, which reads as pending review, while every leaf below
      is stored as satisfied or is NULL. */
  lemma RollUpMatchesReadsExactly(db: Db, ref: Ref)
    requires LinksSound(db) && Children(db, ref) != {}
    ensures RollUp(db, ref) == WorstOf(ChildReads(db, ref)) <==>
            !(HasNullChild(db, ref) && forall leaf :: LeafBelow(db, ref, leaf) ==>
                RowState(db, leaf) in {None, Some(Satisfied)})
  {
    RollUpAgainstReads(db, ref);
    SatisfiedRollUp(db, ref);
  }

  /** What reading the leaves below reports. */
  ghost function LeafReads(db: Db, ref: Ref): set<Recon>
  {
    set state | state in {NotSatisfied, PendingReview, Satisfied} && SomeLeafReads(db, ref, state)
  }

  ghost predicate SomeLeafReads(db: Db, ref: Ref, state: Recon)
  {
    exists leaf :: LeafBelow(db, ref, leaf) && leaf.id in db.requirements && Effective(db, leaf.id) == state
  }

  ghost predicate HasNullLeaf(db: Db, ref: Ref)
  {
    exists leaf :: LeafBelow(db, ref, leaf) && RowState(db, leaf) == None
  }

  /** Reading a leaf reports its row, and a NULL as pending review. */
  lemma LeafRead(db: Db, ref: Ref, leaf: Ref)
    requires LeafBelow(db, ref, leaf)
    ensures leaf.id in db.requirements && Effective(db, leaf.id) == StoredState(RowState(db, leaf))
  {
    var n: nat :| Steps(ChildEdges(db), n, ref, leaf);
    var p := LastEdge(ChildEdges(db), n, ref, leaf);
    ChildrenAre(db, p, leaf);
    assert CurrentRef(db, leaf.id) == leaf;
  }

  /** The roll-up is the worst of what the leaves below read, except exactly when
      some leaf is NULL while every leaf is stored as satisfied or is NULL. */
  lemma RollUpMatchesLeavesExactly(db: Db, ref: Ref)
    ensures RollUp(db, ref) == WorstOf(LeafReads(db, ref)) <==>
            !(HasNullLeaf(db, ref)
              && forall leaf :: LeafBelow(db, ref, leaf) ==> RowState(db, leaf) in {None, Some(Satisfied)})
  {
    SatisfiedRollUp(db, ref);
    forall leaf | LeafBelow(db, ref, leaf)
      ensures leaf.id in db.requirements && Effective(db, leaf.id) == StoredState(RowState(db, leaf))
    {
      LeafRead(db, ref, leaf);
    }
    assert SomeLeafReads(db, ref, NotSatisfied) <==> SomeLeaf(db, ref, NotSatisfied);
    assert SomeLeafReads(db, ref, PendingReview) <==> SomeLeaf(db, ref, PendingReview) || HasNullLeaf(db, ref);
  }

  /* ----- what a read of "satisfied" guarantees ----- */

  /** A leaf of the roll-up is an active, current, actionable requirement. */
  lemma LeafIsActionable(db: Db, ref: Ref, leaf: Ref)
    requires LinksSound(db) && LeafBelow(db, ref, leaf)
    ensures ActiveCurrent(db, leaf) && Actionable(db, leaf)
  {
    var n: nat :| Steps(ChildEdges(db), n, ref, leaf);
    var p := LastEdge(ChildEdges(db), n, ref, leaf);
    ChildrenAre(db, p, leaf);
    assert LinksBack(db, Link(leaf, p));
  }

  lemma {:induction false} ChildStepsAreUpstream(db: Db, n: nat, ref: Ref, c: Ref)
    requires Steps(ChildEdges(db), n, ref, c)
    ensures Reaches(Edges(db), ref.id, c.id)
  {
    if n == 0 {
      ChildrenAre(db, ref, c);
      ChildEdgeIsEdge(db, ref, c);
      EdgeReaches(Edges(db), ref.id, c.id);
    } else {
      var m :| (ref, m) in ChildEdges(db) && Steps(ChildEdges(db), n - 1, m, c);
      ChildrenAre(db, ref, m);
      ChildEdgeIsEdge(db, ref, m);
      ChildStepsAreUpstream(db, n - 1, m, c);
      Prepend(Edges(db), ref.id, m.id, c.id);
    }
  }

  lemma ChildEdgeIsEdge(db: Db, ref: Ref, c: Ref)
    requires c in Children(db, ref)
    ensures (ref.id, c.id) in Edges(db)
  {
  }

  /** If a requirement with active children reads as satisfied, then every leaf
      below it that is not NULL was accepted at its current revision after the
      last change of the leaf, of the requirement read, and of everything else
      upstream of the leaf; and there is at least one leaf. */
  lemma SatisfiedReadIsNeverStale(ops: seq<Op>, id: string)
    requires id in Run(ops).requirements && Children(Run(ops), CurrentRef(Run(ops), id)) != {}
    requires Effective(Run(ops), id) == Satisfied
    ensures exists leaf :: LeafBelow(Run(ops), CurrentRef(Run(ops), id), leaf)
    ensures forall leaf :: LeafBelow(Run(ops), CurrentRef(Run(ops), id), leaf) && RowState(Run(ops), leaf) != None ==>
              && ActiveCurrent(Run(ops), leaf)
              && Reaches(Edges(Run(ops)), id, leaf.id)
              && exists commit :: AcceptedLast(Run(ops), leaf.id, commit)
  {
    RunIsTrusted(ops);
    var db := Run(ops);
    var ref := CurrentRef(db, id);
    var some := RollUpHasLeaf(db, ref);
    SatisfiedRollUp(db, ref);
    forall leaf | LeafBelow(db, ref, leaf) && RowState(db, leaf) != None
      ensures ActiveCurrent(db, leaf) && Reaches(Edges(db), id, leaf.id)
      ensures exists commit :: AcceptedLast(db, leaf.id, commit)
    {
      LeafIsActionable(db, ref, leaf);
      assert Backed(db, leaf.id);
      var n: nat :| Steps(ChildEdges(db), n, ref, leaf);
      ChildStepsAreUpstream(db, n, ref, leaf);
    }
  }
}
