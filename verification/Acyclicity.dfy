/** Cycles: none between revisions, some between identifiers, and none below a
    requirement whose dependencies are all current. */
module Acyclicity {
  import opened Domain
  import opened Graph
  import opened Tables
  import opened Queries
  import opened Transactions
  import opened Soundness

  /** Every link, from the revision that has it to the revision it names. */
  function RevisionEdges(db: Db): set<(Ref, Ref)>
  {
    set l | l in db.refinements + db.dependencies :: (l.child, l.parent)
  }

  /** Every stored link leads to a revision created strictly earlier. */
  lemma LinksLeadBack(ops: seq<Op>, l: Link)
    requires l in Run(ops).refinements + Run(ops).dependencies
    ensures l.child in Run(ops).revisions && l.parent in Run(ops).revisions
    ensures Run(ops).revisions[l.parent].createdAt < Run(ops).revisions[l.child].createdAt
  {
    RunIsSound(ops);
    assert LinksBack(Run(ops), l);
  }

  function Births(db: Db): map<Ref, int>
  {
    map r | r in db.revisions :: db.revisions[r].createdAt
  }

  lemma SoundRevisionsAcyclic(db: Db, r: Ref)
    requires LinksSound(db)
    ensures !Reaches(RevisionEdges(db), r, r)
  {
    var births := Births(db);
    forall e | e in RevisionEdges(db)
      ensures e.0 in births && e.1 in births && births[e.1] < births[e.0]
    {
      var l :| l in db.refinements + db.dependencies && (l.child, l.parent) == e;
      assert LinksBack(db, l);
    }
    RankedIsAcyclic(RevisionEdges(db), births, r);
  }

  /** No revision reaches itself over refinement and dependency links. */
  lemma RevisionsAreAcyclic(ops: seq<Op>, r: Ref)
    ensures !Reaches(RevisionEdges(Run(ops)), r, r)
  {
    RunIsSound(ops);
    SoundRevisionsAcyclic(Run(ops), r);
  }

  /* ----- dependencies by identifier ----- */

  /** The dependencies of current revisions, by identifier. */
  function IdDependencyEdges(db: Db): set<(string, string)>
  {
    set l | l in db.dependencies && IsCurrent(db, l.child) :: (l.child.id, l.parent.id)
  }

  ghost predicate DependenciesCurrent(db: Db, r: Ref)
  {
    forall d :: DependsOn(db, r, d) ==> IsCurrent(db, d)
  }

  /** Below a revision whose transitive dependencies are current, a walk over
      identifiers is a walk over their current revisions. */
  lemma {:induction false} IdWalkLifts(db: Db, n: nat, r: Ref, b: string)
    requires IsCurrent(db, r) && DependenciesCurrent(db, r)
    requires Steps(IdDependencyEdges(db), n, r.id, b)
    ensures b in db.requirements && Reaches(DependencyEdges(db), r, CurrentRef(db, b))
  {
    if n == 0 {
      var d := IdEdgeLifts(db, r, b);
    } else {
      var m :| (r.id, m) in IdDependencyEdges(db) && Steps(IdDependencyEdges(db), n - 1, m, b);
      var d := IdEdgeLifts(db, r, m);
      forall x | DependsOn(db, d, x)
        ensures IsCurrent(db, x)
      {
        Prepend(DependencyEdges(db), r, d, x);
      }
      IdWalkLifts(db, n - 1, d, b);
      Prepend(DependencyEdges(db), r, d, CurrentRef(db, b));
    }
  }

  lemma IdEdgeLifts(db: Db, r: Ref, m: string) returns (d: Ref)
    requires IsCurrent(db, r) && DependenciesCurrent(db, r) && (r.id, m) in IdDependencyEdges(db)
    ensures d.id == m && IsCurrent(db, d) && d == CurrentRef(db, m)
    ensures (r, d) in DependencyEdges(db) && Reaches(DependencyEdges(db), r, d)
  {
    var l :| l in db.dependencies && IsCurrent(db, l.child) && (l.child.id, l.parent.id) == (r.id, m);
    d := l.parent;
    assert l == Link(r, d);
    DependencyEdgesAre(db, r, d);
    EdgeReaches(DependencyEdges(db), r, d);
    assert DependsOn(db, r, d);
  }

  lemma {:induction false} DependencyStepsAreRevisionSteps(db: Db, n: nat, r: Ref, d: Ref)
    requires Steps(DependencyEdges(db), n, r, d)
    ensures Reaches(RevisionEdges(db), r, d)
  {
    if n == 0 {
      DependencyEdgesAre(db, r, d);
      DependencyIsRevisionEdge(db, r, d);
      EdgeReaches(RevisionEdges(db), r, d);
    } else {
      var m :| (r, m) in DependencyEdges(db) && Steps(DependencyEdges(db), n - 1, m, d);
      DependencyEdgesAre(db, r, m);
      DependencyIsRevisionEdge(db, r, m);
      DependencyStepsAreRevisionSteps(db, n - 1, m, d);
      Prepend(RevisionEdges(db), r, m, d);
    }
  }

  lemma DependencyIsRevisionEdge(db: Db, r: Ref, m: Ref)
    requires Link(r, m) in db.dependencies
    ensures (r, m) in RevisionEdges(db)
  {
  }

  /** If every transitive dependency of a current revision is current, then no
      identifier cycle exists at it or anywhere below it. */
  lemma CurrentDependenciesAcyclic(db: Db, r: Ref, b: string)
    requires LinksSound(db) && IsCurrent(db, r) && DependenciesCurrent(db, r)
    requires b == r.id || Reaches(IdDependencyEdges(db), r.id, b)
    ensures !Reaches(IdDependencyEdges(db), b, b)
  {
    if Reaches(IdDependencyEdges(db), b, b) {
      var q := r;
      if b != r.id {
        var n: nat :| Steps(IdDependencyEdges(db), n, r.id, b);
        IdWalkLifts(db, n, r, b);
        q := CurrentRef(db, b);
        forall x | DependsOn(db, q, x)
          ensures IsCurrent(db, x)
        {
          Transitive(DependencyEdges(db), r, q, x);
          assert DependsOn(db, r, x);
        }
      }
      var n: nat :| Steps(IdDependencyEdges(db), n, b, b);
      IdWalkLifts(db, n, q, b);
      var k: nat :| Steps(DependencyEdges(db), k, q, q);
      DependencyStepsAreRevisionSteps(db, k, q, q);
      SoundRevisionsAcyclic(db, q);
    }
  }

  /** No task that can be leased links, at its current revision, to a
      requirement on or above an identifier cycle. */
  lemma LeasableTaskOnNoCycle(ops: seq<Op>, task: string, l: TaskLink, b: string)
    requires task in Run(ops).tasks && Leasable(Run(ops), task)
    requires l in Run(ops).taskLinks && l.task == task && IsCurrent(Run(ops), l.ref)
    requires b == l.ref.id || Reaches(IdDependencyEdges(Run(ops)), l.ref.id, b)
    ensures !Reaches(IdDependencyEdges(Run(ops)), b, b)
  {
    RunIsSound(ops);
    var db := Run(ops);
    assert !RequirementBlocked(db, l.ref);
    forall d | DependsOn(db, l.ref, d)
      ensures IsCurrent(db, d)
    {
      assert Met(db, d);
    }
    CurrentDependenciesAcyclic(db, l.ref, b);
  }

  /* ----- which requests close a cycle of identifiers ----- */

  ghost predicate IdAcyclic(db: Db)
  {
    forall b :: !Reaches(IdDependencyEdges(db), b, b)
  }

  predicate IdLinked(db: Db, a: string, b: string, l: Link)
  {
    l in db.dependencies && IsCurrent(db, l.child) && l.child.id == a && l.parent.id == b
  }

  lemma IdEdgesAre(db: Db, a: string, b: string)
    ensures (a, b) in IdDependencyEdges(db) <==> exists l :: IdLinked(db, a, b, l)
  {
    if (a, b) in IdDependencyEdges(db) {
      var l :| l in db.dependencies && IsCurrent(db, l.child) && (l.child.id, l.parent.id) == (a, b);
      assert IdLinked(db, a, b, l);
    }
    if l :| IdLinked(db, a, b, l) {
      assert (l.child.id, l.parent.id) == (a, b);
    }
  }

  /** A revision replaces the edges out of the revised requirement by those to
      its new dependencies, and leaves the others alone. */
  lemma RevisionMovesIdEdges(db: Db, d: Db, input: RequirementInput)
    requires LinksSound(db) && RevisionsSound(db) && RevisionAdded(db, d, input)
    ensures AgreeExceptFrom(IdDependencyEdges(db), IdDependencyEdges(d), input.id)
    ensures forall b :: (input.id, b) in IdDependencyEdges(d) <==> exists p :: p in input.dependsOn && p.id == b
  {
    forall a, b | a != input.id
      ensures (a, b) in IdDependencyEdges(db) <==> (a, b) in IdDependencyEdges(d)
    {
      IdEdgesAre(db, a, b);
      IdEdgesAre(d, a, b);
      if l :| IdLinked(db, a, b, l) {
        assert IdLinked(d, a, b, l);
      }
      if l :| IdLinked(d, a, b, l) {
        assert IdLinked(db, a, b, l);
      }
    }
    forall b
      ensures (input.id, b) in IdDependencyEdges(d) <==> exists p :: p in input.dependsOn && p.id == b
    {
      OwnIdEdges(db, d, input, b);
    }
  }

  lemma OwnIdEdges(db: Db, d: Db, input: RequirementInput, b: string)
    requires LinksSound(db) && RevisionAdded(db, d, input)
    ensures (input.id, b) in IdDependencyEdges(d) <==> exists p :: p in input.dependsOn && p.id == b
  {
    var ref := Ref(input.id, input.revision);
    IdEdgesAre(d, input.id, b);
    if l :| IdLinked(d, input.id, b, l) {
      assert l.child == ref;
      assert l.parent in input.dependsOn;
    }
    if p :| p in input.dependsOn && p.id == b {
      assert Link(ref, p) in NewLinks(ref, input.dependsOn);
      assert IdLinked(d, input.id, b, Link(ref, p));
    }
  }

  /** The revised requirement lies on a cycle afterwards exactly if one of its
      new dependencies reached it before. Any other new cycle leads through it. */
  lemma RevisionClosesCycleExactly(db: Db, d: Db, input: RequirementInput)
    requires LinksSound(db) && RevisionsSound(db) && RevisionAdded(db, d, input)
    ensures Reaches(IdDependencyEdges(d), input.id, input.id) <==>
            exists p :: p in input.dependsOn && Reaches(IdDependencyEdges(db), p.id, input.id)
    ensures (exists b :: Reaches(IdDependencyEdges(d), b, b) && !Reaches(IdDependencyEdges(db), b, b)) ==>
              Reaches(IdDependencyEdges(d), input.id, input.id)
  {
    var before, after, x := IdDependencyEdges(db), IdDependencyEdges(d), input.id;
    RevisionMovesIdEdges(db, d, input);
    if Reaches(after, x, x) {
      var m := FirstEdge(after, x, x);
      var p :| p in input.dependsOn && p.id == m;
      assert p in input.parents + input.dependsOn;
      ReachIntoSame(before, after, x, m);
    }
    if p :| p in input.dependsOn && Reaches(before, p.id, x) {
      assert p in input.parents + input.dependsOn;
      ReachIntoSame(before, after, x, p.id);
      Prepend(after, x, p.id, x);
    }
    if b :| Reaches(after, b, b) && !Reaches(before, b, b) {
      NewCyclePasses(before, after, x, b);
    }
  }

  /** An update leaves a cycle in an acyclic graph exactly if it names a
      dependency that already depends, however indirectly, on the revised
      requirement. */
  lemma UpdateClosesCycleExactly(db: Db, d: Db, input: RequirementInput, expected: int)
    requires Sound(db) && UpdateRequirement(db, input, expected) == Commit(d) && IdAcyclic(db)
    ensures !IdAcyclic(d) <==> exists p :: p in input.dependsOn && Reaches(IdDependencyEdges(db), p.id, input.id)
  {
    UpdateAdds(db, input, expected);
    RevisionClosesCycleExactly(db, d, input);
  }

  /** Whatever something depends on exists. */
  lemma DependencyExists(db: Db, a: string, x: string)
    requires LinksSound(db) && RevisionsSound(db) && Reaches(IdDependencyEdges(db), a, x)
    ensures x in db.requirements
  {
    var n: nat :| Steps(IdDependencyEdges(db), n, a, x);
    var m := LastEdge(IdDependencyEdges(db), n, a, x);
    IdEdgesAre(db, m, x);
    var l :| IdLinked(db, m, x, l);
    assert LinksBack(db, l);
  }

  lemma CreationClosesNoCycle(db: Db, d: Db, input: RequirementInput)
    requires Sound(db) && CreateRequirement(db, input) == Commit(d) && IdAcyclic(db)
    ensures IdAcyclic(d)
  {
    CreateAdds(db, input);
    RevisionClosesCycleExactly(db, d, input);
    if p :| p in input.dependsOn && Reaches(IdDependencyEdges(db), p.id, input.id) {
      DependencyExists(db, p.id, input.id);
      assert false;
    }
  }

  lemma SameContentSameIdEdges(db: Db, d: Db)
    requires SameContent(db, d)
    ensures IdDependencyEdges(d) == IdDependencyEdges(db)
  {
    forall ref: Ref
      ensures IsCurrent(db, ref) == IsCurrent(d, ref)
    {
    }
  }

  /** A committed update that names a dependency which depends on the revised
      requirement. */
  ghost predicate ClosesCycle(db: Db, op: Op)
  {
    && op.OpUpdateRequirement? && Perform(db, op).Commit?
    && exists p :: p in op.revised.dependsOn && Reaches(IdDependencyEdges(db), p.id, op.revised.id)
  }

  /** Whatever the request, an acyclic graph gets a cycle exactly then. */
  lemma StepClosesCycleExactly(db: Db, op: Op)
    requires Sound(db) && IdAcyclic(db)
    ensures !IdAcyclic(Step(db, op)) <==> ClosesCycle(db, op)
  {
    if op.OpUpdateRequirement? || op.OpCreateRequirement? {
      if Perform(db, op).Commit? {
        match op
        case OpUpdateRequirement(input, expected) => UpdateClosesCycleExactly(db, Step(db, op), input, expected);
        case OpCreateRequirement(input) => CreationClosesNoCycle(db, Step(db, op), input);
        case _ =>
      }
    } else {
      if op.OpRetireRequirement? {
        if Perform(db, op).Commit? {
          RetireEffect(db, op.id);
        }
      } else {
        OthersKeepGraph(db, op);
      }
      SameContentSameIdEdges(db, Step(db, op));
    }
  }

  /** A run has a cycle of identifiers at some moment exactly if one of its
      updates names a dependency that then depends on the revised requirement. */
  lemma RunClosesCycleExactly(ops: seq<Op>)
    ensures (exists i :: 0 <= i <= |ops| && !IdAcyclic(Run(ops[..i]))) <==>
            exists k :: 0 <= k < |ops| && ClosesCycle(Run(ops[..k]), ops[k])
  {
    if k :| 0 <= k < |ops| && ClosesCycle(Run(ops[..k]), ops[k]) {
      RunIsSound(ops[..k]);
      StepClosed(Run(ops[..k]), ops[k]);
      RunNext(ops, k);
      assert !IdAcyclic(Run(ops[..k + 1]));
    }
    if i :| 0 <= i <= |ops| && !IdAcyclic(Run(ops[..i])) {
      var k := FirstCycle(ops, i);
    }
  }

  /** The requirement that such an update revises is on a cycle afterwards,
      whether or not there was one before. */
  lemma StepClosed(db: Db, op: Op)
    requires Sound(db) && ClosesCycle(db, op)
    ensures Reaches(IdDependencyEdges(Step(db, op)), op.revised.id, op.revised.id) && !IdAcyclic(Step(db, op))
  {
    UpdateAdds(db, op.revised, op.expected);
    RevisionClosesCycleExactly(db, Step(db, op), op.revised);
  }

  lemma {:induction false} FirstCycle(ops: seq<Op>, i: nat) returns (k: nat)
    requires i <= |ops| && !IdAcyclic(Run(ops[..i]))
    ensures k < i && ClosesCycle(Run(ops[..k]), ops[k])
  {
    if i == 0 {
      EmptyIsAcyclic();
      assert false;
    } else {
      k := i - 1;
      RunNext(ops, k);
      if IdAcyclic(Run(ops[..k])) {
        RunIsSound(ops[..k]);
        StepClosesCycleExactly(Run(ops[..k]), ops[k]);
      } else {
        k := FirstCycle(ops, k);
      }
    }
  }

  lemma EmptyIsAcyclic()
    ensures IdAcyclic(Run([]))
  {
    forall b
      ensures !Reaches(IdDependencyEdges(EMPTY), b, b)
    {
      if Reaches(IdDependencyEdges(EMPTY), b, b) {
        var m := FirstEdge(IdDependencyEdges(EMPTY), b, b);
        assert false;
      }
    }
  }
}
