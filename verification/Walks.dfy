/** What the recursive queries follow, told from the rows: lists of items in which
    each row leads from one to the next. */
module Walks {
  import opened Domain
  import opened Graph
  import opened Tables
  import opened Queries
  import opened Transactions
  import opened Soundness
  import opened Verdicts

  /** Each step of the list is an edge. */
  ghost predicate IsWalk<T(!new)>(edges: set<(T, T)>, path: seq<T>, a: T, b: T)
  {
    && |path| >= 2 && path[0] == a && path[|path| - 1] == b
    && forall i :: 0 <= i < |path| - 1 ==> (path[i], path[i + 1]) in edges
  }

  lemma {:induction false} StepsHaveWalk<T(!new)>(edges: set<(T, T)>, n: nat, a: T, b: T) returns (path: seq<T>)
    requires Steps(edges, n, a, b)
    ensures IsWalk(edges, path, a, b)
  {
    if n == 0 {
      path := [a, b];
    } else {
      var m :| (a, m) in edges && Steps(edges, n - 1, m, b);
      var rest := StepsHaveWalk(edges, n - 1, m, b);
      path := [a] + rest;
    }
  }

  lemma {:induction false} WalkHasSteps<T(!new)>(edges: set<(T, T)>, path: seq<T>, a: T, b: T)
    requires IsWalk(edges, path, a, b)
    ensures Steps(edges, |path| - 2, a, b)
  {
    assert (path[0], path[1]) in edges;
    if |path| > 2 {
      var rest := path[1..];
      forall i | 0 <= i < |rest| - 1
        ensures (rest[i], rest[i + 1]) in edges
      {
        assert (path[i + 1], path[i + 1 + 1]) in edges;
      }
      WalkHasSteps(edges, rest, path[1], b);
    }
  }

  /** Reachability is a list of edges from one end to the other. */
  lemma ReachesExactly<T(!new)>(edges: set<(T, T)>, a: T, b: T)
    ensures Reaches(edges, a, b) <==> exists path :: IsWalk(edges, path, a, b)
  {
    if Reaches(edges, a, b) {
      var n: nat :| Steps(edges, n, a, b);
      var path := StepsHaveWalk(edges, n, a, b);
    }
    if path :| IsWalk(edges, path, a, b) {
      WalkHasSteps(edges, path, a, b);
    }
  }

  /* ----- downstream ----- */

  /** The current revision of b refines or depends on some revision of a. Links of
      older revisions do not count. */
  predicate CurrentlyNames(db: Db, b: string, a: string)
  {
    && b in db.requirements
    && exists l :: l in db.refinements + db.dependencies && l.parent.id == a
                   && l.child == Ref(b, db.requirements[b].current)
  }

  lemma EdgesExactly(db: Db, a: string, b: string)
    ensures (a, b) in Edges(db) <==> CurrentlyNames(db, b, a)
  {
    EdgesAre(db, a, b);
    if l :| Linked(db, a, b, l) {
      assert l.child == Ref(b, db.requirements[b].current);
    }
    if CurrentlyNames(db, b, a) {
      var l :| l in db.refinements + db.dependencies && l.parent.id == a
               && l.child == Ref(b, db.requirements[b].current);
      assert Linked(db, a, b, l);
    }
  }

  /** The current revision of each names the one before. */
  predicate NamesUpTo(db: Db, path: seq<string>, a: string, b: string)
  {
    && |path| >= 2 && path[0] == a && path[|path| - 1] == b
    && forall i :: 0 <= i < |path| - 1 ==> CurrentlyNames(db, path[i + 1], path[i])
  }

  /** A change of root processes a requirement exactly if that one is active and
      such a list leads to it, through active and retired ones. */
  lemma DownstreamExactly(db: Db, root: string, b: string)
    ensures b in Downstream(db, root) <==>
            && b in db.requirements && db.requirements[b].lifecycle == Active
            && exists path :: NamesUpTo(db, path, root, b)
  {
    ReachesExactly(Edges(db), root, b);
    forall x: string, y: string
      ensures (x, y) in Edges(db) <==> CurrentlyNames(db, y, x)
    {
      EdgesExactly(db, x, y);
    }
    if path :| NamesUpTo(db, path, root, b) {
      assert IsWalk(Edges(db), path, root, b);
    }
    if path :| IsWalk(Edges(db), path, root, b) {
      assert NamesUpTo(db, path, root, b);
    }
  }

  /** A content change replaces what the requirement names: afterwards it is an
      edge below exactly what the new input names, whatever its older revisions
      named, and every other edge is as it was. */
  lemma RevisionReplacesEdges(db: Db, d: Db, input: RequirementInput)
    requires RevisionAdded(db, d, input) && LinksSound(db) && RequirementsSound(db) && RevisionsSound(db)
    ensures forall a :: (a, input.id) in Edges(d) <==> exists p :: p in input.parents + input.dependsOn && p.id == a
    ensures AgreeExceptInto(Edges(db), Edges(d), input.id)
  {
    RevisionAgrees(db, d, input);
    var ref := Ref(input.id, input.revision);
    forall l | l in db.refinements + db.dependencies
      ensures l.child != ref
    {
      assert LinksBack(db, l);
    }
    forall a
      ensures (a, input.id) in Edges(d) <==> exists p :: p in input.parents + input.dependsOn && p.id == a
    {
      EdgesExactly(d, a, input.id);
      NamedByNewLinks(db, d, input, a);
    }
  }

  lemma NamedByNewLinks(db: Db, d: Db, input: RequirementInput, a: string)
    requires RevisionAdded(db, d, input)
    requires forall l :: l in db.refinements + db.dependencies ==> l.child != Ref(input.id, input.revision)
    ensures CurrentlyNames(d, input.id, a) <==> exists p :: p in input.parents + input.dependsOn && p.id == a
  {
    var ref := Ref(input.id, input.revision);
    if p :| p in input.parents + input.dependsOn && p.id == a {
      assert Link(ref, p) in d.refinements + d.dependencies;
    }
    if CurrentlyNames(d, input.id, a) {
      var l :| l in d.refinements + d.dependencies && l.parent.id == a && l.child == ref;
      assert l.parent in input.parents || l.parent in input.dependsOn;
    }
  }

  /** In every run, an update leaves the requirement below exactly what the new
      revision names. */
  lemma UpdateReplacesEdges(ops: seq<Op>, input: RequirementInput, expected: int, d: Db)
    requires UpdateRequirement(Run(ops), input, expected) == Commit(d)
    ensures forall a :: (a, input.id) in Edges(d) <==> exists p :: p in input.parents + input.dependsOn && p.id == a
    ensures AgreeExceptInto(Edges(Run(ops)), Edges(d), input.id)
  {
    RunIsSound(ops);
    UpdateAdds(Run(ops), input, expected);
    RevisionReplacesEdges(Run(ops), d, input);
  }

  /** A retirement takes no edge away. */
  lemma RetirementKeepsEdges(db: Db, d: Db, id: string)
    requires RetireRequirement(db, id) == Commit(d)
    ensures Edges(d) == Edges(db)
  {
    RetireEffect(db, id);
    assert forall ref :: IsCurrent(d, ref) == IsCurrent(db, ref);
  }

  /* ----- the other queries ----- */

  /** A dependency row leads from each revision to the next. */
  predicate DependsAlong(db: Db, path: seq<Ref>, r: Ref, d: Ref)
  {
    && |path| >= 2 && path[0] == r && path[|path| - 1] == d
    && forall i :: 0 <= i < |path| - 1 ==> Link(path[i], path[i + 1]) in db.dependencies
  }

  /** A revision depends on another exactly if stored dependency rows lead there,
      whatever revisions are current. */
  lemma DependsOnExactly(db: Db, r: Ref, d: Ref)
    ensures DependsOn(db, r, d) <==> exists path :: DependsAlong(db, path, r, d)
  {
    ReachesExactly(DependencyEdges(db), r, d);
    forall x, y
      ensures (x, y) in DependencyEdges(db) <==> Link(x, y) in db.dependencies
    {
      DependencyEdgesAre(db, x, y);
    }
    if path :| DependsAlong(db, path, r, d) {
      assert IsWalk(DependencyEdges(db), path, r, d);
    }
    if path :| IsWalk(DependencyEdges(db), path, r, d) {
      assert DependsAlong(db, path, r, d);
    }
  }

  /** The row of an active child at its current revision, under this parent
      revision. */
  predicate ActiveChildOf(db: Db, p: Ref, c: Ref)
  {
    && Link(c, p) in db.refinements && c.id in db.requirements
    && db.requirements[c.id].current == c.revision && db.requirements[c.id].lifecycle == Active
  }

  /** Each revision is an active child of the one before. */
  predicate ChildrenDown(db: Db, path: seq<Ref>, ref: Ref, leaf: Ref)
  {
    && |path| >= 2 && path[0] == ref && path[|path| - 1] == leaf
    && forall i :: 0 <= i < |path| - 1 ==> ActiveChildOf(db, path[i], path[i + 1])
  }

  /** The roll-up reads exactly the ends of such lists that have no active child
      themselves. */
  lemma LeafBelowExactly(db: Db, ref: Ref, leaf: Ref)
    ensures LeafBelow(db, ref, leaf) <==>
            (forall c :: !ActiveChildOf(db, leaf, c)) && exists path :: ChildrenDown(db, path, ref, leaf)
  {
    ReachesExactly(ChildEdges(db), ref, leaf);
    forall x, y
      ensures (x, y) in ChildEdges(db) <==> ActiveChildOf(db, x, y)
      ensures y in Children(db, x) <==> ActiveChildOf(db, x, y)
    {
      ChildrenAre(db, x, y);
    }
    if path :| ChildrenDown(db, path, ref, leaf) {
      assert IsWalk(ChildEdges(db), path, ref, leaf);
    }
    if path :| IsWalk(ChildEdges(db), path, ref, leaf) {
      assert ChildrenDown(db, path, ref, leaf);
    }
  }

  /** A dependency row leads from each task to the next. */
  predicate TasksAlong(db: Db, path: seq<string>, t: string, u: string)
  {
    && |path| >= 2 && path[0] == t && path[|path| - 1] == u
    && forall i :: 0 <= i < |path| - 1 ==> TaskDependency(path[i], path[i + 1]) in db.taskDependencies
  }

  /** A task depends on another exactly if stored dependency rows lead there. */
  lemma TaskReachesExactly(db: Db, t: string, u: string)
    ensures Reaches(TaskEdges(db), t, u) <==> exists path :: TasksAlong(db, path, t, u)
  {
    ReachesExactly(TaskEdges(db), t, u);
    forall x, y
      ensures (x, y) in TaskEdges(db) <==> TaskDependency(x, y) in db.taskDependencies
    {
      assert TaskDependency(x, y) in db.taskDependencies ==>
          TaskDependency(x, y).task == x && TaskDependency(x, y).dependency == y;
    }
    if path :| TasksAlong(db, path, t, u) {
      assert IsWalk(TaskEdges(db), path, t, u);
    }
    if path :| IsWalk(TaskEdges(db), path, t, u) {
      assert TasksAlong(db, path, t, u);
    }
  }
}
