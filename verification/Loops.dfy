/** The states that the store's loops pass through, for rows taken in any
    order. */
module Loops {
  import opened Domain
  import opened Graph
  import opened Tables
  import opened Queries
  import opened Transactions
  import opened Soundness

  /** The invalidation loop after the rows in `done`, in any order. */
  ghost function Partly(db: Db, done: set<string>, cause: Ref): Db
    requires done <= db.requirements.Keys
  {
    db.(requirements := MarkPending(db.requirements, set id | id in done && Actionable(db, CurrentRef(db, id))),
        causes := NewCauses(db, done, cause) + db.causes)
  }

  lemma PartlyRows(db: Db, done: set<string>, id: string, cause: Ref)
    requires done <= db.requirements.Keys && id in db.requirements && id !in done
    ensures var p, q := Partly(db, done, cause), Partly(db, done + {id}, cause);
            && id in p.requirements && p.requirements[id] == db.requirements[id]
            && q.requirements == if Actionable(db, CurrentRef(db, id))
                                 then p.requirements[id := WithState(p.requirements[id], PendingReview)]
                                 else p.requirements
  {
  }

  lemma PartlyCauses(db: Db, done: set<string>, id: string, cause: Ref)
    requires done <= db.requirements.Keys && id in db.requirements && id !in done
    ensures var p, q := Partly(db, done, cause), Partly(db, done + {id}, cause);
            var key := CauseKey(CurrentRef(db, id), cause);
            q.causes == if key in p.causes then p.causes else p.causes[key := Open]
  {
    var key := CauseKey(CurrentRef(db, id), cause);
    assert CauseKeys(db, done + {id}, cause) == CauseKeys(db, done, cause) + {key};
    var p, q := Partly(db, done, cause), Partly(db, done + {id}, cause);
    assert q.causes.Keys == p.causes.Keys + {key};
  }

  lemma PartlyGraph(db: Db, done: set<string>, cause: Ref)
    requires done <= db.requirements.Keys
    ensures SameGraph(db, Partly(db, done, cause))
  {
  }

  /** Marking one more identifier. */
  lemma MarkOne(rows: map<string, Requirement>, ids: set<string>, id: string)
    requires id in rows
    ensures var m := MarkPending(rows, ids);
            && id in m && MarkPending(rows, ids + {id}) == m[id := WithState(m[id], PendingReview)]
  {
  }

  lemma InvalidateKeepsGraph(db: Db, root: string, cause: Ref)
    ensures SameGraph(db, Invalidate(db, root, cause))
  {
  }

  lemma ParentsStored(db: Db, ref: Ref)
    requires LinksSound(db) && RevisionsSound(db)
    ensures forall p :: p in SystemParents(db, ref) ==> p.id in db.requirements
  {
    forall p | p in SystemParents(db, ref)
      ensures p.id in db.requirements
    {
      var l :| l in db.refinements && l.child == ref && l.parent == p;
      assert LinksBack(db, l);
    }
  }

  lemma FreedByOne(d: Db, done: set<Ref>, p: Ref)
    ensures FreedBy(d, done + {p}) == FreedBy(d, done) + (if Actionable(d, p) then {p.id} else {})
  {
  }

  lemma CorrectedByOne(db: Db, done: set<TaskLink>, l: TaskLink)
    ensures CorrectedBy(db, done + {l}) == CorrectedBy(db, done) + (if Corrected(db, l) then {l.ref.id} else {})
  {
  }

  lemma RecordsOfOne(leases: map<string, Lease>, done: set<string>, t: string)
    requires done <= leases.Keys && t in leases
    ensures RecordsOf(leases, done + {t}) == RecordsOf(leases, done) + {Expiration(t, leases[t].id, leases[t].fence)}
  {
    assert t in done + {t};
  }

  /* ----- insertion of links ----- */

  lemma DistinctPrefix<T>(s: seq<T>, i: nat)
    requires i < |s|
    ensures s[..i + 1] == s[..i] + [s[i]]
    ensures Distinct(s[..i + 1]) <==> Distinct(s[..i]) && s[i] !in s[..i]
    ensures Distinct(s) ==> Distinct(s[..i + 1])
  {
    if s[i] in s[..i] {
      var k :| 0 <= k < i && s[..i][k] == s[i];
      assert s[..i + 1][k] == s[..i + 1][i];
    }
    if Distinct(s[..i + 1]) {
      forall j, k | 0 <= j < k < i
        ensures s[..i][j] != s[..i][k]
      {
        assert s[..i + 1][j] != s[..i + 1][k];
      }
    }
  }

  lemma NewLinksAre(child: Ref, parents: seq<Ref>, p: Ref)
    ensures Link(child, p) in NewLinks(child, parents) <==> p in parents
    ensures NewLinks(child, parents + [p]) == NewLinks(child, parents) + {Link(child, p)}
  {
    assert p in parents + [p];
  }

  /** Clearing one more parent. */
  lemma ClearOne(rows: map<string, Requirement>, parents: seq<Ref>, p: Ref)
    ensures var m := ClearStates(rows, parents);
            ClearStates(rows, parents + [p]) == if p.id in m then m[p.id := m[p.id].(state := None)] else m
  {
    assert p in parents + [p];
  }

  /* ----- seeds of the dependency queries ----- */

  function LinkedRefs(db: Db, task: string): set<Ref>
  {
    set l | l in db.taskLinks && l.task == task :: l.ref
  }

  function DirectDependencies(db: Db, refs: set<Ref>): set<Ref>
  {
    set d | d in db.dependencies && d.child in refs :: d.parent
  }

  lemma DependencySeeds(db: Db, refs: set<Ref>, d: Ref)
    ensures Selected(DependencyEdges(db), DirectDependencies(db, refs), d) <==>
            exists r :: r in refs && DependsOn(db, r, d)
  {
    var edges, seeds := DependencyEdges(db), DirectDependencies(db, refs);
    if Selected(edges, seeds, d) {
      var s := d;
      if d !in seeds {
        s :| s in seeds && Reaches(edges, s, d);
      }
      var l :| l in db.dependencies && l.child in refs && l.parent == s;
      assert l == Link(l.child, s);
      DependencyEdgesAre(db, l.child, s);
      EdgeReaches(edges, l.child, s);
      if d !in seeds {
        Prepend(edges, l.child, s, d);
      }
      assert DependsOn(db, l.child, d);
    }
    if r :| r in refs && DependsOn(db, r, d) {
      var m := FirstEdge(edges, r, d);
      DependencyEdgesAre(db, r, m);
      assert Link(r, m).child in refs && Link(r, m).parent == m;
      assert m in seeds;
    }
  }

  lemma ChildSeeds(db: Db, ref: Ref, c: Ref)
    ensures Selected(ChildEdges(db), Children(db, ref), c) <==> Reaches(ChildEdges(db), ref, c)
  {
    SuccessorsAre(ChildEdges(db), ref);
    forall b
      ensures b in Children(db, ref) <==> b in Successors(ChildEdges(db), ref)
    {
      ChildrenAre(db, ref, b);
    }
    assert Children(db, ref) == Successors(ChildEdges(db), ref);
    SuccessorsSelect(ChildEdges(db), ref, c);
  }

  /* ----- insertion of task rows ----- */

  lemma LinkRowIsNew(task: string, links: seq<TaskRequirementInput>, l: TaskRequirementInput)
    ensures TaskLink(task, l.ref, l.purpose) in LinkRows(task, links) <==> l in links
    ensures LinkRows(task, links + [l]) == LinkRows(task, links) + {TaskLink(task, l.ref, l.purpose)}
  {
  }

  lemma SameLeaves(db: Db, d: Db, ref: Ref)
    requires d.revisions == db.revisions && d.refinements == db.refinements && d.requirements == db.requirements
    ensures Actionable(db, ref) == Actionable(d, ref)
  {
  }

  lemma LinkedNonLeaf(db: Db, task: string)
    ensures LinksNonLeaf(db, task) <==> exists r :: r in LinkedRefs(db, task) && !Actionable(db, r)
  {
  }
}
