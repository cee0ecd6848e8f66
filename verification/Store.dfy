/** The store object: its tables are fields that the transactions reassign row
    by row, and each transaction is proved to do what its specification in
    Transactions says, whatever order the rows come in. */
module StoreObject {
  import opened Domain
  import opened Graph
  import opened Tables
  import opened Queries
  import opened Transactions
  import opened Soundness
  import opened Workability
  import opened Loops
  import opened Listing
  import Text

  datatype Outcome = Done | Failed(error: Error)

  /** The outcome and the tables that a specified transaction leaves. */
  ghost predicate Follows(tx: Tx, before: Db, after: Db, out: Outcome)
  {
    match tx
    case Commit(d) => out == Done && after == d
    case Abort(e) => out == Failed(e) && after == before
  }

  /** The same before a failed transaction is rolled back. */
  ghost predicate Leaves(tx: Tx, after: Db, out: Outcome)
  {
    match tx
    case Commit(d) => out == Done && after == d
    case Abort(e) => out == Failed(e)
  }

  class Store {
    var requirements: map<string, Requirement>
    var revisions: map<Ref, Revision>
    var refinements: set<Link>
    var dependencies: set<Link>
    var reviews: map<ReviewKey, Review>
    var causes: map<CauseKey, CauseState>
    var tasks: map<string, Task>
    var taskLinks: set<TaskLink>
    var taskDependencies: set<TaskDependency>
    var leases: map<string, Lease>
    var audit: seq<Event>
    var expirations: set<Expiration>
    var clock: int

    /** The tables as one value. */
    function Snapshot(): Db
      reads this
    {
      Db(requirements, revisions, refinements, dependencies, reviews, causes,
         tasks, taskLinks, taskDependencies, leases, audit, expirations, clock)
    }

    ghost predicate Valid()
      reads this
    {
      Sound(Snapshot())
    }

    /** Links belong to stored revisions. */
    ghost predicate ForeignKeys()
      reads this
    {
      && (forall l :: l in refinements ==> l.child in revisions)
      && (forall l :: l in dependencies ==> l.child in revisions)
    }

    /** Task links and dependencies belong to stored tasks. */
    ghost predicate TaskKeys()
      reads this
    {
      (forall l :: l in taskLinks ==> l.task in tasks) && forall d :: d in taskDependencies ==> d.task in tasks
    }

    lemma ValidHasForeignKeys()
      requires Valid()
      ensures ForeignKeys() && TaskKeys()
    {
      assert forall l :: l in refinements ==> LinksBack(Snapshot(), l);
      assert forall l :: l in dependencies ==> LinksBack(Snapshot(), l);
    }

    constructor ()
      ensures Snapshot() == EMPTY && Valid()
    {
      requirements, revisions, refinements, dependencies := map[], map[], {}, {};
      reviews, causes, tasks, taskLinks, taskDependencies := map[], map[], map[], {}, {};
      leases, audit, expirations, clock := map[], [], {}, 0;
    }

    /** Rolls a failed transaction back. */
    method Rollback(saved: Db)
      modifies this
      ensures Snapshot() == saved
    {
      RestoreRequirements(saved);
      tasks, taskLinks, taskDependencies := saved.tasks, saved.taskLinks, saved.taskDependencies;
      leases, audit, expirations, clock := saved.leases, saved.audit, saved.expirations, saved.clock;
    }

    method RestoreRequirements(saved: Db)
      modifies this`requirements, this`revisions, this`refinements, this`dependencies, this`reviews, this`causes
      ensures requirements == saved.requirements && revisions == saved.revisions
      ensures refinements == saved.refinements && dependencies == saved.dependencies
      ensures reviews == saved.reviews && causes == saved.causes
    {
      requirements, revisions := saved.requirements, saved.revisions;
      refinements, dependencies := saved.refinements, saved.dependencies;
      reviews, causes := saved.reviews, saved.causes;
    }

    method SetRequirementState(id: string, state: Recon)
      requires id in requirements
      modifies this`requirements
      ensures requirements == old(requirements)[id := WithState(old(requirements)[id], state)]
    {
      var row := requirements[id];
      if row.state != Some(state) {
        requirements := requirements[id := row.(state := Some(state))];
        requirements := requirements[id := requirements[id].(reconLog := row.reconLog + [Change(row.state, state)])];
      }
    }

    method ClearRequirementState(id: string)
      modifies this`requirements
      ensures requirements == if id !in old(requirements) then old(requirements)
                              else old(requirements)[id := old(requirements)[id].(state := None)]
    {
      if id in requirements {
        requirements := requirements[id := requirements[id].(state := None)];
      }
    }

    /* ----- reachability queries ----- */

    method DownstreamItems(root: string) returns (items: set<string>)
      ensures items == Downstream(Snapshot(), root)
    {
      var edges := Edges(Snapshot());
      var found := Search(edges, Successors(edges, root));
      items := set b | b in requirements && requirements[b].lifecycle == Active && b in found;
      forall b
        ensures b in found <==> Reaches(edges, root, b)
      {
        SuccessorsSelect(edges, root, b);
      }
    }

    /* ----- requirements ----- */

    method AddRevision(input: RequirementInput) returns (out: Outcome)
      requires ForeignKeys()
      modifies this`requirements, this`revisions, this`refinements, this`dependencies
      ensures Leaves(Transactions.AddRevision(old(Snapshot()), input), Snapshot(), out)
    {
      out := CheckRevision(input);
      if out != Done {
        return;
      }
      out := InsertLinks(input);
    }

    /** The inserts: the revision, its parents, its dependencies. */
    method InsertLinks(input: RequirementInput) returns (out: Outcome)
      requires ForeignKeys()
      modifies this`requirements, this`revisions, this`refinements, this`dependencies
      ensures out == if BreaksConstraint(old(Snapshot()), input) then Failed(Constraint) else Done
      ensures out == Done ==>
                && revisions == old(revisions)[Ref(input.id, input.revision) := Revision(input.level, |audit|)]
                && refinements == old(refinements) + NewLinks(Ref(input.id, input.revision), input.parents)
                && dependencies == old(dependencies) + NewLinks(Ref(input.id, input.revision), input.dependsOn)
                && requirements == if input.level == System then ClearStates(old(requirements), input.parents)
                    else old(requirements)
    {
      var ref := Ref(input.id, input.revision);
      if ref in revisions {
        return Failed(Constraint);
      }
      revisions := revisions[ref := Revision(input.level, |audit|)];
      out := InsertParents(input);
      if out != Done {
        return;
      }
      out := InsertDependencies(input);
    }

    /** The reads that come before the first insert. */
    method CheckRevision(input: RequirementInput) returns (out: Outcome)
      ensures match ReadError(Snapshot(), input)
              case None => out == Done
              case Some(e) => out == Failed(e)
    {
      for i := 0 to |input.parents|
        invariant forall p :: p in input.parents[..i] ==> p in revisions
      {
        if input.parents[i] !in revisions {
          return Failed(NotFound);
        }
      }
      if input.level == System {
        for i := 0 to |input.parents|
          invariant forall p :: p in input.parents[..i] ==> !GuardsDecomposition(Snapshot(), p)
        {
          var p := input.parents[i];
          if Children(Snapshot(), p) == {} {
            var linked := exists l :: l in taskLinks && l.ref == p;
            var reviewed := exists k :: k in reviews && k.ref == p;
            if linked || reviewed {
              assert GuardsDecomposition(Snapshot(), p);
              return Failed(Conflict);
            }
          }
        }
      }
      for i := 0 to |input.dependsOn|
        invariant forall d :: d in input.dependsOn[..i] ==> d in revisions
      {
        if input.dependsOn[i] !in revisions {
          return Failed(NotFound);
        }
      }
      out := Done;
    }

    method InsertParents(input: RequirementInput) returns (out: Outcome)
      requires forall l :: l in refinements ==> l.child != Ref(input.id, input.revision)
      modifies this`requirements, this`refinements
      ensures out == Done || out == Failed(Constraint)
      ensures out == Done <==> Distinct(input.parents) && forall p :: p in input.parents ==> p.id != input.id
      ensures out == Done ==>
                && refinements == old(refinements) + NewLinks(Ref(input.id, input.revision), input.parents)
                && requirements == if input.level == System then ClearStates(old(requirements), input.parents)
                    else old(requirements)
    {
      for i := 0 to |input.parents|
        invariant Distinct(input.parents[..i]) && forall p :: p in input.parents[..i] ==> p.id != input.id
        invariant refinements == old(refinements) + NewLinks(Ref(input.id, input.revision), input.parents[..i])
        invariant requirements == if input.level == System then ClearStates(old(requirements), input.parents[..i])
                  else old(requirements)
      {
        DistinctPrefix(input.parents, i);
        out := InsertParent(input, i, old(requirements), old(refinements));
        if out != Done {
          return;
        }
      }
      assert input.parents[..|input.parents|] == input.parents;
      out := Done;
    }

    /** One round of that loop: insert the link, then clear the parent's state
        if the child is a system requirement. */
    method InsertParent(input: RequirementInput, i: nat, ghost rows: map<string, Requirement>,
        ghost links: set<Link>) returns (out: Outcome)
      requires i < |input.parents|
      requires forall l :: l in links ==> l.child != Ref(input.id, input.revision)
      requires refinements == links + NewLinks(Ref(input.id, input.revision), input.parents[..i])
      requires requirements == if input.level == System then ClearStates(rows, input.parents[..i]) else rows
      modifies this`requirements, this`refinements
      ensures out == if input.parents[i] in input.parents[..i] || input.parents[i].id == input.id
                     then Failed(Constraint) else Done
      ensures out == Done ==>
                && refinements == links + NewLinks(Ref(input.id, input.revision), input.parents[..i + 1])
                && requirements == if input.level == System then ClearStates(rows, input.parents[..i + 1]) else rows
    {
      var ref, p := Ref(input.id, input.revision), input.parents[i];
      assert input.parents[..i + 1] == input.parents[..i] + [p];
      NewLinksAre(ref, input.parents[..i], p);
      if Link(ref, p) in refinements || p.id == input.id {
        return Failed(Constraint);
      }
      refinements := refinements + {Link(ref, p)};
      if input.level == System {
        ClearOne(rows, input.parents[..i], p);
        ClearRequirementState(p.id);
      }
      out := Done;
    }

    method InsertDependencies(input: RequirementInput) returns (out: Outcome)
      requires forall l :: l in dependencies ==> l.child != Ref(input.id, input.revision)
      modifies this`dependencies
      ensures out == Done || out == Failed(Constraint)
      ensures out == Done <==> Distinct(input.dependsOn) && forall p :: p in input.dependsOn ==> p.id != input.id
      ensures out == Done ==>
                dependencies == old(dependencies) + NewLinks(Ref(input.id, input.revision), input.dependsOn)
    {
      var ref := Ref(input.id, input.revision);
      for i := 0 to |input.dependsOn|
        invariant Distinct(input.dependsOn[..i]) && forall p :: p in input.dependsOn[..i] ==> p.id != input.id
        invariant dependencies == old(dependencies) + NewLinks(ref, input.dependsOn[..i])
      {
        var p := input.dependsOn[i];
        DistinctPrefix(input.dependsOn, i);
        NewLinksAre(ref, input.dependsOn[..i], p);
        if Link(ref, p) in dependencies || p.id == input.id {
          return Failed(Constraint);
        }
        dependencies := dependencies + {Link(ref, p)};
      }
      assert input.dependsOn[..|input.dependsOn|] == input.dependsOn;
      out := Done;
    }

    method CreateRequirement(input: RequirementInput) returns (out: Outcome)
      requires ForeignKeys()
      modifies this
      ensures Follows(Transactions.CreateRequirement(old(Snapshot()), input), old(Snapshot()), Snapshot(), out)
    {
      var saved := Snapshot();
      out := InsertRequirement(input);
      if out != Done {
        Rollback(saved);
      }
    }

    method InsertRow(input: RequirementInput)
      modifies this`requirements
      ensures Snapshot() == RowInserted(old(Snapshot()), input)
    {
      var state, records := None, [];
      if input.level != Business {
        state := Some(PendingReview);
        records := [Change(None, PendingReview)];
      }
      requirements := requirements[input.id :=
        Requirement(input.revision, Active, state, [Change(None, Active)], records)];
    }

    /** The body of the transaction that creates a requirement. */
    method InsertRequirement(input: RequirementInput) returns (out: Outcome)
      requires ForeignKeys()
      modifies this`requirements, this`revisions, this`refinements, this`dependencies, this`audit
      ensures Leaves(Transactions.CreateRequirement(old(Snapshot()), input), Snapshot(), out)
    {
      if input.id in requirements || input.revision < 1 {
        return Failed(Conflict);
      }
      InsertRow(input);
      out := AddRevision(input);
      if out == Done {
        audit := audit + [RequirementCreated(Ref(input.id, input.revision))];
      }
    }

    /** One round of the loop: mark an actionable row, then insert the cause
        unless it is stored already. */
    method InvalidateOne(id: string, cause: Ref, ghost before: Db, ghost done: set<string>)
      requires done <= before.requirements.Keys && id in before.requirements && id !in done
      requires Snapshot() == Partly(before, done, cause)
      modifies this`requirements, this`causes
      ensures Snapshot() == Partly(before, done + {id}, cause)
    {
      PartlyGraph(before, done, cause);
      SameGraphSameQueries(before, Snapshot());
      PartlyRows(before, done, id, cause);
      PartlyCauses(before, done, id, cause);
      var ref := Ref(id, requirements[id].current);
      assert ref == CurrentRef(before, id);
      if Actionable(Snapshot(), ref) {
        SetRequirementState(id, PendingReview);
      }
      var key := CauseKey(ref, cause);
      if key !in causes {
        causes := causes[key := Open];
      }
    }

    /** The loop over the rows of the downstream query. */
    method InvalidateDownstream(root: string, cause: Ref)
      modifies this`requirements, this`causes
      ensures Snapshot() == Invalidate(old(Snapshot()), root, cause)
    {
      ghost var before := Snapshot();
      var items := DownstreamItems(root);
      var todo := items;
      assert Partly(before, {}, cause) == before by {
        assert CauseKeys(before, {}, cause) == {};
        assert MarkPending(before.requirements, {}) == before.requirements;
      }
      while todo != {}
        invariant todo <= items <= before.requirements.Keys
        invariant Snapshot() == Partly(before, items - todo, cause)
        decreases todo
      {
        var id :| id in todo;
        assert items - (todo - {id}) == (items - todo) + {id};
        InvalidateOne(id, cause, before, items - todo);
        todo := todo - {id};
      }
      assert items - todo == items;
    }

    method UpdateRequirement(input: RequirementInput, expected: int) returns (out: Outcome)
      requires ForeignKeys()
      modifies this
      ensures Follows(Transactions.UpdateRequirement(old(Snapshot()), input, expected),
                      old(Snapshot()), Snapshot(), out)
    {
      if input.id !in requirements {
        return Failed(NotFound);
      }
      var current := requirements[input.id];
      if current.current != expected || input.revision != expected + 1 {
        return Failed(Conflict);
      }
      if current.lifecycle == Retired {
        return Failed(Conflict);
      }
      var saved := Snapshot();
      out := ReviseAndInvalidate(input);
      if out != Done {
        Rollback(saved);
      }
    }

    method ReviseAndInvalidate(input: RequirementInput) returns (out: Outcome)
      requires ForeignKeys() && input.id in requirements
      modifies this`requirements, this`revisions, this`refinements, this`dependencies, this`causes, this`audit
      ensures Leaves(Transactions.ReviseAndInvalidate(old(Snapshot()), input), Snapshot(), out)
    {
      out := InsertRevision(input);
      if out == Done {
        var ref := Ref(input.id, input.revision);
        InvalidateDownstream(input.id, ref);
        audit := audit + [RequirementRevised(ref)];
      }
    }

    /** Adds the revision and makes it the current one. */
    method InsertRevision(input: RequirementInput) returns (out: Outcome)
      requires ForeignKeys() && input.id in requirements
      modifies this`requirements, this`revisions, this`refinements, this`dependencies
      ensures Leaves(Revise(old(Snapshot()), input), Snapshot(), out)
    {
      out := AddRevision(input);
      if out == Done {
        WriteRevision(input);
      }
    }

    /** Moves the row to the new revision and records the state change. */
    method WriteRevision(input: RequirementInput)
      requires input.id in requirements
      modifies this`requirements
      ensures requirements == old(requirements)[input.id := RevisedRow(old(requirements)[input.id], input)]
    {
      var row := requirements[input.id];
      var next := if input.level == Business then None else Some(PendingReview);
      requirements := requirements[input.id := row.(current := input.revision, state := next)];
      if input.level != Business && row.state != Some(PendingReview) {
        requirements := requirements[input.id :=
          requirements[input.id].(reconLog := row.reconLog + [Change(row.state, PendingReview)])];
      }
    }

    method RetireRequirement(id: string) returns (out: Outcome)
      requires Valid()
      modifies this
      ensures Follows(Transactions.RetireRequirement(old(Snapshot()), id), old(Snapshot()), Snapshot(), out)
    {
      if id !in requirements {
        return Failed(NotFound);
      }
      if requirements[id].lifecycle == Retired {
        return Failed(Conflict);
      }
      RetireAndInvalidate(id);
      out := Done;
    }

    /** The writes of a retirement. The parents are read before the first one. */
    method RetireAndInvalidate(id: string)
      requires Valid() && id in requirements
      modifies this`requirements, this`causes, this`audit
      ensures Snapshot() == Transactions.RetireAndInvalidate(old(Snapshot()), id)
    {
      ghost var d := RowRetired(Snapshot(), id);
      var ref := Ref(id, requirements[id].current);
      var parents := SystemParents(Snapshot(), ref);
      ParentsStored(Snapshot(), ref);
      WriteRetired(id);
      InvalidateDownstream(id, ref);
      InvalidateKeepsGraph(d, id, ref);
      FreeAndRecord(parents, d, id);
    }

    method FreeAndRecord(parents: set<Ref>, ghost d: Db, id: string)
      requires SameGraph(d, Snapshot())
      requires forall p :: p in parents ==> p.id in requirements
      modifies this`requirements, this`audit
      ensures Snapshot() == Transactions.FreeAndRecord(old(Snapshot()), d, parents, id)
    {
      FreeParents(parents, d, Snapshot());
      audit := audit + [RequirementRetired(id)];
    }

    method WriteRetired(id: string)
      requires id in requirements
      modifies this`requirements
      ensures Snapshot() == RowRetired(old(Snapshot()), id)
    {
      var row := requirements[id];
      requirements := requirements[id :=
        row.(lifecycle := Retired, lifecycleLog := row.lifecycleLog + [Change(Some(row.lifecycle), Retired)])];
    }

    /** The loop over the parents of a retired system requirement. */
    method FreeParents(parents: set<Ref>, ghost d: Db, ghost e: Db)
      requires Snapshot() == e && SameGraph(d, e)
      requires forall p :: p in parents ==> p.id in requirements
      modifies this`requirements
      ensures requirements == MarkPending(e.requirements, FreedBy(d, parents))
    {
      var todo := parents;
      assert MarkPending(e.requirements, FreedBy(d, {})) == e.requirements;
      while todo != {}
        invariant todo <= parents
        invariant requirements == MarkPending(e.requirements, FreedBy(d, parents - todo))
        decreases todo
      {
        var p :| p in todo;
        ghost var done := parents - todo;
        assert SameGraph(d, Snapshot());
        SameGraphSameQueries(d, Snapshot());
        FreedByOne(d, done, p);
        if Actionable(Snapshot(), p) {
          MarkOne(e.requirements, FreedBy(d, done), p.id);
          SetRequirementState(p.id, PendingReview);
        }
        todo := todo - {p};
        assert parents - todo == done + {p};
      }
      assert parents - todo == parents;
    }

    method ReviewRequirement(input: ReviewInput) returns (out: Outcome)
      modifies this
      ensures Follows(Transactions.ReviewRequirement(old(Snapshot()), input), old(Snapshot()), Snapshot(), out)
    {
      if input.ref.id !in requirements {
        return Failed(NotFound);
      }
      var row := requirements[input.ref.id];
      var ref := input.ref;
      if ref.revision == 0 {
        ref := Ref(ref.id, row.current);
      }
      if ref.revision != row.current {
        return Failed(Conflict);
      }
      if row.lifecycle == Retired {
        return Failed(Conflict);
      }
      if !Actionable(Snapshot(), ref) {
        return Failed(Conflict);
      }
      var key := ReviewKey(ref, input.commit);
      if key in reviews {
        var prior := reviews[key];
        if prior.verdict == input.verdict && prior.task == input.task && prior.findings == input.findings {
          return Done;
        }
        return Failed(Conflict);
      }
      if StoredState(row.state) == Satisfied {
        return Failed(Conflict);
      }
      if input.task.Some? {
        out := CheckReviewTask(input.task.value, ref, input.commit);
        if out != Done {
          return;
        }
      }
      WriteReview(key, Review(input.verdict, input.task, input.findings, |audit|));
      out := Done;
    }

    /** A review may name the task whose result it judges. */
    method CheckReviewTask(task: string, ref: Ref, commit: string) returns (out: Outcome)
      ensures out == if task !in tasks then Failed(NotFound)
                     else if !TaskSupports(Snapshot(), task, ref, commit) then Failed(Conflict)
                     else Done
    {
      if task !in tasks {
        return Failed(NotFound);
      }
      if tasks[task].state != Complete || tasks[task].commit != Some(commit) {
        return Failed(Conflict);
      }
      if !exists l :: l in taskLinks && l.task == task && l.ref == ref {
        return Failed(Conflict);
      }
      out := Done;
    }

    /** Stores a review and moves the requirement to the state it gives. */
    method WriteReview(key: ReviewKey, review: Review)
      requires key.ref.id in requirements
      modifies this`reviews, this`causes, this`requirements, this`audit
      ensures reviews == old(reviews)[key := review]
      ensures causes == if review.verdict == Accept then ResolveCauses(old(causes), key.ref) else old(causes)
      ensures requirements == old(requirements)[key.ref.id :=
                WithState(old(requirements)[key.ref.id], if review.verdict == Accept then Satisfied else NotSatisfied)]
      ensures audit == old(audit) + [RequirementReviewed(key, review.verdict)]
    {
      reviews := reviews[key := review];
      var state := NotSatisfied;
      if review.verdict == Accept {
        causes := map k | k in causes :: if k.ref == key.ref then Resolved else causes[k];
        state := Satisfied;
      }
      SetRequirementState(key.ref.id, state);
      audit := audit + [RequirementReviewed(key, review.verdict)];
    }

    /* ----- effective states and blockers ----- */

    /** The roll-up: the recursive query for the leaves, then the loop over
        their states, which leaves as soon as one is not satisfied. */
    method RollUpState(ref: Ref) returns (state: Recon)
      ensures state == RollUp(Snapshot(), ref)
    {
      var db := Snapshot();
      var found := Search(ChildEdges(db), Children(db, ref));
      forall c
        ensures c in found <==> Reaches(ChildEdges(db), ref, c)
      {
        ChildSeeds(db, ref, c);
      }
      var leaves := set c | c in found && Children(db, c) == {};
      assert forall c :: c in leaves <==> LeafBelow(db, ref, c);
      state := Satisfied;
      var todo := leaves;
      while todo != {}
        invariant todo <= leaves
        invariant state == Satisfied || state == PendingReview
        invariant forall c :: c in leaves - todo ==> RowState(db, c) != Some(NotSatisfied)
        invariant state == PendingReview <==> exists c :: c in leaves - todo && RowState(db, c) == Some(PendingReview)
        decreases todo
      {
        var c :| c in todo;
        var value := RowState(db, c);
        if value == Some(NotSatisfied) {
          assert SomeLeaf(db, ref, NotSatisfied);
          return NotSatisfied;
        }
        if value == Some(PendingReview) {
          state := PendingReview;
          assert c in leaves - (todo - {c});
        }
        assert leaves - (todo - {c}) == (leaves - todo) + {c};
        todo := todo - {c};
      }
      assert leaves - todo == leaves;
    }

    method EffectiveState(id: string) returns (state: Recon)
      requires id in requirements
      ensures state == Effective(Snapshot(), id)
    {
      var ref := CurrentRef(Snapshot(), id);
      if Children(Snapshot(), ref) == {} {
        return StoredState(requirements[id].state);
      }
      state := RollUpState(ref);
    }

    /** Counts the transitive dependencies of the given revisions that hold up
        work. */
    method CountUnmet(refs: set<Ref>) returns (count: nat)
      ensures count == 0 <==> forall r :: r in refs ==> !RequirementBlocked(Snapshot(), r)
    {
      var db := Snapshot();
      var found := Search(DependencyEdges(db), DirectDependencies(db, refs));
      forall d
        ensures d in found <==> exists r :: r in refs && DependsOn(db, r, d)
      {
        DependencySeeds(db, refs, d);
      }
      count := 0;
      var todo := found;
      while todo != {}
        invariant todo <= found
        invariant count == 0 <==> forall d :: d in found - todo ==> Met(db, d)
        decreases todo
      {
        var d :| d in todo;
        assert found - (todo - {d}) == (found - todo) + {d};
        if !IsCurrent(db, d) || requirements[d.id].lifecycle != Active {
          count := count + 1;
        } else {
          var state := EffectiveState(d.id);
          if state != Satisfied {
            count := count + 1;
          }
        }
        todo := todo - {d};
      }
      assert found - todo == found;
      if count == 0 {
        forall r | r in refs
          ensures !RequirementBlocked(db, r)
        {
        }
      } else {
        ghost var d :| d in found && !Met(db, d);
        ghost var r :| r in refs && DependsOn(db, r, d);
        assert RequirementBlocked(db, r);
      }
    }

    method UnmetRequirementDependencies(task: string) returns (count: nat)
      ensures count == 0 <==> !TaskBlocked(Snapshot(), task)
    {
      var db := Snapshot();
      count := CountUnmet(LinkedRefs(db, task));
      forall l | l in db.taskLinks && l.task == task
        ensures l.ref in LinkedRefs(db, task)
      {
      }
    }

    /* ----- tasks ----- */

    method CreateTask(input: TaskInput) returns (out: Outcome)
      requires TaskKeys()
      modifies this
      ensures Follows(Transactions.CreateTask(old(Snapshot()), input), old(Snapshot()), Snapshot(), out)
    {
      var saved := Snapshot();
      out := InsertTask(input);
      if out != Done {
        Rollback(saved);
      }
    }

    /** The body of the transaction that creates a task. */
    method InsertTask(input: TaskInput) returns (out: Outcome)
      requires TaskKeys()
      modifies this`tasks, this`taskDependencies, this`taskLinks, this`audit
      ensures Leaves(Transactions.CreateTask(old(Snapshot()), input), Snapshot(), out)
    {
      if input.id in tasks {
        return Failed(Conflict);
      }
      out := InsertTaskRows(input);
      if out == Done {
        audit := audit + [TaskCreated(input.id)];
      }
    }

    method InsertTaskRows(input: TaskInput) returns (out: Outcome)
      requires TaskKeys() && input.id !in tasks
      modifies this`tasks, this`taskDependencies, this`taskLinks
      ensures match TaskError(old(Snapshot()), input)
              case Some(e) => out == Failed(e)
              case None =>
                && out == Done && tasks == old(tasks)[input.id := NewTask(old(Snapshot()))]
                && taskDependencies == old(taskDependencies) + DependencyRows(input.id, input.dependsOn)
                && taskLinks == old(taskLinks) + LinkRows(input.id, input.requirements)
    {
      ghost var before := Snapshot();
      tasks := tasks[input.id := Task(TaskOpen, 0, None, [Change(None, TaskOpen)], |audit|)];
      out := InsertTaskDependencies(input, before);
      if out == Done {
        out := InsertTaskLinks(input, before);
      }
    }

    method InsertTaskDependencies(input: TaskInput, ghost before: Db) returns (out: Outcome)
      requires tasks.Keys == before.tasks.Keys + {input.id} && taskDependencies == before.taskDependencies
      requires input.id !in before.tasks && forall d :: d in taskDependencies ==> d.task != input.id
      modifies this`taskDependencies
      ensures match DependencyError(before, input, 0)
              case Some(e) => out == Failed(e)
              case None =>
                out == Done && taskDependencies == before.taskDependencies + DependencyRows(input.id, input.dependsOn)
    {
      for i := 0 to |input.dependsOn|
        invariant DependencyError(before, input, 0) == DependencyError(before, input, i)
        invariant taskDependencies == before.taskDependencies + DependencyRows(input.id, input.dependsOn[..i])
      {
        var dependency := input.dependsOn[i];
        assert input.dependsOn[..i + 1] == input.dependsOn[..i] + [dependency];
        if dependency !in tasks {
          return Failed(NotFound);
        }
        if dependency == input.id || TaskDependency(input.id, dependency) in taskDependencies {
          return Failed(Constraint);
        }
        taskDependencies := taskDependencies + {TaskDependency(input.id, dependency)};
      }
      assert input.dependsOn[..|input.dependsOn|] == input.dependsOn;
      out := Done;
    }

    method InsertTaskLinks(input: TaskInput, ghost before: Db) returns (out: Outcome)
      requires revisions == before.revisions && refinements == before.refinements && requirements == before.requirements
      requires taskLinks == before.taskLinks && forall l :: l in taskLinks ==> l.task != input.id
      modifies this`taskLinks
      ensures match LinkError(before, input, 0)
              case Some(e) => out == Failed(e)
              case None => out == Done && taskLinks == before.taskLinks + LinkRows(input.id, input.requirements)
    {
      for i := 0 to |input.requirements|
        invariant LinkError(before, input, 0) == LinkError(before, input, i)
        invariant taskLinks == before.taskLinks + LinkRows(input.id, input.requirements[..i])
      {
        var link := input.requirements[i];
        assert input.requirements[..i + 1] == input.requirements[..i] + [link];
        if link.ref !in revisions {
          return Failed(NotFound);
        }
        SameLeaves(before, Snapshot(), link.ref);
        if !Actionable(Snapshot(), link.ref) {
          return Failed(Conflict);
        }
        var row := TaskLink(input.id, link.ref, link.purpose);
        LinkRowIsNew(input.id, input.requirements[..i], link);
        if row in taskLinks {
          return Failed(Constraint);
        }
        taskLinks := taskLinks + {row};
      }
      assert input.requirements[..|input.requirements|] == input.requirements;
      out := Done;
    }

    /** Whether some linked requirement is retired or no leaf, as the lease
        transaction tests it. */
    method LinksBlocked(task: string) returns (retired: bool, nonLeaf: bool)
      ensures retired == LinksRetired(Snapshot(), task)
      ensures nonLeaf == LinksNonLeaf(Snapshot(), task)
    {
      retired := exists l :: l in taskLinks && l.task == task &&
                             l.ref.id in requirements && requirements[l.ref.id].lifecycle == Retired;
      nonLeaf := false;
      var linked := LinkedRefs(Snapshot(), task);
      var todo := linked;
      while todo != {}
        invariant todo <= linked
        invariant nonLeaf <==> exists r :: r in linked - todo && !Actionable(Snapshot(), r)
        decreases todo
      {
        var r :| r in todo;
        assert linked - (todo - {r}) == (linked - todo) + {r};
        if !Actionable(Snapshot(), r) {
          nonLeaf := true;
        }
        todo := todo - {r};
      }
      assert linked - todo == linked;
      LinkedNonLeaf(Snapshot(), task);
    }

    method LeaseTask(id: string, agent: string, ttl: int, lag: nat) returns (out: Outcome)
      modifies this
      ensures Follows(Transactions.LeaseTask(old(Snapshot()), id, agent, ttl, lag), old(Snapshot()), Snapshot(), out)
    {
      if id !in tasks {
        return Failed(NotFound);
      }
      var ready := ReadyToWork(id);
      if !ready {
        return Failed(Conflict);
      }
      var saved := Snapshot();
      var free := DropExpired(id);
      if !free {
        Rollback(saved);
        return Failed(Conflict);
      }
      GrantLease(id, agent, ttl, lag);
      assert leases == saved.leases[id := leases[id]];
      out := Done;
    }

    /** Deletes an expired row, without a record of it. */
    method DropExpired(id: string) returns (free: bool)
      modifies this`leases
      ensures free <==> !HasActiveLease(old(Snapshot()), id)
      ensures free ==> leases == old(leases) - {id}
    {
      if id in leases && leases[id].expires <= clock {
        leases := leases - {id};
      }
      free := id !in leases;
    }

    /** The guards of the lease transaction, in their order. */
    method ReadyToWork(id: string) returns (ready: bool)
      requires id in tasks
      ensures ready <==>
                && tasks[id].state == TaskOpen
                && !LinksRetired(Snapshot(), id) && !LinksNonLeaf(Snapshot(), id)
                && !HasIncompleteDependency(Snapshot(), id) && !TaskBlocked(Snapshot(), id)
    {
      if tasks[id].state != TaskOpen {
        return false;
      }
      var retired, nonLeaf := LinksBlocked(id);
      if retired || nonLeaf {
        return false;
      }
      if exists d :: d in taskDependencies && d.task == id && d.dependency in tasks
          && tasks[d.dependency].state != Complete {
        return false;
      }
      var blockers := UnmetRequirementDependencies(id);
      ready := blockers == 0;
    }

    /** Inserts the lease under the next fence. */
    method GrantLease(id: string, agent: string, ttl: int, lag: nat)
      requires id in tasks && id !in leases
      modifies this`leases, this`tasks, this`audit, this`clock
      ensures var fence := old(tasks)[id].fence + 1;
              && clock == old(clock) + lag
              && leases == old(leases)[id := Lease(LeaseId(clock, id), agent, fence, clock + ttl)]
              && tasks == old(tasks)[id := old(tasks)[id].(fence := fence)]
              && audit == old(audit) + [TaskLeased(id, fence)]
    {
      var fence := tasks[id].fence + 1;
      clock := clock + lag;
      leases := leases[id := Lease(LeaseId(clock, id), agent, fence, clock + ttl)];
      tasks := tasks[id := tasks[id].(fence := fence)];
      audit := audit + [TaskLeased(id, fence)];
    }

    method Heartbeat(id: LeaseId, fence: int, ttl: int, lag: nat) returns (out: Outcome)
      modifies this
      ensures Follows(Transactions.Heartbeat(old(Snapshot()), id, fence, ttl, lag), old(Snapshot()), Snapshot(), out)
    {
      if id.task !in leases || leases[id.task].id != id || leases[id.task].fence != fence
          || leases[id.task].expires <= clock {
        return Failed(Conflict);
      }
      clock := clock + lag;
      leases := leases[id.task := leases[id.task].(expires := clock + ttl)];
      audit := audit + [LeaseHeartbeat(id)];
      out := Done;
    }

    method Release(id: LeaseId, fence: int) returns (out: Outcome)
      modifies this
      ensures Follows(Transactions.Release(old(Snapshot()), id, fence), old(Snapshot()), Snapshot(), out)
    {
      if id.task !in leases || leases[id.task].id != id || leases[id.task].fence != fence {
        return Failed(Conflict);
      }
      leases := leases - {id.task};
      audit := audit + [LeaseReleased(id)];
      out := Done;
    }

    method CompleteTask(task: string, id: LeaseId, fence: int, commit: string) returns (out: Outcome)
      requires LeasesSound(Snapshot())
      modifies this
      ensures Follows(Transactions.CompleteTask(old(Snapshot()), task, id, fence, commit),
                      old(Snapshot()), Snapshot(), out)
    {
      if task !in leases || leases[task].id != id || leases[task].fence != fence || leases[task].expires <= clock {
        return Failed(Conflict);
      }
      if task !in tasks {
        return Failed(NotFound);
      }
      Finish(task, commit);
      out := Done;
    }

    /** The writes of a completion. */
    method Finish(task: string, commit: string)
      requires task in tasks
      modifies this`tasks, this`leases, this`requirements, this`audit
      ensures tasks == old(tasks)[task := CompletedTask(old(tasks)[task], commit)] && leases == old(leases) - {task}
      ensures requirements == MarkPending(old(requirements),
              CorrectedBy(old(Snapshot()), TaskLinksOf(old(Snapshot()), task)))
      ensures audit == old(audit) + [TaskCompleted(task)]
    {
      ghost var before := Snapshot();
      WriteCompletion(task, commit);
      leases := leases - {task};
      CorrectLinked(task, before);
      audit := audit + [TaskCompleted(task)];
    }

    method WriteCompletion(task: string, commit: string)
      requires task in tasks
      modifies this`tasks
      ensures tasks == old(tasks)[task := CompletedTask(old(tasks)[task], commit)]
    {
      var row := tasks[task];
      tasks := tasks[task := row.(state := Complete, commit := Some(commit))];
      if row.state != Complete {
        tasks := tasks[task := tasks[task].(log := row.log + [Change(Some(row.state), Complete)])];
      }
    }

    /** The loop over the links of a completed task. */
    method CorrectLinked(task: string, ghost before: Db)
      requires requirements == before.requirements && revisions == before.revisions
      requires refinements == before.refinements && dependencies == before.dependencies && taskLinks == before.taskLinks
      modifies this`requirements
      ensures requirements == MarkPending(before.requirements, CorrectedBy(before, TaskLinksOf(before, task)))
    {
      var links := TaskLinksOf(Snapshot(), task);
      var todo := links;
      assert MarkPending(requirements, CorrectedBy(before, {})) == requirements;
      while todo != {}
        invariant todo <= links
        invariant requirements == MarkPending(before.requirements, CorrectedBy(before, links - todo))
        decreases todo
      {
        var l :| l in todo;
        assert links - (todo - {l}) == (links - todo) + {l};
        CorrectOne(l, before, links - todo);
        todo := todo - {l};
      }
      assert links - todo == links;
    }

    method CorrectOne(l: TaskLink, ghost before: Db, ghost done: set<TaskLink>)
      requires requirements == MarkPending(before.requirements, CorrectedBy(before, done))
               && revisions == before.revisions
      requires refinements == before.refinements && dependencies == before.dependencies
      modifies this`requirements
      ensures requirements == MarkPending(before.requirements, CorrectedBy(before, done + {l}))
    {
      assert SameGraph(before, Snapshot());
      SameGraphSameQueries(before, Snapshot());
      CorrectedByOne(before, done, l);
      if l.ref.id in requirements && requirements[l.ref.id].current == l.ref.revision {
        MarkOne(before.requirements, CorrectedBy(before, done), l.ref.id);
        if Actionable(Snapshot(), l.ref) && StoredState(requirements[l.ref.id].state) == NotSatisfied {
          SetRequirementState(l.ref.id, PendingReview);
        }
      }
    }

    method CloseTask(id: string) returns (out: Outcome)
      modifies this
      ensures Follows(Transactions.CloseTask(old(Snapshot()), id), old(Snapshot()), Snapshot(), out)
    {
      if id !in tasks {
        return Failed(NotFound);
      }
      var row := tasks[id];
      if row.state != TaskOpen {
        return Failed(Conflict);
      }
      if id in leases && leases[id].expires > clock {
        return Failed(Conflict);
      }
      tasks := tasks[id := row.(state := Closed, log := row.log + [Change(Some(row.state), Closed)])];
      audit := audit + [TaskClosed(id)];
      out := Done;
    }

    method ExpireLeases() returns (out: Outcome)
      modifies this`leases, this`expirations
      ensures Follows(Transactions.ExpireLeases(old(Snapshot())), old(Snapshot()), Snapshot(), out)
    {
      ghost var before := leases;
      var expired := set t | t in leases && leases[t].expires <= clock;
      var todo := expired;
      assert RecordsOf(before, {}) == {};
      while todo != {}
        invariant todo <= expired
        invariant leases == before - (expired - todo)
        invariant expirations == old(expirations) + RecordsOf(before, expired - todo)
        decreases todo
      {
        var t :| t in todo;
        assert expired - (todo - {t}) == (expired - todo) + {t};
        RecordsOfOne(before, expired - todo, t);
        expirations := expirations + {Expiration(t, leases[t].id, leases[t].fence)};
        leases := leases - {t};
        todo := todo - {t};
      }
      assert expired - todo == expired;
      assert leases == map t | t in before && before[t].expires > clock :: before[t];
      out := Done;
    }

    method NextLeaseExpiry() returns (earliest: Option<int>)
      ensures IsEarliestExpiry(leases, earliest)
    {
      earliest := None;
      var todo := leases.Keys;
      while todo != {}
        invariant todo <= leases.Keys
        invariant earliest == None ==> todo == leases.Keys
        invariant earliest.Some? ==> exists t :: t in leases && leases[t].expires == earliest.value
        invariant earliest.Some? ==> forall t :: t in leases && t !in todo ==> earliest.value <= leases[t].expires
        decreases todo
      {
        var t :| t in todo;
        if earliest == None || leases[t].expires < earliest.value {
          earliest := Some(leases[t].expires);
        }
        todo := todo - {t};
      }
    }

    /* ----- reports ----- */

    /** The reports' own query for transitive dependencies and their switch over
        the four cases. */
    method DependencyReasons(refs: set<Ref>) returns (reasons: set<Reason>)
      ensures reasons == ReasonsOf(Snapshot(), AllDependencies(Snapshot(), refs))
    {
      var db := Snapshot();
      var found := Search(DependencyEdges(db), DirectDependencies(db, refs));
      forall d
        ensures d in found <==> d in AllDependencies(db, refs)
      {
        DependencySeeds(db, refs, d);
        AllDependenciesAre(db, refs, d);
      }
      reasons := {};
      var todo := found;
      while todo != {}
        invariant todo <= found
        invariant reasons == ReasonsOf(db, found - todo)
        decreases todo
      {
        var d :| d in todo;
        assert found - (todo - {d}) == (found - todo) + {d};
        ReasonsOfOne(db, found - todo, d);
        var reason := ReasonFor(d);
        if reason.Some? {
          reasons := reasons + {reason.value};
        }
        todo := todo - {d};
      }
      assert found - todo == found == AllDependencies(db, refs);
    }

    method ReasonFor(d: Ref) returns (reason: Option<Reason>)
      ensures reason == DependencyReason(Snapshot(), d)
    {
      if d.id !in requirements {
        return Some(DoesNotExist(d));
      }
      var state := EffectiveState(d.id);
      if requirements[d.id].current != d.revision {
        return Some(IsStale(d, requirements[d.id].current));
      } else if requirements[d.id].lifecycle != Active {
        return Some(IsRetired(d));
      } else if state != Satisfied {
        return Some(StateIs(d, state));
      }
      reason := None;
    }

    /** The report's own loop over the linked revisions. */
    method NonLeafReasons(t: string) returns (reasons: set<Reason>)
      ensures reasons == NonLeafLinks(Snapshot(), LinkedRefs(Snapshot(), t))
    {
      var linked := LinkedRefs(Snapshot(), t);
      reasons := {};
      var todo := linked;
      while todo != {}
        invariant todo <= linked
        invariant reasons == NonLeafLinks(Snapshot(), linked - todo)
        decreases todo
      {
        var r :| r in todo;
        assert linked - (todo - {r}) == (linked - todo) + {r};
        if !Actionable(Snapshot(), r) {
          reasons := reasons + {LinkNotLeaf(r)};
        }
        todo := todo - {r};
      }
      assert linked - todo == linked;
    }

    method TaskWorkability(t: string) returns (report: Report)
      requires t in tasks
      ensures report == TaskReport(Snapshot(), t)
    {
      if tasks[t].state == Complete {
        return Report(false, TaskIsComplete, {});
      }
      if tasks[t].state == Closed {
        return Report(false, TaskIsClosed, {});
      }
      if t in leases && leases[t].expires > clock {
        return Report(false, WorkInProgress, {LeaseCovers(leases[t].id, leases[t].agent)});
      }
      var reasons := IncompleteDependencies(Snapshot(), t);
      var blockers := DependencyReasons(LinkedRefs(Snapshot(), t));
      reasons := reasons + blockers + RetiredLinks(Snapshot(), t);
      var links := NonLeafReasons(t);
      reasons := reasons + links;
      if reasons != {} {
        return Report(false, Waiting, reasons);
      }
      report := Report(true, ReadyToLease, {});
    }

    method RequirementWorkability(ref: Ref) returns (report: Report)
      requires ref.id in requirements
      ensures report == RequirementReport(Snapshot(), ref)
    {
      if requirements[ref.id].current != ref.revision || requirements[ref.id].lifecycle != Active {
        return Report(false, Inactive, {});
      }
      if !Actionable(Snapshot(), ref) {
        return Report(false, ManagedThroughChildren, {});
      }
      var reasons := DependencyReasons({ref});
      if reasons != {} {
        return Report(false, Waiting, reasons);
      }
      var state := EffectiveState(ref.id);
      if state == Satisfied {
        return Report(false, NoWorkRequired, {});
      }
      report := OpenLeafReport(ref, state);
    }

    /** The part of the report on a leaf that goes by its tasks. */
    method OpenLeafReport(ref: Ref, state: Recon) returns (report: Report)
      requires ActiveCurrent(Snapshot(), ref) && Actionable(Snapshot(), ref)
      requires ReasonsOf(Snapshot(), AllDependencies(Snapshot(), {ref})) == {}
      requires state == Effective(Snapshot(), ref.id) && state != Satisfied
      ensures report == RequirementReport(Snapshot(), ref)
    {
      var open := OpenTasks(Snapshot(), ref);
      var leased := exists l :: l in taskLinks && l.ref == ref && l.task in leases && leases[l.task].expires > clock;
      assert leased == LinkLeased(Snapshot(), ref);
      var ready := CountReady(open);
      assert ready > 0 <==> SomeReady(Snapshot(), ref);
      if open != {} && !leased && ready == 0 {
        return Report(false, Waiting, {});
      }
      if ready > 0 {
        return Report(true, ReadyForWork, {});
      }
      if leased {
        return Report(false, WorkInProgress, {});
      }
      report := Report(false, if state == PendingReview then AwaitingReview else NeedsTask, {});
    }

    method CountReady(open: set<string>) returns (ready: nat)
      requires open <= tasks.Keys
      ensures ready > 0 <==> exists t :: t in open && TaskReport(Snapshot(), t).workable
    {
      ready := 0;
      var todo := open;
      while todo != {}
        invariant todo <= open
        invariant ready > 0 <==> exists t :: t in open - todo && TaskReport(Snapshot(), t).workable
        decreases todo
      {
        var t :| t in todo;
        assert open - (todo - {t}) == (open - todo) + {t};
        var report := TaskWorkability(t);
        if report.workable {
          ready := ready + 1;
        }
        todo := todo - {t};
      }
      assert open - todo == open;
    }

    /* ----- listings ----- */

    /** ORDER BY id. */
    method OrderById(ids: set<string>) returns (rows: seq<string>)
      ensures IsListing(rows, ids)
    {
      rows := [];
      var todo := ids;
      while todo != {}
        invariant todo <= ids
        invariant IsListing(rows, ids - todo)
        invariant forall i, m :: 0 <= i < |rows| && m in todo ==> Text.Less(rows[i], m)
        decreases todo
      {
        var least := LeastId(todo);
        AscendingAppend(rows, least);
        assert ids - (todo - {least}) == (ids - todo) + {least};
        rows := rows + [least];
        todo := todo - {least};
      }
      assert ids - todo == ids;
    }

    method LeastId(ids: set<string>) returns (least: string)
      requires ids != {}
      ensures least in ids && forall m :: m in ids ==> m == least || Text.Less(least, m)
    {
      least :| least in ids;
      var todo := ids - {least};
      while todo != {}
        invariant todo <= ids && least in ids
        invariant forall m :: m in ids && m !in todo ==> m == least || Text.Less(least, m)
        decreases todo
      {
        var m :| m in todo;
        Text.Total(m, least);
        if Text.Less(m, least) {
          forall x | x in ids && x !in todo && Text.Less(least, x)
            ensures Text.Less(m, x)
          {
            Text.LessTransitive(m, least, x);
          }
          least := m;
        }
        todo := todo - {m};
      }
    }

    /** The recursive query of the impact, or all identifiers without a root. */
    method ImpactIds(root: string) returns (ids: set<string>)
      ensures if root == "" then ids == requirements.Keys
              else forall b :: b in ids <==> b == root || Reaches(Edges(Snapshot()), root, b)
    {
      if root == "" {
        return requirements.Keys;
      }
      ids := Search(Edges(Snapshot()), {root});
    }

    /** By level and then by identifier. */
    method SortByLevel(ids: set<string>) returns (items: seq<string>)
      requires RequirementsSound(Snapshot()) && ids <= requirements.Keys
      ensures ByLevel(Snapshot(), items) && forall b :: b in items <==> b in ids
    {
      var business := OrderById(set id | id in ids && AtLevel(Snapshot(), Some(Business), id));
      var stakeholder := OrderById(set id | id in ids && AtLevel(Snapshot(), Some(Stakeholder), id));
      var system := OrderById(set id | id in ids && AtLevel(Snapshot(), Some(System), id));
      LevelsConcatenated(Snapshot(), ids, business, stakeholder, system);
      items := business + stakeholder + system;
    }

    /** The impact of a root, or all requirements without one, business first,
        system last, each level by identifier. Reading an unknown root fails. */
    method Impact(root: string) returns (out: Outcome, items: seq<string>)
      requires Valid()
      ensures out == if root != "" && root !in requirements then Failed(NotFound) else Done
      ensures out == Done ==> forall b :: b in items <==>
                b in requirements && (root == "" || b == root || Reaches(Edges(Snapshot()), root, b))
      ensures out == Done ==> forall i, j :: 0 <= i < j < |items| ==>
                if LevelOf(Snapshot(), items[i]) == LevelOf(Snapshot(), items[j]) then Text.Less(items[i], items[j])
                else LevelOf(Snapshot(), items[i]) == Some(Business) || LevelOf(Snapshot(), items[j]) == Some(System)
    {
      var ids := ImpactIds(root);
      ImpactStored(Snapshot(), root);
      items := [];
      if exists id :: id in ids && id !in requirements {
        return Failed(NotFound), [];
      }
      out := Done;
      items := SortByLevel(ids);
      ByLevelSays(Snapshot(), items);
    }

    /** One page of the listing: the smallest identifiers above the cursor whose
        current revision has the level and whose reading gives the state. */
    method ListRequirements(cursor: string, limit: int, level: Option<Level>, filter: Option<Recon>)
        returns (items: seq<string>, next: string)
      requires limit >= 1 && "" !in requirements
      ensures IsPage(items, next,
                     (set id | id in requirements && Text.Less(cursor, id) &&
                               (level == None || LevelOf(Snapshot(), id) == level) &&
                               (filter == None || Some(Effective(Snapshot(), id)) == filter)), limit)
    {
      MatchingAbove(Snapshot(), cursor, level, filter);
      items, next := CollectPage(cursor, limit, level, filter);
    }

    /** The query and the loop that stops at the first item too many. */
    method CollectPage(cursor: string, limit: int, level: Option<Level>, filter: Option<Recon>)
        returns (items: seq<string>, next: string)
      requires limit >= 1 && "" !in requirements
      ensures IsPage(items, next, Above(Matching(Snapshot(), level, filter), cursor), limit)
    {
      ghost var all := Above(Matching(Snapshot(), level, filter), cursor);
      var rows := OrderById(set id | id in requirements && Text.Less(cursor, id) && AtLevel(Snapshot(), level, id));
      items := [];
      var i := 0;
      while i < |rows| && |items| <= limit
        invariant Collected(items, rows, i, all) && |items| <= limit + 1
      {
        var state := EffectiveState(rows[i]);
        CollectOne(items, rows, i, all);
        if filter == None || state == filter.value {
          items := items + [rows[i]];
        }
        i := i + 1;
      }
      if |items| > limit {
        FullPage(items, rows, i, all, limit);
        return items[..limit], items[limit - 1];
      }
      LastPage(items, rows, all, limit);
      next := "";
    }

    /** A client that lists everything gets, in ascending order, exactly what has
        the level and reads as the state. */
    method FetchAll(limit: int, level: Option<Level>, filter: Option<Recon>) returns (items: seq<string>)
      requires limit >= 1 && "" !in requirements
      ensures Ascending(items)
      ensures forall id :: id in items <==>
                && id in requirements && (level == None || LevelOf(Snapshot(), id) == level)
                && (filter == None || Some(Effective(Snapshot(), id)) == filter)
    {
      items := FollowCursors(limit, level, filter);
      MatchingIs(Snapshot(), level, filter);
    }

    /** One request of that client. */
    method FetchPage(cursor: string, limit: int, level: Option<Level>, filter: Option<Recon>)
        returns (items: seq<string>, next: string)
      requires limit >= 1 && "" !in requirements
      ensures IsPage(items, next, Above(Matching(Snapshot(), level, filter), cursor), limit)
    {
      MatchingAbove(Snapshot(), cursor, level, filter);
      items, next := ListRequirements(cursor, limit, level, filter);
    }

    /** The loop that follows the cursors until none is returned. */
    method FollowCursors(limit: int, level: Option<Level>, filter: Option<Recon>) returns (items: seq<string>)
      requires limit >= 1 && "" !in requirements
      ensures IsListing(items, Matching(Snapshot(), level, filter))
    {
      ghost var all := Matching(Snapshot(), level, filter);
      var cursor := "";
      items := [];
      var more := true;
      while more
        invariant more ==> IsListing(items, all - Above(all, cursor))
        invariant more ==> forall i :: 0 <= i < |items| ==> items[i] == cursor || Text.Less(items[i], cursor)
        invariant !more ==> IsListing(items, all)
        decreases more, Above(all, cursor)
      {
        var page, next := FetchPage(cursor, limit, level, filter);
        PageContinues(items, cursor, page, next, all, limit);
        if next != "" {
          AboveShrinks(all, cursor, next);
        }
        items := items + page;
        cursor := next;
        more := next != "";
      }
    }
  }
}
