/** When each transaction commits, told from the rows it goes by, which error it
    gives otherwise, and what must go through whatever came before. */
module Acceptance {
  import opened Domain
  import opened Tables
  import opened Queries
  import opened Transactions
  import opened Soundness

  /* ----- the words ----- */

  /** A stored link makes c an active current child of the revision p. */
  predicate HasActiveChild(db: Db, p: Ref)
  {
    exists l :: l in db.refinements && l.parent == p && l.child.id in db.requirements
                && db.requirements[l.child.id].current == l.child.revision
                && db.requirements[l.child.id].lifecycle == Active
  }

  /** Work stands on exactly this revision. */
  predicate WorkAt(db: Db, p: Ref)
  {
    (exists l :: l in db.taskLinks && l.ref == p) || (exists k :: k in db.reviews && k.ref == p)
  }

  /** A system revision, or a stakeholder revision without active children. */
  predicate IsLeafRevision(db: Db, ref: Ref)
  {
    && ref in db.revisions
    && (db.revisions[ref].level == System || (db.revisions[ref].level == Stakeholder && !HasActiveChild(db, ref)))
  }

  lemma ActiveChildIs(db: Db, p: Ref)
    ensures HasActiveChild(db, p) <==> Children(db, p) != {}
  {
    if l :| l in db.refinements && l.parent == p && ActiveCurrent(db, l.child) {
      assert l == Link(l.child, p);
      ChildrenAre(db, p, l.child);
    }
    if c :| c in Children(db, p) {
      ChildrenAre(db, p, c);
      assert Link(c, p).parent == p && Link(c, p).child == c;
    }
  }

  lemma LeafRevisionIs(db: Db, ref: Ref)
    ensures IsLeafRevision(db, ref) <==> Actionable(db, ref)
  {
    ActiveChildIs(db, ref);
  }

  /* ----- creating and revising requirements ----- */

  /** Everything the links of an input name is stored and is something else. */
  predicate NamesStored(db: Db, input: RequirementInput)
  {
    && (forall p :: p in input.parents ==> p in db.revisions && p.id != input.id)
    && (forall d :: d in input.dependsOn ==> d in db.revisions && d.id != input.id)
  }

  /** A first system child goes to a revision without work of its own. */
  predicate MayDecompose(db: Db, input: RequirementInput)
  {
    input.level == System ==> forall p :: p in input.parents ==> HasActiveChild(db, p) || !WorkAt(db, p)
  }

  /** The links of the input can be stored under a revision that is new. */
  predicate Storable(db: Db, input: RequirementInput)
  {
    && Ref(input.id, input.revision) !in db.revisions
    && NamesStored(db, input) && MayDecompose(db, input)
    && |set p | p in input.parents| == |input.parents| && |set d | d in input.dependsOn| == |input.dependsOn|
  }

  /** A list repeats nothing exactly if it has as many members as places. */
  lemma {:induction false} DistinctCounts<T>(s: seq<T>)
    ensures |set x | x in s| <= |s|
    ensures Distinct(s) <==> |set x | x in s| == |s|
  {
    if s != [] {
      var head, last := s[..|s| - 1], s[|s| - 1];
      DistinctCounts(head);
      assert s == head + [last];
      assert (set x | x in s) == (set x | x in head) + {last};
      if Distinct(head) && last !in head {
        assert Distinct(s);
      }
      if Distinct(s) {
        assert Distinct(head) by {
          assert forall i :: 0 <= i < |head| ==> head[i] == s[i];
        }
        assert last !in head by {
          assert forall i :: 0 <= i < |head| ==> s[i] != s[|s| - 1];
        }
      }
    }
  }

  lemma RevisionErrorExactly(db: Db, input: RequirementInput)
    ensures RevisionError(db, input) == None <==> Storable(db, input)
  {
    DistinctCounts(input.parents);
    DistinctCounts(input.dependsOn);
    forall p | p in input.parents
      ensures GuardsDecomposition(db, p) <==> !HasActiveChild(db, p) && WorkAt(db, p)
    {
      ActiveChildIs(db, p);
    }
  }

  /** An update commits exactly if it names the current revision of an active
      requirement, the next number, and links that can be stored. */
  lemma UpdateCommitsExactly(db: Db, input: RequirementInput, expected: int)
    ensures UpdateRequirement(db, input, expected).Commit? <==>
            && input.id in db.requirements && db.requirements[input.id].lifecycle == Active
            && db.requirements[input.id].current == expected && input.revision == expected + 1
            && Storable(db, input)
  {
    RevisionErrorExactly(db, input);
  }

  /** Links and revisions belong to stored revisions and requirements. */
  predicate KeysHold(db: Db)
  {
    && (forall l :: l in db.refinements ==> l.child in db.revisions)
    && (forall r :: r in db.revisions ==> r.id in db.requirements)
  }

  lemma InsertedRowChangesNoChild(db: Db, input: RequirementInput, p: Ref)
    requires KeysHold(db) && input.id !in db.requirements
    ensures HasActiveChild(RowInserted(db, input), p) <==> HasActiveChild(db, p)
  {
  }

  /** A creation commits exactly if the identifier is new, the revision number is
      positive, and the links can be stored. */
  lemma CreateCommitsExactly(db: Db, input: RequirementInput)
    requires KeysHold(db)
    ensures CreateRequirement(db, input).Commit? <==>
            input.id !in db.requirements && input.revision >= 1 && Storable(db, input)
  {
    if input.id !in db.requirements {
      RevisionErrorExactly(RowInserted(db, input), input);
      forall p | p in input.parents
        ensures HasActiveChild(RowInserted(db, input), p) <==> HasActiveChild(db, p)
      {
        InsertedRowChangesNoChild(db, input, p);
      }
    }
  }

  /** The two stores differ in work only, and not in work on the parents that the
      input names. */
  predicate SameButForOtherWork(db: Db, d: Db, input: RequirementInput)
  {
    && d == db.(tasks := d.tasks, taskLinks := d.taskLinks, reviews := d.reviews)
    && forall p :: p in input.parents ==> (WorkAt(d, p) <==> WorkAt(db, p))
  }

  lemma OtherWorkSameError(db: Db, d: Db, input: RequirementInput)
    requires SameButForOtherWork(db, d, input)
    ensures RevisionError(d, input) == RevisionError(db, input)
  {
    forall p | p in input.parents
      ensures GuardsDecomposition(d, p) <==> GuardsDecomposition(db, p)
    {
      ActiveChildIs(db, p);
      ActiveChildIs(d, p);
      assert GuardsDecomposition(db, p) <==> !HasActiveChild(db, p) && WorkAt(db, p);
      assert GuardsDecomposition(d, p) <==> !HasActiveChild(d, p) && WorkAt(d, p);
    }
  }

  /** Work on any other revision, even of the same requirement, never changes the
      answer to a creation or an update. */
  lemma OtherWorkIsIrrelevant(db: Db, d: Db, input: RequirementInput, expected: int)
    requires SameButForOtherWork(db, d, input)
    ensures UpdateRequirement(d, input, expected).Commit? <==> UpdateRequirement(db, input, expected).Commit?
    ensures CreateRequirement(d, input).Commit? <==> CreateRequirement(db, input).Commit?
    ensures UpdateRequirement(db, input, expected).Abort? ==>
              UpdateRequirement(d, input, expected) == UpdateRequirement(db, input, expected)
    ensures CreateRequirement(db, input).Abort? ==> CreateRequirement(d, input) == CreateRequirement(db, input)
  {
    OtherWorkSameError(db, d, input);
    OtherWorkSameError(RowInserted(db, input), RowInserted(d, input), input);
  }

  /** One new system requirement below the given revision. */
  function FirstChild(y: string, revision: int, parent: Ref): RequirementInput
  {
    RequirementInput(y, System, revision, [parent], [])
  }

  lemma SingletonCounts<T>(x: T)
    ensures (set y | y in [x]) == {x} && |set y | y in [x]| == 1
  {
  }

  lemma FreshParentAdmits(d: Db, child: RequirementInput, parent: Ref)
    requires KeysHold(d) && child == FirstChild(child.id, child.revision, parent)
    requires child.id !in d.requirements && child.revision >= 1
    requires parent in d.revisions && !WorkAt(d, parent)
    ensures CreateRequirement(d, child).Commit?
  {
    CreateCommitsExactly(d, child);
    SingletonCounts(parent);
  }

  /** The way out that the refusal names: after any committed update of a
      stakeholder requirement in any run, whatever work stands on its older
      revisions, a new system requirement below the new revision is created. */
  lemma NewRevisionCanBeDecomposed(ops: seq<Op>, input: RequirementInput, expected: int, y: string, revision: int)
    requires ValidRequirement(input) && input.level == Stakeholder
    requires UpdateRequirement(Run(ops), input, expected).Commit?
    requires y !in Run(ops).requirements && revision >= 1
    ensures CreateRequirement(Step(Run(ops), OpUpdateRequirement(input, expected)),
                              FirstChild(y, revision, Ref(input.id, input.revision))).Commit?
  {
    RunIsSound(ops);
    var db, parent := Run(ops), Ref(input.id, input.revision);
    var d := Step(db, OpUpdateRequirement(input, expected));
    UpdateKeepsSound(db, input, expected);
    UpdateAdds(db, input, expected);
    SoundKeysHold(d);
    NewRevisionHasNoWork(db, d, input);
    FreshParentAdmits(d, FirstChild(y, revision, parent), parent);
  }

  lemma SoundKeysHold(d: Db)
    requires LinksSound(d) && RevisionsSound(d)
    ensures KeysHold(d)
  {
    assert forall l :: l in d.refinements ==> LinksBack(d, l);
  }

  lemma NewRevisionHasNoWork(db: Db, d: Db, input: RequirementInput)
    requires ReferencesSound(db) && RevisionAdded(db, d, input)
    requires d.taskLinks == db.taskLinks && d.reviews == db.reviews
    ensures !WorkAt(d, Ref(input.id, input.revision))
  {
  }

  /** Which error: an unknown requirement is not found; a stale expectation, a
      wrong number and a retired requirement are conflicts; so is an identifier
      that is taken. */
  lemma RequirementErrors(db: Db, input: RequirementInput, expected: int)
    ensures input.id !in db.requirements ==> UpdateRequirement(db, input, expected) == Abort(NotFound)
    ensures input.id in db.requirements &&
            (|| db.requirements[input.id].current != expected || input.revision != expected + 1
             || db.requirements[input.id].lifecycle == Retired) ==>
              UpdateRequirement(db, input, expected) == Abort(Conflict)
    ensures input.id in db.requirements ==> CreateRequirement(db, input) == Abort(Conflict)
  {
  }

  predicate ParentsStored(db: Db, input: RequirementInput)
  {
    forall p :: p in input.parents ==> p in db.revisions
  }

  predicate DependenciesStored(db: Db, input: RequirementInput)
  {
    forall d :: d in input.dependsOn ==> d in db.revisions
  }

  /** The first objection to the links of an input. */
  function LinkObjection(db: Db, input: RequirementInput): Option<Error>
  {
    if !ParentsStored(db, input) then Some(NotFound)
    else if !MayDecompose(db, input) then Some(Conflict)
    else if !DependenciesStored(db, input) then Some(NotFound)
    else if !Storable(db, input) then Some(Constraint)
    else None
  }

  lemma LinkObjectionIs(db: Db, input: RequirementInput)
    ensures RevisionError(db, input) == LinkObjection(db, input)
  {
    RevisionErrorExactly(db, input);
    forall p | p in input.parents
      ensures GuardsDecomposition(db, p) <==> !HasActiveChild(db, p) && WorkAt(db, p)
    {
      ActiveChildIs(db, p);
    }
  }

  /** Which error for links, in the order of the checks: a missing parent is not
      found, a guarded parent is a conflict, a missing dependency is not found, and
      whatever else cannot be stored breaks a constraint. */
  lemma LinkErrors(db: Db, input: RequirementInput, expected: int, error: Error)
    requires LinkObjection(db, input) == Some(error)
    ensures input.id in db.requirements && db.requirements[input.id].lifecycle == Active
            && db.requirements[input.id].current == expected && input.revision == expected + 1 ==>
              UpdateRequirement(db, input, expected) == Abort(error)
    ensures KeysHold(db) && input.id !in db.requirements && input.revision >= 1 ==>
              CreateRequirement(db, input) == Abort(error)
  {
    LinkObjectionIs(db, input);
    LinkObjectionIs(RowInserted(db, input), input);
    if KeysHold(db) && input.id !in db.requirements {
      SameObjection(db, input);
    }
  }

  lemma SameObjection(db: Db, input: RequirementInput)
    requires KeysHold(db) && input.id !in db.requirements
    ensures LinkObjection(RowInserted(db, input), input) == LinkObjection(db, input)
  {
    forall p | p in input.parents
      ensures HasActiveChild(RowInserted(db, input), p) <==> HasActiveChild(db, p)
    {
      InsertedRowChangesNoChild(db, input, p);
    }
  }

  /* ----- reviews ----- */

  predicate SameReview(r: Review, input: ReviewInput)
  {
    r.verdict == input.verdict && r.task == input.task && r.findings == input.findings
  }

  /** Whatever task a review cites is complete at the reviewed commit and linked
      to exactly the reviewed revision. */
  predicate CitesFinishedTask(db: Db, cited: Option<string>, ref: Ref, commit: string)
  {
    match cited
    case None => true
    case Some(t) =>
      && t in db.tasks && db.tasks[t].state == Complete && db.tasks[t].commit == Some(commit)
      && exists l :: l in db.taskLinks && l.task == t && l.ref == ref
  }

  /** The review is of an active requirement at its current revision, which is a
      leaf. Revision 0 asks for the current one. */
  predicate NamesActiveLeaf(db: Db, ref: Ref)
  {
    && ref.id in db.requirements && ref.revision in {0, db.requirements[ref.id].current}
    && db.requirements[ref.id].lifecycle == Active && IsLeafRevision(db, CurrentRef(db, ref.id))
  }

  function KeyOf(db: Db, input: ReviewInput): ReviewKey
    requires input.ref.id in db.requirements
  {
    ReviewKey(CurrentRef(db, input.ref.id), input.commit)
  }

  /** A review commits exactly if it names an active leaf and either repeats the
      stored review of its commit, or is the first of its commit while the
      requirement is not satisfied and cites no task or a fitting one. */
  lemma ReviewCommitsExactly(db: Db, input: ReviewInput)
    ensures ReviewRequirement(db, input).Commit? <==>
            && NamesActiveLeaf(db, input.ref)
            && if KeyOf(db, input) in db.reviews then SameReview(db.reviews[KeyOf(db, input)], input)
               else && db.requirements[input.ref.id].state != Some(Satisfied)
                    && CitesFinishedTask(db, input.task, CurrentRef(db, input.ref.id), input.commit)
  {
    if input.ref.id in db.requirements {
      LeafRevisionIs(db, CurrentRef(db, input.ref.id));
    }
  }

  /** Which error: an unknown requirement and an unknown task are not found, and
      everything else is a conflict. */
  lemma ReviewErrors(db: Db, input: ReviewInput)
    ensures ReviewRequirement(db, input).Abort? ==>
              ReviewRequirement(db, input) in {Abort(NotFound), Abort(Conflict)}
    ensures ReviewRequirement(db, input) == Abort(NotFound) <==>
            || input.ref.id !in db.requirements
            || (&& NamesActiveLeaf(db, input.ref) && KeyOf(db, input) !in db.reviews
                && db.requirements[input.ref.id].state != Some(Satisfied)
                && input.task.Some? && input.task.value !in db.tasks)
  {
    if input.ref.id in db.requirements {
      LeafRevisionIs(db, CurrentRef(db, input.ref.id));
    }
  }

  /** What the first review of a commit leaves: the review, the verdict with its
      history on the one row, and, after an accept, no open cause on the
      revision. */
  lemma ReviewLeaves(db: Db, d: Db, input: ReviewInput)
    requires input.ref.id in db.requirements && KeyOf(db, input) !in db.reviews
    requires ReviewRequirement(db, input) == Commit(d)
    ensures var id, key := input.ref.id, KeyOf(db, input);
            var row, state := db.requirements[id], if input.verdict == Accept then Satisfied else NotSatisfied;
            && d == db.(reviews := d.reviews, causes := d.causes, requirements := d.requirements,
                        audit := db.audit + [RequirementReviewed(key, input.verdict)])
            && d.reviews == db.reviews[key := Review(input.verdict, input.task, input.findings, |db.audit|)]
            && d.requirements == db.requirements[id := d.requirements[id]]
            && d.requirements[id] == row.(state := Some(state),
                 reconLog := row.reconLog + if row.state == Some(state) then [] else [Change(row.state, state)])
            && d.causes.Keys == db.causes.Keys
            && forall k :: k in d.causes ==>
                 d.causes[k] == if input.verdict == Accept && k.ref == key.ref then Resolved else db.causes[k]
  {
  }

  /** A rejection is not the last word. After a review that rejects, an accept of
      the same revision at a commit without a review goes through and leaves the
      requirement satisfied. */
  lemma AcceptAfterReject(db: Db, d: Db, reject: ReviewInput, accept: ReviewInput)
    requires reject.verdict == Reject && ReviewRequirement(db, reject) == Commit(d) && d != db
    requires accept.verdict == Accept && accept.ref == reject.ref && accept.task == None
    requires accept.ref.id in d.requirements && KeyOf(d, accept) !in d.reviews
    ensures ReviewRequirement(d, accept).Commit?
    ensures var e := ReviewRequirement(d, accept).db;
            && accept.ref.id in e.requirements && e.requirements[accept.ref.id].state == Some(Satisfied)
            && e.requirements[accept.ref.id].current == db.requirements[accept.ref.id].current
  {
    ReviewCommitsExactly(db, reject);
    ReviewLeaves(db, d, reject);
    SameGraphSameLeaf(db, d, CurrentRef(db, reject.ref.id));
    ReviewCommitsExactly(d, accept);
    ReviewLeaves(d, ReviewRequirement(d, accept).db, accept);
  }

  lemma SameGraphSameLeaf(db: Db, d: Db, ref: Ref)
    requires SameGraph(db, d)
    ensures IsLeafRevision(d, ref) == IsLeafRevision(db, ref)
  {
  }

  /* ----- retiring ----- */

  /** A retirement commits exactly for an active requirement. */
  lemma RetireCommitsExactly(db: Db, x: string)
    ensures RetireRequirement(db, x).Commit? <==> x in db.requirements && db.requirements[x].lifecycle == Active
    ensures RetireRequirement(db, x) == Abort(NotFound) <==> x !in db.requirements
    ensures RetireRequirement(db, x) == Abort(Conflict) <==>
            x in db.requirements && db.requirements[x].lifecycle == Retired
  {
  }

  /** The retiring system requirement refines a revision of itself, and that is a
      leaf afterwards. */
  predicate FreesItself(db: Db, d: Db, x: string)
    requires x in db.requirements
  {
    var ref := CurrentRef(db, x);
    && ref in db.revisions && db.revisions[ref].level == System
    && exists l :: l in db.refinements && l.child == ref && l.parent.id == x && IsLeafRevision(d, l.parent)
  }

  lemma FreedMeansItself(db: Db, d: Db, x: string)
    requires x in db.requirements
    ensures Freed(db, d, x, x) <==> FreesItself(db, d, x)
  {
    forall p: Ref
      ensures IsLeafRevision(d, p) <==> Actionable(d, p)
    {
      LeafRevisionIs(d, p);
    }
    if FreesItself(db, d, x) {
      var l :| l in db.refinements && l.child == CurrentRef(db, x) && l.parent.id == x && IsLeafRevision(d, l.parent);
      assert l.parent in SystemParents(db, CurrentRef(db, x));
    }
  }

  /** A retirement takes the requirement itself out of use and keeps its current
      revision; its stored state too, unless it frees itself. */
  lemma RetiredRowIs(db: Db, d: Db, x: string)
    requires RetireRequirement(db, x) == Commit(d)
    ensures x in db.requirements && x in d.requirements
    ensures d.requirements[x].current == db.requirements[x].current && d.requirements[x].lifecycle == Retired
    ensures d.requirements[x].state == if FreesItself(db, d, x) then Some(PendingReview) else db.requirements[x].state
  {
    RetireEffect(db, x);
    FreedMeansItself(db, d, x);
    assert x !in Downstream(d, x);
  }

  /** In runs it never does: a stored state outlives the retirement. */
  lemma RetirementKeepsOwnState(ops: seq<Op>, d: Db, x: string)
    requires RetireRequirement(Run(ops), x) == Commit(d)
    ensures x in Run(ops).requirements && x in d.requirements
    ensures d.requirements[x].state == Run(ops).requirements[x].state
  {
    RunIsSound(ops);
    RetiredRowIs(Run(ops), d, x);
    NothingFreesItself(Run(ops), d, x);
  }

  lemma NothingFreesItself(db: Db, d: Db, x: string)
    requires LinksSound(db) && x in db.requirements
    ensures !FreesItself(db, d, x)
  {
    forall l | l in db.refinements && l.child == CurrentRef(db, x)
      ensures l.parent.id != x
    {
      assert LinksBack(db, l);
    }
  }
}
