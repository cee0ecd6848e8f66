/** Verdicts against the history of the graph: since its last acceptance, a
    satisfied requirement lay downstream of no change, each change seen in the
    graph as it stood right after it. */
module Freshness {
  import opened Domain
  import opened Graph
  import opened Tables
  import opened Transactions
  import opened Soundness
  import opened Verdicts

  /** id is active and stored as satisfied. */
  ghost predicate Stands(db: Db, id: string)
  {
    id in db.requirements && db.requirements[id].lifecycle == Active && db.requirements[id].state == Some(Satisfied)
  }

  /** x is neither id nor upstream of it. */
  ghost predicate Apart(db: Db, x: string, id: string)
  {
    x != id && !Reaches(Edges(db), x, id)
  }

  lemma CreateSpares(db: Db, d: Db, input: RequirementInput, id: string)
    requires Sound(db) && CreateRequirement(db, input) == Commit(d) && Stands(d, id)
    ensures Apart(d, input.id, id)
  {
    CreateAdds(db, input);
    RevisionAgrees(db, d, input);
    ReachFromSame(Edges(db), Edges(d), input.id, id);
    if Reaches(Edges(db), input.id, id) {
      ReacherExists(db, input.id, id);
      assert false;
    }
  }

  lemma UpdateSpares(db: Db, d: Db, input: RequirementInput, id: string)
    requires Updated(db, d, input) && VerdictsPlaced(d) && Stands(d, id)
    ensures Apart(d, input.id, id)
  {
    if id != input.id {
      UpdateKeepsVerdict(db, d, input, id);
    }
  }

  lemma RetireSpares(db: Db, d: Db, x: string, id: string)
    requires RetireRequirement(db, x) == Commit(d) && VerdictsPlaced(d) && Stands(d, id)
    ensures Apart(d, x, id)
  {
    RetireEffect(db, x);
  }

  /** What a step changes lies, in the graph it leaves, neither at nor upstream
      of anything that is satisfied after it. */
  lemma StepSpares(db: Db, op: Op, x: string, id: string)
    requires Sound(db) && VerdictsPlaced(Step(db, op)) && Stands(Step(db, op), id)
    requires ContentChanged(db, Step(db, op), x)
    ensures Apart(Step(db, op), x, id)
  {
    OnlyThreeChange(db, op, x);
    var d := Step(db, op);
    match op
    case OpCreateRequirement(input) => CreateSpares(db, d, input, id);
    case OpUpdateRequirement(input, expected) => UpdateIsUpdated(db, d, input, expected);
        UpdateSpares(db, d, input, id);
    case OpRetireRequirement(r) => RetireSpares(db, d, r, id);
    case _ =>
  }

  /** Content and lifecycle change by three requests only, each on its own. */
  lemma OnlyThreeChange(db: Db, op: Op, x: string)
    requires ContentChanged(db, Step(db, op), x)
    ensures Perform(db, op).Commit?
    ensures match op
            case OpCreateRequirement(input) => x == input.id
            case OpUpdateRequirement(input, _) => x == input.id
            case OpRetireRequirement(r) => x == r
            case _ => false
  {
    if op.OpCreateRequirement? || op.OpUpdateRequirement? || op.OpRetireRequirement? {
      ChangeIsNamed(db, op, x);
    } else {
      OthersKeepGraph(db, op);
    }
  }

  lemma ChangeIsNamed(db: Db, op: Op, x: string)
    requires op.OpCreateRequirement? || op.OpUpdateRequirement? || op.OpRetireRequirement?
    requires ContentChanged(db, Step(db, op), x)
    ensures Perform(db, op).Commit?
    ensures x == if op.OpCreateRequirement? then op.requirement.id else if op.OpUpdateRequirement? then op.revised.id
            else op.id
  {
    if op.OpCreateRequirement? {
      CreateAdds(db, op.requirement);
    } else if op.OpUpdateRequirement? {
      UpdateAdds(db, op.revised, op.expected);
    } else {
      RetireEffect(db, op.id);
    }
  }

  /** The step stored an accept review of the current revision of id. */
  ghost predicate Accepts(db: Db, op: Op, id: string)
  {
    && id in db.requirements && Perform(db, op).Commit?
    && op.OpReviewRequirement? && op.review.ref.id == id && op.review.verdict == Accept
    && Step(db, op).audit == db.audit + [RequirementReviewed(ReviewKey(CurrentRef(db, id), op.review.commit), Accept)]
  }

  lemma NewlySatisfied(db: Db, op: Op, id: string)
    requires Stands(Step(db, op), id)
    requires id in db.requirements && db.requirements[id].state != Some(Satisfied)
    ensures Accepts(db, op, id)
  {
    OnlyReviewsJudge(db, op, id);
    ReviewEffect(db, op.review);
  }

  /** Satisfied after the step at the same revision as before it, by an accept
      or by having been satisfied already. */
  lemma SatisfiedBefore(db: Db, op: Op, id: string)
    requires Sound(db) && VerdictsPlaced(Step(db, op)) && Stands(Step(db, op), id)
    ensures id in db.requirements && CurrentRef(db, id) == CurrentRef(Step(db, op), id)
    ensures Stands(db, id) || Accepts(db, op, id)
  {
    if ContentChanged(db, Step(db, op), id) {
      StepSpares(db, op, id, id);
      assert false;
    }
    if !Stands(db, id) {
      NewlySatisfied(db, op, id);
    }
  }

  /** The tables at every moment of a run. */
  ghost function States(ops: seq<Op>): (states: seq<Db>)
    ensures |states| == |ops| + 1
  {
    if ops == [] then [EMPTY] else States(ops[..|ops| - 1]) + [Run(ops)]
  }

  lemma {:induction false} StatesAre(ops: seq<Op>, i: nat)
    requires i <= |ops|
    ensures States(ops)[i] == Run(ops[..i])
    decreases |ops|
  {
    if i == |ops| {
      assert ops[..i] == ops;
    } else {
      StatesAre(ops[..|ops| - 1], i);
      assert ops[..|ops| - 1][..i] == ops[..i];
    }
  }

  /** From moment m on, id has stood satisfied at one revision, and no change
      was made at or upstream of it. */
  ghost predicate UndisturbedSince(states: seq<Db>, m: nat, id: string, ref: Ref)
    requires m < |states|
  {
    && (forall i :: m <= i < |states| ==> Stands(states[i], id) && CurrentRef(states[i], id) == ref)
    && (forall i, x :: m < i < |states| && ContentChanged(states[i - 1], states[i], x) ==> Apart(states[i], x, id))
  }

  lemma UndisturbedLonger(states: seq<Db>, d: Db, m: nat, id: string, ref: Ref)
    requires m < |states| && UndisturbedSince(states, m, id, ref)
    requires Stands(d, id) && CurrentRef(d, id) == ref
    requires forall x :: ContentChanged(states[|states| - 1], d, x) ==> Apart(d, x, id)
    ensures UndisturbedSince(states + [d], m, id, ref)
  {
    var longer := states + [d];
    forall i, x | m < i < |longer| && ContentChanged(longer[i - 1], longer[i], x)
      ensures Apart(longer[i], x, id)
    {
      if i < |states| {
        assert longer[i - 1] == states[i - 1] && longer[i] == states[i];
      }
    }
  }

  /** A step from db to d leaves id standing as it found it, or accepts it, and
      changes nothing upstream of it. */
  ghost predicate Continues(db: Db, op: Op, d: Db, id: string)
  {
    && id in db.requirements && id in d.requirements && CurrentRef(db, id) == CurrentRef(d, id)
    && (Stands(db, id) || Accepts(db, op, id))
    && forall x :: ContentChanged(db, d, x) ==> Apart(d, x, id)
  }

  lemma LastStep(ops: seq<Op>, id: string)
    requires ops != [] && Stands(Run(ops), id)
    ensures Continues(Run(ops[..|ops| - 1]), ops[|ops| - 1], Run(ops), id)
  {
    RunIsTrusted(ops[..|ops| - 1]);
    RunIsTrusted(ops);
    StepContinues(Run(ops[..|ops| - 1]), ops[|ops| - 1], id);
  }

  lemma StepContinues(db: Db, op: Op, id: string)
    requires Sound(db) && VerdictsPlaced(Step(db, op)) && Stands(Step(db, op), id)
    ensures Continues(db, op, Step(db, op), id)
  {
    SatisfiedBefore(db, op, id);
    forall x | ContentChanged(db, Step(db, op), x)
      ensures Apart(Step(db, op), x, id)
    {
      StepSpares(db, op, x, id);
    }
  }

  lemma LastState(ops: seq<Op>)
    ensures States(ops)[|ops|] == Run(ops)
  {
    StatesAre(ops, |ops|);
    assert ops[..|ops|] == ops;
  }

  /** In every run, a satisfied active requirement was accepted at its current
      revision at some moment. Since then it has stood satisfied, and every
      requirement that was created, revised or retired lay apart from it in the
      graph as that very change left it, whatever the graph became later. */
  lemma {:induction false} SatisfiedSinceAcceptance(ops: seq<Op>, id: string) returns (m: nat)
    requires Stands(Run(ops), id)
    ensures 0 < m <= |ops| && Accepts(States(ops)[m - 1], ops[m - 1], id)
    ensures UndisturbedSince(States(ops), m, id, CurrentRef(Run(ops), id))
    decreases |ops|
  {
    LastStep(ops, id);
    var shorter := ops[..|ops| - 1];
    LastState(shorter);
    if Accepts(Run(shorter), ops[|shorter|], id) {
      m := |ops|;
    } else {
      m := SatisfiedSinceAcceptance(shorter, id);
      UndisturbedLonger(States(shorter), Run(ops), m, id, CurrentRef(Run(ops), id));
    }
  }
}
