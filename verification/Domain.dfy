/** Identifiers, inputs and the checks made on them before a transaction. */
module Domain {

  datatype Option<+T> = None | Some(value: T)

  datatype Level = Business | Stakeholder | System

  datatype Ref = Ref(id: string, revision: int)

  datatype RequirementInput = RequirementInput(
    id: string, level: Level, revision: int, parents: seq<Ref>, dependsOn: seq<Ref>)

  datatype Purpose = Implement | Reconcile

  datatype TaskRequirementInput = TaskRequirementInput(ref: Ref, purpose: Purpose)

  datatype TaskInput = TaskInput(id: string, requirements: seq<TaskRequirementInput>, dependsOn: seq<string>)

  datatype Verdict = Accept | Reject

  datatype Finding = Finding(message: string, path: string, line: int)

  datatype ReviewInput = ReviewInput(
    ref: Ref, commit: string, verdict: Verdict, task: Option<string>, findings: seq<Finding>)

  function Prefix(level: Level): string
  {
    match level
    case Business => "BR-"
    case Stakeholder => "STR-"
    case System => "SYR-"
  }

  predicate HasPrefix(s: string, prefix: string)
  {
    |prefix| <= |s| && s[..|prefix|] == prefix
  }

  predicate UpperOrDigit(c: char)
  {
    'A' <= c <= 'Z' || '0' <= c <= '9'
  }

  /** [A-Z0-9]+(-[A-Z0-9]+)* */
  predicate IsSlug(s: string)
    decreases |s|
  {
    s != "" && UpperOrDigit(s[0]) && SlugContinues(s[1..])
  }

  predicate SlugContinues(s: string)
    decreases |s|
  {
    s == "" || (UpperOrDigit(s[0]) && SlugContinues(s[1..])) || (s[0] == '-' && IsSlug(s[1..]))
  }

  predicate IdMatches(level: Level, id: string)
  {
    HasPrefix(id, Prefix(level)) && IsSlug(id[|Prefix(level)|..])
  }

  /** The level a requirement of the given level refines. */
  predicate Refines(child: Level, parent: Level)
  {
    (child == Stakeholder && parent == Business) || (child == System && parent == Stakeholder)
  }

  predicate ParentPrefixMatches(level: Level, parentId: string)
  {
    match level
    case Business => false
    case Stakeholder => HasPrefix(parentId, "BR-")
    case System => HasPrefix(parentId, "STR-")
  }

  predicate ValidRequirement(input: RequirementInput)
  {
    && IdMatches(input.level, input.id)
    && input.revision >= 1
    && (input.level == Business <==> input.parents == [])
    && (forall p :: p in input.parents ==> p.revision >= 1 && ParentPrefixMatches(input.level, p.id))
    && (forall d :: d in input.dependsOn ==> d.revision >= 1 && d.id != input.id)
  }

  predicate IsTaskId(s: string)
  {
    |s| > 2 && HasPrefix(s, "T-") && forall i :: 2 <= i < |s| ==> '0' <= s[i] <= '9'
  }

  predicate ValidTask(input: TaskInput)
  {
    && IsTaskId(input.id)
    && input.requirements != []
    && (forall l :: l in input.requirements ==> l.ref.revision >= 1)
    && input.id !in input.dependsOn
  }

  predicate IsHex(c: char)
  {
    '0' <= c <= '9' || 'a' <= c <= 'f' || 'A' <= c <= 'F'
  }

  predicate ValidCommit(s: string)
  {
    |s| == 40 && forall i :: 0 <= i < |s| ==> IsHex(s[i])
  }

  predicate Blank(s: string)
  {
    forall i :: 0 <= i < |s| ==> s[i] in " \t\n\r\U{000b}\U{000c}\U{0085}\U{00a0}"
  }

  predicate ValidReview(input: ReviewInput)
  {
    && ValidCommit(input.commit)
    && (input.verdict == Reject ==> input.findings != [])
    && (forall f :: f in input.findings ==> !Blank(f.message) && f.line >= 0 && (f.line > 0 ==> !Blank(f.path)))
  }

  /** The three prefixes exclude each other, so an identifier has one level. */
  lemma LevelIsUnique(l: Level, m: Level, id: string)
    requires HasPrefix(id, Prefix(l)) && HasPrefix(id, Prefix(m))
    ensures l == m
  {
    assert Prefix(Business)[0] == 'B' && Prefix(Stakeholder)[1] == 'T' && Prefix(System)[1] == 'Y';
    assert id[0] == id[..|Prefix(l)|][0] && id[1] == id[..|Prefix(l)|][1];
    assert id[0] == id[..|Prefix(m)|][0] && id[1] == id[..|Prefix(m)|][1];
  }

  /** A parent that passes the prefix test and exists at all has the level that
      the child's level refines. */
  lemma ParentLevel(child: Level, parent: Level, parentId: string)
    requires ParentPrefixMatches(child, parentId) && IdMatches(parent, parentId)
    ensures Refines(child, parent)
  {
  }
}
