/** The patterns of identifiers and commits, as what texts they admit. */
module Identifiers {
  import opened Domain

  /** The parts with single hyphens between them. */
  function Join(parts: seq<string>): string
  {
    if parts == [] then ""
    else if |parts| == 1 then parts[0]
    else parts[0] + "-" + Join(parts[1..])
  }

  /** Upper-case letters and digits, at least one. */
  predicate IsPart(s: string)
  {
    s != "" && forall i :: 0 <= i < |s| ==> 'A' <= s[i] <= 'Z' || '0' <= s[i] <= '9'
  }

  predicate AreParts(parts: seq<string>)
  {
    parts != [] && forall i :: 0 <= i < |parts| ==> IsPart(parts[i])
  }

  /** A character in front of the first part is in front of the text. */
  lemma JoinFront(c: char, parts: seq<string>)
    requires AreParts(parts) && ('A' <= c <= 'Z' || '0' <= c <= '9')
    ensures var longer := [[c] + parts[0]] + parts[1..];
            AreParts(longer) && Join(longer) == [c] + Join(parts)
  {
    FrontPart(c, parts);
    FrontText(c, parts);
  }

  lemma FrontPart(c: char, parts: seq<string>)
    requires AreParts(parts) && ('A' <= c <= 'Z' || '0' <= c <= '9')
    ensures AreParts([[c] + parts[0]] + parts[1..])
  {
    var longer := [[c] + parts[0]] + parts[1..];
    assert IsPart(parts[0]) && IsPart(longer[0]);
    forall i | 1 <= i < |longer|
      ensures IsPart(longer[i])
    {
      assert longer[i] == parts[i];
    }
  }

  lemma FrontText(c: char, parts: seq<string>)
    requires parts != []
    ensures Join([[c] + parts[0]] + parts[1..]) == [c] + Join(parts)
  {
    var longer := [[c] + parts[0]] + parts[1..];
    assert longer[1..] == parts[1..];
  }

  /** A new part in front. */
  lemma JoinPart(part: string, parts: seq<string>)
    requires AreParts(parts) && IsPart(part)
    ensures AreParts([part] + parts) && Join([part] + parts) == part + "-" + Join(parts)
  {
    assert ([part] + parts)[1..] == parts;
  }

  lemma {:induction false} SlugHasParts(s: string) returns (parts: seq<string>)
    requires IsSlug(s)
    ensures AreParts(parts) && Join(parts) == s
    decreases |s|
  {
    if |s| == 1 {
      parts := [s];
    } else if s[1] == '-' {
      var rest := SlugHasParts(s[1..][1..]);
      assert IsPart(s[..1]) && s == s[..1] + "-" + s[1..][1..];
      JoinPart(s[..1], rest);
      parts := [s[..1]] + rest;
    } else {
      var rest := SlugHasParts(s[1..]);
      JoinFront(s[0], rest);
      parts := [[s[0]] + rest[0]] + rest[1..];
    }
  }

  lemma {:induction false} PartsAreSlug(parts: seq<string>)
    requires AreParts(parts)
    ensures IsSlug(Join(parts))
    decreases |parts|, |parts[0]|
  {
    var first, rest := parts[0], parts[1..];
    assert IsPart(first) && parts == [first] + rest;
    if |first| == 1 {
      if rest != [] {
        assert AreParts(rest);
        PartsAreSlug(rest);
        var text := Join(parts);
        assert text[1..][1..] == Join(rest) && text[1] == '-';
      }
    } else {
      var shorter := [first[1..]] + rest;
      assert IsPart(first[1..]) && shorter[1..] == rest && first == [first[0]] + first[1..];
      assert AreParts(shorter) by {
        assert forall i :: 1 <= i < |shorter| ==> shorter[i] == parts[i];
      }
      PartsAreSlug(shorter);
      JoinFront(first[0], shorter);
      assert Join(parts) == [first[0]] + Join(shorter);
      assert Join(parts)[1..] == Join(shorter);
    }
  }

  /** A requirement identifier is the prefix of its level and one or more parts
      joined by single hyphens. */
  lemma IdentifierExactly(level: Level, id: string)
    ensures IdMatches(level, id) <==> exists parts :: AreParts(parts) && id == Prefix(level) + Join(parts)
  {
    if IdMatches(level, id) {
      var parts := SlugHasParts(id[|Prefix(level)|..]);
      assert id == Prefix(level) + Join(parts);
    }
    if parts :| AreParts(parts) && id == Prefix(level) + Join(parts) {
      PartsAreSlug(parts);
      assert id[|Prefix(level)|..] == Join(parts);
    }
  }

  predicate AreDigits(s: string)
  {
    s != "" && forall c :: c in s ==> c in "0123456789"
  }

  /** A task identifier is "T-" and one or more digits. */
  lemma TaskIdentifierExactly(id: string)
    ensures IsTaskId(id) <==> exists digits :: AreDigits(digits) && id == "T-" + digits
  {
    if IsTaskId(id) {
      assert id == "T-" + id[2..];
    }
    if digits :| AreDigits(digits) && id == "T-" + digits {
      forall i | 2 <= i < |id|
        ensures '0' <= id[i] <= '9'
      {
        assert id[i] == digits[i - 2] && digits[i - 2] in digits;
      }
    }
  }

  /** A commit is forty hexadecimal digits of either case. */
  lemma CommitExactly(s: string)
    ensures ValidCommit(s) <==> |s| == 40 && forall c :: c in s ==> c in "0123456789abcdefABCDEF"
  {
    if forall c :: c in s ==> c in "0123456789abcdefABCDEF" {
      forall i | 0 <= i < |s|
        ensures IsHex(s[i])
      {
        assert s[i] in s;
      }
    }
  }

  /* ----- whole inputs ----- */

  /** What a requirement must look like, level by level. */
  lemma RequirementInputExactly(input: RequirementInput)
    ensures ValidRequirement(input) <==>
            && (exists parts :: AreParts(parts) && input.id == Prefix(input.level) + Join(parts))
            && input.revision >= 1
            && (forall p :: p in input.parents ==> p.revision >= 1)
            && (forall d :: d in input.dependsOn ==> d.revision >= 1 && d.id != input.id)
            && match input.level
               case Business => input.parents == []
               case Stakeholder => input.parents != [] && forall p :: p in input.parents ==> "BR-" <= p.id
               case System => input.parents != [] && forall p :: p in input.parents ==> "STR-" <= p.id
  {
    IdentifierExactly(input.level, input.id);
    if input.level == Business && input.parents != [] {
      assert input.parents[0] in input.parents;
    }
  }

  /** What a task must look like. */
  lemma TaskInputExactly(input: TaskInput)
    ensures ValidTask(input) <==>
            && (exists digits :: AreDigits(digits) && input.id == "T-" + digits)
            && input.requirements != [] && (forall l :: l in input.requirements ==> l.ref.revision >= 1)
            && input.id !in input.dependsOn
  {
    TaskIdentifierExactly(input.id);
  }

  /** What a review must not look like. */
  lemma ReviewInputExactly(input: ReviewInput)
    ensures !ValidReview(input) <==>
            || |input.commit| != 40 || (exists c :: c in input.commit && c !in "0123456789abcdefABCDEF")
            || (input.verdict == Reject && input.findings == [])
            || exists f :: f in input.findings && (Blank(f.message) || f.line < 0 || (Blank(f.path) && f.line != 0))
  {
    CommitExactly(input.commit);
  }
}
