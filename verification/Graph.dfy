/** Finite directed graphs given as a set of edges, the form in which every
    recursive query of the store sees the requirement and task tables. */
module Graph {

  /** A walk of n + 1 edges leads from a to b. */
  ghost predicate Steps<T(!new)>(edges: set<(T, T)>, n: nat, a: T, b: T)
  {
    if n == 0 then (a, b) in edges
    else exists m :: (a, m) in edges && Steps(edges, n - 1, m, b)
  }

  /** b can be reached from a over at least one edge. */
  ghost predicate Reaches<T(!new)>(edges: set<(T, T)>, a: T, b: T)
  {
    exists n: nat :: Steps(edges, n, a, b)
  }

  /** What a recursive query with the given seed rows selects. */
  ghost predicate Selected<T(!new)>(edges: set<(T, T)>, seeds: set<T>, b: T)
  {
    b in seeds || exists s :: s in seeds && Reaches(edges, s, b)
  }

  function Successors<T(==)>(edges: set<(T, T)>, a: T): set<T>
  {
    set e | e in edges && e.0 == a :: e.1
  }

  lemma SuccessorsAre<T(!new)>(edges: set<(T, T)>, a: T)
    ensures forall b :: b in Successors(edges, a) <==> (a, b) in edges
  {
  }

  lemma EdgeReaches<T(!new)>(edges: set<(T, T)>, a: T, b: T)
    requires (a, b) in edges
    ensures Reaches(edges, a, b)
  {
    assert Steps(edges, 0, a, b);
  }

  lemma Prepend<T(!new)>(edges: set<(T, T)>, a: T, m: T, b: T)
    requires (a, m) in edges && Reaches(edges, m, b)
    ensures Reaches(edges, a, b)
  {
    var n: nat :| Steps(edges, n, m, b);
    assert Steps(edges, n + 1, a, b);
  }

  /** A walk either is one edge or starts with one. */
  lemma FirstEdge<T(!new)>(edges: set<(T, T)>, a: T, b: T) returns (m: T)
    requires Reaches(edges, a, b)
    ensures (a, m) in edges && (m == b || Reaches(edges, m, b))
  {
    var n: nat :| Steps(edges, n, a, b);
    if n == 0 {
      m := b;
    } else {
      m :| (a, m) in edges && Steps(edges, n - 1, m, b);
    }
  }

  /** A walk ends with an edge. */
  lemma {:induction false} LastEdge<T(!new)>(edges: set<(T, T)>, n: nat, a: T, b: T) returns (m: T)
    requires Steps(edges, n, a, b)
    ensures (m, b) in edges
  {
    if n == 0 {
      m := a;
    } else {
      var k :| (a, k) in edges && Steps(edges, n - 1, k, b);
      m := LastEdge(edges, n - 1, k, b);
    }
  }

  lemma {:induction false} StepsThenReach<T(!new)>(edges: set<(T, T)>, n: nat, a: T, m: T, b: T)
    requires Steps(edges, n, a, m) && Reaches(edges, m, b)
    ensures Reaches(edges, a, b)
  {
    if n == 0 {
      Prepend(edges, a, m, b);
    } else {
      var k :| (a, k) in edges && Steps(edges, n - 1, k, m);
      StepsThenReach(edges, n - 1, k, m, b);
      Prepend(edges, a, k, b);
    }
  }

  lemma Transitive<T(!new)>(edges: set<(T, T)>, a: T, m: T, b: T)
    requires Reaches(edges, a, m) && Reaches(edges, m, b)
    ensures Reaches(edges, a, b)
  {
    var n: nat :| Steps(edges, n, a, m);
    StepsThenReach(edges, n, a, m, b);
  }

  lemma {:induction false} StepsStayInside<T(!new)>(edges: set<(T, T)>, n: nat, a: T, b: T, inside: set<T>)
    requires Steps(edges, n, a, b)
    requires a in inside && forall e :: e in edges && e.0 in inside ==> e.1 in inside
    ensures b in inside
  {
    if n == 0 {
      assert (a, b).0 in inside;
    } else {
      var m :| (a, m) in edges && Steps(edges, n - 1, m, b);
      assert (a, m).0 in inside && (a, m).1 == m;
      StepsStayInside(edges, n - 1, m, b, inside);
    }
  }

  /** Seeding with the successors of a selects exactly what a reaches. */
  lemma SuccessorsSelect<T(!new)>(edges: set<(T, T)>, a: T, b: T)
    ensures Selected(edges, Successors(edges, a), b) <==> Reaches(edges, a, b)
  {
    SuccessorsAre(edges, a);
    if Reaches(edges, a, b) {
      var m := FirstEdge(edges, a, b);
      assert m in Successors(edges, a);
    }
    if Selected(edges, Successors(edges, a), b) {
      if b in Successors(edges, a) {
        EdgeReaches(edges, a, b);
      } else {
        var s :| s in Successors(edges, a) && Reaches(edges, s, b);
        Prepend(edges, a, s, b);
      }
    }
  }

  /** The two graphs have the same edges, apart from those that enter x. */
  ghost predicate AgreeExceptInto<T(!new)>(before: set<(T, T)>, after: set<(T, T)>, x: T)
  {
    forall a, b :: b != x ==> ((a, b) in before <==> (a, b) in after)
  }

  lemma {:induction false} StepsSurvive<T(!new)>(before: set<(T, T)>, after: set<(T, T)>, x: T, n: nat, a: T, b: T)
    requires AgreeExceptInto(before, after, x)
    requires b != x && Steps(after, n, a, b)
    ensures Reaches(before, a, b) || Reaches(before, x, b)
  {
    if n == 0 {
      EdgeReaches(before, a, b);
    } else {
      var m :| (a, m) in after && Steps(after, n - 1, m, b);
      StepsSurvive(before, after, x, n - 1, m, b);
      if m != x && Reaches(before, m, b) {
        Prepend(before, a, m, b);
      }
    }
  }

  /** Whatever reaches b after the edges into x are rewritten already reached
      it before, unless b lies below x. */
  lemma ReachSurvives<T(!new)>(before: set<(T, T)>, after: set<(T, T)>, x: T, a: T, b: T)
    requires AgreeExceptInto(before, after, x)
    requires b != x && Reaches(after, a, b)
    ensures Reaches(before, a, b) || Reaches(before, x, b)
  {
    var n: nat :| Steps(after, n, a, b);
    StepsSurvive(before, after, x, n, a, b);
  }

  /** Rewriting the edges into x does not change what x reaches, x aside. */
  lemma ReachFromSame<T(!new)>(before: set<(T, T)>, after: set<(T, T)>, x: T, b: T)
    requires AgreeExceptInto(before, after, x) && b != x
    ensures Reaches(before, x, b) <==> Reaches(after, x, b)
  {
    if Reaches(after, x, b) {
      ReachSurvives(before, after, x, x, b);
    }
    if Reaches(before, x, b) {
      ReachSurvives(after, before, x, x, b);
    }
  }

  /** The two graphs have the same edges, apart from those that leave x. */
  ghost predicate AgreeExceptFrom<T(!new)>(before: set<(T, T)>, after: set<(T, T)>, x: T)
  {
    forall a, b :: a != x ==> ((a, b) in before <==> (a, b) in after)
  }

  /** A walk survives a change of the edges out of x, or it leads through x. */
  lemma {:induction false} StepsSurviveOrPass<T(!new)>(before: set<(T, T)>, after: set<(T, T)>, x: T, n: nat, a: T,
      b: T)
    requires AgreeExceptFrom(before, after, x) && a != x && Steps(after, n, a, b)
    ensures Reaches(before, a, b) || (Reaches(after, a, x) && Reaches(after, x, b))
    ensures b == x ==> Reaches(before, a, b)
  {
    if n == 0 {
      EdgeReaches(before, a, b);
    } else {
      var m :| (a, m) in after && Steps(after, n - 1, m, b);
      if m == x {
        EdgeReaches(before, a, x);
        EdgeReaches(after, a, x);
      } else {
        StepsSurviveOrPass(before, after, x, n - 1, m, b);
        if Reaches(before, m, b) {
          Prepend(before, a, m, b);
        } else {
          Prepend(after, a, m, x);
        }
      }
    }
  }

  /** What reaches x does not depend on the edges that leave x. */
  lemma ReachIntoSame<T(!new)>(before: set<(T, T)>, after: set<(T, T)>, x: T, a: T)
    requires AgreeExceptFrom(before, after, x) && a != x
    ensures Reaches(before, a, x) <==> Reaches(after, a, x)
  {
    if Reaches(after, a, x) {
      var n: nat :| Steps(after, n, a, x);
      StepsSurviveOrPass(before, after, x, n, a, x);
    }
    if Reaches(before, a, x) {
      var n: nat :| Steps(before, n, a, x);
      StepsSurviveOrPass(after, before, x, n, a, x);
    }
  }

  /** A cycle that is new after a change of the edges out of x leads through x. */
  lemma NewCyclePasses<T(!new)>(before: set<(T, T)>, after: set<(T, T)>, x: T, b: T)
    requires AgreeExceptFrom(before, after, x) && Reaches(after, b, b) && !Reaches(before, b, b)
    ensures Reaches(after, x, x)
  {
    if b != x {
      var n: nat :| Steps(after, n, b, b);
      StepsSurviveOrPass(before, after, x, n, b, b);
      Transitive(after, x, b, x);
    }
  }

  lemma {:induction false} StepsDescend<T(!new)>(edges: set<(T, T)>, rank: map<T, int>, n: nat, a: T, b: T)
    requires forall e :: e in edges ==> e.0 in rank && e.1 in rank && rank[e.1] < rank[e.0]
    requires Steps(edges, n, a, b)
    ensures a in rank && b in rank && rank[b] < rank[a]
  {
    if n == 0 {
      assert (a, b).0 in rank && rank[(a, b).1] < rank[(a, b).0];
    } else {
      var m :| (a, m) in edges && Steps(edges, n - 1, m, b);
      assert (a, m).0 in rank && rank[(a, m).1] < rank[(a, m).0];
      StepsDescend(edges, rank, n - 1, m, b);
    }
  }

  /** A graph whose edges all lead to a smaller rank has no cycle. */
  lemma RankedIsAcyclic<T(!new)>(edges: set<(T, T)>, rank: map<T, int>, a: T)
    requires forall e :: e in edges ==> e.0 in rank && e.1 in rank && rank[e.1] < rank[e.0]
    ensures !Reaches(edges, a, a)
  {
    if Reaches(edges, a, a) {
      var n: nat :| Steps(edges, n, a, a);
      StepsDescend(edges, rank, n, a, a);
    }
  }

  /** The search a recursive common table expression performs: take an
      unexpanded row, add its unseen successors, until none is left. */
  method Search<T(!new, ==)>(edges: set<(T, T)>, seeds: set<T>) returns (found: set<T>)
    ensures forall b :: b in found <==> Selected(edges, seeds, b)
  {
    found := seeds;
    var frontier := seeds;
    ghost var targets := set e | e in edges :: e.1;
    while frontier != {}
      invariant frontier <= found && seeds <= found
      invariant forall b :: b in found ==> Selected(edges, seeds, b)
      invariant forall e :: e in edges && e.0 in found - frontier ==> e.1 in found
      decreases targets - found, frontier
    {
      var a :| a in frontier;
      var unseen := Successors(edges, a) - found;
      SuccessorsAre(edges, a);
      forall b | b in unseen
        ensures Selected(edges, seeds, b)
      {
        ExtendSelected(edges, seeds, a, b);
      }
      assert unseen <= targets by {
        forall b | b in unseen
          ensures b in targets
        {
          assert (a, b) in edges && (a, b).1 == b;
        }
      }
      forall e | e in edges && e.0 == a
        ensures e.1 in found + unseen
      {
        assert (e.0, e.1) == e;
      }
      ghost var remaining := targets - found;
      if unseen != {} {
        var b :| b in unseen;
        assert b in remaining && b !in targets - (found + unseen);
      }
      found := found + unseen;
      frontier := frontier - {a} + unseen;
      assert targets - found <= remaining;
    }
    forall b | Selected(edges, seeds, b)
      ensures b in found
    {
      if b !in seeds {
        var s :| s in seeds && Reaches(edges, s, b);
        var n: nat :| Steps(edges, n, s, b);
        StepsStayInside(edges, n, s, b, found);
      }
    }
  }

  lemma ExtendSelected<T(!new)>(edges: set<(T, T)>, seeds: set<T>, a: T, b: T)
    requires Selected(edges, seeds, a) && (a, b) in edges
    ensures Selected(edges, seeds, b)
  {
    EdgeReaches(edges, a, b);
    if a !in seeds {
      var s :| s in seeds && Reaches(edges, s, a);
      Transitive(edges, s, a, b);
    }
  }
}
