/** What a client that lists by reconciliation state gets to see. */
module StateFilters {
  import opened Domain
  import opened Tables
  import opened Queries
  import opened Listing
  import opened RollUps
  import Text

  /** The listing of everything that reads as the given state, as FetchAll
      returns it without a level. */
  ghost predicate ListsState(db: Db, items: seq<string>, state: Recon)
  {
    Ascending(items) && forall id :: id in items <==> id in db.requirements && Effective(db, id) == state
  }

  /** A requirement with active children is listed as satisfied exactly if every
      leaf below it is stored as satisfied or has no state, whatever its own
      column holds. */
  lemma DerivedIsListed(db: Db, items: seq<string>, id: string)
    requires ListsState(db, items, Satisfied)
    requires id in db.requirements && Children(db, CurrentRef(db, id)) != {}
    ensures id in items <==>
            forall leaf :: LeafBelow(db, CurrentRef(db, id), leaf) ==> RowState(db, leaf) in {None, Some(Satisfied)}
  {
    SatisfiedRollUp(db, CurrentRef(db, id));
  }

  /** A leaf is listed under the state of its column, where NULL counts as
      pending review. */
  lemma LeafIsListed(db: Db, items: seq<string>, state: Recon, id: string)
    requires ListsState(db, items, state)
    requires id in db.requirements && Children(db, CurrentRef(db, id)) == {}
    ensures id in items <==>
            db.requirements[id].state == Some(state) || (state == PendingReview && db.requirements[id].state == None)
  {
  }

  lemma {:induction false} AscendingCounts(s: seq<string>)
    requires Ascending(s)
    ensures forall x :: multiset(s)[x] == if x in s then 1 else 0
  {
    if s != [] {
      var head, last := s[..|s| - 1], s[|s| - 1];
      assert s == head + [last];
      AscendingCounts(head);
      assert last !in head by {
        Text.Irreflexive(last);
      }
    }
  }

  /** The three listings together hold every requirement exactly once. */
  lemma StatesPartition(db: Db, pending: seq<string>, satisfied: seq<string>, notSatisfied: seq<string>)
    requires ListsState(db, pending, PendingReview) && ListsState(db, satisfied, Satisfied)
             && ListsState(db, notSatisfied, NotSatisfied)
    ensures multiset(pending) + multiset(satisfied) + multiset(notSatisfied) == multiset(db.requirements.Keys)
  {
    AscendingCounts(pending);
    AscendingCounts(satisfied);
    AscendingCounts(notSatisfied);
    var all := multiset(pending) + multiset(satisfied) + multiset(notSatisfied);
    forall x: string
      ensures all[x] == multiset(db.requirements.Keys)[x]
    {
      if x in db.requirements {
        assert x in (if Effective(db, x) == PendingReview then pending
                     else if Effective(db, x) == Satisfied then satisfied else notSatisfied);
      }
    }
  }
}
