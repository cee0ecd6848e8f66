/** Pages of identifiers in ascending order. */
module Listing {
  import opened Text

  predicate Ascending(s: seq<string>)
  {
    forall i, j :: 0 <= i < j < |s| ==> Less(s[i], s[j])
  }

  /** All members of a set, in ascending order and each once. */
  predicate IsListing(s: seq<string>, members: set<string>)
  {
    Ascending(s) && (forall i :: 0 <= i < |s| ==> s[i] in members) && (forall m :: m in members ==> m in s)
  }

  function Above(members: set<string>, cursor: string): set<string>
  {
    set m | m in members && Less(cursor, m)
  }

  /** A page over the members: the smallest ones, at most `limit`, with the last
      one as the next cursor exactly when members are left. */
  predicate IsPage(items: seq<string>, next: string, members: set<string>, limit: int)
  {
    && Ascending(items) && |items| <= limit && (forall i :: 0 <= i < |items| ==> items[i] in members)
    && (next == "" ==> forall m :: m in members ==> m in items)
    && (next != "" ==> |items| == limit > 0 && next == items[limit - 1]
                       && (exists m :: m in members && m !in items)
                       && forall m :: m in members && m !in items ==> Less(next, m))
  }

  lemma AscendingAppend(s: seq<string>, x: string)
    requires Ascending(s) && (s != [] ==> Less(s[|s| - 1], x))
    ensures Ascending(s + [x])
  {
    forall i, j | 0 <= i < j < |s| + 1
      ensures Less((s + [x])[i], (s + [x])[j])
    {
      if j == |s| && i < |s| - 1 {
        LessTransitive(s[i], s[|s| - 1], x);
      }
    }
  }

  lemma AscendingConcat(s: seq<string>, t: seq<string>)
    requires Ascending(s) && Ascending(t)
    requires forall i, j :: 0 <= i < |s| && 0 <= j < |t| ==> Less(s[i], t[j])
    ensures Ascending(s + t)
  {
  }

  /** There is only one listing of a set. */
  lemma {:induction false} ListingIsUnique(s: seq<string>, t: seq<string>, members: set<string>)
    requires IsListing(s, members) && IsListing(t, members)
    ensures s == t
    decreases |s|
  {
    if s != [] {
      assert s[0] in members && s[0] in t;
      HeadsAgree(s, t, members);
      var rest := members - {s[0]};
      TailLists(s, members);
      TailLists(t, members);
      ListingIsUnique(s[1..], t[1..], rest);
      assert s == [s[0]] + s[1..] && t == [t[0]] + t[1..];
    }
  }

  lemma HeadsAgree(s: seq<string>, t: seq<string>, members: set<string>)
    requires IsListing(s, members) && IsListing(t, members) && s != []
    ensures t != [] && s[0] == t[0]
  {
    assert s[0] in t && t[0] in s;
    var i :| 0 <= i < |t| && t[i] == s[0];
    var j :| 0 <= j < |s| && s[j] == t[0];
    if i > 0 && j > 0 {
      Asymmetric(s[0], t[0]);
    }
  }

  lemma TailLists(s: seq<string>, members: set<string>)
    requires IsListing(s, members) && s != []
    ensures IsListing(s[1..], members - {s[0]})
  {
    forall i | 0 <= i < |s| - 1
      ensures s[1..][i] in members - {s[0]}
    {
      Irreflexive(s[0]);
    }
  }

  /** Up to i, a page with a cursor agrees with the listing. */
  lemma {:induction false} PageAgrees(items: seq<string>, next: string, members: set<string>, limit: int,
      all: seq<string>, i: nat)
    requires IsListing(all, members) && IsPage(items, next, members, limit) && next != "" && i <= |items|
    ensures i <= |all| && items[..i] == all[..i]
  {
    if i > 0 {
      PageAgrees(items, next, members, limit, all, i - 1);
      var x := items[i - 1];
      assert x in members && x in all;
      var j :| 0 <= j < |all| && all[j] == x;
      NotAmongEarlier(items, i - 1, all, j);
      NothingBetween(items, next, members, limit, all, i - 1, j);
      assert items[..i] == items[..i - 1] + [x] && all[..i] == all[..i - 1] + [all[i - 1]];
    }
  }

  lemma NotAmongEarlier(items: seq<string>, k: nat, all: seq<string>, j: nat)
    requires Ascending(items) && k < |items| && j < |all| && all[j] == items[k]
    requires k <= |all| && items[..k] == all[..k]
    ensures k <= j
  {
    if j < k {
      assert items[..k][j] == all[..k][j];
      assert Less(items[j], items[k]);
      Irreflexive(items[k]);
    }
  }

  /** No member that a page leaves out comes before its last item. */
  lemma NothingBetween(items: seq<string>, next: string, members: set<string>, limit: int, all: seq<string>,
      k: nat, j: nat)
    requires IsListing(all, members) && IsPage(items, next, members, limit) && next != ""
    requires k < |items| && k <= j < |all| && all[j] == items[k] && items[..k] == all[..k]
    ensures j == k
  {
    var y := all[k];
    assert y in members && (k < j ==> Less(y, items[k]));
    Irreflexive(y);
    forall m | 0 <= m < k
      ensures items[m] == all[m] && Less(items[m], y)
    {
      assert items[..k][m] == all[..k][m];
    }
    if y in items {
      var m :| 0 <= m < |items| && items[m] == y;
      if k < m && k < j {
        Asymmetric(items[k], y);
      }
    } else if k < j {
      if k < limit - 1 {
        LessTransitive(y, items[k], next);
      }
      Asymmetric(next, y);
    }
  }

  /** A page is the first part of the listing of its members, and its cursor the
      last item of a part that is cut off. */
  lemma PageIsPrefix(items: seq<string>, next: string, members: set<string>, limit: int, all: seq<string>)
    requires IsListing(all, members) && limit >= 1 && "" !in members
    ensures IsPage(items, next, members, limit) <==>
            && items == (if |all| <= limit then all else all[..limit])
            && next == if |all| <= limit then "" else all[limit - 1]
  {
    if IsPage(items, next, members, limit) {
      if next == "" {
        ListingIsUnique(items, all, members);
      } else {
        PageAgrees(items, next, members, limit, all, limit);
        var m :| m in members && m !in items;
        assert m in all && items == all[..limit];
      }
    }
    if |all| > limit {
      CutIsPage(all, members, limit);
    }
  }

  lemma CutIsPage(all: seq<string>, members: set<string>, limit: int)
    requires IsListing(all, members) && 1 <= limit < |all| && "" !in members
    ensures all[limit - 1] != "" && IsPage(all[..limit], all[limit - 1], members, limit)
  {
    var items := all[..limit];
    forall i | 0 <= i < limit
      ensures all[i] in items
    {
      assert items[i] == all[i];
    }
    forall m | m in members && m !in items
      ensures Less(all[limit - 1], m)
    {
      var j :| 0 <= j < |all| && all[j] == m;
    }
    if all[limit] in items {
      Irreflexive(all[limit]);
    }
  }

  /** One more page continues the listing of everything below its cursor. */
  lemma PageContinues(items: seq<string>, cursor: string, page: seq<string>, next: string, members: set<string>,
      limit: int)
    requires IsListing(items, members - Above(members, cursor))
    requires forall i :: 0 <= i < |items| ==> items[i] == cursor || Less(items[i], cursor)
    requires IsPage(page, next, Above(members, cursor), limit)
    ensures IsListing(items + page, if next == "" then members else members - Above(members, next))
    ensures next != "" ==> next in Above(members, cursor) && forall i :: 0 <= i < |items + page| ==>
              (items + page)[i] == next || Less((items + page)[i], next)
  {
    forall i, j | 0 <= i < |items| && 0 <= j < |page|
      ensures Less(items[i], page[j])
    {
      if items[i] != cursor {
        LessTransitive(items[i], cursor, page[j]);
      }
    }
    AscendingConcat(items, page);
    if next != "" {
      assert next == page[limit - 1];
      forall i | 0 <= i < |items + page|
        ensures (items + page)[i] == next || Less((items + page)[i], next)
      {
        assert i >= |items| ==> (items + page)[i] == page[i - |items|];
      }
      forall m | m in members - Above(members, next)
        ensures m in items + page
      {
      }
      forall i | 0 <= i < |items + page|
        ensures (items + page)[i] in members - Above(members, next)
      {
        if Less(next, (items + page)[i]) {
          Irreflexive(next);
          Asymmetric(next, (items + page)[i]);
        }
      }
    }
  }

  lemma AboveShrinks(members: set<string>, cursor: string, next: string)
    requires next in Above(members, cursor)
    ensures Above(members, next) < Above(members, cursor)
  {
    Irreflexive(next);
    forall m | m in Above(members, next)
      ensures m in Above(members, cursor)
    {
      LessTransitive(cursor, next, m);
    }
  }

  /** The members among the first i rows, collected in order. */
  predicate Collected(items: seq<string>, rows: seq<string>, i: nat, all: set<string>)
  {
    && i <= |rows| && Ascending(items)
    && (forall k :: 0 <= k < |items| ==> items[k] in all && items[k] in rows[..i])
    && (forall k :: 0 <= k < i && rows[k] in all ==> rows[k] in items)
  }

  lemma CollectOne(items: seq<string>, rows: seq<string>, i: nat, all: set<string>)
    requires Ascending(rows) && i < |rows| && Collected(items, rows, i, all)
    ensures Collected(if rows[i] in all then items + [rows[i]] else items, rows, i + 1, all)
  {
  }

  lemma LastPage(items: seq<string>, rows: seq<string>, all: set<string>, limit: int)
    requires Collected(items, rows, |rows|, all) && |items| <= limit && forall m :: m in all ==> m in rows
    ensures IsPage(items, "", all, limit)
  {
  }

  /** Cutting off the one item too many leaves a page with a cursor. */
  lemma FullPage(found: seq<string>, rows: seq<string>, i: nat, all: set<string>, limit: int)
    requires limit >= 1 && |found| == limit + 1 && Ascending(rows) && Collected(found, rows, i, all)
    requires "" !in all && forall m :: m in all ==> m in rows
    ensures found[limit - 1] != "" && IsPage(found[..limit], found[limit - 1], all, limit)
  {
    var items, next := found[..limit], found[limit - 1];
    forall m | m in all && m !in items
      ensures Less(next, m)
    {
      var j :| 0 <= j < |rows| && rows[j] == m;
      if j < i {
        assert m == found[limit];
      } else {
        var k :| 0 <= k < i && rows[k] == next;
        assert Less(rows[k], rows[j]);
      }
    }
    assert found[limit] !in items by {
      Irreflexive(found[limit]);
    }
  }
}
