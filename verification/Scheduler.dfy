/** The lease-expiry scheduler as interleaved steps: its loop, the one-slot wake
    channel, and the requests that commit first and push their token later. */
module Scheduler {
  import opened Domain
  import opened Tables
  import opened Queries
  import opened Transactions
  import opened ServiceObject

  datatype Place =
    | Reading                                        // about to read the next expiry
    | Blocked(armed: Option<int>, readOk: bool)      // in select, with a timer or none
    | Expiring                                       // the timer fired
    | Stopped

  /** `committed` counts the requests between their commit and their wake;
      `silent` tells whether a completion has committed without a wake to come
      since the last read of the lease table. */
  datatype World = World(db: Db, slot: bool, committed: nat, place: Place, silent: bool)

  datatype Action =
    | Request(op: Op, readable: bool)
    | Wake
    | Read(ok: bool)
    | Fire
    | Expire(ok: bool)
    | TakeToken
    | Stop

  /** The server starts on whatever database it finds. */
  predicate Start(w: World)
  {
    !w.slot && w.committed == 0 && w.place == Reading && !w.silent
  }

  ghost predicate Next(w: World, a: Action, v: World)
  {
    match a
    case Request(op, readable) =>
      && !op.OpExpireLeases?
      && v == w.(db := Step(w.db, op),
                 committed := if Wakes(w.db, op, readable) then w.committed + 1 else w.committed,
                 silent := w.silent || (WakesScheduler(op) && Perform(w.db, op).Commit? && !Wakes(w.db, op, readable)))
    case Wake => w.committed > 0 && v == w.(slot := true, committed := w.committed - 1)
    case Read(ok) =>
      && w.place == Reading && v.place.Blocked? && v == w.(place := v.place, silent := false) && v.place.readOk == ok
      && (if ok then IsEarliestExpiry(w.db.leases, v.place.armed) else v.place.armed == None)
    case Fire =>
      && w.place.Blocked? && w.place.armed.Some? && w.place.armed.value <= w.db.clock
      && v == w.(place := Expiring)
    case Expire(ok) =>
      && w.place == Expiring
      && v == w.(place := Reading, db := if ok then Step(w.db, OpExpireLeases) else w.db)
    case TakeToken => w.place.Blocked? && w.slot && v == w.(slot := false, place := Reading)
    case Stop => w.place.Blocked? && v == w.(place := Stopped)
  }

  ghost predicate Behaviour(worlds: seq<World>, actions: seq<Action>)
  {
    && |worlds| == |actions| + 1 && Start(worlds[0])
    && forall i :: 0 <= i < |actions| ==> Next(worlds[i], actions[i], worlds[i + 1])
  }

  /** Nothing is on its way to wake the scheduler. */
  predicate Quiet(w: World)
  {
    !w.slot && w.committed == 0
  }

  /** The timer goes off no later than the first expiry. */
  predicate NotLate(armed: Option<int>, leases: map<string, Lease>)
  {
    forall t :: t in leases ==> armed.Some? && armed.value <= leases[t].expires
  }

  ghost predicate ArmedAsRead(w: World)
    requires w.place.Blocked?
  {
    if !w.place.readOk then w.place.armed == None
    else NotLate(w.place.armed, w.db.leases) && (!w.silent ==> IsEarliestExpiry(w.db.leases, w.place.armed))
  }

  ghost predicate Inv(w: World)
  {
    w.place.Blocked? ==> (Quiet(w) ==> ArmedAsRead(w)) && (!w.place.readOk ==> w.place.armed == None)
  }

  lemma RequestKeepsInv(w: World, op: Op, readable: bool, v: World)
    requires Inv(w) && Next(w, Request(op, readable), v)
    ensures Inv(v)
  {
    if !WakesScheduler(op) {
      OnlyWakersChangeLeases(w.db, op);
    } else if !Wakes(w.db, op, readable) {
      SilentOnlyRemoves(w.db, op, readable);
    }
  }

  lemma NextKeepsInv(w: World, a: Action, v: World)
    requires Inv(w) && Next(w, a, v)
    ensures Inv(v)
  {
    if a.Request? {
      RequestKeepsInv(w, a.op, a.readable, v);
    }
  }

  lemma {:induction false} BehaviourKeepsInv(worlds: seq<World>, actions: seq<Action>, i: nat)
    requires Behaviour(worlds, actions) && i < |worlds|
    ensures Inv(worlds[i])
  {
    if i > 0 {
      BehaviourKeepsInv(worlds, actions, i - 1);
      NextKeepsInv(worlds[i - 1], actions[i - 1], worlds[i]);
    }
  }

  /** No lost wake-up: in any interleaving, when the scheduler is blocked, no
      token is waiting and no request is between its commit and its wake, the
      armed timer is the earliest expiry in the lease table (none for an empty
      one), exactly if the last read succeeded or the table is empty. This is
      so unless a completion could not read its task after the commit. */
  lemma NoLostWakeup(worlds: seq<World>, actions: seq<Action>, i: nat)
    requires Behaviour(worlds, actions) && i < |worlds|
    requires worlds[i].place.Blocked? && Quiet(worlds[i]) && !worlds[i].silent
    ensures IsEarliestExpiry(worlds[i].db.leases, worlds[i].place.armed) <==>
            worlds[i].place.readOk || worlds[i].db.leases == map[]
  {
    BehaviourKeepsInv(worlds, actions, i);
  }

  /** Even then the timer is never late, exactly if the last read of the lease
      table succeeded or the table is empty. */
  lemma TimerIsNeverLate(worlds: seq<World>, actions: seq<Action>, i: nat)
    requires Behaviour(worlds, actions) && i < |worlds|
    requires worlds[i].place.Blocked? && Quiet(worlds[i])
    ensures NotLate(worlds[i].place.armed, worlds[i].db.leases) <==>
            worlds[i].place.readOk || worlds[i].db.leases == map[]
  {
    BehaviourKeepsInv(worlds, actions, i);
    var w := worlds[i];
    if w.db.leases != map[] {
      var t :| t in w.db.leases;
    }
  }

  predicate SomeExpired(db: Db)
  {
    exists t :: t in db.leases && db.leases[t].expires <= db.clock
  }

  /** Neither the scheduler nor a wake under way can take a step. */
  ghost predicate Asleep(w: World)
  {
    && w.place.Blocked?
    && forall v :: !Next(w, Fire, v) && !Next(w, TakeToken, v) && !Next(w, Wake, v)
  }

  /** The scheduler sleeps over an expired lease exactly when nothing is on its
      way to wake it and its last read of the lease table failed. */
  lemma SleepsOverExpiryExactly(worlds: seq<World>, actions: seq<Action>, i: nat)
    requires Behaviour(worlds, actions) && i < |worlds|
    requires worlds[i].place.Blocked? && SomeExpired(worlds[i].db)
    ensures Asleep(worlds[i]) <==> Quiet(worlds[i]) && !worlds[i].place.readOk
  {
    BehaviourKeepsInv(worlds, actions, i);
    var w := worlds[i];
    if w.slot {
      assert Next(w, TakeToken, w.(slot := false, place := Reading));
    } else if w.committed > 0 {
      assert Next(w, Wake, w.(slot := true, committed := w.committed - 1));
    } else if w.place.readOk {
      assert Next(w, Fire, w.(place := Expiring));
    }
  }

  /** A read that fails while a lease is stored does put it to sleep. */
  lemma FailedReadSleeps(w: World)
    requires Start(w) && SomeExpired(w.db)
    ensures var v := w.(place := Blocked(None, false), silent := false);
            Behaviour([w, v], [Read(false)]) && Asleep(v) && SomeExpired(v.db)
  {
  }

  /** Once a timer has fired, one successful expiry removes every lease that
      has run out and no other, and the scheduler reads again. */
  lemma ExpiryRemovesExactly(w: World, v: World)
    requires Next(w, Expire(true), v)
    ensures v.place == Reading && !SomeExpired(v.db) && v.db.clock == w.db.clock
    ensures forall t :: t in v.db.leases <==> t in w.db.leases && w.db.leases[t].expires > w.db.clock
    ensures forall t :: t in v.db.leases ==> v.db.leases[t] == w.db.leases[t]
  {
  }

  /** From every state in which it is not stopped or asleep, wake-ups and
      successful scheduler steps alone lead to a table without expired leases. */
  lemma CanAlwaysExpire(w: World) returns (worlds: seq<World>, actions: seq<Action>)
    requires Inv(w) && w.place != Stopped
    requires w.place.Blocked? ==> w.place.readOk || !Quiet(w)
    ensures |worlds| == |actions| + 1 && worlds[0] == w && !SomeExpired(worlds[|actions|].db)
    ensures forall k :: 0 <= k < |actions| ==>
              && actions[k] in {Wake, Read(true), Fire, Expire(true), TakeToken}
              && Next(worlds[k], actions[k], worlds[k + 1])
    decreases if w.place == Expiring then 0 else 1,
              2 * w.committed + (if w.slot then 1 else 0),
              if w.place == Reading then 1 else 0
  {
    worlds, actions := [w], [];
    if SomeExpired(w.db) {
      var v, a := w, Fire;
      if w.place == Expiring {
        v, a := w.(place := Reading, db := Step(w.db, OpExpireLeases)), Expire(true);
        ExpiryRemovesExactly(w, v);
        worlds, actions := [w, v], [a];
        return;
      } else if w.place == Reading {
        var e := EarliestExists(w.db.leases);
        v, a := w.(place := Blocked(e, true), silent := false), Read(true);
      } else if w.slot {
        v, a := w.(slot := false, place := Reading), TakeToken;
      } else if w.committed > 0 {
        v, a := w.(slot := true, committed := w.committed - 1), Wake;
      } else {
        v, a := w.(place := Expiring), Fire;
      }
      NextKeepsInv(w, a, v);
      var rest, more := CanAlwaysExpire(v);
      worlds, actions := [w] + rest, [a] + more;
      forall k | 0 <= k < |actions|
        ensures actions[k] in {Wake, Read(true), Fire, Expire(true), TakeToken}
                && Next(worlds[k], actions[k], worlds[k + 1])
      {
        if k > 0 {
          assert worlds[k] == rest[k - 1] && actions[k] == more[k - 1] && worlds[k + 1] == rest[k];
        }
      }
    }
  }

  lemma {:induction false} EarliestExists(leases: map<string, Lease>) returns (e: Option<int>)
    ensures IsEarliestExpiry(leases, e)
    decreases |leases|
  {
    if leases == map[] {
      e := None;
    } else {
      var t :| t in leases;
      var rest := leases - {t};
      var r := EarliestExists(rest);
      if r == None || leases[t].expires < r.value {
        e := Some(leases[t].expires);
      } else {
        e := r;
      }
      forall u | u in leases
        ensures e.value <= leases[u].expires
      {
        if u != t {
          assert u in rest;
        }
      }
    }
  }
}
