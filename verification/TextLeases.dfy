/** The lease protocol of one task under the test that the store really makes,
    which compares stored times as text: when a finished task stays finished. */
module TextLeases {
  import opened Domain
  import opened Tables
  import opened Text
  import opened Timestamps

  datatype Row = Row(fence: nat, expires: Instant)

  /** The columns of one task, its lease row, and the time. */
  datatype World = World(state: TaskState, fence: nat, lease: Option<Row>, now: Instant)
  {
    predicate Valid()
    {
      now.Valid() && (lease.Some? ==> lease.value.expires.Valid())
    }

    /** There is a row whose text lies above that of the current time. */
    predicate Running()
    {
      lease.Some? && !StoredExpired(lease.value.expires, now)
    }

    predicate Holds(f: nat)
    {
      lease.Some? && lease.value.fence == f
    }
  }

  /** Requests, the removal of expired rows, and the passing of time. */
  datatype Move =
    | Claim(expires: Instant)
    | Beat(held: nat, next: Instant)
    | GiveBack(held: nat)
    | Finish(held: nat)
    | Close
    | Sweep
    | Wait(until: Instant)

  /** A refused request changes nothing. The guards of a claim that concern other
      tables can only refuse it. */
  function Next(w: World, m: Move): World
  {
    match m
    case Claim(expires) =>
      if w.state == TaskOpen && !w.Running() && expires.Valid()
      then w.(fence := w.fence + 1, lease := Some(Row(w.fence + 1, expires))) else w
    case Beat(held, next) =>
      if w.Holds(held) && w.Running() && next.Valid() then w.(lease := Some(Row(held, next))) else w
    case GiveBack(held) => if w.Holds(held) then w.(lease := None) else w
    case Finish(held) => if w.Holds(held) && w.Running() then w.(state := Complete, lease := None) else w
    case Close => if w.state == TaskOpen && !w.Running() then w.(state := Closed) else w
    case Sweep => if w.lease.Some? && !w.Running() then w.(lease := None) else w
    case Wait(until) => if until.Valid() && !Before(until, w.now) then w.(now := until) else w
  }

  function After(w: World, moves: seq<Move>): World
    decreases |moves|
  {
    if moves == [] then w else After(Next(w, moves[0]), moves[1..])
  }

  /** A close that leaves no row behind, or one that is expired for good. */
  predicate CloseIsFinal(w: World)
  {
    w.lease.Some? ==> FinallyExpired(w.lease.value.expires, w.now)
  }

  /** Complete without a lease, or closed with none that can ever run. */
  ghost predicate Settled(w: World)
  {
    && w.Valid()
    && (w.state == Complete ==> w.lease == None)
    && (w.state == Closed && w.lease.Some? ==> NeverRunsAgain(w.lease.value.expires, w.now))
  }

  lemma SettledDoesNotRun(w: World)
    requires Settled(w) && w.state != TaskOpen
    ensures !w.Running()
  {
    NotBeforeItself(w.now);
  }

  lemma WaitKeepsSettled(w: World, until: Instant)
    requires Settled(w)
    ensures Settled(Next(w, Wait(until)))
  {
    if until.Valid() && !Before(until, w.now) && w.state == Closed && w.lease.Some? {
      forall later: Instant | later.Valid() && !Before(later, until)
        ensures StoredExpired(w.lease.value.expires, later)
      {
        LaterThanLater(w.now, until, later);
      }
    }
  }

  lemma CloseSettles(w: World)
    requires Settled(w) && (w.state == TaskOpen && !w.Running() ==> CloseIsFinal(w))
    ensures Settled(Next(w, Close))
  {
    if w.state == TaskOpen && !w.Running() && w.lease.Some? {
      ExpiryIsFinalExactly(w.lease.value.expires, w.now);
    }
  }

  /** Every close in the run that takes effect is final. */
  predicate ClosesAreFinal(w: World, moves: seq<Move>)
    decreases |moves|
  {
    moves == [] ||
    (&& (moves[0].Close? && w.state == TaskOpen && !w.Running() ==> CloseIsFinal(w))
     && ClosesAreFinal(Next(w, moves[0]), moves[1..]))
  }

  lemma NextKeepsSettled(w: World, m: Move)
    requires Settled(w) && (m.Close? && w.state == TaskOpen && !w.Running() ==> CloseIsFinal(w))
    ensures Settled(Next(w, m))
    ensures w.state != TaskOpen ==> Next(w, m).state == w.state
  {
    if w.state != TaskOpen {
      SettledDoesNotRun(w);
    }
    match m
    case Close => CloseSettles(w);
    case Wait(until) => WaitKeepsSettled(w, until);
    case _ =>
  }

  /** In a run whose closes are all final, a task that is complete or closed
      stays what it is. */
  lemma {:induction false} FinishedStaysFinished(w: World, moves: seq<Move>)
    requires Settled(w) && ClosesAreFinal(w, moves)
    ensures Settled(After(w, moves)) && (w.state != TaskOpen ==> After(w, moves).state == w.state)
    decreases |moves|
  {
    if moves != [] {
      NextKeepsSettled(w, moves[0]);
      FinishedStaysFinished(Next(w, moves[0]), moves[1..]);
    }
  }

  /** A completed task stays completed whatever happens. */
  lemma {:induction false} CompleteStaysComplete(w: World, moves: seq<Move>)
    requires w.state == Complete && w.lease == None
    ensures After(w, moves).state == Complete
    decreases |moves|
  {
    if moves != [] {
      CompleteStaysComplete(Next(w, moves[0]), moves[1..]);
    }
  }

  lemma {:induction false} NoCloseIsDue(w: World, moves: seq<Move>)
    requires Settled(w) && w.state != TaskOpen
    ensures ClosesAreFinal(w, moves)
    decreases |moves|
  {
    if moves != [] {
      NextKeepsSettled(w, moves[0]);
      NoCloseIsDue(Next(w, moves[0]), moves[1..]);
    }
  }

  /** A close is the end of an open task, in every continuation, exactly if it
      leaves no lease row behind or one that is expired for good. Otherwise the
      holder of that row can still complete the closed task. */
  lemma ClosedStaysClosedExactly(w: World)
    requires w.Valid() && w.state == TaskOpen && !w.Running()
    ensures Next(w, Close).state == Closed
    ensures (forall moves :: After(Next(w, Close), moves).state == Closed) <==> CloseIsFinal(w)
  {
    var c := Next(w, Close);
    if CloseIsFinal(w) {
      CloseSettles(w);
      forall moves
        ensures After(c, moves).state == Closed
      {
        NoCloseIsDue(c, moves);
        FinishedStaysFinished(c, moves);
      }
    } else {
      var now := RunsAgain(w.lease.value.expires, w.now);
      Revived(c, now);
    }
  }

  lemma Revived(c: World, now: Instant)
    requires c.lease.Some? && now.Valid() && !Before(now, c.now) && !StoredExpired(c.lease.value.expires, now)
    ensures After(c, [Wait(now), Finish(c.lease.value.fence)]).state == Complete
  {
    var moves := [Wait(now), Finish(c.lease.value.fence)];
    assert moves[1..] == [Finish(c.lease.value.fence)];
    assert moves[1..][1..] == [];
    var w := Next(c, Wait(now));
    assert After(c, moves) == After(w, moves[1..]);
    assert After(w, moves[1..]) == After(Next(w, moves[1..][0]), []);
  }

  /* ----- what the text order cannot spoil ----- */

  /** The row, if any, carries the current fence. */
  predicate RowIsCurrent(w: World)
  {
    w.lease.Some? ==> w.lease.value.fence == w.fence
  }

  lemma {:induction false} FencesGrow(w: World, moves: seq<Move>)
    requires RowIsCurrent(w)
    ensures RowIsCurrent(After(w, moves)) && w.fence <= After(w, moves).fence
    decreases |moves|
  {
    if moves != [] {
      FencesGrow(Next(w, moves[0]), moves[1..]);
    }
  }

  /** Once a larger fence was issued, the older one never holds again, whatever
      the test says at whatever time. */
  lemma OlderFenceNeverHolds(w: World, moves: seq<Move>, f: nat)
    requires RowIsCurrent(w) && f < w.fence
    ensures !After(w, moves).Holds(f)
  {
    FencesGrow(w, moves);
  }

  /* ----- a run that shows it ----- */

  const MORNING := Instant(2024, 1, 1, 11, 59, 30, 0)

  lemma MorningIsBeforeNoon()
    ensures Before(MORNING, NOON) && !Before(NOON, MORNING)
  {
    SixFields(MORNING.Fields(), NOON.Fields());
    SixFields(NOON.Fields(), MORNING.Fields());
  }

  /** Claimed at a until b, closed at b, completed at c. */
  function ClaimedAndClosed(a: Instant, b: Instant): World
  {
    Next(Next(Next(World(TaskOpen, 0, None, a), Claim(b)), Wait(b)), Close)
  }

  lemma CompletedAfterClose(a: Instant, b: Instant, c: Instant)
    requires b.Valid() && c.Valid() && !Before(b, a) && !Before(c, b)
    requires StoredExpired(b, b) && !StoredExpired(b, c)
    ensures ClaimedAndClosed(a, b).state == Closed
    ensures Next(Next(ClaimedAndClosed(a, b), Wait(c)), Finish(1)).state == Complete
  {
  }

  /** The lease runs out at noon, the task is closed at noon, and half a second
      later the former holder completes it. */
  lemma ClosedIsCompleted()
    ensures ClaimedAndClosed(MORNING, NOON).state == Closed
    ensures Next(Next(ClaimedAndClosed(MORNING, NOON), Wait(HALF_A_SECOND_LATER)), Finish(1)).state == Complete
  {
    MorningIsBeforeNoon();
    Irreflexive(Format(NOON));
    ExpiredLeaseCountsAsRunning();
    NotAfter(NOON, HALF_A_SECOND_LATER);
    CompletedAfterClose(MORNING, NOON, HALF_A_SECOND_LATER);
  }
}
