/** The meaning of the store's recursive queries, by reachability. */
module Queries {
  import opened Domain
  import opened Graph
  import opened Tables

  /** The active requirements that the downstream query selects for root. */
  ghost function Downstream(db: Db, root: string): set<string>
  {
    set b | b in db.requirements && db.requirements[b].lifecycle == Active && Reaches(Edges(db), root, b)
  }

  /** c is one of the leaves that the roll-up query selects for ref. */
  ghost predicate LeafBelow(db: Db, ref: Ref, c: Ref)
  {
    Reaches(ChildEdges(db), ref, c) && Children(db, c) == {}
  }

  function RowState(db: Db, c: Ref): Option<Recon>
  {
    if c.id in db.requirements then db.requirements[c.id].state else None
  }

  ghost predicate SomeLeaf(db: Db, ref: Ref, state: Recon)
  {
    exists c :: LeafBelow(db, ref, c) && RowState(db, c) == Some(state)
  }

  /** The roll-up over the leaves. A leaf with a NULL state counts for none of
      the three states. */
  ghost function RollUp(db: Db, ref: Ref): Recon
  {
    if SomeLeaf(db, ref, NotSatisfied) then NotSatisfied
    else if SomeLeaf(db, ref, PendingReview) then PendingReview
    else Satisfied
  }

  /** The reconciliation state that reading a requirement reports. */
  ghost function Effective(db: Db, id: string): Recon
    requires id in db.requirements
  {
    var ref := CurrentRef(db, id);
    if Children(db, ref) == {} then StoredState(db.requirements[id].state) else RollUp(db, ref)
  }

  /** A dependency that does not hold up work. */
  ghost predicate Met(db: Db, d: Ref)
  {
    ActiveCurrent(db, d) && Effective(db, d.id) == Satisfied
  }

  ghost predicate DependsOn(db: Db, r: Ref, d: Ref)
  {
    Reaches(DependencyEdges(db), r, d)
  }

  ghost predicate RequirementBlocked(db: Db, r: Ref)
  {
    exists d :: DependsOn(db, r, d) && !Met(db, d)
  }

  ghost predicate TaskBlocked(db: Db, task: string)
  {
    exists l :: l in db.taskLinks && l.task == task && RequirementBlocked(db, l.ref)
  }

  predicate LinksRetired(db: Db, task: string)
  {
    exists l :: l in db.taskLinks && l.task == task &&
      l.ref.id in db.requirements && db.requirements[l.ref.id].lifecycle == Retired
  }

  predicate LinksNonLeaf(db: Db, task: string)
  {
    exists l :: l in db.taskLinks && l.task == task && !Actionable(db, l.ref)
  }

  predicate HasIncompleteDependency(db: Db, task: string)
  {
    exists d :: d in db.taskDependencies && d.task == task &&
      d.dependency in db.tasks && db.tasks[d.dependency].state != Complete
  }

  predicate HasActiveLease(db: Db, task: string)
  {
    task in db.leases && db.leases[task].expires > db.clock
  }

  /** e is the smallest expiry in the lease table, or None for an empty one. */
  ghost predicate IsEarliestExpiry(leases: map<string, Lease>, e: Option<int>)
  {
    match e
    case None => leases == map[]
    case Some(m) =>
      && (exists t :: t in leases && leases[t].expires == m)
      && forall t :: t in leases ==> m <= leases[t].expires
  }
}
