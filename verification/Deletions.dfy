/** Local deletion: the rows that a repair after it has to run over. */
module Deletions {
  import opened BlockedTables
  import opened Affected
  import opened RepairState

  /** AffectedByDeletionInTx: dependers of the deleted rows, waiters on them and over their parents, and their children. */
  function DeletionSeeds(g: Tables, gone: set<Node>): set<Node> {
    (set d | d in g.deps && d.dst in gone && (Hard(d.kind) || d.kind.WaitsFor? || d.kind.ParentChild?) :: d.src)
    + (set w, c | w in g.deps && c in g.deps && w.kind.WaitsFor? && c.kind.ParentChild? && c.src in gone && c.dst == w.dst
                  && !c.dst.External? :: w.src)
    - gone
  }

  /** A target id names one row, of one table, or one thing outside. */
  predicate OneTable(g: Tables) {
    forall d, e | d in g.deps && e in g.deps && d.dst.id == e.dst.id :: d.dst == e.dst
  }

  /** The rows go, and with them their own edges; edges onto them may go or stay behind. */
  ghost predicate Deletes(x: Store, gone: set<Node>, y: Store) {
    && y.g.status == x.g.status - gone && y.g.deps <= x.g.deps
    && (forall d | d in x.g.deps && d !in y.g.deps :: d.src in gone || d.dst in gone)
    && (forall d | d in y.g.deps :: d.src !in gone)
  }

  /** `b` holds the seeds and, apart from what is deleted, the children of its members. */
  ghost predicate HoldsDeletion(g: Tables, gone: set<Node>, b: set<Node>) {
    && DeletionSeeds(g, gone) <= b
    && forall d | d in g.deps && d.kind.ParentChild? && d.dst in b :: d.src in b + gone
  }

  lemma DeletionClosed(x: Store, gone: set<Node>, y: Store, b: set<Node>)
    requires Deletes(x, gone, y) && HoldsDeletion(x.g, gone, b)
    ensures ClosedUnderChildren(y.g, b + gone)
  {
    forall d | d in y.g.deps && d.kind.ParentChild? && d.dst in b + gone ensures d.src in b + gone {
      if d.dst in gone {
        assert d.src in DeletionSeeds(x.g, gone) + gone;
      }
    }
  }

  lemma DeletedStatus(x: Store, gone: set<Node>, y: Store, b: set<Node>, n: Node)
    requires Deletes(x, gone, y) && HoldsDeletion(x.g, gone, b) && StatusOf(x.g, n) != StatusOf(y.g, n)
    ensures n in gone && StatusSeeds(y.g, n) <= b + gone
  {
    forall d | d in y.g.deps && d.dst == n && Hard(d.kind) ensures d.src in b + gone {
      assert d.src in DeletionSeeds(x.g, gone) + gone;
    }
    assert ParentsOf(y.g, n) == {};
    assert WaitersOverParentsOf(y.g, n) == {};
  }

  lemma DeletedEdge(x: Store, gone: set<Node>, y: Store, b: set<Node>, d: Dep)
    requires x.g.Valid() && OneTable(x.g) && Deletes(x, gone, y) && HoldsDeletion(x.g, gone, b)
    requires d in x.g.deps && d !in y.g.deps
    ensures EdgeSeeds(y.g, d.src, d.dst.id, d.kind) <= b + gone
  {
    var seeds := DeletionSeeds(x.g, gone);
    if AffectsReadyWork(d.kind) {
      assert d.src in seeds + gone;
    }
    if d.kind.ParentChild? {
      forall w | w in y.g.deps && w.kind.WaitsFor? && (w.dst == Issue(d.dst.id) || w.dst == Wisp(d.dst.id))
        ensures w.src in b + gone
      {
        assert w.dst == d.dst;
        assert w.src in seeds + gone;
      }
    }
  }

  /** The affected rows of a deletion, with the deleted rows, cover everything that it changes. */
  lemma DeletionCovered(x: Store, gone: set<Node>, y: Store, b: set<Node>)
    requires x.Valid() && y.Valid() && OneTable(x.g) && Deletes(x, gone, y) && HoldsDeletion(x.g, gone, b)
    requires forall n | n in y.col && n !in b :: y.col[n] == x.col[n]
    ensures CoversChange(x, y, b + gone)
  {
    hide StatusSeeds, EdgeSeeds, DeletionSeeds, OneTable;
    DeletionClosed(x, gone, y, b);
    forall n | StatusOf(x.g, n) != StatusOf(y.g, n) ensures StatusSeeds(y.g, n) <= b + gone {
      DeletedStatus(x, gone, y, b, n);
    }
    forall d | (d in x.g.deps) != (d in y.g.deps) ensures EdgeSeeds(y.g, d.src, d.dst.id, d.kind) <= b + gone {
      DeletedEdge(x, gone, y, b, d);
    }
  }

  /** So a deletion that is followed by the repair of those rows is a step that repairs what it affects. */
  lemma DeletionIsLocal(x: Store, gone: set<Node>, y: Store, b: set<Node>)
    requires x.Valid() && y.Valid() && OneTable(x.g) && Deletes(x, gone, y) && HoldsDeletion(x.g, gone, b)
    requires (forall n | n in y.col && n !in b :: y.col[n] == x.col[n]) && Stale(y.g, y.col) !! b
    ensures LocalStep(x, y)
  {
    hide HoldsDeletion, OneTable, CoversChange, IsStale;
    DeletionCovered(x, gone, y, b);
    assert Stale(y.g, y.col) !! b + gone;
  }
}
