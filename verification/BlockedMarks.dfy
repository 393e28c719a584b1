/**
Adding an edge that can only block: the source is marked directly, its
descendants are marked, and nothing is unmarked.
*/
module BlockedMarks {
  import opened BlockedTables
  import opened BlockedColumn
  import opened Affected
  import opened BlockedMerge

  function WithEdge(g: Tables, d: Dep): Tables {
    g.(deps := g.deps + {d})
  }

  /** The rows that the mark loop runs over: a hard edge's source has been marked on its own. */
  function MarkScope(d: Dep, b: set<Node>): set<Node> {
    if Hard(d.kind) then b - {d.src} else b
  }

  /** What the mark-only path leaves in the column. */
  ghost predicate MarkedAlone(g: Tables, x: Column, d: Dep, y: Column, b: set<Node>) {
    && Raised(WithEdge(g, d), x, y, b)
    && Unmarked(WithEdge(g, d), y, MarkScope(d, b)) == {}
    && (Hard(d.kind) && d.src in x && d.src in y ==> y[d.src] == (x[d.src] || (IsActive(g, d.src) && IsActive(g, d.dst))))
  }

  /** An edge that is no parent link leaves the reasons of the other rows as they were. */
  lemma OtherRowsReasons(g: Tables, d: Dep, col: Column, r: Node)
    requires !d.kind.ParentChild? && r != d.src
    ensures ShouldBeBlocked(WithEdge(g, d), col, r) == ShouldBeBlocked(g, col, r)
  {
    assert forall w :: GateBlocks(WithEdge(g, d), w) == GateBlocks(g, w);
    hide GateBlocks;
  }

  /** The source's reasons are the old ones and the edge itself. */
  lemma SourceReasons(g: Tables, d: Dep, col: Column)
    requires !d.kind.ParentChild?
    ensures ShouldBeBlocked(g, col, d.src) ==> ShouldBeBlocked(WithEdge(g, d), col, d.src)
    ensures ShouldBeBlocked(WithEdge(g, d), col, d.src) && !ShouldBeBlocked(g, col, d.src) ==>
              (Hard(d.kind) && IsActive(g, d.src) && IsActive(g, d.dst)) || d.kind.WaitsFor?
  {
    assert forall w :: GateBlocks(WithEdge(g, d), w) == GateBlocks(g, w);
    hide GateBlocks;
  }

  /** If no affected row is stale, nothing is marked unless the source is. */
  lemma {:induction false} MarkedFromSource(g: Tables, rank: map<Node, nat>, x: Column, d: Dep, y: Column, b: set<Node>, r: Node)
    requires Ranks(g, rank) && ColumnOf(g, x) && Stale(g, x) !! b && !d.kind.ParentChild?
    requires Raised(WithEdge(g, d), x, y, b) && (d.src in x ==> x[d.src] == y[d.src])
    requires r in x
    ensures x[r] == y[r]
    decreases rank[r]
  {
    hide ShouldBeBlocked;
    if r != d.src {
      forall e | e in g.deps && e.src == r && e.kind.ParentChild? && e.dst in x ensures x[e.dst] == y[e.dst] {
        MarkedFromSource(g, rank, x, d, y, b, e.dst);
      }
      OtherRowsReasons(g, d, y, r);
      ShouldBeBlockedLocal(g, x, y, r);
      assert r in Stale(g, x) <==> x[r] != ShouldBeBlocked(g, x, r);
    }
  }

  lemma EdgeCovered(g: Tables, x: Column, d: Dep, y: Column, b: set<Node>)
    requires !d.kind.ParentChild? && Raised(WithEdge(g, d), x, y, b)
    requires IsClosure(WithEdge(g, d), EdgeSeeds(WithEdge(g, d), d.src, d.dst.id, d.kind), b)
    ensures CoversChange(Store(g, x), Store(WithEdge(g, d), y), b)
  {
    hide ShouldBeBlocked, StatusSeeds, EdgeSeeds;
  }

  /** A row of `b` that is stale after the marks was stale before, or is the source. */
  lemma LeftWasStale(g: Tables, x: Column, d: Dep, y: Column, b: set<Node>, r: Node)
    requires !d.kind.ParentChild? && ColumnOf(g, x) && MarkedAlone(g, x, d, y, b)
    requires r in b && r in Stale(WithEdge(g, d), y)
    ensures r in Stale(g, x) || (r == d.src && Hard(d.kind) && !y[r])
    ensures y[r] ==> x[r]
  {
    hide ShouldBeBlocked;
    assert r in MarkScope(d, b) ==> r !in Unmarked(WithEdge(g, d), y, MarkScope(d, b));
    if y[r] {
      assert x[r];
      if ShouldBeBlocked(g, x, r) {
        ReasonsStay(g, x, y, r);
        if r == d.src {
          SourceReasons(g, d, y);
        } else {
          OtherRowsReasons(g, d, y, r);
        }
      }
    }
  }

  /** If no affected row is stale before the write, none is after it: marking alone is enough, from any column. */
  lemma MarkingMends(g: Tables, rank: map<Node, nat>, x: Column, d: Dep, y: Column, b: set<Node>)
    requires Ranks(g, rank) && ColumnOf(g, x) && !d.kind.ParentChild? && MarkedAlone(g, x, d, y, b)
    requires Stale(g, x) !! b
    ensures Stale(WithEdge(g, d), y) !! b
  {
    hide ShouldBeBlocked;
    forall r | r in b && r in Stale(WithEdge(g, d), y) ensures false {
      LeftWasStale(g, x, d, y, b, r);
      SourceIsMended(g, rank, x, d, y, b);
    }
  }

  lemma SourceIsMended(g: Tables, rank: map<Node, nat>, x: Column, d: Dep, y: Column, b: set<Node>)
    requires Ranks(g, rank) && ColumnOf(g, x) && !d.kind.ParentChild? && MarkedAlone(g, x, d, y, b)
    requires Stale(g, x) !! b && Hard(d.kind) && d.src in b && d.src in y && !y[d.src]
    ensures d.src !in Stale(WithEdge(g, d), y)
  {
    hide ShouldBeBlocked;
    forall q | q in x ensures x[q] == y[q] {
      MarkedFromSource(g, rank, x, d, y, b, q);
    }
    ShouldBeBlockedLocal(g, x, y, d.src);
    SourceReasons(g, d, y);
    assert d.src !in Stale(g, x);
  }

  /** In particular it restores a consistent column. */
  lemma MarkingIsEnough(g: Tables, rank: map<Node, nat>, x: Column, d: Dep, y: Column, b: set<Node>)
    requires g.Valid() && WithEdge(g, d).Valid() && Ranks(g, rank) && !d.kind.ParentChild? && Consistent(g, x)
    requires IsClosure(WithEdge(g, d), EdgeSeeds(WithEdge(g, d), d.src, d.dst.id, d.kind), b)
    requires MarkedAlone(g, x, d, y, b)
    ensures Consistent(WithEdge(g, d), y)
  {
    hide ShouldBeBlocked, IsClosure, EdgeSeeds;
    EdgeCovered(g, x, d, y, b);
    assert Stale(g, x) == {};
    MarkingMends(g, rank, x, d, y, b);
    LocalStepKeepsConsistency(Store(g, x), Store(WithEdge(g, d), y), b);
  }

  // ----- the column after the marks, from the column before -----

  /** Row `r` after the direct mark and the mark loop. */
  ghost predicate Marks(g: Tables, rank: map<Node, nat>, x: Column, d: Dep, b: set<Node>, r: Node)
    requires Ranks(g, rank) && ColumnOf(g, x) && r in x
    decreases rank[r]
  {
    || x[r]
    || (r in b && if r == d.src && Hard(d.kind) then IsActive(g, d.src) && IsActive(g, d.dst)
                  else
                    && IsActive(g, r)
                    && (|| DirectlyBlocked(WithEdge(g, d), r)
                        || exists e | e in g.deps ::
                             e.src == r && e.kind.ParentChild? && e.dst in x && Marks(g, rank, x, d, b, e.dst)))
  }

  ghost function MarksColumn(g: Tables, rank: map<Node, nat>, x: Column, d: Dep, b: set<Node>): (y: Column)
    requires Ranks(g, rank) && ColumnOf(g, x)
    ensures y.Keys == x.Keys
  {
    map r | r in x :: Marks(g, rank, x, d, b, r)
  }

  lemma {:induction false} MarksAt(g: Tables, rank: map<Node, nat>, x: Column, d: Dep, y: Column, b: set<Node>, r: Node)
    requires Ranks(g, rank) && ColumnOf(g, x) && !d.kind.ParentChild? && MarkedAlone(g, x, d, y, b) && r in x
    ensures y[r] == Marks(g, rank, x, d, b, r)
    decreases rank[r]
  {
    hide DirectlyBlocked;
    forall e | e in g.deps && e.src == r && e.kind.ParentChild? && e.dst in x
      ensures y[e.dst] == Marks(g, rank, x, d, b, e.dst)
    {
      MarksAt(g, rank, x, d, y, b, e.dst);
    }
    if r in b && !(r == d.src && Hard(d.kind)) {
      assert r in MarkScope(d, b);
      assert r !in Unmarked(WithEdge(g, d), y, MarkScope(d, b));
    }
  }

  /** The write determines the column, and the affected rows and the column before determine the write. */
  lemma MarksDetermined(g: Tables, rank: map<Node, nat>, x: Column, d: Dep, y: Column, b: set<Node>)
    requires Ranks(g, rank) && ColumnOf(g, x) && !d.kind.ParentChild? && MarkedAlone(g, x, d, y, b)
    ensures y == MarksColumn(g, rank, x, d, b)
  {
    hide Marks, MarkedAlone;
    SameRows(g, x, d, y, b);
    forall r | r in x ensures y[r] == Marks(g, rank, x, d, b, r) {
      MarksAt(g, rank, x, d, y, b, r);
    }
  }

  lemma SameRows(g: Tables, x: Column, d: Dep, y: Column, b: set<Node>)
    requires MarkedAlone(g, x, d, y, b)
    ensures y.Keys == x.Keys
  {
  }

  // ----- a mark-only write while a repair is owed -----

  ghost function MarkedStore(x: Store, rank: map<Node, nat>, d: Dep, b: set<Node>): Store
    requires Ranks(x.g, rank) && ColumnOf(x.g, x.col)
  {
    Store(WithEdge(x.g, d), MarksColumn(x.g, rank, x.col, d, b))
  }

  /** The affected rows that the marks do not mend. */
  ghost function Unmended(y: Store, b: set<Node>): set<Node> {
    Stale(y.g, y.col) * b
  }

  ghost predicate IsAffected(x: Store, d: Dep, b: set<Node>) {
    IsClosure(WithEdge(x.g, d), EdgeSeeds(WithEdge(x.g, d), d.src, d.dst.id, d.kind), b)
  }

  /**
  Read off the store before the write: the diff from `base` that the write would
  leave reaches the affected rows that its marks would not mend.
  */
  ghost predicate UnmendedReached(base: Snapshot, x: Store, d: Dep) {
    forall rank, b, c | Ranks(x.g, rank) && ColumnOf(x.g, x.col) && IsAffected(x, d, b)
                        && CoversChange(Rebase(base, MarkedStore(x, rank, d, b)), MarkedStore(x, rank, d, b), c) ::
      Unmended(MarkedStore(x, rank, d, b), b) <= c
  }

  /** The same, of the store that the write has left. */
  ghost predicate LeftReached(base: Snapshot, y: Store, b: set<Node>) {
    forall c | CoversChange(Rebase(base, y), y, c) :: Unmended(y, b) <= c
  }

  lemma PredictedIsLeft(base: Snapshot, x: Store, d: Dep, y: Store, b: set<Node>)
    requires x.Valid() && AcyclicParents(x.g) && !d.kind.ParentChild? && IsAffected(x, d, b)
    requires y.g == WithEdge(x.g, d) && MarkedAlone(x.g, x.col, d, y.col, b)
    ensures UnmendedReached(base, x, d) <==> LeftReached(base, y, b)
  {
    hide CoversChange, MarkedAlone, MarksColumn, Rebase, IsStale, EdgeSeeds, IsClosure;
    forall rank, c | Ranks(x.g, rank) && IsAffected(x, d, c) ensures c == b && MarkedStore(x, rank, d, c) == y {
      AffectedUnique(x, d, b, c);
      MarksDetermined(x.g, rank, x.col, d, y.col, b);
    }
    if UnmendedReached(base, x, d) {
      var rank :| Ranks(x.g, rank);
      assert MarkedStore(x, rank, d, b) == y;
    }
  }

  lemma AffectedUnique(x: Store, d: Dep, b: set<Node>, c: set<Node>)
    requires IsAffected(x, d, b) && IsAffected(x, d, c)
    ensures b == c
  {
    hide EdgeSeeds;
    ClosureUnique(WithEdge(x.g, d), EdgeSeeds(WithEdge(x.g, d), d.src, d.dst.id, d.kind), b, c);
  }

  /**
  A mark-only write keeps a wide enough window exactly when the diff still
  reaches the affected rows that stay stale: the others cannot get lost.
  */
  lemma MarksKeepWindowIff(base: Snapshot, x: Store, d: Dep, y: Store, b: set<Node>)
    requires x.Valid() && y.Valid() && ValidSnapshot(base) && WindowCoversStale(base, x) && CoversChange(x, y, b)
    ensures WindowCoversStale(base, y) <==> LeftReached(base, y, b)
  {
    hide CoversChange, Rebase, IsStale;
    if LeftReached(base, y, b) {
      forall c | CoversChange(Rebase(base, y), y, c) ensures Stale(y.g, y.col) <= c {
        CoversBoth(base, x, y, c, b);
        forall r | r in Stale(y.g, y.col) && r !in b ensures r in c {
          Untouched(x, y, b, r);
          SameFlag(x, y, b, r);
          assert r in Stale(x.g, x.col);
        }
      }
    }
  }

  /** A mark-only write that takes nothing back to what it was at the window's start keeps the window. */
  lemma MarksWithoutReverts(base: Snapshot, x: Store, rank: map<Node, nat>, d: Dep, y: Store, b: set<Node>)
    requires x.Valid() && y.Valid() && ValidSnapshot(base) && WindowCoversStale(base, x) && NoRevert(base, x, y)
    requires Ranks(x.g, rank) && !d.kind.ParentChild? && d !in x.g.deps && !d.src.External? && IsAffected(x, d, b)
    requires y.g == WithEdge(x.g, d) && MarkedAlone(x.g, x.col, d, y.col, b)
    ensures WindowCoversStale(base, y)
  {
    hide CoversChange, Rebase, IsStale, MarkedAlone, IsClosure, EdgeSeeds, NoRevert;
    MarkedIsRaised(x.g, x.col, d, y.col, b);
    EdgeCovered(x.g, x.col, d, y.col, b);
    forall c | CoversChange(Rebase(base, y), y, c) ensures Stale(y.g, y.col) <= c {
      CoverIsClosed(Rebase(base, y), y, c);
      StaleBeforeReached(base, x, d, y, c);
      forall r | r in Stale(y.g, y.col) ensures r in c {
        if r !in b {
          Untouched(x, y, b, r);
          SameFlag(x, y, b, r);
          assert r in Stale(x.g, x.col);
        } else {
          LeftWasStale(x.g, x.col, d, y.col, b, r);
          if r !in Stale(x.g, x.col) {
            SourceReached(x, rank, d, y, b, c);
          }
        }
      }
    }
  }

  lemma MarkedIsRaised(g: Tables, x: Column, d: Dep, y: Column, b: set<Node>)
    requires MarkedAlone(g, x, d, y, b)
    ensures Raised(WithEdge(g, d), x, y, b)
  {
  }

  /** What covers the diff after the write covers the diff before it, so it holds what was stale before. */
  lemma StaleBeforeReached(base: Snapshot, x: Store, d: Dep, y: Store, c: set<Node>)
    requires x.Valid() && y.Valid() && ValidSnapshot(base) && WindowCoversStale(base, x) && NoRevert(base, x, y)
    requires !d.kind.ParentChild? && d !in x.g.deps && !d.src.External? && y.g == WithEdge(x.g, d) && x.col.Keys == y.col.Keys
    requires CoversChange(Rebase(base, y), y, c)
    ensures Stale(x.g, x.col) <= c
  {
    hide IsStale, StatusSeeds, EdgeSeeds, NoRevert;
    FewerSeeds(x.g, d);
    forall n ensures StatusOf(Rebase(base, x).g, n) != StatusOf(x.g, n) ==> StatusOf(Rebase(base, y).g, n) != StatusOf(y.g, n) {
    }
    forall e ensures (e in Rebase(base, x).g.deps) != (e in x.g.deps) ==> (e in Rebase(base, y).g.deps) != (e in y.g.deps) {
      EdgeNotReverted(base, x, d, y, e);
    }
    forall n ensures FlagOf(Rebase(base, x).col, n) != FlagOf(x.col, n) ==> FlagOf(Rebase(base, y).col, n) != FlagOf(y.col, n) {
      FlagNotReverted(base, x, y, n);
    }
    hide Rebase;
    assert CoversChange(Rebase(base, x), x, c);
  }

  lemma FewerSeeds(g: Tables, d: Dep)
    ensures forall n :: StatusSeeds(g, n) <= StatusSeeds(WithEdge(g, d), n)
    ensures forall e: Dep :: EdgeSeeds(g, e.src, e.dst.id, e.kind) <= EdgeSeeds(WithEdge(g, d), e.src, e.dst.id, e.kind)
  {
  }

  lemma EdgeNotReverted(base: Snapshot, x: Store, d: Dep, y: Store, e: Dep)
    requires ValidSnapshot(base) && NoRevert(base, x, y) && d !in x.g.deps && y.g == WithEdge(x.g, d)
    ensures (e in Rebase(base, x).g.deps) != (e in x.g.deps) ==> (e in Rebase(base, y).g.deps) != (e in y.g.deps)
  {
  }

  lemma FlagNotReverted(base: Snapshot, x: Store, y: Store, n: Node)
    requires ValidSnapshot(base) && NoRevert(base, x, y) && x.col.Keys == y.col.Keys
    ensures FlagOf(Rebase(base, x).col, n) != FlagOf(x.col, n) ==> FlagOf(Rebase(base, y).col, n) != FlagOf(y.col, n)
  {
  }

  /** A row that has just been marked, or keeps its value, lies in `c` if the rows stale before do: by induction on the rank. */
  lemma {:induction false} RaisedReached(g: Tables, rank: map<Node, nat>, x: Column, d: Dep, y: Column, b: set<Node>,
                                         c: set<Node>, q: Node)
    requires Ranks(g, rank) && ColumnOf(g, x) && !d.kind.ParentChild? && Raised(WithEdge(g, d), x, y, b)
    requires Stale(g, x) <= c && ClosedUnderChildren(WithEdge(g, d), c) && (d.src in x ==> x[d.src] == y[d.src])
    requires q in x && x[q] != y[q]
    ensures q in c
    decreases rank[q]
  {
    hide ShouldBeBlocked;
    if q !in Stale(g, x) {
      OtherRowsReasons(g, d, x, q);
      RaisedParent(g, rank, x, d, y, b, c, q);
    }
  }

  /** A row with a reason after the marks that it did not have before has a parent that was marked. */
  lemma {:induction false} RaisedParent(g: Tables, rank: map<Node, nat>, x: Column, d: Dep, y: Column, b: set<Node>,
                                        c: set<Node>, q: Node)
    requires Ranks(g, rank) && ColumnOf(g, x) && !d.kind.ParentChild? && Raised(WithEdge(g, d), x, y, b)
    requires Stale(g, x) <= c && ClosedUnderChildren(WithEdge(g, d), c) && (d.src in x ==> x[d.src] == y[d.src])
    requires q in x && ShouldBeBlocked(WithEdge(g, d), y, q) && !ShouldBeBlocked(WithEdge(g, d), x, q)
    ensures q in c
    decreases rank[q], 0
  {
    hide ShouldBeBlocked;
    if forall e | e in g.deps && e.src == q && e.kind.ParentChild? && e.dst in x :: x[e.dst] == y[e.dst] {
      ShouldBeBlockedLocal(WithEdge(g, d), x, y, q);
    } else {
      var e :| e in g.deps && e.src == q && e.kind.ParentChild? && e.dst in x && x[e.dst] != y[e.dst];
      RaisedReached(g, rank, x, d, y, b, c, e.dst);
      assert e in WithEdge(g, d).deps;
    }
  }

  lemma SourceReached(x: Store, rank: map<Node, nat>, d: Dep, y: Store, b: set<Node>, c: set<Node>)
    requires Ranks(x.g, rank) && x.Valid() && !d.kind.ParentChild?
    requires y.g == WithEdge(x.g, d) && MarkedAlone(x.g, x.col, d, y.col, b)
    requires Stale(x.g, x.col) <= c && ClosedUnderChildren(y.g, c)
    requires Hard(d.kind) && d.src in b && d.src in Stale(y.g, y.col) && d.src !in Stale(x.g, x.col) && !y.col[d.src]
    ensures d.src in c
  {
    hide ShouldBeBlocked;
    SourceReasons(x.g, d, x.col);
    RaisedParent(x.g, rank, x.col, d, y.col, b, c, d.src);
  }

  lemma CoverIsClosed(x: Store, y: Store, c: set<Node>)
    requires CoversChange(x, y, c)
    ensures ClosedUnderChildren(y.g, c)
  {
  }
}
