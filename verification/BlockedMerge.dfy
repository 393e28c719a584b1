/**
The post-merge repair of `is_blocked`: the diff-scoped recompute, its full
fallbacks, and the marker that makes a failed repair recoverable.

Only `issues` and `dependencies` are versioned; the wisp tables are local to a
clone, so a commit says nothing about them.
*/
module BlockedMerge {
  import opened BlockedTables
  import opened Affected

  const MERGE_RECOMPUTE_SEED_CAP: nat := 1000

  /** doltCommitHashRE: 32 base32 characters. */
  predicate IsCommitHash(s: string) {
    |s| == 32 && forall c | c in s :: '0' <= c <= '9' || 'a' <= c <= 'v'
  }

  /** A from-commit is 32 base-32 digits, so it is never empty and never the marker for a full repair. */
  lemma HashShape(h: string)
    ensures IsCommitHash(h) <==> |h| == 32 && forall i | 0 <= i < 32 :: '0' <= h[i] <= '9' || 'a' <= h[i] <= 'v'
    ensures IsCommitHash(h) ==> h != "" && h != "full"
  {
    assert forall i | 0 <= i < |h| :: h[i] in h;
    assert forall c | c in h :: exists i | 0 <= i < |h| :: h[i] == c;
  }

  /** The versioned tables at one commit. */
  datatype Snapshot = Snapshot(status: map<Node, Status>, deps: set<Dep>, blocked: Column)

  function IssueSide(s: Store): Snapshot {
    Snapshot(map n | n in s.g.status && n.Issue? :: s.g.status[n],
             set d | d in s.g.deps && d.src.Issue?,
             map n | n in s.col && n.Issue? :: s.col[n])
  }

  function WispSide(s: Store): Snapshot {
    Snapshot(map n | n in s.g.status && !n.Issue? :: s.g.status[n],
             set d | d in s.g.deps && !d.src.Issue?,
             map n | n in s.col && !n.Issue? :: s.col[n])
  }

  /** The versioned tables of `base` next to the wisp tables of `s`. */
  function Rebase(base: Snapshot, s: Store): Store {
    var w := WispSide(s);
    Store(Tables(base.status + w.status, base.deps + w.deps), base.blocked + w.blocked)
  }

  predicate ValidSnapshot(b: Snapshot) {
    && b.status.Keys == b.blocked.Keys
    && (forall n | n in b.status :: n.Issue?)
    && (forall d | d in b.deps :: d.src.Issue? && d.src.id != "" && d.dst.id != "")
  }

  lemma IssueSideValid(s: Store)
    requires s.Valid()
    ensures ValidSnapshot(IssueSide(s))
  {
  }

  lemma RebaseSame(s: Store)
    ensures Rebase(IssueSide(s), s) == s
  {
    var r := Rebase(IssueSide(s), s);
    assert r.g.status == s.g.status && r.g.deps == s.g.deps && r.col == s.col;
  }

  ghost predicate AcyclicParents(g: Tables) {
    exists rank :: Ranks(g, rank)
  }

  /**
  The diff from `base` to the working set, once expanded, reaches every stale
  row: a scoped repair over that window is enough.
  */
  ghost predicate WindowCoversStale(base: Snapshot, s: Store) {
    forall b | CoversChange(Rebase(base, s), s, b) :: Stale(s.g, s.col) <= b
  }

  // ----- when a window is wide enough -----

  /** Every row that is stale in `r` is among the rows that the differences between `r` and `y` affect. */
  ghost predicate DiffReaches(r: Store, y: Store) {
    forall b | CoversChange(r, y, b) :: Stale(r.g, r.col) <= b
  }

  lemma RebaseValid(base: Snapshot, s: Store)
    requires s.Valid() && ValidSnapshot(base)
    ensures Rebase(base, s).Valid()
  {
  }

  lemma StaleTogether(x: Store, y: Store, b: set<Node>)
    requires x.Valid() && y.Valid() && CoversChange(x, y, b)
    ensures Stale(x.g, x.col) <= b <==> Stale(y.g, y.col) <= b
  {
    forall r | r !in b ensures r in Stale(x.g, x.col) <==> r in Stale(y.g, y.col) {
      Untouched(x, y, b, r);
      SameFlag(x, y, b, r);
    }
  }

  /**
  A window is wide enough exactly when it reaches the rows that are stale in the
  from-commit's versioned rows beside today's wisps.  No pull changes those.
  */
  lemma WindowCoversStaleIff(base: Snapshot, s: Store)
    requires s.Valid() && ValidSnapshot(base)
    ensures WindowCoversStale(base, s) <==> DiffReaches(Rebase(base, s), s)
  {
    hide Rebase, CoversChange, IsStale;
    RebaseValid(base, s);
    forall b | CoversChange(Rebase(base, s), s, b)
      ensures Stale(Rebase(base, s).g, Rebase(base, s).col) <= b <==> Stale(s.g, s.col) <= b
    {
      StaleTogether(Rebase(base, s), s, b);
    }
  }

  /** A scoped retry from `base`, whatever closed set it repairs, is the full repair exactly when the diff reaches far enough. */
  lemma ScopedRetryIsFullIff(base: Snapshot, s: Store, rank: map<Node, nat>)
    requires s.Valid() && ValidSnapshot(base) && Ranks(s.g, rank)
    ensures (forall b | CoversChange(Rebase(base, s), s, b) :: SettledColumn(s.g, rank, b, s.col) == Truth(s.g, rank))
            <==> DiffReaches(Rebase(base, s), s)
  {
    hide Rebase, IsStale, SettledColumn, Truth, Ranks, StatusSeeds, EdgeSeeds;
    WindowCoversStaleIff(base, s);
    forall b | CoversChange(Rebase(base, s), s, b)
      ensures SettledColumn(s.g, rank, b, s.col) == Truth(s.g, rank) <==> Stale(s.g, s.col) <= b
    {
      ClosedRepair(s.g, rank, s.col, b);
    }
  }

  lemma NothingStale(s: Store)
    requires s.Valid()
    ensures Consistent(s.g, s.col) <==> Stale(s.g, s.col) == {}
  {
    hide ShouldBeBlocked;
    if Stale(s.g, s.col) == {} {
      forall r | r in s.col ensures !IsStale(s.g, s.col, r) {
        assert r !in Stale(s.g, s.col);
      }
    }
  }

  /** If nothing is stale in the from-commit's rows beside today's wisps, every pull whatever is reached. */
  lemma AnyPullKeepsWindow(base: Snapshot, x: Store, y: Store)
    requires x.Valid() && y.Valid() && ValidSnapshot(base) && WispSide(x) == WispSide(y)
    requires Consistent(Rebase(base, x).g, Rebase(base, x).col)
    ensures WindowCoversStale(base, y) && DiffReaches(Rebase(base, x), y)
  {
    hide CoversChange, IsStale, WispSide;
    RebaseValid(base, x);
    NothingStale(Rebase(base, x));
    assert Rebase(base, x) == Rebase(base, y);
    WindowCoversStaleIff(base, y);
  }

  /** A pull keeps the window wide enough exactly when its diff from `base` reaches what is stale beside today's wisps. */
  lemma PullKeepsWindowIff(base: Snapshot, x: Store, y: Store)
    requires y.Valid() && ValidSnapshot(base) && WispSide(x) == WispSide(y)
    ensures WindowCoversStale(base, y) <==> DiffReaches(Rebase(base, x), y)
  {
    hide CoversChange, IsStale, WispSide;
    assert Rebase(base, x) == Rebase(base, y);
    WindowCoversStaleIff(base, y);
  }

  // ----- the rows that the scoped repair runs over -----

  function ChangedNodes(base: Snapshot, s: Store): set<Node> {
    set n | n in base.status.Keys + s.g.status.Keys && n.Issue?
            && ((if n in base.status then {base.status[n]} else {}) != StatusOf(s.g, n)
                || FlagOf(base.blocked, n) != FlagOf(s.col, n))
  }

  function ChangedEdges(base: Snapshot, s: Store): set<Dep> {
    (set d | d in base.deps && d !in s.g.deps) + (set d | d in s.g.deps && d.src.Issue? && d !in base.deps)
  }

  /**
  `b` is closed under children and holds the seeds of the whole diff: a row of
  which only the flag differs seeds its dependers as well.
  */
  ghost predicate CoversDiff(base: Snapshot, s: Store, b: set<Node>) {
    && ClosedUnderChildren(s.g, b)
    && (forall n | n in ChangedNodes(base, s) :: StatusSeeds(s.g, n) <= b)
    && forall d | d in ChangedEdges(base, s) :: EdgeSeeds(s.g, d.src, d.dst.id, d.kind) <= b
  }

  /** A set closed under children that holds the seeds of the whole diff covers the window. */
  lemma SeedsCoverWindow(base: Snapshot, s: Store, b: set<Node>)
    requires s.Valid() && ValidSnapshot(base) && CoversDiff(base, s, b)
    ensures CoversChange(Rebase(base, s), s, b)
  {
    var x := Rebase(base, s);
    forall n | StatusOf(x.g, n) != StatusOf(s.g, n) || FlagOf(x.col, n) != FlagOf(s.col, n)
      ensures n in ChangedNodes(base, s) && StatusSeeds(s.g, n) <= b && n in b
    {
      assert n in StatusSeeds(s.g, n);
    }
    forall d | (d in x.g.deps) != (d in s.g.deps)
      ensures d in ChangedEdges(base, s)
    {
    }
    hide StatusSeeds, EdgeSeeds, Rebase;
  }

  /** Every row that is stale in `base` beside today's wisps is among the rows that the scoped repair runs over. */
  ghost predicate SeedsReach(base: Snapshot, s: Store) {
    forall b | CoversDiff(base, s, b) :: Stale(Rebase(base, s).g, Rebase(base, s).col) <= b
  }

  /** Repairing the rows of the diff is the full repair exactly when they hold what was stale beside today's wisps. */
  lemma DiffRepairIsFullIff(base: Snapshot, s: Store, rank: map<Node, nat>, b: set<Node>)
    requires s.Valid() && ValidSnapshot(base) && Ranks(s.g, rank) && CoversDiff(base, s, b)
    ensures Consistent(s.g, SettledColumn(s.g, rank, b, s.col)) <==> Stale(Rebase(base, s).g, Rebase(base, s).col) <= b
    ensures WindowCoversStale(base, s) ==> Stale(Rebase(base, s).g, Rebase(base, s).col) <= b
  {
    hide Rebase, IsStale, SettledColumn, Truth, Ranks, StatusSeeds, EdgeSeeds, ChangedNodes, ChangedEdges;
    RebaseValid(base, s);
    SeedsCoverWindow(base, s, b);
    StaleTogether(Rebase(base, s), s, b);
    ClosedRepair(s.g, rank, s.col, b);
    TruthIsTheConsistentColumn(s.g, rank, SettledColumn(s.g, rank, b, s.col));
  }

  // ----- what keeps a window wide enough -----

  /** Seeds read from the old graph are found in the new one, or moved into `b`. */
  lemma MovedStatusSeeds(x: Store, y: Store, b: set<Node>, n: Node)
    requires x.Valid() && CoversChange(x, y, b)
    ensures StatusSeeds(x.g, n) <= StatusSeeds(y.g, n) + b
  {
    forall d | d in x.g.deps && d.dst == n && Hard(d.kind) && d.src !in b
      ensures d.src in Dependers(y.g, n)
    {
      SameEdge(x, y, b, d);
    }
    forall w, c | w in x.g.deps && w.kind.WaitsFor? && w.src !in b && c in x.g.deps && c.kind.ParentChild?
                  && c.src == n && c.dst == w.dst && !c.dst.External?
      ensures w.src in WaitersOverParentsOf(y.g, n)
    {
      SameEdge(x, y, b, w);
      MovedGateEdge(x, y, b, w, c);
      assert c.dst in ParentsOf(y.g, n);
    }
  }

  lemma MovedGateEdge(x: Store, y: Store, b: set<Node>, w: Dep, c: Dep)
    requires x.Valid() && CoversChange(x, y, b)
    requires w in y.g.deps && w.kind.WaitsFor? && w.src !in b
    requires c in x.g.deps && c.kind.ParentChild? && c.dst == w.dst && !c.dst.External?
    ensures c in y.g.deps
  {
    assert w.src in EdgeSeeds(y.g, c.src, c.dst.id, c.kind);
  }

  lemma MovedEdgeSeeds(x: Store, y: Store, b: set<Node>, d: Dep)
    requires CoversChange(x, y, b)
    ensures EdgeSeeds(x.g, d.src, d.dst.id, d.kind) <= EdgeSeeds(y.g, d.src, d.dst.id, d.kind) + b
  {
    forall w | w in x.g.deps && w.kind.WaitsFor? && w.src !in b ensures w in y.g.deps {
      SameEdge(x, y, b, w);
    }
  }

  lemma StillClosed(x: Store, y: Store, s: set<Node>, b: set<Node>)
    requires CoversChange(x, y, b) && ClosedUnderChildren(y.g, s)
    ensures ClosedUnderChildren(x.g, s + b)
  {
    forall d | d in x.g.deps && d.kind.ParentChild? && d.dst in s + b
      ensures d.src in s + b
    {
      if d.src !in b {
        SameEdge(x, y, b, d);
      }
    }
  }

  /** A window from `base` to `y`, together with the step from `x` to `y`, covers the window from `base` to `x`. */
  lemma CoversBoth(base: Snapshot, x: Store, y: Store, s: set<Node>, b: set<Node>)
    requires x.Valid() && y.Valid() && ValidSnapshot(base)
    requires CoversChange(Rebase(base, y), y, s) && CoversChange(x, y, b)
    ensures CoversChange(Rebase(base, x), x, s + b)
  {
    hide StatusSeeds, EdgeSeeds, ClosedUnderChildren, Rebase;
    StillClosed(x, y, s, b);
    forall n | StatusOf(Rebase(base, x).g, n) != StatusOf(x.g, n)
      ensures StatusSeeds(x.g, n) <= s + b
    {
      RebasedAt(base, x, y, n);
      MovedStatusSeeds(x, y, b, n);
    }
    forall d | (d in Rebase(base, x).g.deps) != (d in x.g.deps)
      ensures EdgeSeeds(x.g, d.src, d.dst.id, d.kind) <= s + b
    {
      RebasedEdge(base, x, y, d);
      MovedEdgeSeeds(x, y, b, d);
    }
    forall n | FlagOf(Rebase(base, x).col, n) != FlagOf(x.col, n)
      ensures n in s + b
    {
      RebasedAt(base, x, y, n);
    }
  }

  /** A rebased store differs from its original only on issues, and there it is `base`. */
  lemma RebasedAt(base: Snapshot, x: Store, y: Store, n: Node)
    requires ValidSnapshot(base)
    ensures StatusOf(Rebase(base, x).g, n) != StatusOf(x.g, n) ==>
              StatusOf(Rebase(base, x).g, n) == StatusOf(Rebase(base, y).g, n)
    ensures FlagOf(Rebase(base, x).col, n) != FlagOf(x.col, n) ==>
              FlagOf(Rebase(base, x).col, n) == FlagOf(Rebase(base, y).col, n)
  {
  }

  lemma RebasedEdge(base: Snapshot, x: Store, y: Store, d: Dep)
    requires ValidSnapshot(base)
    ensures (d in Rebase(base, x).g.deps) != (d in x.g.deps) ==>
              (d in Rebase(base, x).g.deps) == (d in Rebase(base, y).g.deps)
  {
  }

  /** A step that leaves no stale row among those it affects keeps every window. */
  lemma LocalStepKeepsWindow(base: Snapshot, x: Store, y: Store, b: set<Node>)
    requires x.Valid() && y.Valid() && ValidSnapshot(base) && CoversChange(x, y, b)
    requires Stale(y.g, y.col) !! b && WindowCoversStale(base, x)
    ensures WindowCoversStale(base, y)
  {
    hide CoversChange, IsStale, Rebase;
    forall s | CoversChange(Rebase(base, y), y, s)
      ensures Stale(y.g, y.col) <= s
    {
      CoversBoth(base, x, y, s, b);
      forall r | r in Stale(y.g, y.col) ensures r in s {
        Untouched(x, y, b, r);
        SameFlag(x, y, b, r);
        assert r in Stale(x.g, x.col);
      }
    }
  }

  lemma LocalStepKeepsConsistency(x: Store, y: Store, b: set<Node>)
    requires x.Valid() && y.Valid() && CoversChange(x, y, b)
    requires Stale(y.g, y.col) !! b && Consistent(x.g, x.col)
    ensures Consistent(y.g, y.col)
  {
    forall r | r in y.col ensures !IsStale(y.g, y.col, r) {
      if r in b {
        assert r !in Stale(y.g, y.col);
      } else {
        Untouched(x, y, b, r);
        SameFlag(x, y, b, r);
      }
    }
  }

  /** Going from `x` to `y` never takes a versioned row or edge back to exactly what it was in `base`. */
  predicate NoRevert(base: Snapshot, x: Store, y: Store) {
    && (forall n | n in x.g.status.Keys + y.g.status.Keys && n.Issue? && StatusOf(x.g, n) != StatusOf(y.g, n) ::
          (if n in base.status then {base.status[n]} else {}) != StatusOf(y.g, n))
    && (forall d | d in x.g.deps + y.g.deps && d.src.Issue? && (d in x.g.deps) != (d in y.g.deps) ::
          (d in base.deps) != (d in y.g.deps))
    && (forall n | n in x.col.Keys + y.col.Keys && n.Issue? && FlagOf(x.col, n) != FlagOf(y.col, n) ::
          FlagOf(base.blocked, n) != FlagOf(y.col, n))
  }

  lemma MergeStepCovered(base: Snapshot, x: Store, y: Store, s: set<Node>)
    requires x.Valid() && y.Valid() && ValidSnapshot(base) && WispSide(x) == WispSide(y) && NoRevert(base, x, y)
    requires CoversChange(Rebase(base, y), y, s)
    ensures CoversChange(x, y, s)
  {
    var fromY := Rebase(base, y);
    forall n | StatusOf(x.g, n) != StatusOf(y.g, n)
      ensures StatusSeeds(y.g, n) <= s
    {
      SameWispStatus(x, y, n);
      assert StatusOf(fromY.g, n) == if n in base.status then {base.status[n]} else {};
    }
    forall d | (d in x.g.deps) != (d in y.g.deps)
      ensures EdgeSeeds(y.g, d.src, d.dst.id, d.kind) <= s
    {
      assert d in WispSide(x).deps <==> d in WispSide(y).deps;
      assert d in fromY.g.deps <==> d in base.deps;
    }
    forall n | FlagOf(x.col, n) != FlagOf(y.col, n)
      ensures n in s
    {
      SameWispFlag(x, y, n);
      assert FlagOf(fromY.col, n) == FlagOf(base.blocked, n);
    }
  }

  lemma SameWispStatus(x: Store, y: Store, n: Node)
    requires WispSide(x) == WispSide(y)
    ensures !n.Issue? ==> StatusOf(x.g, n) == StatusOf(y.g, n)
  {
    assert n in WispSide(x).status <==> n in WispSide(y).status;
    assert n in WispSide(x).status ==> WispSide(x).status[n] == WispSide(y).status[n];
  }

  lemma SameWispFlag(x: Store, y: Store, n: Node)
    requires WispSide(x) == WispSide(y)
    ensures !n.Issue? ==> FlagOf(x.col, n) == FlagOf(y.col, n)
  {
    assert n in WispSide(x).blocked <==> n in WispSide(y).blocked;
    assert n in WispSide(x).blocked ==> WispSide(x).blocked[n] == WispSide(y).blocked[n];
  }

  /** A merge that reverts nothing keeps every window. */
  lemma MergeKeepsWindow(base: Snapshot, x: Store, y: Store)
    requires x.Valid() && y.Valid() && ValidSnapshot(base) && WispSide(x) == WispSide(y) && NoRevert(base, x, y)
    requires WindowCoversStale(base, x)
    ensures WindowCoversStale(base, y)
  {
    forall s | CoversChange(Rebase(base, y), y, s)
      ensures Stale(y.g, y.col) <= s
    {
      MergeStepCovered(base, x, y, s);
      CoversBoth(base, x, y, s, s);
      assert s + s == s;
      forall r | r in Stale(y.g, y.col) ensures r in s {
        if r !in s {
          Untouched(x, y, s, r);
          SameFlag(x, y, s, r);
          assert false;
        }
      }
    }
  }

  /** The first merge after a consistent, clean state: the window from the old HEAD is wide enough. */
  lemma FirstMergeOpensWindow(x: Store, y: Store)
    requires x.Valid() && y.Valid() && WispSide(x) == WispSide(y) && Consistent(x.g, x.col)
    ensures WindowCoversStale(IssueSide(x), y)
  {
    hide IssueSide, WispSide, Rebase, IsStale;
    IssueSideValid(x);
    RebaseSame(x);
    AnyPullKeepsWindow(IssueSide(x), x, y);
  }

  /** Nothing differs from `base`, so nothing is stale: the `head == fromCommit` skip is safe. */
  lemma CleanWindowIsConsistent(s: Store)
    requires s.Valid() && WindowCoversStale(IssueSide(s), s)
    ensures Consistent(s.g, s.col)
  {
    RebaseSame(s);
    assert CoversChange(s, s, {});
    forall r | r in s.col ensures !IsStale(s.g, s.col, r) {
      assert r !in Stale(s.g, s.col);
    }
  }

  /** Scoped repair refines full repair. */
  lemma ScopedEqualsFull(base: Snapshot, s: Store, rank: map<Node, nat>, b: set<Node>)
    requires s.Valid() && Ranks(s.g, rank)
    requires WindowCoversStale(base, s) && CoversChange(Rebase(base, s), s, b)
    ensures SettledColumn(s.g, rank, b, s.col) == SettledColumn(s.g, rank, s.g.status.Keys, s.col) == Truth(s.g, rank)
  {
    ClosedRepair(s.g, rank, s.col, b);
    TruthIsTheConsistentColumn(s.g, rank, s.col);
  }
}
