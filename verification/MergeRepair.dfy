/**
The post-merge repair of one clone: the diff-scoped recompute with its full
fallbacks, the failure marker, local writes and pulls, each a step of the
protocol in RepairState.
*/
module MergeRepair {
  import opened Wrappers
  import opened BlockedTables
  import opened BlockedColumn
  import opened Affected
  import opened BlockedMerge
  import opened BlockedMarks
  import opened RepairState
  import opened RepairRuns

  datatype Expansion = Scoped(issueIDs: seq<ID>, wispIDs: seq<ID>) | Unavailable | Aborted

  ghost function Nodes(r: Expansion): set<Node>
    requires r.Scoped?
  {
    IdNodes(false, r.issueIDs) + IdNodes(true, r.wispIDs)
  }

  lemma FlagsOnly(g: Tables, x: Column, y: Column, b: set<Node>)
    requires ClosedUnderChildren(g, b) && AgreeOutside(x, y, b)
    ensures CoversChange(Store(g, x), Store(g, y), b)
  {
  }

  /** A full repair affects every row, and leaves none of them stale. */
  lemma RepairedStep(g: Tables, x: Column, y: Column)
    requires ColumnOf(g, x) && Consistent(g, y)
    ensures LocalStep(Store(g, x), Store(g, y))
  {
    var b := g.status.Keys + set d | d in g.deps :: d.src;
    FlagsOnly(g, x, y, b);
    assert Stale(g, y) == {};
  }

  lemma NoStep(s: Store)
    ensures LocalStep(s, s)
  {
    assert CoversChange(s, s, {});
  }

  lemma SettledEverywhere(g: Tables, rank: map<Node, nat>, b: set<Node>, col: Column)
    requires Ranks(g, rank) && ColumnOf(g, col) && ClosedUnderChildren(g, b)
    ensures var want := SettledColumn(g, rank, b, col);
            && CoversChange(Store(g, col), Store(g, want), b) && Stale(g, want) !! b && AgreeOutside(want, col, b)
            && LocalStep(Store(g, col), Store(g, want))
            && forall other | Ranks(g, other) :: SettledColumn(g, other, b, col) == want
  {
    var want := SettledColumn(g, rank, b, col);
    SettledIsFixpoint(g, rank, b, col);
    FlagsOnly(g, col, want, b);
    hide SettledColumn, ShouldBeBlocked;
    forall other | Ranks(g, other)
      ensures SettledColumn(g, other, b, col) == want
    {
      SettledIsFixpoint(g, other, b, col);
      FixpointUnique(g, rank, b, SettledColumn(g, other, b, col), want);
    }
  }

  /** What the scoped repair makes of the column, in the protocol's terms. */
  lemma NarrowRepairs(s: State, from: string, env: Env, rank: map<Node, nat>, b: set<Node>, y: Store)
    requires s.Sound() && s.RouteOf(from, env).Narrow? && !env.updateFails && Ranks(s.now.g, rank)
    requires y == Store(s.now.g, SettledColumn(s.now.g, rank, b, s.now.col)) && y.Valid() && LocalStep(s.now, y)
    requires CoversDiff(s.commits[from], s.now, b)
    requires env.touchedIssues == {} && env.touchedEdges == {} ==> forall t | CoversDiff(s.commits[from], s.now, t) :: b <= t
    ensures s.Repairs(from, env, y)
  {
    hide SettledColumn, Ranks, Rebase, CoversDiff, WindowCoversStale, IsStale, LocalStep, AcyclicParents;
    var base := s.commits[from];
    DiffRepairIsFullIff(base, s.now, rank, b);
    if s.IsRight() {
      RightIsRecoverable(s, from);
    }
  }

  class Clone {
    const store: BlockedStore
    var commits: map<string, Snapshot>
    var head: string
    var marker: Option<string>
    var inflight: Option<string>
    var heads: seq<string>            // history, for the specification
    var unrepaired: Option<nat>       // likewise

    function Now(): Store
      reads store
    {
      Store(store.tables, store.blocked)
    }

    function View(): State
      reads this, store
    {
      State(Now(), commits, head, marker, inflight, heads, unrepaired)
    }

    ghost predicate Sound()
      reads this, store
    {
      store.Valid() && View().Sound()
    }

    /** A clone whose column is consistent and whose HEAD holds its working set. */
    constructor (g: Tables, col: Column, h: string)
      requires g.Valid() && AcyclicParents(g) && Consistent(g, col) && IsCommitHash(h)
      ensures Sound() && View().Safe() && View().Clear() && fresh(store)
      ensures View() == State(Store(g, col), map[h := IssueSide(Store(g, col))], h, None, None, [h], None)
    {
      store := new BlockedStore(g, col);
      commits := map[h := IssueSide(Store(g, col))];
      head := h;
      marker := None;
      inflight := None;
      heads := [h];
      unrepaired := None;
      new;
      IssueSideValid(Store(g, col));
    }

    /** changedIssueIDs */
    method ChangedIssueIDs(base: Snapshot, env: Env) returns (ids: seq<ID>)
      ensures Elements(ids) == DiffIDs(base, Now(), env) && |ids| == |DiffIDs(base, Now(), env)|
    {
      var todo := DiffIDs(base, Now(), env);
      ids := [];
      while todo != {}
        invariant todo <= DiffIDs(base, Now(), env) && Elements(ids) == DiffIDs(base, Now(), env) - todo
        invariant |ids| + |todo| == |DiffIDs(base, Now(), env)|
        decreases todo
      {
        var id :| id in todo;
        ElementsAppend(ids, id);
        ids := ids + [id];
        todo := todo - {id};
      }
    }

    /** changedDependencyEdges: one entry per side; a row touched in other columns has the same edge on both. */
    method ChangedDependencyEdges(base: Snapshot, env: Env) returns (edges: seq<Dep>)
      ensures forall d :: d in edges <==> d in ChangedEdges(base, Now()) || d in TouchedEdges(base, Now(), env)
      ensures |edges| == |ChangedEdges(base, Now())| + 2 * |TouchedEdges(base, Now(), env)|
    {
      hide ChangedEdges;
      ghost var changed, touched := ChangedEdges(base, Now()), TouchedEdges(base, Now(), env);
      var one, two := ChangedEdges(base, Now()), TouchedEdges(base, Now(), env);
      edges := [];
      while one != {}
        invariant one <= changed && forall d :: d in edges <==> d in changed - one
        invariant |edges| + |one| == |changed|
        decreases one
      {
        var d :| d in one;
        edges := edges + [d];
        one := one - {d};
      }
      while two != {}
        invariant two <= touched && forall d :: d in edges <==> d in changed || d in touched - two
        invariant |edges| + 2 * |two| == |changed| + 2 * |touched|
        decreases two
      {
        var d :| d in two;
        edges := edges + [d, d];
        two := two - {d};
      }
    }

    /** mergeAffectedSets: the scoped rows, or the reason there are none. */
    method MergeAffectedSets(from: string, env: Env) returns (r: Expansion)
      requires Sound()
      ensures r == Unavailable <==>
                if env.issueDiffFails || from !in commits || env.edgeDiffFails then !env.ctxDead
                else SeedCount(commits[from], Now(), env) > MERGE_RECOMPUTE_SEED_CAP
      ensures r.Scoped? <==>
                && !env.issueDiffFails && from in commits && !env.edgeDiffFails && !env.expandFails
                && SeedCount(commits[from], Now(), env) <= MERGE_RECOMPUTE_SEED_CAP
      ensures r.Scoped? ==> CoversDiff(commits[from], Now(), Nodes(r))
      ensures r.Scoped? && env.touchedIssues == {} && env.touchedEdges == {} ==>
                forall t | CoversDiff(commits[from], Now(), t) :: Nodes(r) <= t
    {
      hide CoversDiff, ChangedEdges, ChangedNodes, StatusSeeds, EdgeSeeds, AcyclicParents, ValidSnapshot, IsCommitHash,
           State.NoLaterThan, ClosedUnderChildren;
      if env.issueDiffFails || from !in commits {
        return if env.ctxDead then Aborted else Unavailable;
      }
      var base := commits[from];
      assert ValidSnapshot(base);
      var changedIssues := ChangedIssueIDs(base, env);
      if env.edgeDiffFails {
        return if env.ctxDead then Aborted else Unavailable;
      }
      var changedDeps := ChangedDependencyEdges(base, env);
      if |changedIssues| + |changedDeps| > MERGE_RECOMPUTE_SEED_CAP {
        return Unavailable;
      }
      if env.expandFails {
        return Aborted;
      }
      var all := new AffectedSet();
      ListedEdges(base, Now(), env, changedDeps);
      ExpandIssues(all, changedIssues);
      ghost var seeds := all.Nodes();
      ExpandEdges(all, changedDeps);
      ListedCover(base, Now(), env, changedIssues, changedDeps, seeds, all.Nodes());
      return Scoped(all.issues, all.wisps);
    }

    method ExpandIssues(all: AffectedSet, ids: seq<ID>)
      requires store.Valid() && all.Valid() && all.Nodes() == {}
      modifies all
      ensures all.Valid() && HoldsIssues(store.tables, ids, all.Nodes())
      ensures forall t | HoldsIssues(store.tables, ids, t) :: all.Nodes() <= t
    {
      hide StatusSeeds, AffectedSet.Nodes, ClosedUnderChildren;
      NoIssues(store.tables);
      assert ids[..0] == [];
      for i := 0 to |ids|
        invariant all.Valid() && HoldsIssues(store.tables, ids[..i], all.Nodes())
        invariant forall t | HoldsIssues(store.tables, ids[..i], t) :: all.Nodes() <= t
      {
        var affected := AffectedByStatusChange(store.tables, Issue(ids[i]));
        OneMoreIssue(store.tables, ids[..i], ids[i], all.Nodes(), affected.Nodes());
        assert ids[..i + 1] == ids[..i] + [ids[i]];
        all.AddAll(affected.Nodes());
      }
      assert ids[..|ids|] == ids;
    }

    method ExpandEdges(all: AffectedSet, edges: seq<Dep>)
      requires store.Valid() && all.Valid() && ClosedUnderChildren(store.tables, all.Nodes())
      requires forall d | d in edges :: d.src.Issue?
      modifies all
      ensures all.Valid() && HoldsEdges(store.tables, edges, old(all.Nodes()), all.Nodes())
      ensures forall t | HoldsEdges(store.tables, edges, old(all.Nodes()), t) :: all.Nodes() <= t
    {
      hide EdgeSeeds, AffectedSet.Nodes, ClosedUnderChildren;
      ghost var before := all.Nodes();
      NoEdges(store.tables, before);
      assert edges[..0] == [];
      for i := 0 to |edges|
        invariant all.Valid() && HoldsEdges(store.tables, edges[..i], before, all.Nodes())
        invariant forall t | HoldsEdges(store.tables, edges[..i], before, t) :: all.Nodes() <= t
      {
        var e := edges[i];
        assert e in edges;
        var affected := AffectedByDepChange(store.tables, e.src, e.dst.id, e.kind);
        OneMoreEdge(store.tables, edges[..i], e, before, all.Nodes(), affected.Nodes());
        assert edges[..i + 1] == edges[..i] + [e];
        all.AddAll(affected.Nodes());
      }
      assert edges[..|edges|] == edges;
    }

    /** RecomputeIsBlockedInTx over a closed set of rows, rolled back when an update fails. */
    method RecomputeRows(issueIDs: seq<ID>, wispIDs: seq<ID>, updateFails: bool) returns (ok: bool)
      requires Sound() && ClosedUnderChildren(store.tables, IdNodes(false, issueIDs) + IdNodes(true, wispIDs))
      modifies store`blocked, store`flips
      ensures store.Valid() && ok == !updateFails
      ensures !ok ==> store.blocked == old(store.blocked)
      ensures LocalStep(old(Now()), Now())
      ensures ok ==> AgreeOutside(store.blocked, old(store.blocked), IdNodes(false, issueIDs) + IdNodes(true, wispIDs))
      ensures ok ==> Stale(store.tables, store.blocked) !! IdNodes(false, issueIDs) + IdNodes(true, wispIDs)
      ensures forall rank | ok && Ranks(store.tables, rank) ::
                store.blocked == SettledColumn(store.tables, rank, IdNodes(false, issueIDs) + IdNodes(true, wispIDs),
                                               old(store.blocked))
    {
      hide SettledColumn, Stale, CoversChange, IdNodes, AgreeOutside, Ranks, Tally.Matches, Tables.Valid, LocalStep,
           State.ValidHistory;
      var before := store.blocked;
      ghost var b := IdNodes(false, issueIDs) + IdNodes(true, wispIDs);
      ghost var rank :| Ranks(store.tables, rank);
      SettledEverywhere(store.tables, rank, b, before);
      var _, _ := store.Recompute(issueIDs, wispIDs, rank);
      if updateFails {
        store.blocked := before;
        NoStep(Now());
        return false;
      }
      return true;
    }

    /** recomputeIsBlockedForAll */
    method RecomputeForAll(updateFails: bool) returns (ok: bool)
      requires Sound()
      modifies store`blocked, store`flips
      ensures store.Valid() && ok == !updateFails
      ensures !ok ==> store.blocked == old(store.blocked)
      ensures LocalStep(old(Now()), Now())
      ensures ok ==> Consistent(store.tables, store.blocked)
    {
      hide Ranks, Consistent, Truth, Tally.Matches, LocalStep, Tables.Valid, State.ValidHistory;
      var before := store.blocked;
      ghost var rank :| Ranks(store.tables, rank);
      var _, _ := store.RecomputeAll(rank);
      RepairedStep(store.tables, before, store.blocked);
      if updateFails {
        store.blocked := before;
        NoStep(Now());
        return false;
      }
      return true;
    }

    /** recomputeIsBlockedAfterMergeScoped */
    method RecomputeScoped(from: string, env: Env) returns (ok: bool)
      requires Sound()
      modifies store`blocked, store`flips
      ensures store.Valid()
      ensures ok <==> var route := old(View()).RouteOf(from, env); !route.Refused? && (route.Skipped? || !env.updateFails)
      ensures if ok then old(View()).Repairs(from, env, Now()) else Now() == old(Now())
    {
      hide Consistent, LocalStep, CoversChange, Rebase, IssueSide, CoversDiff, WindowCoversStale, Stale, SeedsReach,
           AcyclicParents, State.ValidHistory, Nodes, SeedCount;
      ghost var s := View();
      NoStep(Now());
      if from == "" {
        ok := RecomputeForAll(env.updateFails);
        return;
      }
      if !IsCommitHash(from) || env.headUnreadable {
        return false;
      }
      HeadIsCommitted(s);
      if head == from && !env.statusUnreadable && !env.dirtyElsewhere && commits[head] == IssueSide(Now()) {
        return true;
      }
      var r := MergeAffectedSets(from, env);
      match r {
        case Aborted =>
          return false;
        case Unavailable =>
          ok := RecomputeForAll(env.updateFails);
        case Scoped(issueIDs, wispIDs) =>
          ok := RecomputeNarrow(from, env, r);
      }
    }

    /** The scoped branch. */
    method RecomputeNarrow(from: string, env: Env, r: Expansion) returns (ok: bool)
      requires Sound() && View().RouteOf(from, env).Narrow? && r.Scoped? && from in commits
      requires CoversDiff(commits[from], Now(), Nodes(r))
      requires env.touchedIssues == {} && env.touchedEdges == {} ==>
                 forall t | CoversDiff(commits[from], Now(), t) :: Nodes(r) <= t
      modifies store`blocked, store`flips
      ensures store.Valid() && ok == !env.updateFails
      ensures if ok then old(View()).Repairs(from, env, Now()) else Now() == old(Now())
    {
      hide Consistent, LocalStep, CoversChange, Rebase, IssueSide, IdNodes, CoversDiff, WindowCoversStale, Stale,
           SettledColumn, SeedsReach, AcyclicParents, State.ValidHistory, State.RouteOf, State.Repairs, Ranks;
      ghost var s := View();
      SoundStore(s);
      ghost var rank := SomeRank(store.tables);
      DiffIsClosed(commits[from], Now(), Nodes(r));
      ok := RecomputeRows(r.issueIDs, r.wispIDs, env.updateFails);
      if ok {
        NarrowRepairs(s, from, env, rank, Nodes(r), Now());
      }
    }

    /** RecomputeIsBlockedAfterMergeInTx, with the rollback of its transaction on error. */
    method RecomputeAfterMerge(from: string, env: Env) returns (ok: bool)
      requires Sound() && Possible(Recomputed(from, env), View())
      modifies this`marker, this`inflight, this`unrepaired, store`blocked, store`flips
      ensures Sound() && Moves(Recomputed(from, env), old(View()), View())
      ensures ok <==> old(View()).Succeeds(from, env)
      ensures !ok ==> View() == old(View())
      ensures ok ==> old(View()).Repairs(old(View()).RepairFrom(from, env), env, Now())
      ensures ok ==> inflight == None && marker == if old(View()).ReadsMarker(env) then None else old(marker)
      ensures ok && old(View()).Safe() && (old(marker).None? || !env.markerUnreadable) ==>
                View().Safe() && marker == None && unrepaired == None && Consistent(store.tables, store.blocked)
    {
      hide Consistent, LocalStep, WindowCoversStale, AcyclicParents, IsCommitHash, Tables.Valid, Possible, Moves,
           State.Repairs, State.RouteOf, State.Safe, State.Sound;
      ghost var s := View();
      SoundStore(s);
      var pending := if marker.Some? && !env.markerUnreadable then marker.value else "";
      var window := if pending == "" then from else if IsCommitHash(pending) && from != "" then pending else "";
      var saved := store.blocked;
      ok := RecomputeScoped(window, env);
      if ok && pending != "" && env.deleteFails {
        store.blocked := saved;
        ok := false;
      }
      RecomputedMoves(s, from, env, ok, Now());
      if ok {
        if pending != "" {
          marker := None;
        }
        inflight := None;
        if Consistent(store.tables, store.blocked) {
          unrepaired := None;
        }
      }
    }

    /** MarkIsBlockedRecomputePendingInTx, in its own transaction: an older marker wins. */
    method MarkPending(from: string, writeFails: bool) returns (ok: bool)
      requires Sound() && Possible(Marked(from, writeFails), View())
      modifies this`marker, this`inflight
      ensures Sound() && Moves(Marked(from, writeFails), old(View()), View())
      ensures ok == !writeFails && (old(View()).Safe() ==> View().Safe())
      ensures ok ==> inflight == None
      ensures ok ==> marker == if old(marker).Some? then old(marker) else Some(if IsCommitHash(from) then from else FULL)
    {
      hide State.Safe, State.Sound, IsCommitHash;
      if writeFails {
        return false;
      }
      NotedSafe(View(), from);
      if marker.None? {
        marker := Some(if IsCommitHash(from) then from else FULL);
      }
      inflight := None;
      return true;
    }

    /**
    A pull: the versioned tables become those of `y`, in a new commit or only in
    the working set.  A merge still in flight is left behind unrecorded.
    */
    method Merge(y: Store, ghost rank: map<Node, nat>, newHead: Option<string>, from: string)
      requires Sound() && Possible(Merged(y, rank, newHead, from), View())
      modifies this`commits, this`head, this`heads, this`inflight, this`unrepaired, store
      ensures Sound() && Moves(Merged(y, rank, newHead, from), old(View()), View())
      ensures Now() == y && inflight == Some(from) && marker == old(marker) && unrepaired.Some?
      ensures head == if newHead.Some? then newHead.value else old(head)
      ensures commits == if newHead.Some? then old(commits)[newHead.value := IssueSide(y)] else old(commits)
      ensures old(View()).Safe() ==> (View().Safe() <==> Harmless(Merged(y, rank, newHead, from), old(View())))
    {
      hide State.Safe, State.Sound, IsCommitHash, Consistent, IssueSide, WispSide, Ranks, DiffReaches, Rebase;
      ghost var s := View();
      PulledIff(s, y, rank, newHead, from);
      Die();
      store.Load(y.g, y.col);
      inflight := Some(from);
      if unrepaired == None {
        unrepaired := Some(View().Latest());
      }
      assert View() == s.Pulled(y, from);
      if newHead.Some? {
        Advance(newHead.value);
      }
    }

    /** The process ends, or gives up, with a merge in flight and no marker written for it. */
    method Die()
      requires Sound()
      modifies this`inflight, this`unrepaired
      ensures Sound() && Moves(Died, old(View()), View()) && View() == old(View()).Forgotten()
      ensures old(View()).Safe() ==>
                (View().Safe() <==> marker.Some? || old(inflight).None? || Consistent(store.tables, store.blocked))
    {
      hide State.Safe, State.Sound, Consistent;
      ForgottenIff(View());
      inflight := None;
      if marker.None? && Consistent(store.tables, store.blocked) {
        unrepaired := None;
      }
    }

    /** HEAD moves to a new commit of the working set. */
    method Advance(h: string)
      requires Sound() && Possible(Committed(h), View())
      modifies this`commits, this`head, this`heads
      ensures Sound() && Moves(Committed(h), old(View()), View()) && View() == old(View()).Advanced(h)
      ensures View().Safe() <==> old(View()).Safe()
      ensures head == h && commits == old(commits)[h := IssueSide(Now())]
    {
      hide State.Safe, State.Sound, IsCommitHash, IssueSide;
      AdvancedIff(View(), h);
      commits := commits[h := IssueSide(Now())];
      head := h;
      heads := heads + [h];
    }

    /** A local write path: the edit, then the recompute of the rows it affects, or marks alone for an edge that only blocks. */
    method LocalWrite(e: Edit, ghost rank: map<Node, nat>)
      requires Sound() && Possible(Wrote(e, rank), View())
      modifies store
      ensures Sound() && Moves(Wrote(e, rank), old(View()), View())
      ensures old(View()).Safe() ==> (View().Safe() <==> Harmless(Wrote(e, rank), old(View())))
      ensures old(View()).IsRight() && e.AddDep? ==> View().IsRight()
    {
      hide State.Safe, Writes, Consistent, Ranks, State.MarksReached, IsClosure, MarkedAlone, Stale, AgreeOutside,
           StatusSeeds, EdgeSeeds, ClosedUnderChildren;
      ghost var s := View();
      assert store.tables.Valid();
      EditIsValid(store.tables, e, rank);
      store.Load(Apply(store.tables, e), store.blocked);
      if e.AddDep? {
        AddMarked(e.d, s.now);
      } else {
        Recalculate(e, s.now);
      }
      WriteIff(s, e, rank, Now());
      if e.AddDep? {
        MarkedWriteIff(s, e.d, Now());
      }
    }

    /** The edit is in place: recompute what it affects. */
    method Recalculate(e: Edit, ghost x: Store)
      requires Sound() && x.Valid() && Applicable(x.g, e) && !e.AddDep? && Now() == Store(Apply(x.g, e), x.col)
      modifies store`blocked, store`flips
      ensures store.Valid() && Writes(x, e, Now())
    {
      hide State.ValidHistory, LocalStep, StatusSeeds, EdgeSeeds, Stale, AgreeOutside, ClosedUnderChildren;
      var affected: AffectedSet;
      match e {
        case SetStatus(n, status) =>
          affected := AffectedByStatusChange(store.tables, n);
        case RemoveDep(d) =>
          affected := AffectedByDepChange(store.tables, d.src, d.dst.id, d.kind);
        case AddParentChild(d) =>
          affected := AffectedByDepChange(store.tables, d.src, d.dst.id, d.kind);
      }
      var _ := RecomputeRows(affected.issues, affected.wisps, false);
      assert IsClosure(store.tables, EditSeeds(store.tables, e), affected.Nodes());
    }

    /** AddDependencyInTx after the insert of an edge that is no parent link. */
    method AddMarked(d: Dep, ghost x: Store)
      requires store.Valid() && x.Valid() && Applicable(x.g, AddDep(d)) && Now() == Store(WithEdge(x.g, d), x.col)
      modifies store`blocked
      ensures store.Valid() && Writes(x, AddDep(d), Now())
    {
      hide StatusSeeds, EdgeSeeds, ClosedUnderChildren, ShouldBeBlocked, Raised, Unmarked, MarkedAlone;
      var affected := AffectedByDepChange(store.tables, d.src, d.dst.id, d.kind);
      ghost var b := affected.Nodes();
      RaisedNone(store.tables, x.col, b);
      if Hard(d.kind) {
        HardSourceAffected(store.tables, d, b);
        if !store.blocked[d.src] && IsActive(store.tables, d.src) && IsActive(store.tables, d.dst) {
          DirectMark(x.g, d, x.col, b);
          store.blocked := store.blocked[d.src := true];
        }
      }
      ghost var direct := store.blocked;
      assert direct == if Hard(d.kind) && IsActive(x.g, d.src) && IsActive(x.g, d.dst) then x.col[d.src := true] else x.col;
      var issueIDs := if Hard(d.kind) && d.src.Issue? then Without(affected.issues, d.src.id) else affected.issues;
      var wispIDs := if Hard(d.kind) && d.src.Wisp? then Without(affected.wisps, d.src.id) else affected.wisps;
      ScopeIDs(d, affected.issues, affected.wisps, issueIDs, wispIDs, b);
      store.MarkRows(issueIDs, wispIDs);
      MarkedInTwoSteps(x.g, d, x.col, direct, store.blocked, b);
    }

    /** The doctor's full repair; it leaves the marker alone. */
    method RepairAll()
      requires Sound()
      modifies this`unrepaired, store`blocked, store`flips
      ensures Sound() && Moves(Doctored, old(View()), View())
      ensures View().Safe() && unrepaired == None && Consistent(store.tables, store.blocked)
    {
      hide State.Safe, State.Sound, Consistent, LocalStep;
      ghost var s := View();
      SoundStore(s);
      var _ := RecomputeForAll(false);
      DoctoredSafe(s, Now());
      SafeIsSound(s.(now := Now(), unrepaired := None));
      unrepaired := None;
    }

    /** One event; what is not possible in a state does not happen there. */
    method Step(event: Event)
      requires Sound()
      modifies this, store
      ensures Sound() && Moves(event, old(View()), View())
      ensures old(View()).Safe() ==> (View().Safe() <==> Harmless(event, old(View())))
    {
      hide State.Safe, State.Sound, Ranks, Moves, Harmless, Apply, Applicable, WispSide;
      var s := View();
      SoundStore(s);
      if Possible(event, s) {
        Act(event);
      } else {
        NothingMoves(event, s);
      }
      StepIff(event, s, View());
    }

    method Act(event: Event)
      requires Sound() && Possible(event, View())
      modifies this, store
      ensures Sound() && Moves(event, old(View()), View())
    {
      hide State.Safe, State.Sound, Possible, Moves, Harmless;
      match event {
        case Merged(y, rank, newHead, from) => Merge(y, rank, newHead, from);
        case Recomputed(from, env) => var _ := RecomputeAfterMerge(from, env);
        case Marked(from, writeFails) => var _ := MarkPending(from, writeFails);
        case Died => Die();
        case Wrote(e, rank) => LocalWrite(e, rank);
        case Committed(h) => Advance(h);
        case Doctored => RepairAll();
      }
    }

    /** Any sequence of events, in any order: a run of the protocol, safe throughout exactly when every step was harmless. */
    method Run(events: seq<Event>) returns (ghost states: seq<State>)
      requires Sound()
      modifies this, store
      ensures Sound() && RepairState.Run(states, events) && states[0] == old(View()) && states[|events|] == View()
      ensures old(View()).Safe() ==>
                ((forall i | 0 <= i <= |events| :: states[i].Safe()) <==>
                 forall i | 0 <= i < |events| :: Harmless(events[i], states[i]))
      ensures (&& old(View()).Safe() && old(View()).Clear()
               && forall i | 0 <= i < |events| :: Quiet(events[i], states[i], states[i + 1])) ==> View().Safe()
    {
      hide State.Safe, State.Sound, State.Clear, Moves, Harmless, Quiet;
      states := [View()];
      for i := 0 to |events|
        invariant Sound() && |states| == i + 1 && states[0] == old(View()) && states[i] == View()
        invariant forall k | 0 <= k < i :: Moves(events[k], states[k], states[k + 1])
      {
        Step(events[i]);
        states := states + [View()];
      }
      if states[0].Safe() {
        RunIsSafeIff(states, events, |events|);
        if states[0].Clear() && forall i | 0 <= i < |events| :: Quiet(events[i], states[i], states[i + 1]) {
          QuietRunIsSafe(states, events, |events|);
        }
      }
    }
  }

  // ----- helpers -----

  lemma ElementsAppend(ids: seq<ID>, id: ID)
    ensures Elements(ids + [id]) == Elements(ids) + {id}
  {
    assert forall x :: x in ids + [id] <==> x in ids || x == id;
  }

  lemma SomeRank(g: Tables) returns (rank: map<Node, nat>)
    requires AcyclicParents(g)
    ensures Ranks(g, rank)
  {
    rank :| Ranks(g, rank);
  }

  lemma SoundStore(s: State)
    requires s.Sound()
    ensures s.now.Valid() && s.now.g.Valid() && AcyclicParents(s.now.g) && s.ValidHistory()
    ensures s.marker.Some? ==> s.marker.value != ""
  {
  }

  /** The repair's outcome as a step of the protocol. */
  lemma RecomputedMoves(s: State, from: string, env: Env, ok: bool, y: Store)
    requires s.Sound() && Possible(Recomputed(from, env), s)
    requires ok <==> s.Succeeds(from, env)
    requires ok ==> s.Repairs(s.RepairFrom(from, env), env, y)
    ensures Moves(Recomputed(from, env), s, if ok then s.Repaired(env, y) else s)
    ensures ok ==> s.Repaired(env, y).Sound() && y.Valid()
    ensures ok && s.Safe() ==> s.Repaired(env, y).Safe()
    ensures ok && s.Safe() && (s.marker.None? || s.ReadsMarker(env)) ==> Consistent(y.g, y.col)
  {
    hide State.Sound, State.Safe, State.RouteOf, Consistent, LocalStep, State.Recoverable;
    if ok {
      RepairedSafe(s, from, env, y);
    }
  }

  lemma HeadIsCommitted(s: State)
    requires s.Sound()
    ensures s.head in s.commits
  {
  }

  lemma NothingMoves(e: Event, s: State)
    requires !Possible(e, s)
    ensures Moves(e, s, s)
  {
  }

  lemma EditIsValid(g: Tables, e: Edit, rank: map<Node, nat>)
    requires g.Valid() && Applicable(g, e) && Ranks(Apply(g, e), rank)
    ensures Apply(g, e).Valid() && AcyclicParents(Apply(g, e)) && Apply(g, e).status.Keys == g.status.Keys
  {
  }

  lemma DiffIsClosed(base: Snapshot, s: Store, b: set<Node>)
    requires CoversDiff(base, s, b)
    ensures ClosedUnderChildren(s.g, b)
  {
  }

  /** `t` is closed and holds the seeds of the listed issues. */
  ghost predicate HoldsIssues(g: Tables, ids: seq<ID>, t: set<Node>) {
    ClosedUnderChildren(g, t) && forall id | id in ids :: StatusSeeds(g, Issue(id)) <= t
  }

  ghost predicate HoldsEdges(g: Tables, edges: seq<Dep>, before: set<Node>, t: set<Node>) {
    && ClosedUnderChildren(g, t) && before <= t
    && forall d | d in edges :: EdgeSeeds(g, d.src, d.dst.id, d.kind) <= t
  }

  lemma NoIssues(g: Tables)
    ensures HoldsIssues(g, [], {})
  {
  }

  lemma NoEdges(g: Tables, before: set<Node>)
    requires ClosedUnderChildren(g, before)
    ensures HoldsEdges(g, [], before, before)
  {
  }

  lemma OneMoreIssue(g: Tables, ids: seq<ID>, id: ID, a: set<Node>, c: set<Node>)
    requires HoldsIssues(g, ids, a) && (forall t | HoldsIssues(g, ids, t) :: a <= t)
    requires IsClosure(g, StatusSeeds(g, Issue(id)), c)
    ensures HoldsIssues(g, ids + [id], a + c) && forall t | HoldsIssues(g, ids + [id], t) :: a + c <= t
  {
    hide StatusSeeds;
    forall t | HoldsIssues(g, ids + [id], t) ensures a + c <= t {
      assert id in ids + [id];
      assert HoldsIssues(g, ids, t);
    }
  }

  lemma OneMoreEdge(g: Tables, edges: seq<Dep>, e: Dep, before: set<Node>, a: set<Node>, c: set<Node>)
    requires HoldsEdges(g, edges, before, a) && (forall t | HoldsEdges(g, edges, before, t) :: a <= t)
    requires IsClosure(g, EdgeSeeds(g, e.src, e.dst.id, e.kind), c)
    ensures HoldsEdges(g, edges + [e], before, a + c) && forall t | HoldsEdges(g, edges + [e], before, t) :: a + c <= t
  {
    hide EdgeSeeds;
    forall t | HoldsEdges(g, edges + [e], before, t) ensures a + c <= t {
      assert e in edges + [e];
      assert HoldsEdges(g, edges, before, t);
    }
  }

  lemma ListedEdges(base: Snapshot, s: Store, env: Env, edges: seq<Dep>)
    requires ValidSnapshot(base)
    requires forall d :: d in edges <==> d in ChangedEdges(base, s) || d in TouchedEdges(base, s, env)
    ensures forall d | d in edges :: d.src.Issue?
  {
  }

  /** The expanded rows cover the diff, and are the least set that does unless other rows were touched. */
  lemma ListedCover(base: Snapshot, s: Store, env: Env, ids: seq<ID>, edges: seq<Dep>, seeds: set<Node>, nodes: set<Node>)
    requires Elements(ids) == DiffIDs(base, s, env)
    requires forall d :: d in edges <==> d in ChangedEdges(base, s) || d in TouchedEdges(base, s, env)
    requires HoldsIssues(s.g, ids, seeds) && forall t | HoldsIssues(s.g, ids, t) :: seeds <= t
    requires HoldsEdges(s.g, edges, seeds, nodes) && forall t | HoldsEdges(s.g, edges, seeds, t) :: nodes <= t
    ensures CoversDiff(base, s, nodes)
    ensures env.touchedIssues == {} && env.touchedEdges == {} ==> forall t | CoversDiff(base, s, t) :: nodes <= t
  {
    hide StatusSeeds, EdgeSeeds, ClosedUnderChildren;
    forall n | n in ChangedNodes(base, s) ensures StatusSeeds(s.g, n) <= nodes {
      assert n.id in Elements(ids);
      assert n == Issue(n.id);
    }
    if env.touchedIssues == {} && env.touchedEdges == {} {
      forall t | CoversDiff(base, s, t) ensures nodes <= t {
        forall id | id in ids ensures StatusSeeds(s.g, Issue(id)) <= t {
          assert id in Elements(ids);
          var n :| n in ChangedNodes(base, s) && n.id == id;
          assert n == Issue(id);
        }
        assert HoldsIssues(s.g, ids, t);
        assert HoldsEdges(s.g, edges, seeds, t);
      }
    }
  }

  /** removeID */
  function Without(ids: seq<ID>, id: ID): seq<ID> {
    if ids == [] then []
    else (if ids[0] == id then [] else [ids[0]]) + Without(ids[1..], id)
  }

  lemma {:induction false} WithoutElements(ids: seq<ID>, id: ID)
    ensures forall x :: x in Without(ids, id) <==> x in ids && x != id
  {
    if ids != [] {
      WithoutElements(ids[1..], id);
      assert ids == [ids[0]] + ids[1..];
    }
  }

  /** RemoveSourceFromAffected leaves the rows that the mark loop runs over. */
  lemma ScopeIDs(d: Dep, issues: seq<ID>, wisps: seq<ID>, issueIDs: seq<ID>, wispIDs: seq<ID>, b: set<Node>)
    requires !d.src.External? && b == IdNodes(false, issues) + IdNodes(true, wisps)
    requires issueIDs == if Hard(d.kind) && d.src.Issue? then Without(issues, d.src.id) else issues
    requires wispIDs == if Hard(d.kind) && d.src.Wisp? then Without(wisps, d.src.id) else wisps
    ensures IdNodes(false, issueIDs) + IdNodes(true, wispIDs) == MarkScope(d, b)
  {
    WithoutElements(issues, d.src.id);
    WithoutElements(wisps, d.src.id);
    assert d.src == Issue(d.src.id) || d.src == Wisp(d.src.id);
  }

  lemma HardSourceAffected(g: Tables, d: Dep, b: set<Node>)
    requires Hard(d.kind) && IsClosure(g, EdgeSeeds(g, d.src, d.dst.id, d.kind), b)
    ensures d.src in b
  {
    assert d.src in EdgeSeeds(g, d.src, d.dst.id, d.kind);
  }

  lemma DirectMark(g: Tables, d: Dep, x: Column, b: set<Node>)
    requires Hard(d.kind) && d.src in x && d.src in b && !x[d.src]
    requires IsActive(WithEdge(g, d), d.src) && IsActive(WithEdge(g, d), d.dst)
    ensures Raised(WithEdge(g, d), x, x[d.src := true], b)
  {
    assert d in WithEdge(g, d).deps;
    assert HardBlocked(WithEdge(g, d), d.src);
  }

  /** The direct mark and the mark loop together. */
  lemma MarkedInTwoSteps(g: Tables, d: Dep, x: Column, direct: Column, y: Column, b: set<Node>)
    requires ColumnOf(g, x) && d.src in g.status
    requires Raised(WithEdge(g, d), x, direct, b)
    requires direct == if Hard(d.kind) && IsActive(g, d.src) && IsActive(g, d.dst) then x[d.src := true] else x
    requires Raised(WithEdge(g, d), direct, y, MarkScope(d, b)) && Unmarked(WithEdge(g, d), y, MarkScope(d, b)) == {}
    ensures MarkedAlone(g, x, d, y, b)
  {
    hide ShouldBeBlocked, Unmarked;
    RaisedTrans(WithEdge(g, d), x, direct, y, b, MarkScope(d, b));
  }
}
