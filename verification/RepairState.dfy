/**
The states of one clone in the post-merge repair protocol, the steps between
them, and what every run of steps keeps.

A merge that was committed but not yet repaired is `inflight`.  A failed repair
is recorded in the marker; from then on the marker, not the caller's
from-commit, fixes the window of the next repair.
*/
module RepairState {
  import opened Wrappers
  import opened BlockedTables
  import opened Affected
  import opened BlockedMerge
  import opened BlockedMarks

  const FULL := "full"

  /** What the outside world does to one repair: failing reads and writes, and rows touched in columns not modelled. */
  datatype Env = Env(ctxDead: bool, markerUnreadable: bool, headUnreadable: bool, statusUnreadable: bool,
                     issueDiffFails: bool, edgeDiffFails: bool, expandFails: bool, updateFails: bool,
                     deleteFails: bool, dirtyElsewhere: bool, touchedIssues: set<ID>, touchedEdges: set<Dep>)

  /** A local edit that the write paths follow with a recompute, or for `AddDep` with marks alone. */
  datatype Edit = SetStatus(n: Node, status: Status) | RemoveDep(d: Dep) | AddParentChild(d: Dep) | AddDep(d: Dep)

  /** `rank` witnesses that the resulting parent links are acyclic. */
  datatype Event =
    | Merged(y: Store, rank: map<Node, nat>, newHead: Option<string>, from: string)
    | Recomputed(from: string, env: Env)
    | Marked(from: string, writeFails: bool)
    | Died
    | Wrote(e: Edit, rank: map<Node, nat>)
    | Committed(h: string)
    | Doctored

  predicate Applicable(g: Tables, e: Edit) {
    match e
    case SetStatus(n, _) => n in g.status
    case RemoveDep(d) => d in g.deps
    case AddParentChild(d) => d.kind.ParentChild? && !d.src.External? && d.src.id != "" && d.dst.id != ""
    case AddDep(d) => !d.kind.ParentChild? && d.src in g.status && d !in g.deps && d.src.id != "" && d.dst.id != ""
  }

  function Apply(g: Tables, e: Edit): Tables
    requires Applicable(g, e)
  {
    match e
    case SetStatus(n, status) => g.(status := g.status[n := status])
    case RemoveDep(d) => g.(deps := g.deps - {d})
    case AddParentChild(d) => g.(deps := g.deps + {d})
    case AddDep(d) => WithEdge(g, d)
  }

  function EditSeeds(g: Tables, e: Edit): set<Node> {
    match e
    case SetStatus(n, _) => StatusSeeds(g, n)
    case RemoveDep(d) => EdgeSeeds(g, d.src, d.dst.id, d.kind)
    case AddParentChild(d) => EdgeSeeds(g, d.src, d.dst.id, d.kind)
    case AddDep(d) => EdgeSeeds(g, d.src, d.dst.id, d.kind)
  }

  /** What a local write leaves: the affected rows recomputed, or marked, and the others as they were. */
  ghost predicate Writes(x: Store, e: Edit, y: Store) {
    && Applicable(x.g, e) && y.g == Apply(x.g, e) && y.Valid()
    && exists b ::
         && IsClosure(y.g, EditSeeds(y.g, e), b)
         && (if e.AddDep? then MarkedAlone(x.g, x.col, e.d, y.col, b)
             else AgreeOutside(y.col, x.col, b) && Stale(y.g, y.col) !! b)
  }

  /**
  What a local write does to the tables, and to the flags nearest to it: the row
  whose status it sets, the rows blocked by that row, the source of the edge it
  adds or removes.
  */
  lemma WhatIsWritten(x: Store, e: Edit, y: Store, r: Node, gate: bool)
    requires x.Valid() && Writes(x, e, y)
    ensures y.g.status == match e case SetStatus(n, status) => x.g.status[n := status] case _ => x.g.status
    ensures y.g.deps == match e
                        case SetStatus(_, _) => x.g.deps
                        case RemoveDep(d) => x.g.deps - {d}
                        case AddParentChild(d) => x.g.deps + {d}
                        case AddDep(d) => x.g.deps + {d}
    ensures e.SetStatus? ==>
              && e.n !in Stale(y.g, y.col)
              && (Dep(r, e.n, Blocks, gate) in y.g.deps ==> r !in Stale(y.g, y.col))
              && (Dep(r, e.n, ConditionalBlocks, gate) in y.g.deps ==> r !in Stale(y.g, y.col))
    ensures e.RemoveDep? && e.d.kind in {Blocks, ConditionalBlocks, ParentChild, WaitsFor} ==> e.d.src !in Stale(y.g, y.col)
    ensures e.AddParentChild? ==> e.d.src !in Stale(y.g, y.col)
    ensures e.AddDep? ==> forall q | q in x.col && x.col[q] :: q in y.col && y.col[q]
    ensures (&& e.AddDep? && e.d.kind in {Blocks, ConditionalBlocks}
             && e.d.src in x.g.status && x.g.status[e.d.src] == Active && e.d.dst in x.g.status && x.g.status[e.d.dst] == Active)
            ==> e.d.src in y.col && y.col[e.d.src]
  {
    hide Stale, ClosedUnderChildren;
    if e.SetStatus? {
      StatusSeedsIff(y.g, e.n, e.n);
      StatusSeedsIff(y.g, e.n, r);
    } else if !e.AddDep? && e.d.dst.id != "" {
      EdgeSeedsIff(y.g, e.d.src, e.d.dst.id, e.d.kind, e.d.src);
    }
  }

  // ----- the diff against a commit -----

  /** The ids that the issue diff lists. */
  function DiffIDs(base: Snapshot, s: Store, env: Env): set<ID> {
    (set n | n in ChangedNodes(base, s) :: n.id) + env.touchedIssues
  }

  /** Edges whose row changed in other columns only: the dependency diff lists them once for each side. */
  function TouchedEdges(base: Snapshot, s: Store, env: Env): set<Dep> {
    (set d | d in env.touchedEdges && d.src.Issue?) - ChangedEdges(base, s)
  }

  function SeedCount(base: Snapshot, s: Store, env: Env): nat {
    |DiffIDs(base, s, env)| + |ChangedEdges(base, s)| + 2 * |TouchedEdges(base, s, env)|
  }

  // ----- states -----

  datatype Route = Refused | Skipped | Full | Narrow

  datatype State = State(
    now: Store,
    commits: map<string, Snapshot>,
    head: string,
    marker: Option<string>,      // metadata row is_blocked_recompute_pending
    inflight: Option<string>,    // the caller's from-commit, for a merge neither repaired nor marked
    heads: seq<string>,          // every HEAD so far
    unrepaired: Option<nat>)     // where HEAD was before the earliest merge not yet repaired
  {
    /** The from-commit the next repair will use: the marker if there is one, else that of the merge in flight. */
    function Window(): Option<string> {
      if marker.Some? then marker else inflight
    }

    /** `from` is no commit hash, or was HEAD no later than position `i`. */
    ghost predicate NoLaterThan(from: string, i: nat) {
      IsCommitHash(from) ==> exists j :: 0 <= j <= i < |heads| && heads[j] == from
    }

    /** A repair from `from` would reach every stale row. */
    ghost predicate Recoverable(from: string) {
      IsCommitHash(from) && from in commits ==> WindowCoversStale(commits[from], now)
    }

    ghost predicate ValidHistory() {
      && |heads| > 0 && heads[|heads| - 1] == head
      && (marker.Some? ==> marker.value != "")
      && (unrepaired.Some? ==> unrepaired.value < |heads|)
      && (forall h | h in commits :: IsCommitHash(h) && ValidSnapshot(commits[h]))
      && (forall h | h in heads :: h in commits)
      && (Window().Some? ==> NoLaterThan(Window().value, |heads| - 1))
    }

    /** What holds whatever happens. */
    ghost predicate Sound() {
      now.Valid() && AcyclicParents(now.g) && ValidHistory()
    }

    predicate IsRight() {
      Consistent(now.g, now.col)
    }

    /**
    No recompute is lost.  Stale rows lie in the window of the next repair, and
    with no such window there are none; the window opens no later than the
    earliest merge that still needs repair.
    */
    ghost predicate Safe() {
      && Sound()
      && (unrepaired == None ==> IsRight())
      && (Window() == None ==> unrepaired == None)
      && (Window().Some? ==> Recoverable(Window().value))
      && (Window().Some? && unrepaired.Some? ==> NoLaterThan(Window().value, unrepaired.value))
    }

    /** The window's commit, if it names one, beside the wisps of now. */
    function Rebased(from: string): Store {
      if from in commits then Rebase(commits[from], now) else now
    }

    /** Nothing is stale in the versioned rows at the window's start beside the wisps of now. */
    ghost predicate Clear() {
      Window().Some? && IsCommitHash(Window().value) ==>
        Consistent(Rebased(Window().value).g, Rebased(Window().value).col)
    }

    /** The window's diff, as the marks for a new edge would leave it, reaches the affected rows that they do not mend. */
    ghost predicate MarksReached(d: Dep) {
      Window().Some? && IsCommitHash(Window().value) && Window().value in commits ==>
        UnmendedReached(commits[Window().value], now, d)
    }

    /** The branch that a repair from `from` takes. */
    function RouteOf(from: string, env: Env): Route {
      if from == "" then Full
      else if !IsCommitHash(from) || env.headUnreadable then Refused
      else if head == from && !env.statusUnreadable && !env.dirtyElsewhere && head in commits && commits[head] == IssueSide(now)
      then Skipped
      else if env.issueDiffFails || from !in commits || env.edgeDiffFails then (if env.ctxDead then Refused else Full)
      else if SeedCount(commits[from], now, env) > MERGE_RECOMPUTE_SEED_CAP then Full
      else if env.expandFails then Refused
      else Narrow
    }

    /** What the repair makes of the column: all, nothing, or as much as the scoped rows allow. */
    ghost predicate Repairs(from: string, env: Env, y: Store) {
      && y.Valid() && y.g == now.g && LocalStep(now, y)
      && match RouteOf(from, env)
         case Full => !env.updateFails && Consistent(y.g, y.col)
         case Skipped => y == now
         case Refused => false
         case Narrow =>
           && !env.updateFails
           && (Recoverable(from) || IsRight() ==> Consistent(y.g, y.col))
           && (env.touchedIssues == {} && env.touchedEdges == {} ==>
                 (Consistent(y.g, y.col) <==> SeedsReach(commits[from], now)))
    }

    /** The repair from `from` goes through, and the deletion of the marker that it read with it. */
    predicate Succeeds(from: string, env: Env) {
      var route := RouteOf(RepairFrom(from, env), env);
      !route.Refused? && (route.Skipped? || !env.updateFails) && !(ReadsMarker(env) && env.deleteFails)
    }

    /** The marker is read, and widens the window of the repair. */
    predicate ReadsMarker(env: Env) {
      marker.Some? && !env.markerUnreadable
    }

    function RepairFrom(from: string, env: Env): string {
      if !ReadsMarker(env) then from
      else if IsCommitHash(marker.value) && from != "" then marker.value
      else ""
    }

    ghost function Repaired(env: Env, y: Store): State {
      this.(now := y,
            marker := if ReadsMarker(env) then None else marker,
            inflight := None,
            unrepaired := if Consistent(y.g, y.col) then None else unrepaired)
    }

    function Noted(from: string): State {
      this.(marker := if marker.Some? then marker else Some(if IsCommitHash(from) then from else FULL), inflight := None)
    }

    /** The process ends with the merge in flight neither repaired nor marked. */
    ghost function Forgotten(): State {
      this.(inflight := None, unrepaired := if marker.None? && IsRight() then None else unrepaired)
    }

    function Latest(): nat {
      if heads == [] then 0 else |heads| - 1
    }

    /** A pull has landed in the working set. */
    ghost function Pulled(y: Store, from: string): State {
      var f := Forgotten();
      f.(now := y, inflight := Some(from), unrepaired := if f.unrepaired.None? then Some(Latest()) else f.unrepaired)
    }

    function Advanced(h: string): State {
      this.(commits := commits[h := IssueSide(now)], head := h, heads := heads + [h])
    }
  }

  // ----- steps -----

  /** A step that leaves no stale row among those it affects. */
  ghost predicate LocalStep(x: Store, y: Store) {
    exists b :: CoversChange(x, y, b) && Stale(y.g, y.col) !! b
  }

  /** What a caller and the engine guarantee of an event, in any state; nothing is asked of what a pull brings. */
  predicate Possible(e: Event, s: State) {
    match e
    case Merged(y, rank, newHead, from) =>
      && y.Valid() && Ranks(y.g, rank) && WispSide(s.now) == WispSide(y)
      && (from == s.head || from == "")
      && (newHead.Some? ==> IsCommitHash(newHead.value) && newHead.value !in s.commits)
    case Recomputed(from, _) => s.marker.Some? || s.inflight.None? || from == s.inflight.value
    case Marked(from, _) =>
      s.marker.Some? || s.inflight == Some(from) || (s.inflight.None? && (IsCommitHash(from) ==> from in s.heads))
    case Wrote(e, rank) => Applicable(s.now.g, e) && Ranks(Apply(s.now.g, e), rank)
    case Committed(h) => IsCommitHash(h) && h !in s.commits
    case Died => true
    case Doctored => true
  }

  ghost predicate Moves(e: Event, s: State, t: State) {
    if !Possible(e, s) then t == s
    else
      match e
      case Merged(y, _, newHead, from) =>
        t == if newHead.Some? then s.Pulled(y, from).Advanced(newHead.value) else s.Pulled(y, from)
      case Recomputed(from, env) =>
        if s.Succeeds(from, env) then s.Repairs(s.RepairFrom(from, env), env, t.now) && t == s.Repaired(env, t.now)
        else t == s
      case Marked(from, writeFails) => t == if writeFails then s else s.Noted(from)
      case Died => t == s.Forgotten()
      case Wrote(e, _) => Writes(s.now, e, t.now) && t == s.(now := t.now)
      case Committed(h) => t == s.Advanced(h)
      case Doctored => t.now.g == s.now.g && Consistent(t.now.g, t.now.col) && t == s.(now := t.now, unrepaired := None)
  }

  /**
  The condition under which a step loses no recompute, read off the state before
  it.  A pull whose window opens at `w` must reach, by its diff from `w`, whatever
  is stale in the rows of `w` beside the wisps that the pull finds; and a merge may
  be left without a marker only if nothing is stale or the next window opens as
  early.  A mark-only write must leave a diff that reaches the affected rows which
  its marks do not mend.  No other step can lose anything.
  */
  ghost predicate Harmless(e: Event, s: State) {
    Possible(e, s) ==>
      match e
      case Merged(y, _, _, from) =>
        var w := if s.marker.Some? then s.marker.value else from;
        && (s.marker.None? && s.inflight.Some? && !s.IsRight() ==> s.unrepaired.Some? && s.NoLaterThan(from, s.unrepaired.value))
        && (IsCommitHash(w) && w in s.commits ==> DiffReaches(s.Rebased(w), y))
      case Died => s.marker.Some? || s.inflight.None? || s.IsRight()
      case Wrote(AddDep(d), _) => s.MarksReached(d)
      case _ => true
  }

  // ----- when a repair goes through -----

  /** What the diff lists: the rows and the edges that differ, and twice each edge touched in other columns. */
  lemma DiffLists(base: Snapshot, s: Store, env: Env)
    requires s.Valid() && ValidSnapshot(base)
    ensures forall id ::
              id in DiffIDs(base, s, env) <==>
                || id in env.touchedIssues || (Issue(id) in base.status) != (Issue(id) in s.g.status)
                || (&& Issue(id) in base.status && Issue(id) in s.g.status
                    && (base.status[Issue(id)] != s.g.status[Issue(id)] || base.blocked[Issue(id)] != s.col[Issue(id)]))
    ensures forall d :: d in ChangedEdges(base, s) <==> d.src.Issue? && (d in base.deps) != (d in s.g.deps)
    ensures SeedCount(base, s, env) == |DiffIDs(base, s, env)| + |ChangedEdges(base, s)|
              + 2 * |set d | d in env.touchedEdges && d.src.Issue? && (d in base.deps) == (d in s.g.deps)|
  {
    assert TouchedEdges(base, s, env) == set d | d in env.touchedEdges && d.src.Issue? && (d in base.deps) == (d in s.g.deps);
    forall id
      ensures Issue(id) in ChangedNodes(base, s) <==>
                || (Issue(id) in base.status) != (Issue(id) in s.g.status)
                || (&& Issue(id) in base.status && Issue(id) in s.g.status
                    && (base.status[Issue(id)] != s.g.status[Issue(id)] || base.blocked[Issue(id)] != s.col[Issue(id)]))
    {
      DiffersIff(base, s, Issue(id));
    }
    forall n | n in ChangedNodes(base, s) ensures n == Issue(n.id) {
    }
  }

  lemma DiffersIff(base: Snapshot, s: Store, n: Node)
    requires s.Valid() && ValidSnapshot(base) && n.Issue?
    ensures n in ChangedNodes(base, s) <==>
              || (n in base.status) != (n in s.g.status)
              || (n in base.status && n in s.g.status && (base.status[n] != s.g.status[n] || base.blocked[n] != s.col[n]))
  {
    if n in base.status && n in s.g.status {
      assert base.status[n] in {base.status[n]} && base.blocked[n] in FlagOf(base.blocked, n);
      assert s.g.status[n] in StatusOf(s.g, n) && s.col[n] in FlagOf(s.col, n);
    }
  }

  /**
  A repair goes through whatever its diff answers and however many rows that
  lists: only a from-commit that is no hash, HEAD, an expansion, an update, the
  marker's deletion or a dead context can stop it.
  */
  lemma SucceedsIff(s: State, from: string, env: Env, w: string)
    requires w == if s.marker.None? || env.markerUnreadable then from
                  else if IsCommitHash(s.marker.value) && from != "" then s.marker.value else ""
    ensures s.RepairFrom(from, env) == w
    ensures s.Succeeds(from, env) <==>
              && (s.marker.Some? && !env.markerUnreadable ==> !env.deleteFails)
              && (w == "" ==> !env.updateFails)
              && (w != "" ==>
                    && IsCommitHash(w) && !env.headUnreadable
                    && (|| (&& s.head == w && !env.statusUnreadable && !env.dirtyElsewhere
                            && w in s.commits && s.commits[w] == IssueSide(s.now))
                        || (!env.updateFails &&
                            if env.issueDiffFails || env.edgeDiffFails || w !in s.commits then !env.ctxDead
                            else SeedCount(s.commits[w], s.now, env) > 1000 || !env.expandFails)))
  {
    hide SeedCount, IssueSide, IsCommitHash;
  }

  /** Where the diff is of no use the repair is the full one, so the column is right afterwards whatever it was before. */
  lemma UselessDiffIsFull(s: State, w: string, env: Env, y: Store)
    requires s.Repairs(w, env, y)
    requires || w == ""
             || (&& (env.issueDiffFails || env.edgeDiffFails || w !in s.commits || SeedCount(s.commits[w], s.now, env) > 1000)
                 && !(&& s.head == w && !env.statusUnreadable && !env.dirtyElsewhere
                      && w in s.commits && s.commits[w] == IssueSide(s.now)))
    ensures Consistent(y.g, y.col)
  {
    hide SeedCount, IssueSide, IsCommitHash, Consistent, LocalStep;
  }

  lemma LocalStepKeepsWindowOf(base: Snapshot, x: Store, y: Store)
    requires x.Valid() && y.Valid() && ValidSnapshot(base) && LocalStep(x, y) && WindowCoversStale(base, x)
    ensures WindowCoversStale(base, y)
  {
    var b :| CoversChange(x, y, b) && Stale(y.g, y.col) !! b;
    LocalStepKeepsWindow(base, x, y, b);
  }

  lemma StepKeepsConsistency(x: Store, y: Store)
    requires x.Valid() && y.Valid() && LocalStep(x, y) && Consistent(x.g, x.col)
    ensures Consistent(y.g, y.col)
  {
    var b :| CoversChange(x, y, b) && Stale(y.g, y.col) !! b;
    LocalStepKeepsConsistency(x, y, b);
  }

  lemma RightIsRecoverable(s: State, from: string)
    requires s.now.Valid() && s.IsRight()
    ensures s.Recoverable(from)
  {
    hide CoversChange, ShouldBeBlocked;
    NothingStale(s.now);
  }

  lemma WindowIsKnown(s: State)
    requires s.ValidHistory() && s.Window().Some? && IsCommitHash(s.Window().value)
    ensures s.Window().value in s.commits
  {
  }

  lemma LocalStepSafe(s: State, y: Store)
    requires s.Sound() && y.Valid() && AcyclicParents(y.g) && LocalStep(s.now, y)
    ensures s.(now := y).Sound() && (s.Safe() ==> s.(now := y).Safe())
  {
    hide LocalStep, WindowCoversStale, Consistent, AcyclicParents, IsCommitHash, Store.Valid, ValidSnapshot;
    if s.Safe() && s.Window().Some? && s.Window().value in s.commits && IsCommitHash(s.Window().value) {
      LocalStepKeepsWindowOf(s.commits[s.Window().value], s.now, y);
    }
    if s.Safe() && s.IsRight() {
      StepKeepsConsistency(s.now, y);
    }
  }

  /** Dying loses the window exactly when a merge with stale rows is in flight and no marker stands. */
  lemma ForgottenIff(s: State)
    requires s.Sound()
    ensures s.Forgotten().Sound()
    ensures s.Safe() ==> (s.Forgotten().Safe() <==> s.marker.Some? || s.inflight.None? || s.IsRight())
  {
    hide WindowCoversStale, Consistent, AcyclicParents, IsCommitHash, Store.Valid, ValidSnapshot;
  }

  lemma PulledIff(s: State, y: Store, rank: map<Node, nat>, newHead: Option<string>, from: string)
    requires s.Sound() && Possible(Merged(y, rank, newHead, from), s)
    ensures s.Pulled(y, from).Sound()
    ensures s.Safe() ==> (s.Pulled(y, from).Safe() <==> Harmless(Merged(y, rank, newHead, from), s))
  {
    hide WindowCoversStale, DiffReaches, Rebase, Ranks, WispSide, Consistent, Store.Valid, ValidSnapshot;
    var t := s.Pulled(y, from);
    var w := if s.marker.Some? then s.marker.value else from;
    assert t.Window() == Some(w) && t.commits == s.commits && t.heads == s.heads;
    assert t.Sound() by {
      assert AcyclicParents(y.g);
      NotAHash(s);
      HeadIsLatest(s);
    }
    if IsCommitHash(w) && w in s.commits {
      PullKeepsWindowIff(s.commits[w], s.now, y);
    }
    if s.Safe() && t.unrepaired.Some? {
      HeadIsLatest(s);
      NotAHash(s);
    }
  }

  lemma NotAHash(s: State)
    ensures !IsCommitHash("") && !IsCommitHash(FULL) && forall i :: s.NoLaterThan("", i) && s.NoLaterThan(FULL, i)
  {
  }

  lemma HeadIsLatest(s: State)
    requires |s.heads| > 0 && s.heads[|s.heads| - 1] == s.head
    ensures s.NoLaterThan(s.head, |s.heads| - 1)
  {
  }

  lemma NoLaterAdvanced(s: State, h: string, from: string, i: nat)
    requires i < |s.heads|
    ensures s.Advanced(h).NoLaterThan(from, i) <==> s.NoLaterThan(from, i)
  {
    assert forall j | 0 <= j <= i :: s.Advanced(h).heads[j] == s.heads[j];
  }

  /** A commit of the working set changes nothing that the protocol relies on. */
  lemma AdvancedIff(s: State, h: string)
    requires s.Sound() && IsCommitHash(h) && h !in s.commits
    ensures s.Advanced(h).Sound() && (s.Advanced(h).Safe() <==> s.Safe())
  {
    hide WindowCoversStale, Consistent, AcyclicParents, IsCommitHash, IssueSide, Store.Valid, ValidSnapshot, State.NoLaterThan;
    var t := s.Advanced(h);
    IssueSideValid(s.now);
    assert forall x | x in t.heads :: x in s.heads || x == h;
    if s.Window().Some? {
      var w := s.Window().value;
      NoLaterAdvanced(s, h, w, |s.heads| - 1);
      NoLaterWeaker(t, w, |s.heads| - 1);
      if s.unrepaired.Some? {
        NoLaterAdvanced(s, h, w, s.unrepaired.value);
      }
      if IsCommitHash(w) {
        KnownFrom(s, w);
      }
    }
  }

  lemma KnownFrom(s: State, w: string)
    requires s.ValidHistory() && IsCommitHash(w) && s.NoLaterThan(w, |s.heads| - 1)
    ensures w in s.commits
  {
  }

  lemma NoLaterWeaker(s: State, from: string, i: nat)
    requires s.NoLaterThan(from, i) && i < |s.heads|
    ensures s.NoLaterThan(from, |s.heads| - 1)
  {
  }

  lemma NotedSafe(s: State, from: string)
    requires s.Sound() && Possible(Marked(from, false), s)
    ensures s.Noted(from).Sound() && (s.Safe() ==> s.Noted(from).Safe())
  {
    hide WindowCoversStale, Consistent, AcyclicParents, Store.Valid, ValidSnapshot;
    NotAHash(s);
    if s.Safe() && s.Window().None? {
      RightIsRecoverable(s, from);
    }
  }

  lemma RepairedSafe(s: State, from: string, env: Env, y: Store)
    requires s.Sound() && Possible(Recomputed(from, env), s) && s.Repairs(s.RepairFrom(from, env), env, y)
    ensures s.Repaired(env, y).Sound() && (s.Safe() ==> s.Repaired(env, y).Safe())
    ensures s.Safe() && (s.marker.None? || s.ReadsMarker(env)) ==> Consistent(y.g, y.col)
  {
    hide WindowCoversStale, LocalStep, Consistent, AcyclicParents, IsCommitHash, Store.Valid, ValidSnapshot, State.RouteOf;
    var t := s.Repaired(env, y);
    NotAHash(s);
    LocalStepSafe(s, y);
    if Consistent(y.g, y.col) {
      RightIsRecoverable(t, if t.Window().Some? then t.Window().value else "");
    }
    if s.Safe() && (s.marker.None? || s.ReadsMarker(env)) {
      SafeRepairIsFull(s, from, env, y);
    }
  }

  /** In a safe state the repair that reads the marker, or finds none, leaves the whole column right. */
  lemma SafeRepairIsFull(s: State, from: string, env: Env, y: Store)
    requires s.Safe() && Possible(Recomputed(from, env), s) && s.Repairs(s.RepairFrom(from, env), env, y)
    requires s.marker.None? || s.ReadsMarker(env)
    ensures Consistent(y.g, y.col)
  {
    hide WindowCoversStale, LocalStep, Consistent, AcyclicParents, Store.Valid, ValidSnapshot, SeedsReach;
    var w := s.RepairFrom(from, env);
    if s.RouteOf(w, env).Skipped? {
      SkipIsSafe(s, w);
    }
  }

  /** The head == fromCommit skip is taken only when nothing is stale, if the window covers what is. */
  lemma SkipIsSafe(s: State, w: string)
    requires s.Sound() && w == s.head && s.commits[w] == IssueSide(s.now) && IsCommitHash(w)
    ensures s.Recoverable(w) <==> s.IsRight()
  {
    hide ShouldBeBlocked, CoversChange, AcyclicParents;
    if s.Recoverable(w) {
      CleanWindowIsConsistent(s.now);
    } else if s.IsRight() {
      RightIsRecoverable(s, w);
    }
  }

  lemma DoctoredSafe(s: State, y: Store)
    requires s.Sound() && y.g == s.now.g && Consistent(y.g, y.col)
    ensures s.(now := y, unrepaired := None).Safe()
  {
    hide WindowCoversStale, AcyclicParents, IsCommitHash, ShouldBeBlocked;
    var t := s.(now := y, unrepaired := None);
    RightIsRecoverable(t, if t.Window().Some? then t.Window().value else "");
  }

  lemma EditStep(x: Store, e: Edit, y: Store)
    requires Writes(x, e, y) && !e.AddDep?
    ensures LocalStep(x, y)
  {
    hide StatusSeeds, EdgeSeeds, Stale;
    var b :| IsClosure(y.g, EditSeeds(y.g, e), b) && AgreeOutside(y.col, x.col, b) && Stale(y.g, y.col) !! b;
    assert CoversChange(x, y, b);
  }

  /** A mark-only write keeps a safe state safe exactly when its window still reaches what the marks do not mend. */
  lemma MarkedWriteIff(s: State, d: Dep, y: Store)
    requires s.Sound() && Writes(s.now, AddDep(d), y) && AcyclicParents(y.g)
    ensures s.(now := y).Sound()
    ensures s.IsRight() ==> Consistent(y.g, y.col)
    ensures s.Safe() ==> (s.(now := y).Safe() <==> s.MarksReached(d))
  {
    hide WindowCoversStale, UnmendedReached, LeftReached, Rebase, ShouldBeBlocked, IsClosure, EdgeSeeds, StatusSeeds,
         MarkedAlone, CoversChange, Consistent, Ranks;
    var t := s.(now := y);
    var b :| IsClosure(y.g, EditSeeds(y.g, AddDep(d)), b) && MarkedAlone(s.now.g, s.now.col, d, y.col, b);
    var rank :| Ranks(s.now.g, rank);
    if s.IsRight() {
      MarkingIsEnough(s.now.g, rank, s.now.col, d, y.col, b);
    }
    if s.Safe() && s.Window().Some? && IsCommitHash(s.Window().value) && s.Window().value in s.commits {
      var base := s.commits[s.Window().value];
      MarkedIsRaised(s.now.g, s.now.col, d, y.col, b);
      EdgeCovered(s.now.g, s.now.col, d, y.col, b);
      MarksKeepWindowIff(base, s.now, d, y, b);
      PredictedIsLeft(base, s.now, d, y, b);
    }
  }

  /** From a safe state a step leads to a safe one exactly when it is harmless. */
  lemma StepIff(e: Event, s: State, t: State)
    requires s.Sound() && Moves(e, s, t)
    ensures t.Sound() && (s.Safe() ==> (t.Safe() <==> Harmless(e, s)))
  {
    hide WindowCoversStale, DiffReaches, Consistent, AcyclicParents, IsCommitHash, Ranks, WispSide, IssueSide, Rebase,
         State.Sound, State.Safe, State.Repairs, State.RouteOf, State.Succeeds, Writes, Apply, Applicable, LocalStep;
    if Possible(e, s) {
      match e
      case Merged(y, rank, newHead, from) =>
        PulledIff(s, y, rank, newHead, from);
        if newHead.Some? {
          AdvancedIff(s.Pulled(y, from), newHead.value);
        }
      case Recomputed(from, env) =>
        if t != s {
          RepairedSafe(s, from, env, t.now);
        }
      case Marked(from, _) =>
        NotedSafe(s, from);
      case Died =>
        ForgottenIff(s);
      case Wrote(edit, rank) =>
        WriteIff(s, edit, rank, t.now);
      case Committed(h) =>
        AdvancedIff(s, h);
      case Doctored =>
        DoctoredSafe(s, t.now);
        SafeIsSound(t);
    }
  }

  lemma WriteIff(s: State, e: Edit, rank: map<Node, nat>, y: Store)
    requires s.Sound() && Writes(s.now, e, y) && Ranks(Apply(s.now.g, e), rank)
    ensures var t := s.(now := y);
            t.Sound() && (s.Safe() ==> (t.Safe() <==> (e.AddDep? ==> s.MarksReached(e.d))))
  {
    hide WindowCoversStale, DiffReaches, Consistent, IsCommitHash, Rebase, LocalStep, ValidSnapshot, MarkedAlone,
         IsClosure, EdgeSeeds, StatusSeeds, Stale;
    assert AcyclicParents(y.g);
    if e.AddDep? {
      MarkedWriteIff(s, e.d, y);
    } else {
      EditStep(s.now, e, y);
      LocalStepSafe(s, y);
    }
  }

  // ----- runs -----

  ghost predicate Run(states: seq<State>, events: seq<Event>) {
    && |states| == |events| + 1
    && forall i | 0 <= i < |events| :: Moves(events[i], states[i], states[i + 1])
  }

  lemma {:induction false} RunIsSound(states: seq<State>, events: seq<Event>, i: nat)
    requires Run(states, events) && states[0].Sound() && i < |states|
    ensures states[i].Sound()
    decreases i
  {
    hide Moves, State.Sound;
    if i > 0 {
      RunIsSound(states, events, i - 1);
      StepIff(events[i - 1], states[i - 1], states[i]);
    }
  }

  /** Over any run of any events: every state is safe exactly when every step was harmless. */
  lemma {:induction false} RunIsSafeIff(states: seq<State>, events: seq<Event>, n: nat)
    requires Run(states, events) && states[0].Safe() && n <= |events|
    ensures (forall i | 0 <= i <= n :: states[i].Safe()) <==>
              forall i | 0 <= i < n :: Harmless(events[i], states[i])
    decreases n
  {
    hide Moves, Harmless, State.Safe;
    if n > 0 {
      RunIsSafeIff(states, events, n - 1);
      SafeIsSound(states[0]);
      RunIsSound(states, events, n - 1);
      StepIff(events[n - 1], states[n - 1], states[n]);
      if forall i | 0 <= i < n :: Harmless(events[i], states[i]) {
        assert forall i | 0 <= i <= n - 1 :: states[i].Safe();
      }
    }
  }

  lemma SafeIsSound(s: State)
    requires s.Safe()
    ensures s.Sound()
  {
  }
}
