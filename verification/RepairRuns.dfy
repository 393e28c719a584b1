/**
Conditions under which the steps of the post-merge repair protocol are harmless,
in terms of what a caller can see, and the runs that meet them.
*/
module RepairRuns {
  import opened Wrappers
  import opened BlockedTables
  import opened Affected
  import opened BlockedMarks
  import opened BlockedMerge
  import opened RepairState

  /** A pull that takes nothing back to what it was at the marker is harmless. */
  lemma NoRevertIsHarmless(s: State, y: Store, rank: map<Node, nat>, newHead: Option<string>, from: string)
    requires s.Safe() && s.marker.Some? && Possible(Merged(y, rank, newHead, from), s)
    requires s.marker.value in s.commits ==> NoRevert(s.commits[s.marker.value], s.now, y)
    ensures Harmless(Merged(y, rank, newHead, from), s)
  {
    hide WindowCoversStale, DiffReaches, Rebase, Ranks, WispSide, Consistent, Store.Valid, ValidSnapshot, NoRevert;
    var w := s.marker.value;
    if IsCommitHash(w) && w in s.commits {
      MergeKeepsWindow(s.commits[w], s.now, y);
      PullKeepsWindowIff(s.commits[w], s.now, y);
    }
  }

  /**
  A step that changes no wisp while a repair is owed, opens a window only on a
  clean working set, and leaves no merge with stale rows unrecorded.
  */
  ghost predicate Quiet(e: Event, s: State, t: State) {
    && (WispSide(t.now) == WispSide(s.now) || t.Window().None?)
    && (t.Window().Some? && t.Window() != s.Window() && IsCommitHash(t.Window().value) ==>
          t.Window().value in s.commits && s.commits[t.Window().value] == IssueSide(s.now))
    && (e.Merged? || e.Died? ==> s.marker.Some? || s.inflight.None? || s.IsRight())
  }

  lemma ClearPull(s: State, w: string, y: Store)
    requires s.Sound() && y.Valid() && WispSide(s.now) == WispSide(y) && IsCommitHash(w) && w in s.commits
    requires Consistent(s.Rebased(w).g, s.Rebased(w).col)
    ensures DiffReaches(s.Rebased(w), y)
  {
    hide WindowCoversStale, DiffReaches, Rebase, WispSide, Consistent, AcyclicParents, IsCommitHash;
    AnyPullKeepsWindow(s.commits[w], s.now, y);
  }

  /** On a clean, right working set nothing is stale beside today's wisps. */
  lemma CleanIsClear(s: State, w: string)
    requires w in s.commits && s.commits[w] == IssueSide(s.now) && s.IsRight()
    ensures Consistent(s.Rebased(w).g, s.Rebased(w).col)
  {
    hide Rebase, IssueSide, Consistent;
    RebaseSame(s.now);
  }

  lemma ClearStays(s: State, t: State, w: string)
    requires w in s.commits && w in t.commits && t.commits[w] == s.commits[w] && WispSide(s.now) == WispSide(t.now)
    ensures t.Rebased(w) == s.Rebased(w)
  {
    hide WispSide;
  }

  /** A safe state whose window is clear stays so, whatever a pull brings. */
  lemma QuietStep(e: Event, s: State, t: State)
    requires s.Safe() && s.Clear() && Moves(e, s, t) && Quiet(e, s, t)
    ensures Harmless(e, s) && t.Safe() && t.Clear()
  {
    hide Moves, Quiet, Harmless, State.Safe, State.Sound, State.Clear;
    SafeIsSound(s);
    StepIff(e, s, t);
    QuietIsClear(e, s, t);
    QuietIsHarmless(e, s, t);
  }

  lemma CommitsKept(e: Event, s: State, t: State, w: string)
    requires Moves(e, s, t) && w in s.commits
    ensures w in t.commits && t.commits[w] == s.commits[w]
  {
    hide Writes, Apply, Applicable, State.Repairs, State.RouteOf, WispSide, Ranks, Consistent, IssueSide;
  }

  lemma QuietIsClear(e: Event, s: State, t: State)
    requires s.Safe() && s.Clear() && Moves(e, s, t) && Quiet(e, s, t)
    ensures t.Clear()
  {
    hide Writes, Apply, Applicable, State.Repairs, State.RouteOf, WispSide, Ranks, Consistent, IssueSide, State.Rebased,
         WindowCoversStale, AcyclicParents, Moves, State.Recoverable, Store.Valid, IsCommitHash;
    if t.Window().Some? && IsCommitHash(t.Window().value) {
      var w := t.Window().value;
      if t.Window() == s.Window() {
        WindowIsKnown(s);
      } else {
        OpensWhenRight(e, s, t);
        CleanIsClear(s, w);
      }
      CommitsKept(e, s, t, w);
      ClearStays(s, t, w);
    }
  }

  /** A step that gives the clone another window finds nothing stale. */
  lemma OpensWhenRight(e: Event, s: State, t: State)
    requires s.Safe() && Moves(e, s, t) && Quiet(e, s, t)
    requires t.Window().Some? && t.Window() != s.Window() && IsCommitHash(t.Window().value)
    ensures s.IsRight()
  {
    hide Writes, Apply, Applicable, State.Repairs, State.RouteOf, WispSide, Ranks, Consistent, IssueSide, State.Rebased,
         WindowCoversStale, AcyclicParents, State.Recoverable, Store.Valid;
    NotAHash(s);
  }

  lemma QuietIsHarmless(e: Event, s: State, t: State)
    requires s.Safe() && s.Clear() && Moves(e, s, t) && Quiet(e, s, t) && t.Clear() && t.Sound()
    ensures Harmless(e, s)
  {
    hide Writes, Apply, Applicable, State.Repairs, State.RouteOf, WispSide, Ranks, Consistent, IssueSide, State.Rebased,
         WindowCoversStale, AcyclicParents, State.Recoverable, DiffReaches, Store.Valid;
    if Possible(e, s) {
      match e
      case Merged(y, rank, newHead, from) =>
        var w := if s.marker.Some? then s.marker.value else from;
        if IsCommitHash(w) && w in s.commits {
          if s.marker.None? && s.Window() != t.Window() {
            CleanIsClear(s, w);
          }
          ClearPull(s, w, y);
        }
      case Wrote(AddDep(d), rank) =>
        if s.Window().Some? && IsCommitHash(s.Window().value) && s.Window().value in s.commits {
          ClearMarks(s, d, t.now);
        }
      case _ =>
    }
  }

  /** If nothing is stale at the window's start beside the wisps that the write leaves, its marks lose nothing. */
  lemma ClearMarks(s: State, d: Dep, y: Store)
    requires s.Sound() && Writes(s.now, AddDep(d), y) && s.(now := y).Clear()
    requires s.Window().Some? && IsCommitHash(s.Window().value) && s.Window().value in s.commits
    ensures s.MarksReached(d)
  {
    hide CoversChange, ShouldBeBlocked, MarkedAlone, IsClosure, EdgeSeeds, UnmendedReached, Rebase, AcyclicParents, IsStale;
    var base := s.commits[s.Window().value];
    var b :| IsClosure(y.g, EditSeeds(y.g, AddDep(d)), b) && MarkedAlone(s.now.g, s.now.col, d, y.col, b);
    RebaseValid(base, y);
    NothingStale(Rebase(base, y));
    forall c | CoversChange(Rebase(base, y), y, c) ensures Unmended(y, b) <= c {
      StaleTogether(Rebase(base, y), y, c);
    }
    PredictedIsLeft(base, s.now, d, y, b);
  }

  /** A mark-only write is harmless if none of the rows it affects is stale before it. */
  lemma MendingIsHarmless(s: State, d: Dep, y: Store, b: set<Node>)
    requires s.Sound() && Writes(s.now, AddDep(d), y) && IsAffected(s.now, d, b) && Stale(s.now.g, s.now.col) !! b
    ensures s.MarksReached(d) && LocalStep(s.now, y)
  {
    hide CoversChange, ShouldBeBlocked, MarkedAlone, IsClosure, EdgeSeeds, UnmendedReached, Rebase, Ranks, IsStale;
    var c :| IsClosure(y.g, EditSeeds(y.g, AddDep(d)), c) && MarkedAlone(s.now.g, s.now.col, d, y.col, c);
    AffectedUnique(s.now, d, b, c);
    var rank :| Ranks(s.now.g, rank);
    MarkingMends(s.now.g, rank, s.now.col, d, y.col, b);
    MarkedIsRaised(s.now.g, s.now.col, d, y.col, b);
    EdgeCovered(s.now.g, s.now.col, d, y.col, b);
    if s.Window().Some? && IsCommitHash(s.Window().value) && s.Window().value in s.commits {
      PredictedIsLeft(s.commits[s.Window().value], s.now, d, y, b);
    }
  }

  /** It is harmless too if it takes nothing back to what it was at the window's start. */
  lemma NoRevertMarksAreHarmless(s: State, d: Dep, y: Store)
    requires s.Safe() && Writes(s.now, AddDep(d), y) && AcyclicParents(y.g)
    requires s.Window().Some? && s.Window().value in s.commits ==> NoRevert(s.commits[s.Window().value], s.now, y)
    ensures s.MarksReached(d)
  {
    hide CoversChange, ShouldBeBlocked, MarkedAlone, IsClosure, EdgeSeeds, UnmendedReached, Rebase, Ranks, IsStale, NoRevert,
         WindowCoversStale, LeftReached;
    if s.Window().Some? && IsCommitHash(s.Window().value) && s.Window().value in s.commits {
      var base := s.commits[s.Window().value];
      var b :| IsClosure(y.g, EditSeeds(y.g, AddDep(d)), b) && MarkedAlone(s.now.g, s.now.col, d, y.col, b);
      var rank :| Ranks(s.now.g, rank);
      MarkedIsRaised(s.now.g, s.now.col, d, y.col, b);
      EdgeCovered(s.now.g, s.now.col, d, y.col, b);
      MarksWithoutReverts(base, s.now, rank, d, y, b);
      MarksKeepWindowIff(base, s.now, d, y, b);
      PredictedIsLeft(base, s.now, d, y, b);
    }
  }

  /** So no hypothesis on pulls is needed as long as no wisp changes while a repair is owed. */
  lemma {:induction false} QuietRunIsSafe(states: seq<State>, events: seq<Event>, i: nat)
    requires Run(states, events) && states[0].Safe() && states[0].Clear() && i < |states|
    requires forall k | 0 <= k < |events| :: Quiet(events[k], states[k], states[k + 1])
    ensures states[i].Safe() && states[i].Clear()
    decreases i
  {
    hide Moves, Quiet, State.Safe, State.Clear;
    if i > 0 {
      QuietRunIsSafe(states, events, i - 1);
      QuietStep(events[i - 1], states[i - 1], states[i]);
    }
  }

  /**
  At every point of every run, safe or not: a scoped repair that succeeds, with no
  row touched in other columns, leaves the column right exactly when the rows that
  its diff seeds hold what is stale at its window's start beside the wisps of now.
  */
  lemma RetryIsFullIff(states: seq<State>, events: seq<Event>, i: nat, from: string, env: Env)
    requires Run(states, events) && states[0].Sound() && i < |events| && events[i] == Recomputed(from, env)
    requires Possible(events[i], states[i]) && states[i].Succeeds(from, env)
    requires states[i].RouteOf(states[i].RepairFrom(from, env), env).Narrow?
    requires env.touchedIssues == {} && env.touchedEdges == {}
    ensures var w := states[i].RepairFrom(from, env);
            w in states[i].commits && (states[i + 1].IsRight() <==> SeedsReach(states[i].commits[w], states[i].now))
    ensures states[i].Safe() && (states[i].marker.None? || states[i].ReadsMarker(env)) ==> states[i + 1].IsRight()
  {
    hide SeedsReach, Consistent, LocalStep, State.Recoverable, AcyclicParents, Possible;
    assert Moves(events[i], states[i], states[i + 1]);
    RunIsSound(states, events, i);
    RepairedSafe(states[i], from, env, states[i + 1].now);
  }
}
