/** Three runs of one clone that end with a wrong flag, the last repair successful and no repair owed. */
module RepairScenarios {
  import opened Wrappers
  import opened BlockedTables
  import opened Affected
  import opened BlockedMarks
  import opened BlockedMerge
  import opened RepairState
  import opened RepairRuns
  import opened MergeRepair

  /** Nothing fails, and no row has changed in other columns. */
  const CALM := Env(false, false, false, false, false, false, false, false, false, false, {}, {})

  /** HEAD cannot be read, so the repair fails. */
  const FAILING := CALM.(headUnreadable := true)

  // ----- steps that the runs share -----

  /** With nothing changed, the diff has no seeds. */
  lemma NoDiff(s: Store)
    ensures CoversDiff(IssueSide(s), s, {}) && SeedCount(IssueSide(s), s, CALM) == 0
  {
    hide StatusSeeds, EdgeSeeds;
    var base := IssueSide(s);
    assert forall n: Node | n.Issue? && n in s.g.status :: n in base.status && base.status[n] == s.g.status[n];
    assert forall n: Node | n.Issue? && n in s.col :: n in base.blocked && base.blocked[n] == s.col[n];
    assert ChangedNodes(base, s) == {};
    assert ChangedEdges(base, s) == {};
  }

  lemma NotReached(s: Store)
    requires s.Valid() && !Consistent(s.g, s.col)
    ensures !SeedsReach(IssueSide(s), s)
  {
    hide CoversDiff, IssueSide, IsStale;
    NoDiff(s);
    RebaseSame(s);
    NothingStale(s);
  }

  /** A pull on a clean, right working set, in a new commit. */
  lemma PullFromClean(s: State, y: Store, rank: map<Node, nat>, h: string, t: State)
    requires s.Safe() && s.Window().None? && s.head in s.commits && s.commits[s.head] == IssueSide(s.now)
    requires Possible(Merged(y, rank, Some(h), s.head), s) && Moves(Merged(y, rank, Some(h), s.head), s, t)
    ensures t.Safe() && t.now == y && t.marker == None && t.inflight == Some(s.head) && t.head == h
    ensures t.commits == s.commits[h := IssueSide(y)]
  {
    hide IssueSide, WispSide, Ranks, Consistent, AcyclicParents, Store.Valid, DiffReaches, State.Rebased, WindowCoversStale;
    CleanIsClear(s, s.head);
    ClearPull(s, s.head, y);
    StepIff(Merged(y, rank, Some(h), s.head), s, t);
  }

  /** The repair fails and is marked. */
  lemma FailsAndIsMarked(s: State, from: string, t: State, u: State)
    requires s.Safe() && s.marker.None? && s.inflight == Some(from) && IsCommitHash(from)
    requires Moves(Recomputed(from, FAILING), s, t) && Moves(Marked(from, false), t, u)
    ensures t == s && u.Safe() && u == s.(marker := Some(from), inflight := None)
  {
    hide IssueSide, Consistent, AcyclicParents, Store.Valid, WindowCoversStale, IsCommitHash;
    NotAHash(s);
    assert s.RepairFrom(from, FAILING) == from;
    assert !s.Succeeds(from, FAILING);
    StepIff(Marked(from, false), t, u);
  }

  /** A pull while a marker stands, in a new commit. */
  lemma PullUnderMarker(s: State, y: Store, rank: map<Node, nat>, h: string, t: State)
    requires s.Safe() && s.marker.Some? && IsCommitHash(s.marker.value) && s.marker.value in s.commits
    requires Possible(Merged(y, rank, Some(h), s.head), s) && Moves(Merged(y, rank, Some(h), s.head), s, t)
    ensures t.Sound() && t.now == y && t.marker == s.marker && t.inflight == Some(s.head) && t.head == h
    ensures t.commits == s.commits[h := IssueSide(y)]
    ensures t.Safe() <==> DiffReaches(Rebase(s.commits[s.marker.value], s.now), y)
  {
    hide IssueSide, WispSide, Ranks, Consistent, AcyclicParents, Store.Valid, DiffReaches, Rebase, WindowCoversStale,
         IsCommitHash;
    StepIff(Merged(y, rank, Some(h), s.head), s, t);
  }

  /** A marked repair whose diff is empty goes through, drops the marker, and mends nothing. */
  lemma EmptyDiffRepair(s: State, from: string, t: State)
    requires s.Sound() && s.marker.Some? && IsCommitHash(s.marker.value) && s.marker.value in s.commits
    requires s.commits[s.marker.value] == IssueSide(s.now) && s.head != s.marker.value && from != "" && !s.IsRight()
    requires Moves(Recomputed(from, CALM), s, t)
    ensures Possible(Recomputed(from, CALM), s) && s.Succeeds(from, CALM)
    ensures s.RouteOf(s.RepairFrom(from, CALM), CALM).Narrow?
    ensures t.marker == None && t.inflight == None && !t.IsRight() && !s.Safe()
  {
    hide IssueSide, Consistent, AcyclicParents, WindowCoversStale, IsCommitHash, SeedsReach, SeedCount, LocalStep,
         State.Recoverable;
    NotAHash(s);
    NoDiff(s.now);
    NotReached(s.now);
    assert s.RepairFrom(from, CALM) == s.marker.value;
    if s.Safe() {
      SafeRepairIsFull(s, from, CALM, t.now);
    }
  }

  /** A repair on a clean working set at the caller's HEAD goes through at once, and changes no flag. */
  lemma SkippedRepair(s: State, t: State)
    requires s.Sound() && s.Window().None? && IsCommitHash(s.head) && s.head in s.commits && s.commits[s.head] == IssueSide(s.now)
    requires Moves(Recomputed(s.head, CALM), s, t)
    ensures Possible(Recomputed(s.head, CALM), s) && s.Succeeds(s.head, CALM)
    ensures s.RouteOf(s.RepairFrom(s.head, CALM), CALM).Skipped?
    ensures t.now == s.now && t.marker == None && t.inflight == None
  {
    hide IssueSide, Consistent, AcyclicParents, WindowCoversStale, IsCommitHash, LocalStep;
    NotAHash(s);
    assert s.RepairFrom(s.head, CALM) == s.head;
  }

  lemma PlainWriteSafe(s: State, e: Edit, rank: map<Node, nat>, t: State)
    requires s.Safe() && !e.AddDep? && Possible(Wrote(e, rank), s) && Moves(Wrote(e, rank), s, t)
    ensures t.Safe() && Writes(s.now, e, t.now) && t == s.(now := t.now)
  {
    hide State.Safe, Writes, Ranks;
    SafeIsSound(s);
    StepIff(Wrote(e, rank), s, t);
  }

  ghost function StartState(s: Store, h: string): State {
    State(s, map[h := IssueSide(s)], h, None, None, [h], None)
  }

  // ----- a pull that takes another one back -----

  /** `p` depends on the issue `x`, and the wisp `w` is a child of `p`. */
  function Family(x: Node, p: Node, w: Node, status: Status, pFlag: bool, wFlag: bool): Store {
    Store(Tables(map[x := status, p := Active, w := Active],
                 {Dep(p, x, Blocks, false), Dep(w, p, ParentChild, false)}),
          map[x := false, p := pFlag, w := wFlag])
  }

  predicate FamilyNodes(x: Node, p: Node, w: Node) {
    x.Issue? && p.Issue? && w.Wisp? && x != p && x.id != "" && p.id != "" && w.id != ""
  }

  function Order(x: Node, p: Node, w: Node): map<Node, nat> {
    map[x := 0, p := 0, w := 1]
  }

  lemma FamilyValid(x: Node, p: Node, w: Node, status: Status, pFlag: bool, wFlag: bool)
    requires FamilyNodes(x, p, w)
    ensures var s := Family(x, p, w, status, pFlag, wFlag);
            s.Valid() && s.g.Valid() && Ranks(s.g, Order(x, p, w)) && AcyclicParents(s.g)
  {
    assert Ranks(Family(x, p, w, status, pFlag, wFlag).g, Order(x, p, w));
  }

  lemma FamilyIssueSide(x: Node, p: Node, w: Node, status: Status, pFlag: bool, a: bool, b: bool)
    requires FamilyNodes(x, p, w)
    ensures IssueSide(Family(x, p, w, status, pFlag, a)) == IssueSide(Family(x, p, w, status, pFlag, b))
  {
    var s, t := Family(x, p, w, status, pFlag, a), Family(x, p, w, status, pFlag, b);
    assert IssueSide(s).blocked == IssueSide(t).blocked;
  }

  lemma FamilyWispSide(x: Node, p: Node, w: Node, c: Status, d: Status, a: bool, b: bool, wFlag: bool)
    requires FamilyNodes(x, p, w)
    ensures WispSide(Family(x, p, w, c, a, wFlag)) == WispSide(Family(x, p, w, d, b, wFlag))
  {
    var s, t := Family(x, p, w, c, a, wFlag), Family(x, p, w, d, b, wFlag);
    assert WispSide(s).status == WispSide(t).status;
    assert WispSide(s).blocked == WispSide(t).blocked;
  }

  lemma FamilyRight(x: Node, p: Node, w: Node, status: Status, pFlag: bool, wFlag: bool)
    requires FamilyNodes(x, p, w)
    ensures var s := Family(x, p, w, status, pFlag, wFlag);
            Consistent(s.g, s.col) <==> pFlag == status.Active? && wFlag == pFlag
  {
    var s := Family(x, p, w, status, pFlag, wFlag);
    assert Dep(p, x, Blocks, false) in s.g.deps && Dep(w, p, ParentChild, false) in s.g.deps;
    assert !IsStale(s.g, s.col, x);
    assert IsStale(s.g, s.col, p) <==> pFlag != status.Active?;
    assert IsStale(s.g, s.col, w) <==> wFlag != pFlag;
  }

  /** A write on the wisp brings its flag into line with its parent's, and no other flag. */
  lemma WispFollows(x: Node, p: Node, w: Node, y: Store)
    requires FamilyNodes(x, p, w)
    requires Writes(Family(x, p, w, Active, true, false), SetStatus(w, Active), y)
    ensures y == Family(x, p, w, Active, true, true)
  {
    var s := Family(x, p, w, Active, true, false);
    var b :| IsClosure(y.g, EditSeeds(y.g, SetStatus(w, Active)), b) && AgreeOutside(y.col, s.col, b) && Stale(y.g, y.col) !! b;
    assert y.g.status == s.g.status;
    assert y.g == s.g;
    OnlyTheWisp(x, p, w, b);
    var d := Dep(w, p, ParentChild, false);
    assert d in y.g.deps && ParentBlocked(y.g, y.col, w);
    assert w !in Stale(y.g, y.col);
    assert y.col == map[x := false, p := true, w := true];
  }

  lemma OnlyTheWisp(x: Node, p: Node, w: Node, b: set<Node>)
    requires FamilyNodes(x, p, w)
    requires var g := Family(x, p, w, Active, true, false).g; IsClosure(g, StatusSeeds(g, w), b)
    ensures b == {w}
  {
    var g := Family(x, p, w, Active, true, false).g;
    assert StatusSeeds(g, w) == {w};
    assert ClosedUnderChildren(g, {w});
  }

  lemma TouchingTheWisp(x: Node, p: Node, w: Node)
    requires FamilyNodes(x, p, w)
    ensures var g := Family(x, p, w, Active, true, false).g;
            Applicable(g, SetStatus(w, Active)) && Apply(g, SetStatus(w, Active)) == g
  {
    var g := Family(x, p, w, Active, true, false).g;
    assert g.status[w := Active] == g.status;
  }

  /**
  One pull reopens `x` and blocks `p`; its repair fails and is marked; a local
  write brings the wisp along; a second pull puts `x` and `p` back.
  */
  function RevertEvents(x: Node, p: Node, w: Node, h0: string, h1: string, h2: string): seq<Event> {
    [Merged(Family(x, p, w, Active, true, false), Order(x, p, w), Some(h1), h0),
     Recomputed(h0, FAILING),
     Marked(h0, false),
     Wrote(SetStatus(w, Active), Order(x, p, w)),
     Merged(Family(x, p, w, Closed, false, true), Order(x, p, w), Some(h2), h1),
     Recomputed(h1, CALM)]
  }

  lemma RevertRunSafe(x: Node, p: Node, w: Node, h0: string, h1: string, h2: string, states: seq<State>)
    requires FamilyNodes(x, p, w) && IsCommitHash(h0) && IsCommitHash(h1) && h0 != h1
    requires Run(states, RevertEvents(x, p, w, h0, h1, h2)) && states[0].Safe()
    requires states[0] == StartState(Family(x, p, w, Closed, false, false), h0)
    ensures states[1].Safe() && states[2].Safe() && states[3].Safe() && states[4].Safe()
    ensures states[4].now == Family(x, p, w, Active, true, true) && states[4].marker == Some(h0) && states[4].head == h1
    ensures states[4].commits == map[h0 := IssueSide(Family(x, p, w, Closed, false, false)),
                                     h1 := IssueSide(Family(x, p, w, Active, true, false))]
  {
    hide Family, IssueSide, WispSide, Ranks, Moves, State.Safe, IsCommitHash, Writes, Store.Valid, Tables.Valid, StatusSeeds;
    var es := RevertEvents(x, p, w, h0, h1, h2);
    FamilyWispSide(x, p, w, Closed, Active, false, true, false);
    FamilyValid(x, p, w, Active, true, false);
    TouchingTheWisp(x, p, w);
    assert Moves(es[0], states[0], states[1]);
    PullFromClean(states[0], Family(x, p, w, Active, true, false), Order(x, p, w), h1, states[1]);
    FailsAndIsMarked(states[1], h0, states[2], states[3]);
    PlainWriteSafe(states[3], SetStatus(w, Active), Order(x, p, w), states[4]);
    WispFollows(x, p, w, states[4].now);
  }

  /** The marked repair then goes through and drops the marker, with nothing in its diff and the wisp still blocked. */
  lemma RevertRun(x: Node, p: Node, w: Node, h0: string, h1: string, h2: string, states: seq<State>)
    requires FamilyNodes(x, p, w) && IsCommitHash(h0) && IsCommitHash(h1) && IsCommitHash(h2)
    requires h0 != h1 && h0 != h2 && h1 != h2
    requires Run(states, RevertEvents(x, p, w, h0, h1, h2)) && states[0].Safe()
    requires states[0] == StartState(Family(x, p, w, Closed, false, false), h0)
    ensures forall i | 0 <= i <= 4 :: states[i].Safe()
    ensures !Harmless(RevertEvents(x, p, w, h0, h1, h2)[4], states[4])
    ensures Possible(Recomputed(h1, CALM), states[5]) && states[5].Succeeds(h1, CALM)
    ensures states[6].marker == None && states[6].inflight == None && !states[6].IsRight()
  {
    hide Family, IssueSide, WispSide, Ranks, Moves, State.Safe, IsCommitHash, Store.Valid, Tables.Valid, DiffReaches, Rebase,
         Harmless, State.RouteOf, State.Succeeds, Consistent;
    var es := RevertEvents(x, p, w, h0, h1, h2);
    var back := Family(x, p, w, Closed, false, true);
    NotAHash(states[0]);
    RevertRunSafe(x, p, w, h0, h1, h2, states);
    FamilyWispSide(x, p, w, Active, Closed, true, false, true);
    FamilyIssueSide(x, p, w, Closed, false, false, true);
    FamilyValid(x, p, w, Closed, false, true);
    FamilyRight(x, p, w, Closed, false, true);
    assert Moves(es[4], states[4], states[5]) && Moves(es[5], states[5], states[6]);
    PullUnderMarker(states[4], back, Order(x, p, w), h2, states[5]);
    EmptyDiffRepair(states[5], h1, states[6]);
    SafeIsSound(states[4]);
    StepIff(es[4], states[4], states[5]);
  }

  method RevertStrandsAWisp(x: Node, p: Node, w: Node, h0: string, h1: string, h2: string)
    returns (c: Clone, ghost states: seq<State>)
    requires FamilyNodes(x, p, w) && IsCommitHash(h0) && IsCommitHash(h1) && IsCommitHash(h2)
    requires h0 != h1 && h0 != h2 && h1 != h2
    ensures var events := RevertEvents(x, p, w, h0, h1, h2);
            && RepairState.Run(states, events) && c.View() == states[6]
            && (forall i | 0 <= i <= 4 :: states[i].Safe()) && !Harmless(events[4], states[4])
            && events[5] == Recomputed(h1, CALM) && Possible(events[5], states[5]) && states[5].Succeeds(h1, CALM)
            && states[6].marker == None && states[6].inflight == None && !states[6].IsRight()
  {
    hide Family, IssueSide, Ranks, State.Safe, State.Clear, IsCommitHash, Store.Valid, Tables.Valid, Harmless, Quiet,
         Moves, Consistent;
    FamilyValid(x, p, w, Closed, false, false);
    FamilyRight(x, p, w, Closed, false, false);
    c := new Clone(Family(x, p, w, Closed, false, false).g, Family(x, p, w, Closed, false, false).col, h0);
    states := c.Run(RevertEvents(x, p, w, h0, h1, h2));
    RevertRun(x, p, w, h0, h1, h2, states);
  }

  // ----- a process that ends before the marker -----

  /** One pull reopens `x` and blocks `p`, and the process ends before the repair or a marker. */
  function DeathEvents(x: Node, p: Node, w: Node, h0: string, h1: string): seq<Event> {
    [Merged(Family(x, p, w, Active, true, false), Order(x, p, w), Some(h1), h0), Died, Recomputed(h1, CALM)]
  }

  /**
  The next repair finds HEAD where its caller saw it and a clean working set,
  goes through at once, and leaves the wisp unblocked.
  */
  lemma DeathRun(x: Node, p: Node, w: Node, h0: string, h1: string, states: seq<State>)
    requires FamilyNodes(x, p, w) && IsCommitHash(h0) && IsCommitHash(h1) && h0 != h1
    requires Run(states, DeathEvents(x, p, w, h0, h1)) && states[0].Safe()
    requires states[0] == StartState(Family(x, p, w, Closed, false, false), h0)
    ensures states[1].Safe() && !Harmless(Died, states[1])
    ensures Possible(Recomputed(h1, CALM), states[2]) && states[2].Succeeds(h1, CALM)
    ensures states[2].RouteOf(states[2].RepairFrom(h1, CALM), CALM).Skipped?
    ensures states[3].marker == None && states[3].inflight == None && !states[3].IsRight()
  {
    hide Family, IssueSide, WispSide, Ranks, State.Safe, IsCommitHash, Store.Valid, Tables.Valid, State.RouteOf, State.Succeeds,
         Consistent, State.Repairs;
    var es := DeathEvents(x, p, w, h0, h1);
    FamilyWispSide(x, p, w, Closed, Active, false, true, false);
    FamilyValid(x, p, w, Active, true, false);
    FamilyRight(x, p, w, Active, true, false);
    assert Moves(es[0], states[0], states[1]) && Moves(es[1], states[1], states[2]) && Moves(es[2], states[2], states[3]);
    PullFromClean(states[0], Family(x, p, w, Active, true, false), Order(x, p, w), h1, states[1]);
    SafeIsSound(states[1]);
    ForgottenIff(states[1]);
    SkippedRepair(states[2], states[3]);
  }

  method DyingStrandsAWisp(x: Node, p: Node, w: Node, h0: string, h1: string) returns (c: Clone, ghost states: seq<State>)
    requires FamilyNodes(x, p, w) && IsCommitHash(h0) && IsCommitHash(h1) && h0 != h1
    ensures var events := DeathEvents(x, p, w, h0, h1);
            && RepairState.Run(states, events) && c.View() == states[3]
            && states[0].Safe() && states[1].Safe() && events[1] == Died && !Harmless(Died, states[1])
            && events[2] == Recomputed(h1, CALM) && Possible(events[2], states[2]) && states[2].Succeeds(h1, CALM)
            && states[2].RouteOf(states[2].RepairFrom(h1, CALM), CALM).Skipped?
            && states[3].marker == None && states[3].inflight == None && !states[3].IsRight()
  {
    hide Family, IssueSide, Ranks, State.Safe, State.Clear, IsCommitHash, Store.Valid, Tables.Valid, Harmless, Quiet,
         Moves, Consistent;
    FamilyValid(x, p, w, Closed, false, false);
    FamilyRight(x, p, w, Closed, false, false);
    c := new Clone(Family(x, p, w, Closed, false, false).g, Family(x, p, w, Closed, false, false).col, h0);
    states := c.Run(DeathEvents(x, p, w, h0, h1));
    DeathRun(x, p, w, h0, h1, states);
  }
}
