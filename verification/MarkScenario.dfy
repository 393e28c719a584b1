/**
A run of one clone in which a mark-only write, made while a repair is owed,
takes the versioned rows back to what they were at the marker.
*/
module MarkScenario {
  import opened Wrappers
  import opened BlockedTables
  import opened BlockedColumn
  import opened Affected
  import opened BlockedMarks
  import opened BlockedMerge
  import opened RepairState
  import opened RepairRuns
  import opened MergeRepair
  import opened RepairScenarios

  /**
  The issue `n` may depend on the active issue `b`.  The closed wisp `q` is a
  child of `n`, and the wisp `r` is a child of `q` and depends on the issue `y`.
  */
  datatype Cast = Cast(b: Node, y: Node, n: Node, q: Node, r: Node) {
    predicate Valid() {
      && b.Issue? && y.Issue? && n.Issue? && q.Wisp? && r.Wisp?
      && b != y && b != n && y != n && q != r
      && b.id != "" && y.id != "" && n.id != "" && q.id != "" && r.id != ""
    }

    function Link(): Dep {
      Dep(n, b, Blocks, false)
    }

    function Deps(linked: bool): set<Dep> {
      {Dep(q, n, ParentChild, false), Dep(r, q, ParentChild, false), Dep(r, y, Blocks, false)}
      + if linked then {Link()} else {}
    }

    function Graph(status: Status, linked: bool): Tables {
      Tables(map[b := Active, y := status, n := Active, q := Closed, r := Active], Deps(linked))
    }

    function Column(nFlag: bool, rFlag: bool): map<Node, bool> {
      map[b := false, y := false, n := nFlag, q := false, r := rFlag]
    }

    function At(status: Status, linked: bool, nFlag: bool, rFlag: bool): Store {
      Store(Graph(status, linked), Column(nFlag, rFlag))
    }

    function Order(): map<Node, nat> {
      map[b := 0, y := 0, n := 0, q := 1, r := 2]
    }
  }

  lemma CastValid(c: Cast, status: Status, linked: bool, nFlag: bool, rFlag: bool)
    requires c.Valid()
    ensures var s := c.At(status, linked, nFlag, rFlag);
            s.Valid() && s.g.Valid() && Ranks(s.g, c.Order()) && AcyclicParents(s.g)
  {
    assert Ranks(c.Graph(status, linked), c.Order());
  }

  /** In every column: `n` has a reason if it is linked, `r` if `y` is open or `q` is blocked, and the others have none. */
  lemma CastReasons(c: Cast, status: Status, linked: bool, col: map<Node, bool>)
    requires c.Valid() && c.q in col
    ensures var g := c.Graph(status, linked);
            && !ShouldBeBlocked(g, col, c.b) && !ShouldBeBlocked(g, col, c.y) && !ShouldBeBlocked(g, col, c.q)
            && (ShouldBeBlocked(g, col, c.r) <==> status.Active? || col[c.q])
  {
    var g := c.Graph(status, linked);
    assert forall d | d in g.deps :: d.src != c.b && d.src != c.y;
    assert Dep(c.r, c.y, Blocks, false) in g.deps && Dep(c.r, c.q, ParentChild, false) in g.deps;
    assert forall d | d in g.deps && d.src == c.r :: d == Dep(c.r, c.y, Blocks, false) || d == Dep(c.r, c.q, ParentChild, false);
  }

  lemma LinkReason(c: Cast, status: Status, linked: bool, col: map<Node, bool>)
    requires c.Valid()
    ensures ShouldBeBlocked(c.Graph(status, linked), col, c.n) <==> linked
  {
    var g := c.Graph(status, linked);
    assert linked ==> c.Link() in g.deps;
    assert forall d | d in g.deps && d.src == c.n :: linked && d == c.Link();
  }

  lemma CastRight(c: Cast, status: Status, linked: bool, nFlag: bool, rFlag: bool)
    requires c.Valid()
    ensures var s := c.At(status, linked, nFlag, rFlag);
            && (Consistent(s.g, s.col) <==> nFlag == linked && rFlag == status.Active?)
            && Stale(s.g, s.col) <= (if nFlag == linked then {} else {c.n}) + {c.r}
  {
    hide ShouldBeBlocked;
    var s := c.At(status, linked, nFlag, rFlag);
    CastReasons(c, status, linked, s.col);
    LinkReason(c, status, linked, s.col);
    assert IsStale(s.g, s.col, c.n) <==> nFlag != linked;
    assert IsStale(s.g, s.col, c.r) <==> rFlag != status.Active?;
  }

  lemma CastIssueSide(c: Cast, status: Status, linked: bool, nFlag: bool, u: bool, v: bool)
    requires c.Valid()
    ensures IssueSide(c.At(status, linked, nFlag, u)) == IssueSide(c.At(status, linked, nFlag, v))
  {
    var s, t := c.At(status, linked, nFlag, u), c.At(status, linked, nFlag, v);
    assert IssueSide(s).blocked == IssueSide(t).blocked;
  }

  lemma CastWispSide(c: Cast, s: Status, l: bool, u: bool, t: Status, m: bool, v: bool, rFlag: bool)
    requires c.Valid()
    ensures WispSide(c.At(s, l, u, rFlag)) == WispSide(c.At(t, m, v, rFlag))
  {
    WispStatuses(c, s, l, u, rFlag);
    WispStatuses(c, t, m, v, rFlag);
    WispDeps(c, s, l, u, rFlag);
    WispDeps(c, t, m, v, rFlag);
  }

  lemma WispStatuses(c: Cast, s: Status, l: bool, u: bool, rFlag: bool)
    requires c.Valid()
    ensures WispSide(c.At(s, l, u, rFlag)).status == map[c.q := Closed, c.r := Active]
    ensures WispSide(c.At(s, l, u, rFlag)).blocked == map[c.q := false, c.r := rFlag]
  {
  }

  lemma WispDeps(c: Cast, s: Status, l: bool, u: bool, rFlag: bool)
    requires c.Valid()
    ensures WispSide(c.At(s, l, u, rFlag)).deps == c.Deps(false)
  {
  }

  /** The rows of the marker beside the wisps of later. */
  lemma CastRebased(c: Cast, status: Status, linked: bool, nFlag: bool, x: Store)
    requires c.Valid() && x == c.At(status, linked, nFlag, true)
    ensures Rebase(IssueSide(c.At(Closed, true, true, false)), x) == c.At(Closed, true, true, true)
  {
    hide IssueSide, WispSide;
    CastIssueSide(c, Closed, true, true, false, true);
    CastWispSide(c, status, linked, nFlag, Closed, true, true, true);
    RebaseSame(c.At(Closed, true, true, true));
  }

  /** A write on `r` gives it the flag that its dependency on `y` asks for, and changes no other flag. */
  lemma RowFollows(c: Cast, y: Store)
    requires c.Valid() && Writes(c.At(Active, true, true, false), SetStatus(c.r, Active), y)
    ensures y == c.At(Active, true, true, true)
  {
    var s := c.At(Active, true, true, false);
    var b :| IsClosure(y.g, EditSeeds(y.g, SetStatus(c.r, Active)), b) && AgreeOutside(y.col, s.col, b) && Stale(y.g, y.col) !! b;
    TouchingTheRow(c);
    OnlyTheRow(c, b);
    assert Dep(c.r, c.y, Blocks, false) in y.g.deps;
    assert c.r !in Stale(y.g, y.col);
    assert y.col == c.Column(true, true);
  }

  lemma TouchingTheRow(c: Cast)
    requires c.Valid()
    ensures var g := c.Graph(Active, true);
            Applicable(g, SetStatus(c.r, Active)) && Apply(g, SetStatus(c.r, Active)) == g
  {
    var g := c.Graph(Active, true);
    assert g.status[c.r := Active] == g.status;
  }

  lemma OnlyTheRow(c: Cast, b: set<Node>)
    requires c.Valid() && IsClosure(c.Graph(Active, true), StatusSeeds(c.Graph(Active, true), c.r), b)
    ensures b == {c.r}
  {
    var g := c.Graph(Active, true);
    assert StatusSeeds(g, c.r) == {c.r};
    assert ClosedUnderChildren(g, {c.r});
  }

  /** The second pull removes the link, so its diff reaches `n` and what hangs below it. */
  lemma UnlinkingIsReached(c: Cast)
    requires c.Valid()
    ensures DiffReaches(c.At(Closed, true, true, true), c.At(Closed, false, false, true))
  {
    var x, y := c.At(Closed, true, true, true), c.At(Closed, false, false, true);
    CastRight(c, Closed, true, true, true);
    forall b | CoversChange(x, y, b) ensures Stale(x.g, x.col) <= b {
      var d := c.Link();
      assert d in x.g.deps && d !in y.g.deps;
      assert c.n in EdgeSeeds(y.g, d.src, d.dst.id, d.kind);
      assert Dep(c.q, c.n, ParentChild, false) in y.g.deps && Dep(c.r, c.q, ParentChild, false) in y.g.deps;
    }
  }

  /** Linking again marks `n`, and nothing below it: `q` is closed, and `r` has its flag already. */
  lemma LinkingMarks(c: Cast, y: Store)
    requires c.Valid() && Writes(c.At(Closed, false, false, true), AddDep(c.Link()), y)
    ensures y == c.At(Closed, true, true, true)
  {
    var x := c.At(Closed, false, false, true);
    var b :| IsClosure(y.g, EditSeeds(y.g, AddDep(c.Link())), b) && MarkedAlone(x.g, x.col, c.Link(), y.col, b);
    LinkApplies(c);
    LinkingMarksOnly(c, y.col, b);
  }

  lemma LinkingMarksOnly(c: Cast, y: map<Node, bool>, b: set<Node>)
    requires c.Valid() && MarkedAlone(c.Graph(Closed, false), c.Column(false, true), c.Link(), y, b)
    ensures y == c.Column(true, true)
  {
    hide ShouldBeBlocked, Unmarked;
    LinkApplies(c);
    CastReasons(c, Closed, true, y);
    assert y.Keys == c.Column(false, true).Keys;
    assert y[c.n] && y[c.r];
  }

  lemma LinkApplies(c: Cast)
    requires c.Valid()
    ensures var g := c.Graph(Closed, false);
            Applicable(g, AddDep(c.Link())) && Apply(g, AddDep(c.Link())) == c.Graph(Closed, true)
  {
    assert WithEdge(c.Graph(Closed, false), c.Link()).deps == c.Deps(true);
  }

  /**
  One pull reopens `y`, its repair fails and is marked, and a local write brings
  `r` along; a second pull closes `y` again and removes the link from `n` to `b`;
  then a local write adds the link.
  */
  function MarkEvents(c: Cast, h0: string, h1: string, h2: string): seq<Event> {
    [Merged(c.At(Active, true, true, false), c.Order(), Some(h1), h0),
     Recomputed(h0, FAILING),
     Marked(h0, false),
     Wrote(SetStatus(c.r, Active), c.Order()),
     Merged(c.At(Closed, false, false, true), c.Order(), Some(h2), h1),
     Wrote(AddDep(c.Link()), c.Order()),
     Recomputed(h2, CALM)]
  }

  lemma BeforeTheSecondPull(c: Cast, h0: string, h1: string, h2: string, states: seq<State>)
    requires c.Valid() && IsCommitHash(h0) && IsCommitHash(h1) && h0 != h1
    requires Run(states, MarkEvents(c, h0, h1, h2)) && states[0].Safe()
    requires states[0] == StartState(c.At(Closed, true, true, false), h0)
    ensures states[1].Safe() && states[2].Safe() && states[3].Safe() && states[4].Safe()
    ensures states[4].now == c.At(Active, true, true, true) && states[4].marker == Some(h0) && states[4].head == h1
    ensures states[4].commits == map[h0 := IssueSide(c.At(Closed, true, true, false)),
                                     h1 := IssueSide(c.At(Active, true, true, false))]
  {
    hide Cast.Graph, Cast.Column, IssueSide, WispSide, Ranks, Moves, State.Safe, IsCommitHash, Writes, Store.Valid, Tables.Valid,
         StatusSeeds;
    var es := MarkEvents(c, h0, h1, h2);
    CastWispSide(c, Closed, true, true, Active, true, true, false);
    CastValid(c, Active, true, true, false);
    TouchingTheRow(c);
    assert Moves(es[0], states[0], states[1]);
    PullFromClean(states[0], c.At(Active, true, true, false), c.Order(), h1, states[1]);
    FailsAndIsMarked(states[1], h0, states[2], states[3]);
    PlainWriteSafe(states[3], SetStatus(c.r, Active), c.Order(), states[4]);
    RowFollows(c, states[4].now);
  }

  lemma BeforeTheLink(c: Cast, h0: string, h1: string, h2: string, states: seq<State>)
    requires c.Valid() && IsCommitHash(h0) && IsCommitHash(h1) && IsCommitHash(h2) && h0 != h1 && h0 != h2 && h1 != h2
    requires Run(states, MarkEvents(c, h0, h1, h2)) && states[0].Safe()
    requires states[0] == StartState(c.At(Closed, true, true, false), h0)
    ensures forall i | 0 <= i <= 5 :: states[i].Safe()
    ensures states[5].now == c.At(Closed, false, false, true) && states[5].marker == Some(h0) && states[5].head == h2
    ensures h0 in states[5].commits && states[5].commits[h0] == IssueSide(c.At(Closed, true, true, false))
  {
    hide Cast.Graph, Cast.Column, IssueSide, WispSide, Ranks, Moves, State.Safe, IsCommitHash, Store.Valid, Tables.Valid,
         DiffReaches, Rebase;
    var es := MarkEvents(c, h0, h1, h2);
    BeforeTheSecondPull(c, h0, h1, h2, states);
    CastWispSide(c, Active, true, true, Closed, false, false, true);
    CastValid(c, Closed, false, false, true);
    CastRebased(c, Active, true, true, states[4].now);
    UnlinkingIsReached(c);
    assert Moves(es[4], states[4], states[5]);
    PullUnderMarker(states[4], c.At(Closed, false, false, true), c.Order(), h2, states[5]);
  }

  /**
  Every state before the link is added is safe.  The link takes the versioned rows
  back to those of the marker, so the marked repair finds no diff: it goes through,
  drops the marker, and leaves `r` blocked although nothing blocks it.
  */
  lemma MarkRun(c: Cast, h0: string, h1: string, h2: string, states: seq<State>)
    requires c.Valid() && IsCommitHash(h0) && IsCommitHash(h1) && IsCommitHash(h2) && h0 != h1 && h0 != h2 && h1 != h2
    requires Run(states, MarkEvents(c, h0, h1, h2)) && states[0].Safe()
    requires states[0] == StartState(c.At(Closed, true, true, false), h0)
    ensures forall i | 0 <= i <= 5 :: states[i].Safe()
    ensures !states[5].MarksReached(c.Link())
    ensures Possible(Recomputed(h2, CALM), states[6]) && states[6].Succeeds(h2, CALM)
    ensures states[7].marker == None && states[7].inflight == None && !states[7].IsRight()
  {
    hide Cast.Graph, Cast.Column, IssueSide, Ranks, Moves, State.Safe, IsCommitHash, Store.Valid, Tables.Valid, Writes,
         State.MarksReached, State.RouteOf, State.Succeeds, Consistent;
    var es := MarkEvents(c, h0, h1, h2);
    NotAHash(states[0]);
    BeforeTheLink(c, h0, h1, h2, states);
    CastValid(c, Closed, true, true, true);
    CastRight(c, Closed, true, true, true);
    CastIssueSide(c, Closed, true, true, false, true);
    LinkApplies(c);
    assert Moves(es[5], states[5], states[6]) && Moves(es[6], states[6], states[7]);
    LinkIsAdded(c, states[5], states[6]);
    EmptyDiffRepair(states[6], h2, states[7]);
  }

  lemma LinkIsAdded(c: Cast, s: State, t: State)
    requires c.Valid() && s.Safe() && s.now == c.At(Closed, false, false, true)
    requires Moves(Wrote(AddDep(c.Link()), c.Order()), s, t)
    ensures t == s.(now := c.At(Closed, true, true, true)) && t.Sound() && (t.Safe() <==> s.MarksReached(c.Link()))
  {
    hide Cast.Graph, Cast.Column, State.Safe, State.Sound, Ranks, Writes, State.MarksReached;
    LinkApplies(c);
    CastValid(c, Closed, true, true, true);
    SafeIsSound(s);
    StepIff(Wrote(AddDep(c.Link()), c.Order()), s, t);
    LinkingMarks(c, t.now);
  }

  method MarksStrandAWisp(c: Cast, h0: string, h1: string, h2: string) returns (clone: Clone, ghost states: seq<State>)
    requires c.Valid() && IsCommitHash(h0) && IsCommitHash(h1) && IsCommitHash(h2) && h0 != h1 && h0 != h2 && h1 != h2
    ensures var events := MarkEvents(c, h0, h1, h2);
            && RepairState.Run(states, events) && clone.View() == states[7]
            && (forall i | 0 <= i <= 5 :: states[i].Safe()) && !states[5].MarksReached(c.Link())
            && events[5].Wrote? && events[5].e == AddDep(c.Link())
            && events[6] == Recomputed(h2, CALM) && Possible(events[6], states[6]) && states[6].Succeeds(h2, CALM)
            && states[7].marker == None && states[7].inflight == None && !states[7].IsRight()
  {
    hide Cast.Graph, Cast.Column, IssueSide, Ranks, State.Safe, State.Clear, IsCommitHash, Store.Valid, Tables.Valid, Harmless,
         Quiet, Moves, Consistent, State.MarksReached;
    CastValid(c, Closed, true, true, false);
    CastRight(c, Closed, true, true, false);
    clone := new Clone(c.At(Closed, true, true, false).g, c.At(Closed, true, true, false).col, h0);
    states := clone.Run(MarkEvents(c, h0, h1, h2));
    MarkRun(c, h0, h1, h2, states);
  }
}
