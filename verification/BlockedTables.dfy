/**
The rows and dependency edges that `is_blocked` is derived from, and what it
means for the column to be right.

A row lives in one of two tables, `issues` or `wisps`, and so does a
dependency: `dependencies` holds the edges whose source is an issue,
`wisp_dependencies` those whose source is a wisp.  A node names a row together
with its table, so both dependency tables fit in one set of edges.
*/
module BlockedTables {
  import Paths
  import opened Sets

  type ID = string

  datatype Node = Issue(id: ID) | Wisp(id: ID) | External(id: ID)

  /** Every status other than closed and pinned counts the same here. */
  datatype Status = Active | Closed | Pinned

  datatype DepType = Blocks | ConditionalBlocks | WaitsFor | ParentChild | Related(name: string)

  /** `anyGate` is the any-children gate in the metadata of a waits-for edge. */
  datatype Dep = Dep(src: Node, dst: Node, kind: DepType, anyGate: bool)

  datatype Tables = Tables(status: map<Node, Status>, deps: set<Dep>) {
    predicate Valid() {
      && (forall n | n in status :: !n.External?)
      && (forall d | d in deps :: !d.src.External? && d.src.id != "" && d.dst.id != "")
    }
  }

  /** The stored `is_blocked` column, over the rows of both tables. */
  type Column = map<Node, bool>

  predicate Hard(k: DepType) {
    k.Blocks? || k.ConditionalBlocks?
  }

  /** DependencyType.AffectsReadyWork */
  predicate AffectsReadyWork(k: DepType) {
    Hard(k) || k.ParentChild? || k.WaitsFor?
  }

  predicate IsActive(g: Tables, n: Node) {
    n in g.status && g.status[n].Active?
  }

  predicate IsClosed(g: Tables, n: Node) {
    n in g.status && g.status[n].Closed?
  }

  // ----- the reasons a row is blocked -----

  predicate HardBlocked(g: Tables, r: Node) {
    exists d | d in g.deps :: d.src == r && Hard(d.kind) && IsActive(g, d.dst)
  }

  /** The gate of one waits-for edge: it reads statuses and edges, never the column. */
  predicate GateBlocks(g: Tables, d: Dep) {
    && !d.dst.External?
    && (exists c | c in g.deps :: c.kind.ParentChild? && c.dst == d.dst && IsActive(g, c.src))
    && !(d.anyGate && exists c | c in g.deps :: c.kind.ParentChild? && c.dst == d.dst && IsClosed(g, c.src))
  }

  predicate Gated(g: Tables, r: Node) {
    exists d | d in g.deps :: d.src == r && d.kind.WaitsFor? && GateBlocks(g, d)
  }

  predicate DirectlyBlocked(g: Tables, r: Node) {
    HardBlocked(g, r) || Gated(g, r)
  }

  predicate ParentBlocked(g: Tables, col: Column, r: Node) {
    exists d | d in g.deps :: d.src == r && d.kind.ParentChild? && d.dst in col && col[d.dst]
  }

  /** What the mark and unmark updates would leave in row `r`, given the column as it stands. */
  predicate ShouldBeBlocked(g: Tables, col: Column, r: Node) {
    IsActive(g, r) && (DirectlyBlocked(g, r) || ParentBlocked(g, col, r))
  }

  // ----- consistency of a stored column -----

  predicate ColumnOf(g: Tables, col: Column) {
    col.Keys == g.status.Keys
  }

  predicate IsStale(g: Tables, col: Column, r: Node) {
    r in col && col[r] != ShouldBeBlocked(g, col, r)
  }

  function Stale(g: Tables, col: Column): set<Node> {
    set r | r in col && IsStale(g, col, r)
  }

  predicate Consistent(g: Tables, col: Column) {
    ColumnOf(g, col) && forall r | r in col :: !IsStale(g, col, r)
  }

  // ----- parents and children -----

  /** `rank` witnesses that no row is its own ancestor over parent-child edges. */
  predicate Ranks(g: Tables, rank: map<Node, nat>) {
    && g.status.Keys <= rank.Keys
    && forall d | d in g.deps && d.kind.ParentChild? && d.src in g.status && d.dst in g.status ::
         rank[d.dst] < rank[d.src]
  }

  function ParentEdges(g: Tables): set<(Node, Node)> {
    set d | d in g.deps && d.kind.ParentChild? && d.src in g.status && d.dst in g.status :: (d.src, d.dst)
  }

  /** A ranking exists exactly when no row is its own ancestor. */
  lemma RankedIffAcyclicParents(g: Tables)
    ensures (exists rank :: Ranks(g, rank)) <==> Paths.Acyclic(ParentEdges(g))
  {
    var e, all := ParentEdges(g), g.status.Keys;
    Paths.AcyclicIffRanked(e, all);
    if rank :| Ranks(g, rank) {
      var restricted: map<Node, nat> := map n | n in all :: rank[n];
      assert restricted.Keys == all;
      assert forall u, v | (u, v) in e :: restricted[v] < restricted[u];
    }
    if Paths.Acyclic(e) {
      var rank: map<Node, nat> :| rank.Keys == all && forall u, v | (u, v) in e :: rank[v] < rank[u];
      assert forall d | d in g.deps && d.kind.ParentChild? && d.src in all && d.dst in all :: (d.src, d.dst) in e;
      assert Ranks(g, rank);
    }
  }

  /** A set of nodes that contains the children of its members. */
  predicate ClosedUnderChildren(g: Tables, s: set<Node>) {
    forall d | d in g.deps && d.kind.ParentChild? && d.dst in s :: d.src in s
  }

  // ----- the unique consistent value of a row -----

  /**
  The value row `r` has once every row of `scope` has settled, with the rows
  outside `scope` keeping the value they have in `col`.
  */
  ghost predicate Settled(g: Tables, rank: map<Node, nat>, scope: set<Node>, col: Column, r: Node)
    requires Ranks(g, rank) && ColumnOf(g, col) && r in col
    decreases rank[r]
  {
    if r !in scope then col[r]
    else
      && IsActive(g, r)
      && (|| DirectlyBlocked(g, r)
          || exists d | d in g.deps ::
               d.src == r && d.kind.ParentChild? && d.dst in col && Settled(g, rank, scope, col, d.dst))
  }

  ghost function SettledColumn(g: Tables, rank: map<Node, nat>, scope: set<Node>, col: Column): (want: Column)
    requires Ranks(g, rank) && ColumnOf(g, col)
    ensures want.Keys == col.Keys
  {
    map r | r in col :: Settled(g, rank, scope, col, r)
  }

  /** `want` is a fixpoint of the mark and unmark updates on the rows of `scope`. */
  ghost predicate Fixpoint(g: Tables, scope: set<Node>, want: Column) {
    ColumnOf(g, want) && forall r | r in want && r in scope :: !IsStale(g, want, r)
  }

  ghost predicate AgreeOutside(a: Column, b: Column, scope: set<Node>) {
    a.Keys == b.Keys && forall r | r in a && r !in scope :: a[r] == b[r]
  }

  /** A row's value depends on the column only through its parents. */
  lemma ShouldBeBlockedLocal(g: Tables, a: Column, b: Column, r: Node)
    requires forall d | d in g.deps && d.src == r && d.kind.ParentChild? ::
               (d.dst in a && a[d.dst]) == (d.dst in b && b[d.dst])
    ensures ShouldBeBlocked(g, a, r) == ShouldBeBlocked(g, b, r)
  {
  }

  lemma SettledIsFixpoint(g: Tables, rank: map<Node, nat>, scope: set<Node>, col: Column)
    requires Ranks(g, rank) && ColumnOf(g, col)
    ensures Fixpoint(g, scope, SettledColumn(g, rank, scope, col))
    ensures AgreeOutside(SettledColumn(g, rank, scope, col), col, scope)
  {
    var want := SettledColumn(g, rank, scope, col);
    forall r | r in want && r in scope
      ensures want[r] == ShouldBeBlocked(g, want, r)
    {
      assert forall d | d in g.deps && d.dst in col :: want[d.dst] == Settled(g, rank, scope, col, d.dst);
    }
  }

  /** Two fixpoints over `scope` that agree outside it are equal: induction on the rank. */
  lemma {:induction false} FixpointUniqueAt(g: Tables, rank: map<Node, nat>, scope: set<Node>,
                                            a: Column, b: Column, r: Node)
    requires Ranks(g, rank) && Fixpoint(g, scope, a) && Fixpoint(g, scope, b)
    requires AgreeOutside(a, b, scope) && r in a
    ensures a[r] == b[r]
    decreases rank[r]
  {
    if r in scope {
      forall d | d in g.deps && d.src == r && d.kind.ParentChild? && d.dst in a
        ensures a[d.dst] == b[d.dst]
      {
        FixpointUniqueAt(g, rank, scope, a, b, d.dst);
      }
      ShouldBeBlockedLocal(g, a, b, r);
    }
  }

  lemma FixpointUnique(g: Tables, rank: map<Node, nat>, scope: set<Node>, a: Column, b: Column)
    requires Ranks(g, rank) && Fixpoint(g, scope, a) && Fixpoint(g, scope, b)
    requires AgreeOutside(a, b, scope)
    ensures a == b
  {
    forall r | r in a ensures a[r] == b[r] {
      FixpointUniqueAt(g, rank, scope, a, b, r);
    }
  }

  // ----- the reasons, edge type by edge type -----

  /** When a row is stale, and so what a right column holds: only these four types of edge count. */
  lemma StaleIff(g: Tables, col: Column, r: Node)
    requires r in g.status && r in col
    ensures !IsStale(g, col, r) <==>
              (col[r] <==>
                && g.status[r] == Active
                && (|| (exists d | d in g.deps :: d.src == r && (d.kind == Blocks || d.kind == ConditionalBlocks)
                                                  && d.dst in g.status && g.status[d.dst] == Active)
                    || (exists d | d in g.deps :: d.src == r && d.kind == ParentChild && d.dst in col && col[d.dst])
                    || (exists d | d in g.deps ::
                          && d.src == r && d.kind == WaitsFor && !d.dst.External?
                          && (exists c | c in g.deps :: c.kind == ParentChild && c.dst == d.dst
                                                        && c.src in g.status && g.status[c.src] == Active)
                          && (d.anyGate ==> forall c | c in g.deps && c.kind == ParentChild && c.dst == d.dst ::
                                              c.src in g.status ==> g.status[c.src] != Closed))))
  {
  }

  /** A closed or pinned row is not blocked; an active one is by an active blocker of either kind, and by a blocked parent. */
  lemma WhatBlocks(g: Tables, scope: set<Node>, want: Column, r: Node, x: Node, gate: bool)
    requires Fixpoint(g, scope, want) && r in want && r in scope
    ensures g.status[r] != Active ==> !want[r]
    ensures g.status[r] == Active && Dep(r, x, Blocks, gate) in g.deps && x in g.status && g.status[x] == Active ==> want[r]
    ensures g.status[r] == Active && Dep(r, x, ConditionalBlocks, gate) in g.deps && x in g.status && g.status[x] == Active ==>
              want[r]
    ensures g.status[r] == Active && Dep(r, x, ParentChild, gate) in g.deps && x in want && want[x] ==> want[r]
    ensures (forall d | d in g.deps && d.src == r ::
               match d.kind
               case Related(_) => true
               case ParentChild => !(d.dst in want && want[d.dst])
               case WaitsFor => d.dst.External?
               case _ => !(d.dst in g.status && g.status[d.dst] == Active)) ==> !want[r]
  {
    hide IsStale;
    assert !IsStale(g, want, r);
    StaleIff(g, want, r);
    assert forall d: Dep :: d.src == r && d.dst == x && d.anyGate == gate ==> d == Dep(r, x, d.kind, gate);
  }

  /**
  A row that waits for the children of `x` and has no other edge is blocked while
  a child is active; with the any-children gate, only until a child is closed.
  */
  lemma WhatWaits(g: Tables, scope: set<Node>, want: Column, r: Node, x: Node, gate: bool)
    requires Fixpoint(g, scope, want) && r in want && r in scope && g.status[r] == Active && !x.External?
    requires Dep(r, x, WaitsFor, gate) in g.deps
    ensures !gate && (exists c, k | Dep(c, x, ParentChild, k) in g.deps && c in g.status :: g.status[c] == Active) ==> want[r]
    ensures (&& gate && (exists c, k | Dep(c, x, ParentChild, k) in g.deps && c in g.status :: g.status[c] == Active)
             && forall c, k | Dep(c, x, ParentChild, k) in g.deps && c in g.status :: g.status[c] != Closed) ==> want[r]
    ensures (forall d | d in g.deps && d.src == r :: d == Dep(r, x, WaitsFor, gate)) ==>
              (want[r] <==>
                && (exists c, k | Dep(c, x, ParentChild, k) in g.deps && c in g.status :: g.status[c] == Active)
                && (gate ==> forall c, k | Dep(c, x, ParentChild, k) in g.deps && c in g.status :: g.status[c] != Closed))
  {
    hide IsStale;
    assert !IsStale(g, want, r);
    StaleIff(g, want, r);
    assert forall d: Dep :: d == Dep(d.src, d.dst, d.kind, d.anyGate);
  }

  /** The column a full recompute must produce. */
  ghost function Truth(g: Tables, rank: map<Node, nat>): (want: Column)
    requires Ranks(g, rank)
  {
    SettledColumn(g, rank, g.status.Keys, map r | r in g.status :: false)
  }

  /**
  With acyclic parents there is exactly one consistent column, so it depends
  neither on the ranking nor on what was stored before.
  */
  lemma TruthIsTheConsistentColumn(g: Tables, rank: map<Node, nat>, col: Column)
    requires Ranks(g, rank) && ColumnOf(g, col)
    ensures Consistent(g, col) <==> col == Truth(g, rank)
    ensures SettledColumn(g, rank, g.status.Keys, col) == Truth(g, rank)
  {
    var zero: Column := map r | r in g.status :: false;
    SettledIsFixpoint(g, rank, g.status.Keys, zero);
    SettledIsFixpoint(g, rank, g.status.Keys, col);
    FixpointUnique(g, rank, g.status.Keys, SettledColumn(g, rank, g.status.Keys, col), Truth(g, rank));
    if Consistent(g, col) {
      FixpointUnique(g, rank, g.status.Keys, col, Truth(g, rank));
    }
  }

  /**
  The hypothesis on parents is needed: two rows that are each other's parent
  admit a consistent column with both blocked and one with neither.
  */
  lemma MutualParentsAreAmbiguous(x: ID, y: ID)
    requires x != y
    ensures var g := Tables(map[Issue(x) := Active, Issue(y) := Active],
                            {Dep(Issue(x), Issue(y), ParentChild, false), Dep(Issue(y), Issue(x), ParentChild, false)});
            && Consistent(g, map[Issue(x) := true, Issue(y) := true])
            && Consistent(g, map[Issue(x) := false, Issue(y) := false])
            && !exists rank :: Ranks(g, rank)
  {
    var up, down := Dep(Issue(x), Issue(y), ParentChild, false), Dep(Issue(y), Issue(x), ParentChild, false);
    var g := Tables(map[Issue(x) := Active, Issue(y) := Active], {up, down});
    var yes, no: Column := map[Issue(x) := true, Issue(y) := true], map[Issue(x) := false, Issue(y) := false];
    assert up in g.deps && down in g.deps;
    assert ParentBlocked(g, yes, Issue(x)) && ParentBlocked(g, yes, Issue(y));
    assert Consistent(g, yes);
    forall rank | Ranks(g, rank) ensures false {
    }
  }

  /**
  The doctor's count is described as a lower bound on the rows a repair
  corrects.  It is not: a child whose stored value is right is counted while
  its parent is wrong.  Here two rows are counted and one has to change.
  */
  lemma StaleCountExceedsWrongRows(p: ID, c: ID)
    requires p != "" && c != ""
    ensures var g := Tables(map[Issue(p) := Closed, Wisp(c) := Active],
                            {Dep(Wisp(c), Issue(p), ParentChild, false)});
            var col: Column := map[Issue(p) := true, Wisp(c) := false];
            var fixed: Column := map[Issue(p) := false, Wisp(c) := false];
            Stale(g, col) == {Issue(p), Wisp(c)} && Consistent(g, fixed) && Differ(col, fixed) == {Issue(p)}
  {
    var d := Dep(Wisp(c), Issue(p), ParentChild, false);
    var g := Tables(map[Issue(p) := Closed, Wisp(c) := Active], {d});
    var col: Column := map[Issue(p) := true, Wisp(c) := false];
    assert d in g.deps && ParentBlocked(g, col, Wisp(c));
  }

  // ----- when a counted row is one that a repair changes -----

  /** A stale row is changed by the repair exactly when its parents' right flags give it the same reason as the stored ones. */
  lemma CountedIsChangedIff(g: Tables, rank: map<Node, nat>, col: Column, r: Node)
    requires Ranks(g, rank) && ColumnOf(g, col) && r in Stale(g, col)
    ensures col[r] != Truth(g, rank)[r] <==> ShouldBeBlocked(g, col, r) == ShouldBeBlocked(g, Truth(g, rank), r)
  {
    hide ShouldBeBlocked, SettledColumn;
    TruthIsTheConsistentColumn(g, rank, Truth(g, rank));
    assert !IsStale(g, Truth(g, rank), r);
  }

  /** So every counted row is one that the repair changes exactly when that holds for each of them. */
  lemma CountedAreChangedIff(g: Tables, rank: map<Node, nat>, col: Column)
    requires Ranks(g, rank) && ColumnOf(g, col)
    ensures Stale(g, col) <= Differ(col, Truth(g, rank)) <==>
              forall r | r in Stale(g, col) :: ShouldBeBlocked(g, col, r) == ShouldBeBlocked(g, Truth(g, rank), r)
  {
    hide ShouldBeBlocked, Truth;
    forall r | r in Stale(g, col)
      ensures r in Differ(col, Truth(g, rank)) <==> ShouldBeBlocked(g, col, r) == ShouldBeBlocked(g, Truth(g, rank), r)
    {
      CountedIsChangedIff(g, rank, col, r);
      TruthKeys(g, rank);
    }
  }

  lemma TruthKeys(g: Tables, rank: map<Node, nat>)
    requires Ranks(g, rank)
    ensures Truth(g, rank).Keys == g.status.Keys
  {
  }

  /** `a` is a parent of `r`, a parent's parent, and so on. */
  ghost predicate IsAncestor(g: Tables, r: Node, a: Node) {
    a != r && Paths.Reaches(ParentEdges(g), r, a)
  }

  lemma ParentsAncestors(g: Tables, rank: map<Node, nat>, r: Node, p: Node)
    requires Ranks(g, rank) && (r, p) in ParentEdges(g)
    ensures IsAncestor(g, r, p) && rank[p] < rank[r]
    ensures forall a | IsAncestor(g, p, a) :: IsAncestor(g, r, a)
  {
    var e := ParentEdges(g);
    Paths.ReachesSelf(e, p);
    Paths.ReachesEdge(e, r, p, p);
    forall a | IsAncestor(g, p, a) ensures IsAncestor(g, r, a) {
      Paths.ReachesEdge(e, r, p, a);
      if a == r {
        var w :| Paths.PathBetween(e, p, r, w);
        Paths.RankDown(e, rank, p, r, w);
      }
    }
  }

  /** A row that is not stale and has no stale ancestor is right. */
  lemma {:induction false} RightBelowRight(g: Tables, rank: map<Node, nat>, col: Column, r: Node)
    requires Ranks(g, rank) && ColumnOf(g, col) && r in col && !IsStale(g, col, r)
    requires forall a | a in Stale(g, col) :: !IsAncestor(g, r, a)
    ensures col[r] == Truth(g, rank)[r]
    decreases rank[r]
  {
    hide ShouldBeBlocked, Truth, IsAncestor;
    TruthKeys(g, rank);
    TruthIsTheConsistentColumn(g, rank, Truth(g, rank));
    ReasonBelowRight(g, rank, col, r);
    assert !IsStale(g, Truth(g, rank), r);
  }

  /** The parents of a row without stale ancestors are right, so they give it the right reason. */
  lemma {:induction false} ReasonBelowRight(g: Tables, rank: map<Node, nat>, col: Column, r: Node)
    requires Ranks(g, rank) && ColumnOf(g, col) && r in col
    requires forall a | a in Stale(g, col) :: !IsAncestor(g, r, a)
    ensures ShouldBeBlocked(g, col, r) == ShouldBeBlocked(g, Truth(g, rank), r)
    decreases rank[r], 0
  {
    hide ShouldBeBlocked, Truth, IsAncestor;
    TruthKeys(g, rank);
    forall d | d in g.deps && d.src == r && d.kind.ParentChild? && d.dst in col
      ensures col[d.dst] == Truth(g, rank)[d.dst]
    {
      assert (d.src, d.dst) in ParentEdges(g);
      ParentsAncestors(g, rank, r, d.dst);
      assert d.dst !in Stale(g, col);
      RightBelowRight(g, rank, col, d.dst);
    }
    ShouldBeBlockedLocal(g, col, Truth(g, rank), r);
  }

  /** If no stale row has a stale ancestor, the count is a lower bound on the rows that the repair changes. */
  lemma CountIsLowerBound(g: Tables, rank: map<Node, nat>, col: Column)
    requires Ranks(g, rank) && ColumnOf(g, col)
    requires forall r, a | r in Stale(g, col) && a in Stale(g, col) :: !IsAncestor(g, r, a)
    ensures Stale(g, col) <= Differ(col, Truth(g, rank)) && |Stale(g, col)| <= |Differ(col, Truth(g, rank))|
  {
    hide ShouldBeBlocked, Truth, IsAncestor, Stale;
    forall r | r in Stale(g, col) ensures ShouldBeBlocked(g, col, r) == ShouldBeBlocked(g, Truth(g, rank), r) {
      StaleIsStored(g, col, r);
      ReasonBelowRight(g, rank, col, r);
    }
    CountedAreChangedIff(g, rank, col);
    SubsetSize(Stale(g, col), Differ(col, Truth(g, rank)));
  }

  lemma StaleIsStored(g: Tables, col: Column, r: Node)
    requires r in Stale(g, col)
    ensures r in col
  {
  }

  // ----- rows on which two columns differ -----

  ghost function Differ(a: Column, b: Column): set<Node> {
    set r | r in a && r in b && a[r] != b[r]
  }

  lemma DifferEmpty(a: Column, b: Column)
    requires a.Keys == b.Keys
    ensures |Differ(a, b)| == 0 <==> a == b
  {
    if |Differ(a, b)| == 0 {
      forall r | r in a ensures a[r] == b[r] {
        assert r !in Differ(a, b);
      }
    } else {
      var r :| r in Differ(a, b);
    }
  }

  /** Flip counts compose: parity exactly, size as a triangle inequality. */
  lemma DifferCompose(a: Column, b: Column, c: Column)
    requires a.Keys == b.Keys == c.Keys
    ensures |Differ(a, c)| <= |Differ(a, b)| + |Differ(b, c)|
    ensures |Differ(a, c)| % 2 == (|Differ(a, b)| + |Differ(b, c)|) % 2
  {
    var x, y := Differ(a, b), Differ(b, c);
    assert Differ(a, c) == (x - y) + (y - x);
    SymmetricDifferenceSize(x, y);
  }

  lemma SymmetricDifferenceSize<T>(x: set<T>, y: set<T>)
    ensures |(x - y) + (y - x)| + 2 * |x * y| == |x| + |y|
  {
    assert (x - y) !! (y - x);
    assert x == (x - y) + x * y && y == (y - x) + x * y;
    assert |x| == |x - y| + |x * y|;
    assert |y| == |y - x| + |x * y|;
  }
}
