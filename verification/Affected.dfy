/**
Which rows a change can make stale: the direct dependers of the changed row or
edge, expanded by all parent-child descendants across both tables.
*/
module Affected {
  import opened BlockedTables
  import opened BlockedColumn

  // ----- the queries, as sets of rows -----

  /** Rows with a blocking edge onto `n`. */
  function Dependers(g: Tables, n: Node): set<Node> {
    set d | d in g.deps && d.dst == n && Hard(d.kind) :: d.src
  }

  function WaitersOn(g: Tables, spawner: Node): set<Node> {
    set d | d in g.deps && d.dst == spawner && d.kind.WaitsFor? :: d.src
  }

  function Children(g: Tables, n: Node): set<Node> {
    set d | d in g.deps && d.dst == n && d.kind.ParentChild? :: d.src
  }

  function ChildrenOf(g: Tables, parents: set<Node>): (found: set<Node>)
    ensures forall n | n in parents :: Children(g, n) <= found
    ensures forall c | c in found :: exists d | d in g.deps :: d.src == c
  {
    set d | d in g.deps && d.dst in parents && d.kind.ParentChild? :: d.src
  }

  lemma ChildrenInClosed(g: Tables, parents: set<Node>, t: set<Node>)
    requires parents <= t && ClosedUnderChildren(g, t)
    ensures ChildrenOf(g, parents) <= t
  {
  }

  function ParentsOf(g: Tables, n: Node): set<Node> {
    set d | d in g.deps && d.src == n && d.kind.ParentChild? && !d.dst.External? :: d.dst
  }

  /** Waiters whose spawner is a parent of `n`. */
  function WaitersOverParentsOf(g: Tables, n: Node): set<Node> {
    set d | d in g.deps && d.kind.WaitsFor? && d.dst in ParentsOf(g, n) :: d.src
  }

  // ----- seeds -----

  function StatusSeeds(g: Tables, n: Node): set<Node> {
    {n} + Dependers(g, n) + WaitersOverParentsOf(g, n)
  }

  function EdgeSeeds(g: Tables, src: Node, target: ID, kind: DepType): set<Node> {
    if !AffectsReadyWork(kind) then {}
    else if kind.ParentChild? && target != "" then {src} + WaitersOn(g, Issue(target)) + WaitersOn(g, Wisp(target))
    else {src}
  }

  /** Which rows a change of `n` seeds, edge type by edge type. */
  lemma StatusSeedsIff(g: Tables, n: Node, r: Node)
    ensures r in StatusSeeds(g, n) <==>
              || r == n
              || (exists gate :: Dep(r, n, Blocks, gate) in g.deps || Dep(r, n, ConditionalBlocks, gate) in g.deps)
              || (exists x: Node, gate, k ::
                    !x.External? && Dep(n, x, ParentChild, k) in g.deps && Dep(r, x, WaitsFor, gate) in g.deps)
  {
    hide WaitersOverParentsOf;
    assert forall d: Dep :: d == Dep(d.src, d.dst, d.kind, d.anyGate);
    WaitersOverParentsIff(g, n, r);
  }

  lemma WaitersOverParentsIff(g: Tables, n: Node, r: Node)
    ensures r in WaitersOverParentsOf(g, n) <==>
              exists x: Node, gate, k ::
                !x.External? && Dep(n, x, ParentChild, k) in g.deps && Dep(r, x, WaitsFor, gate) in g.deps
  {
    if d :| d in g.deps && d.src == r && d.kind.WaitsFor? && d.dst in ParentsOf(g, n) {
      var c :| c in g.deps && c.src == n && c.kind.ParentChild? && c.dst == d.dst;
      assert c == Dep(n, d.dst, ParentChild, c.anyGate) && d == Dep(r, d.dst, WaitsFor, d.anyGate);
    }
    if x: Node, gate, k :| !x.External? && Dep(n, x, ParentChild, k) in g.deps && Dep(r, x, WaitsFor, gate) in g.deps {
      assert x in ParentsOf(g, n);
    }
  }

  /** Which rows a change of an edge seeds: its source, and for a parent link the waiters on its target, in either table. */
  lemma EdgeSeedsIff(g: Tables, src: Node, target: ID, kind: DepType, r: Node)
    requires target != ""
    ensures r in EdgeSeeds(g, src, target, kind) <==>
              || (r == src && (kind == Blocks || kind == ConditionalBlocks || kind == ParentChild || kind == WaitsFor))
              || (kind == ParentChild && exists gate ::
                    Dep(r, Issue(target), WaitsFor, gate) in g.deps || Dep(r, Wisp(target), WaitsFor, gate) in g.deps)
  {
    assert forall d: Dep :: d == Dep(d.src, d.dst, d.kind, d.anyGate);
  }

  /** `s` is the smallest set that contains `seeds` and the children of its members. */
  ghost predicate IsClosure(g: Tables, seeds: set<Node>, s: set<Node>) {
    && seeds <= s && ClosedUnderChildren(g, s)
    && forall t | seeds <= t && ClosedUnderChildren(g, t) :: s <= t
  }

  lemma ClosureUnique(g: Tables, seeds: set<Node>, s: set<Node>, t: set<Node>)
    requires IsClosure(g, seeds, s) && IsClosure(g, seeds, t)
    ensures s == t
  {
  }

  function Elements(ids: seq<ID>): set<ID> {
    set id | id in ids
  }

  /** The queues and seen-sets of one expansion: `issueSeed`, `issueSeen`, `wispSeed`, `wispSeen`. */
  class AffectedSet {
    var issues: seq<ID>
    var issueSeen: set<ID>
    var wisps: seq<ID>
    var wispSeen: set<ID>

    ghost predicate Valid()
      reads this
    {
      && Elements(issues) == issueSeen && |issues| == |issueSeen|
      && Elements(wisps) == wispSeen && |wisps| == |wispSeen|
    }

    function Nodes(): (nodes: set<Node>)
      reads this
      ensures forall n | n in nodes :: !n.External?
    {
      IdNodes(false, issues) + IdNodes(true, wisps)
    }

    constructor ()
      ensures Valid() && Nodes() == {} && fresh(this)
    {
      issues, issueSeen, wisps, wispSeen := [], {}, [], {};
    }

    method Add(n: Node)
      requires Valid() && !n.External?
      modifies this
      ensures Valid() && Nodes() == old(Nodes()) + {n}
      ensures old(issues) <= issues && old(wisps) <= wisps
    {
      if n.Issue? && n.id !in issueSeen {
        IdNodesAppend(false, issues, n.id);
        issueSeen := issueSeen + {n.id};
        issues := issues + [n.id];
      } else if n.Wisp? && n.id !in wispSeen {
        IdNodesAppend(true, wisps, n.id);
        wispSeen := wispSeen + {n.id};
        wisps := wisps + [n.id];
      }
    }

    /** The rows of one query, in the order the database returns them. */
    method AddAll(rows: set<Node>)
      requires Valid() && forall n | n in rows :: !n.External?
      modifies this
      ensures Valid() && Nodes() == old(Nodes()) + rows
      ensures old(issues) <= issues && old(wisps) <= wisps
    {
      var todo := rows;
      while todo != {}
        invariant todo <= rows && Valid()
        invariant Nodes() == old(Nodes()) + (rows - todo)
        invariant old(issues) <= issues && old(wisps) <= wisps
        decreases todo
      {
        var n :| n in todo;
        Add(n);
        todo := todo - {n};
      }
    }

    /** expandByParentChildDescendantsInTx: two queues, each drained a batch at a time. */
    method ExpandByParentChildDescendants(g: Tables)
      requires Valid() && g.Valid()
      modifies this
      ensures Valid() && IsClosure(g, old(Nodes()), Nodes())
    {
      var issueHead: nat, wispHead: nat := 0, 0;
      ghost var seeds := Nodes();
      ghost var all := seeds + set d | d in g.deps :: d.src;
      while issueHead < |issues| || wispHead < |wisps|
        invariant Expanding(g, seeds, all, issueHead, wispHead)
        decreases 2 * |all| - issueHead - wispHead
      {
        QueueBound(all);
        if issueHead < |issues| {
          var end := if issueHead + QUERY_BATCH_SIZE > |issues| then |issues| else issueHead + QUERY_BATCH_SIZE;
          ExpandBatch(g, false, issueHead, end, wispHead, seeds, all);
          issueHead := end;
        }
        if wispHead < |wisps| {
          var end := if wispHead + QUERY_BATCH_SIZE > |wisps| then |wisps| else wispHead + QUERY_BATCH_SIZE;
          ExpandBatch(g, true, wispHead, end, issueHead, seeds, all);
          wispHead := end;
        }
        QueueBound(all);
      }
      assert issues[..issueHead] == issues && wisps[..wispHead] == wisps;
      forall d | d in g.deps && d.kind.ParentChild? && d.dst in Nodes()
        ensures d.src in Nodes()
      {
        assert d.src in Children(g, d.dst);
      }
    }

    /** The rows in front of the two heads have had their children queued. */
    ghost predicate Expanding(g: Tables, seeds: set<Node>, all: set<Node>, issueHead: nat, wispHead: nat)
      reads this
    {
      && Valid() && issueHead <= |issues| && wispHead <= |wisps|
      && seeds <= Nodes() <= all
      && (forall d | d in g.deps :: d.src in all)
      && (forall n | n in IdNodes(false, issues[..issueHead]) :: Children(g, n) <= Nodes())
      && (forall n | n in IdNodes(true, wisps[..wispHead]) :: Children(g, n) <= Nodes())
      && forall t | seeds <= t && ClosedUnderChildren(g, t) :: Nodes() <= t
    }

    /** One batch of parents from one queue: its children in both dependency tables. */
    method ExpandBatch(g: Tables, fromWisps: bool, start: nat, end: nat,
                       ghost otherHead: nat, ghost seeds: set<Node>, ghost all: set<Node>)
      requires g.Valid() && start <= end <= if fromWisps then |wisps| else |issues|
      requires Expanding(g, seeds, all, if fromWisps then otherHead else start, if fromWisps then start else otherHead)
      modifies this
      ensures Expanding(g, seeds, all, if fromWisps then otherHead else end, if fromWisps then end else otherHead)
    {
      hide ClosedUnderChildren, ChildrenOf, Children;
      var batch := (if fromWisps then wisps else issues)[start..end];
      var parents := IdNodes(fromWisps, batch);
      var found := ChildrenOf(g, parents);
      IdNodesSplit(fromWisps, if fromWisps then wisps else issues, start, end);
      forall t | seeds <= t && ClosedUnderChildren(g, t) ensures found <= t {
        assert parents <= t;
        ChildrenInClosed(g, parents, t);
      }
      ghost var issues0, wisps0, nodes := issues, wisps, Nodes();
      AddAll(found);
      assert fromWisps ==> issues[..otherHead] == issues0[..otherHead] && wisps[..end] == wisps0[..end];
      assert !fromWisps ==> wisps[..otherHead] == wisps0[..otherHead] && issues[..end] == issues0[..end];
    }

    lemma QueueBound(all: set<Node>)
      requires Valid() && Nodes() <= all
      ensures |issues| <= |all| && |wisps| <= |all|
    {
      IdNodesSize(false, issueSeen, all);
      IdNodesSize(true, wispSeen, all);
    }
  }

  lemma {:induction false} IdNodesSize(wisps: bool, ids: set<ID>, all: set<Node>)
    requires forall id | id in ids :: (if wisps then Wisp(id) else Issue(id)) in all
    ensures |ids| <= |all|
  {
    if ids != {} {
      var id :| id in ids;
      IdNodesSize(wisps, ids - {id}, all - {if wisps then Wisp(id) else Issue(id)});
    }
  }

  /** AffectedByStatusChangeInTx and AffectedByStatusChangeForWispInTx. */
  method AffectedByStatusChange(g: Tables, n: Node) returns (affected: AffectedSet)
    requires g.Valid() && !n.External?
    ensures fresh(affected) && affected.Valid() && IsClosure(g, StatusSeeds(g, n), affected.Nodes())
  {
    affected := new AffectedSet();
    affected.Add(n);
    affected.AddAll(Dependers(g, n));
    affected.AddAll(WaitersOverParentsOf(g, n));
    assert affected.Nodes() == StatusSeeds(g, n);
    affected.ExpandByParentChildDescendants(g);
  }

  /** AffectedByDepChangeInTx and AffectedByDepChangeForWispInTx. */
  method AffectedByDepChange(g: Tables, src: Node, target: ID, kind: DepType) returns (affected: AffectedSet)
    requires g.Valid() && !src.External?
    ensures fresh(affected) && affected.Valid() && IsClosure(g, EdgeSeeds(g, src, target, kind), affected.Nodes())
  {
    affected := new AffectedSet();
    if AffectsReadyWork(kind) {
      affected.Add(src);
      if kind.ParentChild? && target != "" {
        affected.AddAll(WaitersOn(g, Issue(target)));
        affected.AddAll(WaitersOn(g, Wisp(target)));
      }
      assert affected.Nodes() == EdgeSeeds(g, src, target, kind);
      affected.ExpandByParentChildDescendants(g);
    }
  }

  // ----- why the affected set is enough -----

  /** A column stored over a graph. */
  datatype Store = Store(g: Tables, col: Column) {
    predicate Valid() {
      g.Valid() && ColumnOf(g, col)
    }
  }

  function StatusOf(g: Tables, n: Node): set<Status> {
    if n in g.status then {g.status[n]} else {}
  }

  function FlagOf(col: Column, n: Node): set<bool> {
    if n in col then {col[n]} else {}
  }

  /**
  `b` contains the affected rows of everything that differs between `x` and
  `y`: statuses (rows added and removed included), edges and stored flags.  The
  seeds are read from the graph as it is in `y`.
  */
  ghost predicate CoversChange(x: Store, y: Store, b: set<Node>) {
    && ClosedUnderChildren(y.g, b)
    && (forall n :: StatusOf(x.g, n) != StatusOf(y.g, n) ==> StatusSeeds(y.g, n) <= b)
    && (forall d :: (d in x.g.deps) != (d in y.g.deps) ==> EdgeSeeds(y.g, d.src, d.dst.id, d.kind) <= b)
    && (forall n :: FlagOf(x.col, n) != FlagOf(y.col, n) ==> n in b)
  }

  lemma SameStatus(x: Store, y: Store, b: set<Node>, n: Node, r: Node)
    requires CoversChange(x, y, b) && r !in b && r in StatusSeeds(y.g, n)
    ensures n in x.g.status <==> n in y.g.status
    ensures n in x.g.status ==> x.g.status[n] == y.g.status[n]
  {
    assert StatusOf(x.g, n) == StatusOf(y.g, n);
    assert n in x.g.status ==> x.g.status[n] in StatusOf(y.g, n);
    assert n in y.g.status ==> y.g.status[n] in StatusOf(x.g, n);
  }

  lemma SameEdge(x: Store, y: Store, b: set<Node>, d: Dep)
    requires CoversChange(x, y, b) && d.src !in b && AffectsReadyWork(d.kind)
    ensures d in x.g.deps <==> d in y.g.deps
  {
    assert d.src in EdgeSeeds(y.g, d.src, d.dst.id, d.kind);
  }

  /** The gate of a waiter outside `b` sees the same children with the same statuses. */
  lemma SameChild(x: Store, y: Store, b: set<Node>, w: Dep, c: Dep)
    requires x.Valid() && y.Valid() && CoversChange(x, y, b)
    requires w in y.g.deps && w.kind.WaitsFor? && w.src !in b && !w.dst.External?
    requires c.kind.ParentChild? && c.dst == w.dst && (c in x.g.deps || c in y.g.deps)
    ensures c in x.g.deps && c in y.g.deps
    ensures IsActive(x.g, c.src) == IsActive(y.g, c.src) && IsClosed(x.g, c.src) == IsClosed(y.g, c.src)
  {
    assert w.src in EdgeSeeds(y.g, c.src, c.dst.id, c.kind);
    assert c.dst in ParentsOf(y.g, c.src);
    assert w.src in WaitersOverParentsOf(y.g, c.src);
    SameStatus(x, y, b, c.src, w.src);
  }

  lemma SameGate(x: Store, y: Store, b: set<Node>, w: Dep)
    requires x.Valid() && y.Valid() && CoversChange(x, y, b)
    requires w in y.g.deps && w.kind.WaitsFor? && w.src !in b
    ensures GateBlocks(x.g, w) == GateBlocks(y.g, w)
  {
    if !w.dst.External? {
      forall c: Dep | c.kind.ParentChild? && c.dst == w.dst && (c in x.g.deps || c in y.g.deps)
        ensures c in x.g.deps && c in y.g.deps
        ensures IsActive(x.g, c.src) == IsActive(y.g, c.src) && IsClosed(x.g, c.src) == IsClosed(y.g, c.src)
      {
        SameChild(x, y, b, w, c);
      }
    }
  }

  lemma SameDirect(x: Store, y: Store, b: set<Node>, r: Node)
    requires x.Valid() && y.Valid() && CoversChange(x, y, b) && r !in b
    ensures DirectlyBlocked(x.g, r) == DirectlyBlocked(y.g, r)
  {
    forall d: Dep | d.src == r && AffectsReadyWork(d.kind) && (d in x.g.deps || d in y.g.deps)
      ensures d in x.g.deps && d in y.g.deps
      ensures Hard(d.kind) ==> IsActive(x.g, d.dst) == IsActive(y.g, d.dst)
      ensures d.kind.WaitsFor? ==> GateBlocks(x.g, d) == GateBlocks(y.g, d)
    {
      SameEdge(x, y, b, d);
      if Hard(d.kind) {
        assert r in Dependers(y.g, d.dst);
        SameStatus(x, y, b, d.dst, r);
      }
      if d.kind.WaitsFor? {
        SameGate(x, y, b, d);
      }
    }
    hide GateBlocks, IsActive;
  }

  lemma SameParents(x: Store, y: Store, b: set<Node>, r: Node)
    requires x.Valid() && y.Valid() && CoversChange(x, y, b) && r !in b
    ensures ParentBlocked(x.g, x.col, r) == ParentBlocked(y.g, y.col, r)
  {
    forall d: Dep | d.src == r && d.kind.ParentChild? && (d in x.g.deps || d in y.g.deps)
      ensures d in x.g.deps && d in y.g.deps
      ensures (d.dst in x.col && x.col[d.dst]) == (d.dst in y.col && y.col[d.dst])
    {
      SameEdge(x, y, b, d);
      assert d.dst !in b;
      SameFlag(x, y, b, d.dst);
    }
  }

  lemma SameFlag(x: Store, y: Store, b: set<Node>, n: Node)
    requires CoversChange(x, y, b) && n !in b
    ensures n in x.col <==> n in y.col
    ensures n in x.col ==> x.col[n] == y.col[n]
  {
    assert FlagOf(x.col, n) == FlagOf(y.col, n);
    assert n in x.col ==> x.col[n] in FlagOf(y.col, n);
    assert n in y.col ==> y.col[n] in FlagOf(x.col, n);
  }

  /** Outside the affected rows of a change, a row is stale after it exactly when it was before. */
  lemma Untouched(x: Store, y: Store, b: set<Node>, r: Node)
    requires x.Valid() && y.Valid() && CoversChange(x, y, b) && r !in b
    ensures IsStale(x.g, x.col, r) == IsStale(y.g, y.col, r)
  {
    SameFlag(x, y, b, r);
    SameStatus(x, y, b, r, r);
    SameDirect(x, y, b, r);
    SameParents(x, y, b, r);
    hide DirectlyBlocked, ParentBlocked, CoversChange;
  }

  /**
  A repair over `b` cannot reach a row outside it, so it restores consistency
  exactly when every stale row was inside.
  */
  lemma ClosedRepair(g: Tables, rank: map<Node, nat>, col: Column, b: set<Node>)
    requires g.Valid() && Ranks(g, rank) && ColumnOf(g, col) && ClosedUnderChildren(g, b)
    ensures SettledColumn(g, rank, b, col) == Truth(g, rank) <==> Stale(g, col) <= b
  {
    var want := SettledColumn(g, rank, b, col);
    SettledIsFixpoint(g, rank, b, col);
    TruthIsTheConsistentColumn(g, rank, want);
    forall r | r in col && r !in b
      ensures IsStale(g, want, r) == IsStale(g, col, r)
    {
      assert forall d | d in g.deps && d.src == r && d.kind.ParentChild? :: d.dst !in b;
      ShouldBeBlockedLocal(g, want, col, r);
    }
    hide ShouldBeBlocked, SettledColumn, Truth;
    if Consistent(g, want) {
      forall r | r in Stale(g, col) ensures r in b {
      }
    }
    if Stale(g, col) <= b {
      forall r | r in want ensures !IsStale(g, want, r) {
        if r !in b {
          assert r !in Stale(g, col);
        }
      }
    }
  }
}
