/**
Applying a graph plan: two preflight checks over planned plus existing edges,
then the insertion passes.

The two checks use different edges on purpose.  The parent-path check follows
everything that affects ready work; the cycle check follows blocking edges only.
*/
module GraphApply {
  import opened Wrappers
  import opened Paths
  import opened BlockedTables
  import opened Dependencies

  datatype GraphNode = GraphNode(key: string, hasIssue: bool, parentKey: string, parentID: ID)

  /** `kind` None is the empty type, read as blocks. */
  datatype GraphEdge = GraphEdge(fromKey: string, fromID: ID, toKey: string, toID: ID, kind: Option<DepType>) {
    function Kind(): DepType {
      if kind.None? then Blocks else kind.value
    }

    function From(keys: Keys): ID {
      ResolveEdgeRef(fromKey, fromID, keys)
    }

    function To(keys: Keys): ID {
      ResolveEdgeRef(toKey, toID, keys)
    }

    function Pair(keys: Keys): (ID, ID) {
      (From(keys), To(keys))
    }

    predicate Resolved(keys: Keys) {
      From(keys) != "" && To(keys) != ""
    }
  }

  datatype GraphPlan = GraphPlan(nodes: seq<GraphNode>, edges: seq<GraphEdge>)

  /** keyToID: the id minted for each node key. */
  type Keys = map<string, ID>

  function Lookup(keys: Keys, key: string): ID {
    if key in keys then keys[key] else ""
  }

  function ResolveEdgeRef(key: string, id: ID, keys: Keys): ID {
    if key != "" then Lookup(keys, key) else id
  }

  function ParentOf(n: GraphNode, keys: Keys): ID {
    if n.parentKey != "" then Lookup(keys, n.parentKey) else n.parentID
  }

  function KeysOf(nodes: seq<GraphNode>, minted: seq<ID>): Keys
    requires |minted| == |nodes|
  {
    if nodes == [] then map[]
    else KeysOf(nodes[..|nodes| - 1], minted[..|nodes| - 1])[nodes[|nodes| - 1].key := minted[|nodes| - 1]]
  }

  // ----- planned edges -----

  predicate Linked(n: GraphNode, keys: Keys) {
    Lookup(keys, n.key) != "" && ParentOf(n, keys) != ""
  }

  /** graphParentDepPairs: the (child, parent) pairs implied by the nodes. */
  function ParentPairs(nodes: seq<GraphNode>, keys: Keys): Edges<ID> {
    set n | n in nodes && Linked(n, keys) :: (Lookup(keys, n.key), ParentOf(n, keys))
  }

  /** A blocking edge from a parent to its child, left to the edge pass to refuse. */
  predicate ReverseOfParent(e: GraphEdge, keys: Keys, pairs: Edges<ID>) {
    Hard(e.Kind()) && (e.To(keys), e.From(keys)) in pairs
  }

  /** The planned edges the parent-path check walks. */
  function PathEdges(plan: GraphPlan, keys: Keys, pairs: Edges<ID>): Edges<ID> {
    pairs + set e | e in plan.edges && e.Resolved(keys) && AffectsReadyWork(e.Kind())
                    && !ReverseOfParent(e, keys, pairs) :: e.Pair(keys)
  }

  /** The planned edges the cycle check walks. */
  function PlannedBlocking(plan: GraphPlan, keys: Keys): Edges<ID> {
    set e | e in plan.edges && e.Resolved(keys) && Hard(e.Kind()) :: e.Pair(keys)
  }

  function Ready(t: DepTables): Edges<ID> {
    t.EdgesOf(AffectsReadyWork)
  }

  // ----- what the plan inserts -----

  function EdgeRows(edges: seq<GraphEdge>, keys: Keys, pairs: Edges<ID>): seq<Dependency> {
    if edges == [] then [] else
      var e := edges[|edges| - 1];
      EdgeRows(edges[..|edges| - 1], keys, pairs)
      + if e.Pair(keys) in pairs then [] else [Dependency(e.From(keys), e.To(keys), e.Kind())]
  }

  function ParentRows(nodes: seq<GraphNode>, keys: Keys): seq<Dependency> {
    if nodes == [] then [] else
      var n := nodes[|nodes| - 1];
      ParentRows(nodes[..|nodes| - 1], keys)
      + if ParentOf(n, keys) == "" then [] else [Dependency(Lookup(keys, n.key), ParentOf(n, keys), ParentChild)]
  }

  function Rows(plan: GraphPlan, keys: Keys): seq<Dependency> {
    EdgeRows(plan.edges, keys, ParentPairs(plan.nodes, keys)) + ParentRows(plan.nodes, keys)
  }

  predicate EdgeAllowed(e: GraphEdge, keys: Keys, pairs: Edges<ID>) {
    && e.Resolved(keys)
    && (e.Pair(keys) in pairs ==> e.Kind().ParentChild?)
    && (e.Pair(keys) !in pairs ==> !ReverseOfParent(e, keys, pairs))
  }

  // ----- the preflight conditions -----

  /** No planned parent reaches its child. */
  ghost predicate PathsClear(t: DepTables, plan: GraphPlan, keys: Keys) {
    var pairs := ParentPairs(plan.nodes, keys);
    forall c, p | (c, p) in pairs :: !Reaches(PathEdges(plan, keys, pairs) + Ready(t), p, c)
  }

  /** No planned blocking edge lies on a cycle of planned and existing blocking edges. */
  ghost predicate CyclesClear(t: DepTables, plan: GraphPlan, keys: Keys) {
    forall u, v | (u, v) in PlannedBlocking(plan, keys) :: !Reaches(PlannedBlocking(plan, keys) + Blocking(t), v, u)
  }

  /** Everything a plan has to satisfy to be applied. */
  ghost predicate Accepted(t: DepTables, plan: GraphPlan, keys: Keys, useWisp: bool) {
    && (forall n | n in plan.nodes :: n.hasIssue)
    && PathsClear(t, plan, keys) && CyclesClear(t, plan, keys)
    && (forall e | e in plan.edges :: EdgeAllowed(e, keys, ParentPairs(plan.nodes, keys)))
    && InsertedAll(t, Rows(plan, keys), useWisp).Some?
  }

  // ----- the walk over planned and existing edges -----

  function AdjEdges(adj: Graph): Edges<ID> {
    set u, v | u in adj && v in adj[u] :: (u, v)
  }

  function Append(adj: Graph, u: ID, v: ID): Graph {
    adj[u := (if u in adj then adj[u] else []) + [v]]
  }

  lemma AppendEdges(adj: Graph, u: ID, v: ID)
    ensures AdjEdges(Append(adj, u, v)) == AdjEdges(adj) + {(u, v)}
  {
    var after := Append(adj, u, v);
    forall x | x in AdjEdges(adj) + {(u, v)} ensures x in AdjEdges(after) {
      assert x.0 in after && x.1 in after[x.0];
    }
  }

  type OutRow = (ID, DepType)

  ghost predicate ListsOutgoing(rows: seq<OutRow>, t: DepTables, id: ID) {
    forall r :: r in rows <==>
      ((id, r.0) in t.regular && t.regular[(id, r.0)] == r.1) || ((id, r.0) in t.wisp && t.wisp[(id, r.0)] == r.1)
  }

  /** graphHasPath and the state its calls share: the dependency cache, and the nodes seen by the current call. */
  class Walk {
    const tables: DepTables
    var depCache: map<ID, seq<OutRow>>
    var seen: set<ID>

    /** Every cached entry is what the store holds, in both tables. */
    ghost predicate Valid()
      reads this
    {
      forall id | id in depCache :: ListsOutgoing(depCache[id], tables, id)
    }

    constructor (t: DepTables)
      ensures Valid() && tables == t && fresh(this)
    {
      tables := t;
      depCache := map[];
      seen := {};
    }

    /** ListByIssueIDs for one id, in one table, in the order the rows come back. */
    method ListOutgoing(t: DepTable, id: ID) returns (rows: seq<OutRow>)
      ensures forall r :: r in rows <==> (id, r.0) in t && t[(id, r.0)] == r.1
    {
      var todo := set x | x in t && x.0 == id;
      ghost var all := todo;
      rows := [];
      while todo != {}
        invariant todo <= all
        invariant forall r :: r in rows <==> (id, r.0) in all - todo && t[(id, r.0)] == r.1
        decreases todo
      {
        var x :| x in todo;
        rows := rows + [(x.1, t[x])];
        todo := todo - {x};
      }
    }

    function WalkEdges(adj: Graph, follow: DepType -> bool): Edges<ID> {
      AdjEdges(adj) + tables.EdgesOf(follow)
    }

    /** The nodes seen since `before`, other than `open`, have had all their successors visited. */
    ghost predicate ExploredSince(before: set<ID>, open: set<ID>, adj: Graph, follow: DepType -> bool)
      reads this
    {
      forall u, v | (u, v) in WalkEdges(adj, follow) && u in seen && u !in before && u !in open :: v in seen
    }

    method Visit(adj: Graph, id: ID, toID: ID, follow: DepType -> bool, ghost all: set<ID>) returns (found: bool)
      requires Valid() && toID !in seen && id in all && ClosedUnder(WalkEdges(adj, follow), all)
      modifies this
      ensures Valid() && old(seen) <= seen
      ensures found ==> Reaches(WalkEdges(adj, follow), id, toID)
      ensures !found ==> id in seen && toID !in seen && ExploredSince(old(seen), {}, adj, follow)
      decreases all - seen
    {
      hide WalkEdges, ListsOutgoing;
      ghost var e := WalkEdges(adj, follow);
      if id == toID {
        ReachesSelf(e, id);
        return true;
      }
      if id in seen {
        return false;
      }
      ghost var before := seen;
      seen := seen + {id};
      var nexts := if id in adj then adj[id] else [];
      AdjacentEdges(adj, follow, id);
      for i := 0 to |nexts|
        invariant Valid() && before + {id} <= seen && toID !in seen
        invariant ExploredSince(before, {id}, adj, follow)
        invariant forall v | v in nexts[..i] :: v in seen
      {
        found := Visit(adj, nexts[i], toID, follow, all);
        if found {
          ReachesEdge(e, id, nexts[i], toID);
          return;
        }
      }
      var deps := CachedDeps(id);
      ExistingEdges(adj, follow, id, deps);
      for i := 0 to |deps|
        invariant Valid() && before + {id} <= seen && toID !in seen
        invariant ExploredSince(before, {id}, adj, follow)
        invariant forall v | v in nexts :: v in seen
        invariant forall r | r in deps[..i] && follow(r.1) :: r.0 in seen
      {
        if follow(deps[i].1) {
          assert deps[i] in deps;
          found := Visit(adj, deps[i].0, toID, follow, all);
          if found {
            ReachesEdge(e, id, deps[i].0, toID);
            return;
          }
        }
      }
      return false;
    }

    lemma AdjacentEdges(adj: Graph, follow: DepType -> bool, id: ID)
      ensures forall v | v in if id in adj then adj[id] else [] :: (id, v) in WalkEdges(adj, follow)
    {
    }

    lemma ExistingEdges(adj: Graph, follow: DepType -> bool, id: ID, deps: seq<OutRow>)
      requires ListsOutgoing(deps, tables, id)
      ensures forall r | r in deps && follow(r.1) :: (id, r.0) in WalkEdges(adj, follow)
      ensures forall v | (id, v) in WalkEdges(adj, follow) ::
                (v in if id in adj then adj[id] else []) || exists r | r in deps :: follow(r.1) && r.0 == v
    {
      forall v | (id, v) in WalkEdges(adj, follow) && v !in if id in adj then adj[id] else []
        ensures exists r | r in deps :: follow(r.1) && r.0 == v
      {
        var kind := if (id, v) in tables.regular && follow(tables.regular[(id, v)]) then tables.regular[(id, v)]
                    else tables.wisp[(id, v)];
        assert (v, kind) in deps;
      }
    }

    /** The existing dependencies of one node, read from both tables at most once. */
    method CachedDeps(id: ID) returns (deps: seq<OutRow>)
      requires Valid()
      modifies this`depCache
      ensures Valid() && id in depCache && deps == depCache[id] && ListsOutgoing(deps, tables, id)
      ensures forall k | k in old(depCache) :: k in depCache && depCache[k] == old(depCache)[k]
    {
      if id !in depCache {
        var regular := ListOutgoing(tables.regular, id);
        var wisp := ListOutgoing(tables.wisp, id);
        depCache := depCache[id := regular + wisp];
      }
      deps := depCache[id];
    }

    method GraphHasPath(adj: Graph, fromID: ID, toID: ID, follow: DepType -> bool) returns (found: bool)
      requires Valid()
      modifies this
      ensures Valid()
      ensures found <==> Reaches(AdjEdges(adj) + tables.EdgesOf(follow), fromID, toID)
    {
      seen := {};
      ghost var e := WalkEdges(adj, follow);
      ghost var all := Ends(e) + {fromID};
      assert forall u, v | (u, v) in e :: (u, v).1 in all;
      found := Visit(adj, fromID, toID, follow, all);
      if !found {
        assert ClosedUnder(e, seen);
        ClosedReaches(e, seen, fromID);
      }
    }
  }

  // ----- the preflight checks -----

  /** graphParentDepPairs */
  method ParentDepPairs(nodes: seq<GraphNode>, keys: Keys) returns (pairs: Edges<ID>)
    ensures pairs == ParentPairs(nodes, keys)
  {
    pairs := {};
    for i := 0 to |nodes|
      invariant pairs == ParentPairs(nodes[..i], keys)
    {
      var childID, parentID := Lookup(keys, nodes[i].key), ParentOf(nodes[i], keys);
      assert nodes[..i + 1] == nodes[..i] + [nodes[i]];
      if childID != "" && parentID != "" {
        pairs := pairs + {(childID, parentID)};
      }
    }
    assert nodes[..|nodes|] == nodes;
  }

  /** The adjacency of the parent-path check: the parent pairs in any order, then the planned edges. */
  method PathAdjacency(plan: GraphPlan, keys: Keys, pairs: Edges<ID>) returns (adj: Graph)
    ensures AdjEdges(adj) == PathEdges(plan, keys, pairs)
  {
    hide AdjEdges, Append, PathEdges;
    adj := map[];
    NoAdjacency(plan, keys, pairs);
    var todo := pairs;
    while todo != {}
      invariant todo <= pairs && AdjEdges(adj) == pairs - todo
      decreases todo
    {
      var x :| x in todo;
      AppendEdges(adj, x.0, x.1);
      adj := Append(adj, x.0, x.1);
      todo := todo - {x};
    }
    for i := 0 to |plan.edges|
      invariant AdjEdges(adj) == PathEdges(plan.(edges := plan.edges[..i]), keys, pairs)
    {
      var e := plan.edges[i];
      PlannedStep(plan, keys, pairs, i);
      if AffectsReadyWork(e.Kind()) && e.Resolved(keys) && !ReverseOfParent(e, keys, pairs) {
        AppendEdges(adj, e.From(keys), e.To(keys));
        adj := Append(adj, e.From(keys), e.To(keys));
      }
    }
    assert plan.edges[..|plan.edges|] == plan.edges;
  }

  lemma NoAdjacency(plan: GraphPlan, keys: Keys, pairs: Edges<ID>)
    ensures AdjEdges(map[]) == {} == PlannedBlocking(plan.(edges := plan.edges[..0]), keys)
    ensures PathEdges(plan.(edges := plan.edges[..0]), keys, pairs) == pairs
  {
  }

  lemma PlannedStep(plan: GraphPlan, keys: Keys, pairs: Edges<ID>, i: nat)
    requires i < |plan.edges|
    ensures var e, front, next := plan.edges[i], plan.(edges := plan.edges[..i]), plan.(edges := plan.edges[..i + 1]);
            && PathEdges(next, keys, pairs)
               == PathEdges(front, keys, pairs)
                  + (if AffectsReadyWork(e.Kind()) && e.Resolved(keys) && !ReverseOfParent(e, keys, pairs)
                     then {e.Pair(keys)} else {})
            && PlannedBlocking(next, keys)
               == PlannedBlocking(front, keys) + (if Hard(e.Kind()) && e.Resolved(keys) then {e.Pair(keys)} else {})
  {
    assert plan.edges[..i + 1] == plan.edges[..i] + [plan.edges[i]];
  }

  method ValidatePlannedBlockingPaths(t: DepTables, plan: GraphPlan, keys: Keys, pairs: Edges<ID>) returns (ok: bool)
    requires pairs == ParentPairs(plan.nodes, keys)
    ensures ok <==> PathsClear(t, plan, keys)
  {
    var adj := PathAdjacency(plan, keys, pairs);
    var walk := new Walk(t);
    for i := 0 to |plan.nodes|
      invariant fresh(walk) && walk.Valid() && walk.tables == t
      invariant forall c, p | (c, p) in ParentPairs(plan.nodes[..i], keys) ::
                  !Reaches(PathEdges(plan, keys, pairs) + Ready(t), p, c)
    {
      var n := plan.nodes[i];
      assert plan.nodes[..i + 1] == plan.nodes[..i] + [n];
      var childID, parentID := Lookup(keys, n.key), ParentOf(n, keys);
      if childID != "" && parentID != "" {
        var hasPath := walk.GraphHasPath(adj, parentID, childID, AffectsReadyWork);
        if hasPath {
          assert (childID, parentID) in pairs;
          return false;
        }
      }
    }
    assert plan.nodes[..|plan.nodes|] == plan.nodes;
    return true;
  }

  lemma PlannedEdge(plan: GraphPlan, keys: Keys, e: GraphEdge)
    requires e in plan.edges && Hard(e.Kind()) && e.Resolved(keys)
    ensures e.Pair(keys) in PlannedBlocking(plan, keys)
  {
  }

  method ValidatePlannedBlockingCycles(t: DepTables, plan: GraphPlan, keys: Keys) returns (ok: bool)
    ensures ok <==> CyclesClear(t, plan, keys)
  {
    hide AdjEdges, Append, PlannedBlocking;
    var adj: Graph := map[];
    NoAdjacency(plan, keys, {});
    var checks: seq<(ID, ID)> := [];
    for i := 0 to |plan.edges|
      invariant AdjEdges(adj) == PlannedBlocking(plan.(edges := plan.edges[..i]), keys)
      invariant forall x :: x in checks <==> x in AdjEdges(adj)
    {
      var e := plan.edges[i];
      PlannedStep(plan, keys, {}, i);
      if Hard(e.Kind()) && e.Resolved(keys) {
        if e.From(keys) == e.To(keys) {
          ReachesSelf(PlannedBlocking(plan, keys) + Blocking(t), e.From(keys));
          PlannedEdge(plan, keys, e);
          return false;
        }
        AppendEdges(adj, e.From(keys), e.To(keys));
        adj := Append(adj, e.From(keys), e.To(keys));
        checks := checks + [e.Pair(keys)];
      }
    }
    assert plan.edges[..|plan.edges|] == plan.edges;
    var walk := new Walk(t);
    for i := 0 to |checks|
      invariant fresh(walk) && walk.Valid() && walk.tables == t
      invariant forall x | x in checks[..i] :: !Reaches(PlannedBlocking(plan, keys) + Blocking(t), x.1, x.0)
    {
      var hasPath := walk.GraphHasPath(adj, checks[i].1, checks[i].0, Hard);
      if hasPath {
        assert checks[i] in checks && (checks[i].0, checks[i].1) in PlannedBlocking(plan, keys);
        return false;
      }
    }
    return true;
  }

  // ----- the insertion passes -----

  /** applyGraph: the minted ids are the ones pass 1 gives the nodes, in order. */
  method ApplyGraph(store: DependencyStore, plan: GraphPlan, minted: seq<ID>, useWisp: bool) returns (r: Option<Keys>)
    requires |minted| == |plan.nodes| && forall i | 0 <= i < |minted| :: minted[i] != ""
    modifies store
    ensures var keys := KeysOf(plan.nodes, minted);
            && (r.Some? <==> Accepted(old(store.tables), plan, keys, useWisp))
            && (r.Some? ==> r.value == keys
                            && InsertedAll(old(store.tables), Rows(plan, keys), useWisp) == Some(store.tables))
  {
    hide PathsClear, CyclesClear;
    ghost var before := store.tables;

    // Pass 1: every node becomes a top-level issue.
    var keys: Keys := map[];
    for i := 0 to |plan.nodes|
      invariant keys == KeysOf(plan.nodes[..i], minted[..i])
      invariant forall n | n in plan.nodes[..i] :: n.hasIssue
    {
      if !plan.nodes[i].hasIssue {
        assert plan.nodes[i] in plan.nodes;
        return None;
      }
      assert plan.nodes[..i + 1][..i] == plan.nodes[..i] && minted[..i + 1][..i] == minted[..i];
      keys := keys[plan.nodes[i].key := minted[i]];
    }
    assert plan.nodes[..|plan.nodes|] == plan.nodes && minted[..|minted|] == minted;

    // The preflight checks, before anything is inserted.
    var pairs := ParentDepPairs(plan.nodes, keys);
    var pathsOk := ValidatePlannedBlockingPaths(store.tables, plan, keys, pairs);
    if !pathsOk {
      return None;
    }
    var cyclesOk := ValidatePlannedBlockingCycles(store.tables, plan, keys);
    if !cyclesOk {
      return None;
    }

    var ok := InsertEdges(store, plan, keys, pairs, useWisp);
    if !ok {
      return None;
    }
    ok := InsertParents(store, plan, keys, pairs, useWisp, before);
    return if ok then Some(keys) else None;
  }

  lemma NothingInserted(t: DepTables, plan: GraphPlan, keys: Keys, pairs: Edges<ID>, useWisp: bool)
    ensures InsertedAll(t, EdgeRows(plan.edges[..0], keys, pairs), useWisp) == Some(t)
  {
  }

  lemma InsertedNext(t: DepTables, front: seq<Dependency>, d: Dependency, useWisp: bool)
    requires InsertedAll(t, front, useWisp).Some?
    ensures InsertedAll(t, front + [d], useWisp) == Inserted(InsertedAll(t, front, useWisp).value, d, useWisp)
  {
    assert (front + [d])[..|front|] == front;
  }

  /** A refused insert refuses every list that goes on from it. */
  lemma StopsHere(t: DepTables, rows: seq<Dependency>, front: seq<Dependency>, d: Dependency, useWisp: bool)
    requires front + [d] <= rows && InsertedAll(t, front + [d], useWisp).None?
    ensures InsertedAll(t, rows, useWisp).None?
  {
    AcceptedPrefix(t, rows, |front| + 1, useWisp);
    assert rows[..|front| + 1] == front + [d];
  }

  /** Pass 3: the planned edges. */
  method InsertEdges(store: DependencyStore, plan: GraphPlan, keys: Keys, pairs: Edges<ID>, useWisp: bool)
    returns (ok: bool)
    requires pairs == ParentPairs(plan.nodes, keys)
    modifies store
    ensures ok ==>
              && (forall e | e in plan.edges :: EdgeAllowed(e, keys, pairs))
              && InsertedAll(old(store.tables), EdgeRows(plan.edges, keys, pairs), useWisp) == Some(store.tables)
    ensures !ok ==>
              || (exists e | e in plan.edges :: !EdgeAllowed(e, keys, pairs))
              || InsertedAll(old(store.tables), Rows(plan, keys), useWisp) == None
  {
    hide InsertedAll, Inserted, Rows, ParentPairs, EdgeRows;
    ghost var before := store.tables;
    NothingInserted(before, plan, keys, pairs, useWisp);
    for i := 0 to |plan.edges|
      invariant forall e | e in plan.edges[..i] :: EdgeAllowed(e, keys, pairs)
      invariant InsertedAll(before, EdgeRows(plan.edges[..i], keys, pairs), useWisp) == Some(store.tables)
    {
      var e := plan.edges[i];
      assert e in plan.edges;
      EdgeRowsStep(plan, keys, pairs, i);
      var fromID, toID := e.From(keys), e.To(keys);
      if fromID == "" || toID == "" {
        return false;
      }
      if (fromID, toID) in pairs {
        if !e.Kind().ParentChild? {
          return false;
        }
      } else {
        if (toID, fromID) in pairs && Hard(e.Kind()) {
          return false;
        }
        var d := Dependency(fromID, toID, e.Kind());
        ghost var sofar := EdgeRows(plan.edges[..i], keys, pairs);
        InsertedNext(before, sofar, d, useWisp);
        ok := store.Insert(d, useWisp);
        if !ok {
          StopsHere(before, Rows(plan, keys), sofar, d, useWisp);
          return false;
        }
      }
    }
    assert plan.edges[..|plan.edges|] == plan.edges;
    return true;
  }

  lemma EdgeRowsStep(plan: GraphPlan, keys: Keys, pairs: Edges<ID>, i: nat)
    requires i < |plan.edges| && pairs == ParentPairs(plan.nodes, keys)
    ensures var e := plan.edges[i];
            EdgeRows(plan.edges[..i + 1], keys, pairs)
            == if e.Pair(keys) in pairs then EdgeRows(plan.edges[..i], keys, pairs)
               else EdgeRows(plan.edges[..i], keys, pairs) + [Dependency(e.From(keys), e.To(keys), e.Kind())]
    ensures EdgeRows(plan.edges[..i + 1], keys, pairs) <= Rows(plan, keys)
  {
    assert plan.edges[..i + 1][..i] == plan.edges[..i];
    EdgeRowsPrefix(plan.edges, keys, pairs, i + 1);
  }

  lemma {:induction false} EdgeRowsPrefix(edges: seq<GraphEdge>, keys: Keys, pairs: Edges<ID>, i: nat)
    requires i <= |edges|
    ensures EdgeRows(edges[..i], keys, pairs) <= EdgeRows(edges, keys, pairs)
    decreases |edges|
  {
    if i == |edges| {
      assert edges[..i] == edges;
    } else {
      var front := edges[..|edges| - 1];
      EdgeRowsPrefix(front, keys, pairs, i);
      assert front[..i] == edges[..i];
    }
  }

  /** Pass 4: the parent links, now that every id is known. */
  method InsertParents(store: DependencyStore, plan: GraphPlan, keys: Keys, pairs: Edges<ID>, useWisp: bool,
                       ghost before: DepTables)
    returns (ok: bool)
    requires pairs == ParentPairs(plan.nodes, keys)
    requires InsertedAll(before, EdgeRows(plan.edges, keys, pairs), useWisp) == Some(store.tables)
    modifies store
    ensures ok <==> InsertedAll(before, Rows(plan, keys), useWisp).Some?
    ensures ok ==> InsertedAll(before, Rows(plan, keys), useWisp) == Some(store.tables)
  {
    hide InsertedAll, Inserted, EdgeRows, ParentPairs, ParentOf, Lookup;
    ghost var rows := EdgeRows(plan.edges, keys, pairs);
    assert rows + ParentRows(plan.nodes[..0], keys) == rows;
    for i := 0 to |plan.nodes|
      invariant InsertedAll(before, rows + ParentRows(plan.nodes[..i], keys), useWisp) == Some(store.tables)
    {
      var n := plan.nodes[i];
      ParentRowsStep(plan, keys, i);
      var parentID := ParentOf(n, keys);
      if parentID != "" {
        var d := Dependency(Lookup(keys, n.key), parentID, ParentChild);
        ghost var sofar := rows + ParentRows(plan.nodes[..i], keys);
        assert rows + ParentRows(plan.nodes[..i + 1], keys) == sofar + [d];
        InsertedNext(before, sofar, d, useWisp);
        ok := store.Insert(d, useWisp);
        if !ok {
          StopsHere(before, Rows(plan, keys), sofar, d, useWisp);
          return false;
        }
      }
    }
    assert plan.nodes[..|plan.nodes|] == plan.nodes;
    return true;
  }

  lemma ParentRowsStep(plan: GraphPlan, keys: Keys, i: nat)
    requires i < |plan.nodes|
    ensures var n := plan.nodes[i];
            ParentRows(plan.nodes[..i + 1], keys)
            == if ParentOf(n, keys) == "" then ParentRows(plan.nodes[..i], keys)
               else ParentRows(plan.nodes[..i], keys) + [Dependency(Lookup(keys, n.key), ParentOf(n, keys), ParentChild)]
    ensures EdgeRows(plan.edges, keys, ParentPairs(plan.nodes, keys)) + ParentRows(plan.nodes[..i + 1], keys)
            <= Rows(plan, keys)
  {
    assert plan.nodes[..i + 1][..i] == plan.nodes[..i];
    ParentRowsPrefix(plan.nodes, keys, i + 1);
  }

  lemma {:induction false} ParentRowsPrefix(nodes: seq<GraphNode>, keys: Keys, i: nat)
    requires i <= |nodes|
    ensures ParentRows(nodes[..i], keys) <= ParentRows(nodes, keys)
    decreases |nodes|
  {
    if i == |nodes| {
      assert nodes[..i] == nodes;
    } else {
      var front := nodes[..|nodes| - 1];
      ParentRowsPrefix(front, keys, i);
      assert front[..i] == nodes[..i];
    }
  }

  // ----- what an applied plan guarantees -----

  lemma {:induction false} EdgeRowsEdges(edges: seq<GraphEdge>, keys: Keys, pairs: Edges<ID>, follow: DepType -> bool)
    ensures DepEdges(EdgeRows(edges, keys, pairs), follow)
            == set e | e in edges && e.Pair(keys) !in pairs && follow(e.Kind()) :: e.Pair(keys)
  {
    if edges != [] {
      var front, e := edges[..|edges| - 1], edges[|edges| - 1];
      EdgeRowsEdges(front, keys, pairs, follow);
      assert forall x :: x in edges <==> x in front || x == e;
      DepEdgesConcat(EdgeRows(front, keys, pairs),
                     if e.Pair(keys) in pairs then [] else [Dependency(e.From(keys), e.To(keys), e.Kind())], follow);
    }
  }

  lemma {:induction false} ParentRowsEdges(nodes: seq<GraphNode>, keys: Keys, follow: DepType -> bool)
    requires forall n | n in nodes :: Lookup(keys, n.key) != ""
    ensures DepEdges(ParentRows(nodes, keys), follow) == if follow(ParentChild) then ParentPairs(nodes, keys) else {}
  {
    if nodes != [] {
      var front, n := nodes[..|nodes| - 1], nodes[|nodes| - 1];
      ParentRowsEdges(front, keys, follow);
      assert forall x :: x in nodes <==> x in front || x == n;
      DepEdgesConcat(ParentRows(front, keys),
                     if ParentOf(n, keys) == "" then []
                     else [Dependency(Lookup(keys, n.key), ParentOf(n, keys), ParentChild)], follow);
    }
  }

  lemma {:induction false} KeysFound(nodes: seq<GraphNode>, minted: seq<ID>)
    requires |minted| == |nodes| && forall i | 0 <= i < |minted| :: minted[i] != ""
    ensures forall n | n in nodes :: n.key in KeysOf(nodes, minted)
    ensures forall k | k in KeysOf(nodes, minted) :: KeysOf(nodes, minted)[k] != ""
  {
    if nodes != [] {
      KeysFound(nodes[..|nodes| - 1], minted[..|nodes| - 1]);
      assert nodes == nodes[..|nodes| - 1] + [nodes[|nodes| - 1]];
    }
  }

  lemma RowsEdges(plan: GraphPlan, minted: seq<ID>, follow: DepType -> bool)
    requires |minted| == |plan.nodes| && forall i | 0 <= i < |minted| :: minted[i] != ""
    ensures var keys := KeysOf(plan.nodes, minted);
            var pairs := ParentPairs(plan.nodes, keys);
            DepEdges(Rows(plan, keys), follow)
            == (set e | e in plan.edges && e.Pair(keys) !in pairs && follow(e.Kind()) :: e.Pair(keys))
               + if follow(ParentChild) then pairs else {}
  {
    var keys := KeysOf(plan.nodes, minted);
    KeysFound(plan.nodes, minted);
    EdgeRowsEdges(plan.edges, keys, ParentPairs(plan.nodes, keys), follow);
    ParentRowsEdges(plan.nodes, keys, follow);
    DepEdgesConcat(EdgeRows(plan.edges, keys, ParentPairs(plan.nodes, keys)), ParentRows(plan.nodes, keys), follow);
  }

  lemma DepEdgesConcat(a: seq<Dependency>, b: seq<Dependency>, follow: DepType -> bool)
    ensures DepEdges(a + b, follow) == DepEdges(a, follow) + DepEdges(b, follow)
  {
  }

  /**
  An applied plan adds exactly its planned blocking edges to the blocking
  graph, none of them on a cycle; an acyclic blocking graph stays acyclic.
  */
  lemma AppliedKeepsBlockingAcyclic(t: DepTables, plan: GraphPlan, minted: seq<ID>, useWisp: bool)
    requires |minted| == |plan.nodes| && forall i | 0 <= i < |minted| :: minted[i] != ""
    requires Accepted(t, plan, KeysOf(plan.nodes, minted), useWisp)
    ensures var keys := KeysOf(plan.nodes, minted);
            var t' := InsertedAll(t, Rows(plan, keys), useWisp).value;
            && Blocking(t') == Blocking(t) + PlannedBlocking(plan, keys)
            && (forall u, v | (u, v) in PlannedBlocking(plan, keys) :: !OnCycle(Blocking(t'), u, v))
            && (Acyclic(Blocking(t)) ==> Acyclic(Blocking(t')))
  {
    var keys := KeysOf(plan.nodes, minted);
    InsertedAllEdges(t, Rows(plan, keys), useWisp, Hard);
    RowsEdges(plan, minted, Hard);
    var planned := PlannedBlocking(plan, keys);
    assert DepEdges(Rows(plan, keys), Hard) == planned;
    assert planned + Blocking(t) == Blocking(t) + planned;
    if Acyclic(Blocking(t)) {
      NewEdgesKeepAcyclic(Blocking(t), planned);
    }
  }

  /**
  After a plan is applied no parent link it implied lies on a cycle of edges
  that affect ready work: the edges that the path check skips, blocking ones
  from a parent to its child, are in no plan that is applied.
  */
  lemma AppliedLinksOffReadyCycles(t: DepTables, plan: GraphPlan, minted: seq<ID>, useWisp: bool, child: ID, parent: ID)
    requires |minted| == |plan.nodes| && forall i | 0 <= i < |minted| :: minted[i] != ""
    requires Accepted(t, plan, KeysOf(plan.nodes, minted), useWisp)
    requires (child, parent) in ParentPairs(plan.nodes, KeysOf(plan.nodes, minted))
    ensures var t' := InsertedAll(t, Rows(plan, KeysOf(plan.nodes, minted)), useWisp).value;
            (child, parent) in Ready(t') && !OnCycle(Ready(t'), child, parent)
    ensures var keys := KeysOf(plan.nodes, minted);
            forall e | e in plan.edges :: !ReverseOfParent(e, keys, ParentPairs(plan.nodes, keys))
  {
    var keys := KeysOf(plan.nodes, minted);
    var pairs := ParentPairs(plan.nodes, keys);
    var t' := InsertedAll(t, Rows(plan, keys), useWisp).value;
    InsertedAllEdges(t, Rows(plan, keys), useWisp, AffectsReadyWork);
    RowsEdges(plan, minted, AffectsReadyWork);
    assert Ready(t') <= PathEdges(plan, keys, pairs) + Ready(t);
    if Reaches(Ready(t'), parent, child) {
      ReachesMono(Ready(t'), PathEdges(plan, keys, pairs) + Ready(t), parent, child);
    }
  }

  // ----- types and ends, as the plan gives them -----

  /** The type an edge is given: blocks if it names none. */
  lemma TypeOf(e: GraphEdge)
    ensures e.kind == None ==> e.Kind() == Blocks
    ensures forall k | e.kind == Some(k) :: e.Kind() == k
    ensures Hard(e.Kind()) <==> e.kind in {None, Some(Blocks), Some(ConditionalBlocks)}
    ensures AffectsReadyWork(e.Kind()) <==>
              e.kind in {None, Some(Blocks), Some(ConditionalBlocks), Some(ParentChild), Some(WaitsFor)}
  {
  }

  /** An end is the id minted for its key if it has one, and an id otherwise; the same goes for a node's parent. */
  lemma EndsOf(e: GraphEdge, n: GraphNode, keys: Keys)
    ensures e.From(keys) == if e.fromKey == "" then e.fromID else if e.fromKey in keys then keys[e.fromKey] else ""
    ensures e.To(keys) == if e.toKey == "" then e.toID else if e.toKey in keys then keys[e.toKey] else ""
    ensures ParentOf(n, keys) == if n.parentKey == "" then n.parentID else if n.parentKey in keys then keys[n.parentKey] else ""
    ensures n.key in keys ==> Lookup(keys, n.key) == keys[n.key]
  {
  }

  /** A key stands for the last node that has it. */
  lemma {:induction false} LastNodeOfKey(nodes: seq<GraphNode>, minted: seq<ID>, i: nat)
    requires |minted| == |nodes| && i < |nodes| && forall j | i < j < |nodes| :: nodes[j].key != nodes[i].key
    ensures nodes[i].key in KeysOf(nodes, minted) && KeysOf(nodes, minted)[nodes[i].key] == minted[i]
  {
    if i < |nodes| - 1 {
      LastNodeOfKey(nodes[..|nodes| - 1], minted[..|nodes| - 1], i);
    }
  }

  /** The edges that the two preflight checks walk, by type. */
  lemma PlannedIff(t: DepTables, plan: GraphPlan, keys: Keys, u: ID, v: ID)
    ensures (u, v) in ParentPairs(plan.nodes, keys) <==>
              u != "" && v != "" && exists n | n in plan.nodes :: Lookup(keys, n.key) == u && ParentOf(n, keys) == v
    ensures (u, v) in PlannedBlocking(plan, keys) <==>
              && u != "" && v != ""
              && exists e | e in plan.edges ::
                   e.From(keys) == u && e.To(keys) == v && e.kind in {None, Some(Blocks), Some(ConditionalBlocks)}
    ensures (u, v) in PathEdges(plan, keys, ParentPairs(plan.nodes, keys)) <==>
              || (u, v) in ParentPairs(plan.nodes, keys)
              || (&& u != "" && v != ""
                  && exists e | e in plan.edges ::
                       && e.From(keys) == u && e.To(keys) == v
                       && (|| e.kind in {Some(ParentChild), Some(WaitsFor)}
                           || (e.kind in {None, Some(Blocks), Some(ConditionalBlocks)}
                               && (v, u) !in ParentPairs(plan.nodes, keys))))
    ensures (u, v) in Ready(t) <==>
              || ((u, v) in t.regular && t.regular[(u, v)] in {Blocks, ConditionalBlocks, ParentChild, WaitsFor})
              || ((u, v) in t.wisp && t.wisp[(u, v)] in {Blocks, ConditionalBlocks, ParentChild, WaitsFor})
  {
    hide ParentOf, Lookup, ResolveEdgeRef;
  }

  // ----- which plans are applied, and what they leave -----

  lemma {:induction false} InEdgeRows(edges: seq<GraphEdge>, keys: Keys, pairs: Edges<ID>, d: Dependency)
    ensures d in EdgeRows(edges, keys, pairs) <==>
              exists e | e in edges :: e.Pair(keys) !in pairs && d == Dependency(e.From(keys), e.To(keys), e.Kind())
  {
    if edges != [] {
      var front, last := edges[..|edges| - 1], edges[|edges| - 1];
      InEdgeRows(front, keys, pairs, d);
      assert forall e :: e in edges <==> e in front || e == last;
    }
  }

  lemma {:induction false} InParentRows(nodes: seq<GraphNode>, keys: Keys, d: Dependency)
    ensures d in ParentRows(nodes, keys) <==>
              exists n | n in nodes :: ParentOf(n, keys) != "" && d == Dependency(Lookup(keys, n.key), ParentOf(n, keys), ParentChild)
  {
    if nodes != [] {
      var front, last := nodes[..|nodes| - 1], nodes[|nodes| - 1];
      InParentRows(front, keys, d);
      assert forall n :: n in nodes <==> n in front || n == last;
    }
  }

  /** The rows of a plan whose edges on parent pairs are parent links: every edge with its type, and every parent link. */
  lemma InRows(plan: GraphPlan, keys: Keys, d: Dependency)
    requires forall n | n in plan.nodes :: Lookup(keys, n.key) != ""
    requires forall e | e in plan.edges && e.Pair(keys) in ParentPairs(plan.nodes, keys) :: e.kind == Some(ParentChild)
    ensures d in Rows(plan, keys) <==>
              || (exists e | e in plan.edges ::
                    d == Dependency(e.From(keys), e.To(keys), if e.kind.None? then Blocks else e.kind.value))
              || (exists n | n in plan.nodes ::
                    ParentOf(n, keys) != "" && d == Dependency(Lookup(keys, n.key), ParentOf(n, keys), ParentChild))
  {
    hide ParentOf, Lookup, ResolveEdgeRef, EdgeRows, ParentRows;
    InEdgeRows(plan.edges, keys, ParentPairs(plan.nodes, keys), d);
    InParentRows(plan.nodes, keys, d);
    if e :| e in plan.edges && d == Dependency(e.From(keys), e.To(keys), e.Kind()) && e.Pair(keys) in ParentPairs(plan.nodes, keys) {
      var n :| n in plan.nodes && Linked(n, keys) && (Lookup(keys, n.key), ParentOf(n, keys)) == e.Pair(keys);
      assert d == Dependency(Lookup(keys, n.key), ParentOf(n, keys), ParentChild);
    }
  }

  lemma RowsOfAllowed(t: DepTables, plan: GraphPlan, minted: seq<ID>)
    requires |minted| == |plan.nodes| && forall i | 0 <= i < |minted| :: minted[i] != ""
    requires forall e | e in plan.edges :: EdgeAllowed(e, KeysOf(plan.nodes, minted), ParentPairs(plan.nodes, KeysOf(plan.nodes, minted)))
    ensures var keys := KeysOf(plan.nodes, minted);
            && (forall e | e in plan.edges ::
                  Dependency(e.From(keys), e.To(keys), if e.kind.None? then Blocks else e.kind.value) in Rows(plan, keys))
            && (forall x | x in ParentPairs(plan.nodes, keys) :: Dependency(x.0, x.1, ParentChild) in Rows(plan, keys))
            && forall d | d in Rows(plan, keys) ::
                 || (exists e | e in plan.edges ::
                       d == Dependency(e.From(keys), e.To(keys), if e.kind.None? then Blocks else e.kind.value))
                 || ((d.issueID, d.dependsOnID) in ParentPairs(plan.nodes, keys) && d.kind == ParentChild)
  {
    hide ParentOf, ResolveEdgeRef, Rows;
    var keys := KeysOf(plan.nodes, minted);
    KeysFound(plan.nodes, minted);
    forall e | e in plan.edges && e.Pair(keys) in ParentPairs(plan.nodes, keys) ensures e.kind == Some(ParentChild) {
      assert EdgeAllowed(e, keys, ParentPairs(plan.nodes, keys));
    }
    forall e | e in plan.edges
      ensures Dependency(e.From(keys), e.To(keys), if e.kind.None? then Blocks else e.kind.value) in Rows(plan, keys)
    {
      InRows(plan, keys, Dependency(e.From(keys), e.To(keys), if e.kind.None? then Blocks else e.kind.value));
    }
    forall x | x in ParentPairs(plan.nodes, keys) ensures Dependency(x.0, x.1, ParentChild) in Rows(plan, keys) {
      InRows(plan, keys, Dependency(x.0, x.1, ParentChild));
    }
    forall d | d in Rows(plan, keys)
      ensures || (exists e | e in plan.edges ::
                    d == Dependency(e.From(keys), e.To(keys), if e.kind.None? then Blocks else e.kind.value))
              || ((d.issueID, d.dependsOnID) in ParentPairs(plan.nodes, keys) && d.kind == ParentChild)
    {
      InRows(plan, keys, d);
    }
  }

  /**
  After a plan is applied the chosen table holds every edge with its own type,
  blocks if it has none, and every implied parent link; beside what was there
  before it holds nothing else, and the other table is as it was.
  */
  lemma AppliedRows(t: DepTables, plan: GraphPlan, minted: seq<ID>, useWisp: bool)
    requires |minted| == |plan.nodes| && forall i | 0 <= i < |minted| :: minted[i] != ""
    requires Accepted(t, plan, KeysOf(plan.nodes, minted), useWisp)
    ensures var keys := KeysOf(plan.nodes, minted);
            var u := InsertedAll(t, Rows(plan, keys), useWisp).value;
            var was, rows := if useWisp then t.wisp else t.regular, if useWisp then u.wisp else u.regular;
            && (if useWisp then u.regular == t.regular else u.wisp == t.wisp)
            && (forall x | x in was :: x in rows && rows[x] == was[x])
            && (forall e | e in plan.edges && e.kind == None ::
                  (e.From(keys), e.To(keys)) in rows && rows[(e.From(keys), e.To(keys))] == Blocks)
            && (forall e, k | e in plan.edges && e.kind == Some(k) ::
                  (e.From(keys), e.To(keys)) in rows && rows[(e.From(keys), e.To(keys))] == k)
            && (forall x | x in ParentPairs(plan.nodes, keys) :: x in rows && rows[x] == ParentChild)
            && forall x | x in rows ::
                 || x in was || x in ParentPairs(plan.nodes, keys)
                 || exists e | e in plan.edges :: x == (e.From(keys), e.To(keys))
  {
    hide InsertedAll, Rows, PathsClear, CyclesClear, ParentPairs, GraphEdge.From, GraphEdge.To;
    var keys := KeysOf(plan.nodes, minted);
    RowsOfAllowed(t, plan, minted);
    InsertedAllRows(t, Rows(plan, keys), useWisp);
    forall e | e in plan.edges
      ensures Dependency(e.From(keys), e.To(keys), if e.kind.None? then Blocks else e.kind.value) in Rows(plan, keys)
    {
    }
  }

  /** The rows of a plan with allowed edges can be inserted exactly when each pair has one type, here and in the table. */
  lemma RowsInsertIff(t: DepTables, plan: GraphPlan, minted: seq<ID>, useWisp: bool)
    requires |minted| == |plan.nodes| && forall i | 0 <= i < |minted| :: minted[i] != ""
    requires forall e | e in plan.edges :: EdgeAllowed(e, KeysOf(plan.nodes, minted), ParentPairs(plan.nodes, KeysOf(plan.nodes, minted)))
    ensures var keys := KeysOf(plan.nodes, minted);
            var was := if useWisp then t.wisp else t.regular;
            InsertedAll(t, Rows(plan, keys), useWisp).Some? <==>
              && (forall e, f | e in plan.edges && f in plan.edges && e.From(keys) == f.From(keys) && e.To(keys) == f.To(keys) ::
                    (if e.kind.None? then Blocks else e.kind.value) == if f.kind.None? then Blocks else f.kind.value)
              && (forall e | e in plan.edges && (e.From(keys), e.To(keys)) in was ::
                    was[(e.From(keys), e.To(keys))] == if e.kind.None? then Blocks else e.kind.value)
              && forall x | x in ParentPairs(plan.nodes, keys) && x in was :: was[x] == ParentChild
  {
    hide InsertedAll, Rows, ParentPairs, GraphEdge.From, GraphEdge.To;
    var keys := KeysOf(plan.nodes, minted);
    RowsOfAllowed(t, plan, minted);
    InsertedAllRows(t, Rows(plan, keys), useWisp);
    forall e | e in plan.edges && (e.From(keys), e.To(keys)) in ParentPairs(plan.nodes, keys) ensures e.kind == Some(ParentChild) {
      assert EdgeAllowed(e, keys, ParentPairs(plan.nodes, keys));
    }
    forall e | e in plan.edges
      ensures Dependency(e.From(keys), e.To(keys), if e.kind.None? then Blocks else e.kind.value) in Rows(plan, keys)
    {
    }
  }

  /**
  Which plans are applied: those whose ends are all known, whose edges on a
  parent pair are parent links and against one do not block, whose checks find no
  path, and whose rows have one type each, also with the rows that are there.
  */
  lemma AcceptedIff(t: DepTables, plan: GraphPlan, minted: seq<ID>, useWisp: bool)
    requires |minted| == |plan.nodes| && forall i | 0 <= i < |minted| :: minted[i] != ""
    ensures var keys := KeysOf(plan.nodes, minted);
            var pairs, was := ParentPairs(plan.nodes, keys), if useWisp then t.wisp else t.regular;
            Accepted(t, plan, keys, useWisp) <==>
              && (forall n | n in plan.nodes :: n.hasIssue)
              && (forall e | e in plan.edges ::
                    && e.From(keys) != "" && e.To(keys) != ""
                    && ((e.From(keys), e.To(keys)) in pairs ==> e.kind == Some(ParentChild))
                    && (e.kind in {None, Some(Blocks), Some(ConditionalBlocks)} ==>
                          && (e.To(keys), e.From(keys)) !in pairs
                          && !Reaches(PlannedBlocking(plan, keys) + Blocking(t), e.To(keys), e.From(keys))))
              && (forall c, p | (c, p) in pairs :: !Reaches(PathEdges(plan, keys, pairs) + Ready(t), p, c))
              && (forall e, f | e in plan.edges && f in plan.edges && e.From(keys) == f.From(keys) && e.To(keys) == f.To(keys) ::
                    (if e.kind.None? then Blocks else e.kind.value) == if f.kind.None? then Blocks else f.kind.value)
              && (forall e | e in plan.edges && (e.From(keys), e.To(keys)) in was ::
                    was[(e.From(keys), e.To(keys))] == if e.kind.None? then Blocks else e.kind.value)
              && forall x | x in pairs && x in was :: was[x] == ParentChild
  {
    hide InsertedAll, Rows, ParentPairs, GraphEdge.From, GraphEdge.To, PathEdges, Blocking, Ready, Reaches, KeysOf, PlannedBlocking;
    var keys := KeysOf(plan.nodes, minted);
    var pairs := ParentPairs(plan.nodes, keys);
    forall e
      ensures EdgeAllowed(e, keys, pairs) <==>
                && e.From(keys) != "" && e.To(keys) != ""
                && ((e.From(keys), e.To(keys)) in pairs ==> e.kind == Some(ParentChild))
                && (e.kind in {None, Some(Blocks), Some(ConditionalBlocks)} ==> (e.To(keys), e.From(keys)) !in pairs)
    {
      AllowedIff(e, keys, pairs);
    }
    if forall e | e in plan.edges :: EdgeAllowed(e, keys, pairs) {
      RowsInsertIff(t, plan, minted, useWisp);
      CyclesClearIff(t, plan, keys);
    }
  }

  lemma AllowedIff(e: GraphEdge, keys: Keys, pairs: Edges<ID>)
    ensures EdgeAllowed(e, keys, pairs) <==>
              && e.From(keys) != "" && e.To(keys) != ""
              && ((e.From(keys), e.To(keys)) in pairs ==> e.kind == Some(ParentChild))
              && (e.kind in {None, Some(Blocks), Some(ConditionalBlocks)} ==> (e.To(keys), e.From(keys)) !in pairs)
  {
  }

  lemma CyclesClearIff(t: DepTables, plan: GraphPlan, keys: Keys)
    requires forall e | e in plan.edges :: e.From(keys) != "" && e.To(keys) != ""
    ensures CyclesClear(t, plan, keys) <==>
              forall e | e in plan.edges && e.kind in {None, Some(Blocks), Some(ConditionalBlocks)} ::
                !Reaches(PlannedBlocking(plan, keys) + Blocking(t), e.To(keys), e.From(keys))
  {
  }

  /** No plan has two edges in opposite directions when each of them blocks or has no type. */
  lemma OppositeEdgesRefused(t: DepTables, plan: GraphPlan, minted: seq<ID>, useWisp: bool, e: GraphEdge, f: GraphEdge)
    requires |minted| == |plan.nodes| && forall i | 0 <= i < |minted| :: minted[i] != ""
    requires e in plan.edges && f in plan.edges
    requires e.kind in {None, Some(Blocks), Some(ConditionalBlocks)} && f.kind in {None, Some(Blocks), Some(ConditionalBlocks)}
    requires var keys := KeysOf(plan.nodes, minted); e.From(keys) == f.To(keys) && e.To(keys) == f.From(keys)
    ensures !Accepted(t, plan, KeysOf(plan.nodes, minted), useWisp)
  {
    var keys := KeysOf(plan.nodes, minted);
    AcceptedIff(t, plan, minted, useWisp);
    if e.From(keys) != "" && e.To(keys) != "" {
      var all := PlannedBlocking(plan, keys) + Blocking(t);
      PlannedIff(t, plan, keys, f.From(keys), f.To(keys));
      ReachesSelf(all, e.From(keys));
      ReachesEdge(all, e.To(keys), e.From(keys), e.From(keys));
    }
  }

  // ----- the key of a pair -----

  /** depPairKey: the two ids around a NUL character. */
  function DepPairKey(issueID: ID, dependsOnID: ID): string {
    issueID + ['\0'] + dependsOnID
  }

  /** depPairIDs: splits at the first NUL. */
  method DepPairIDs(pair: string) returns (r: Option<(ID, ID)>)
    ensures r.None? <==> '\0' !in pair
    ensures r.Some? ==> DepPairKey(r.value.0, r.value.1) == pair && '\0' !in r.value.0
  {
    for i := 0 to |pair|
      invariant '\0' !in pair[..i]
    {
      if pair[i] == '\0' {
        assert pair == pair[..i] + ['\0'] + pair[i + 1..];
        return Some((pair[..i], pair[i + 1..]));
      }
    }
    return None;
  }

  /** Two pairs get the same key only if they are equal, as long as the issue ids hold no NUL. */
  lemma DepPairKeyInjective(a: ID, b: ID, c: ID, d: ID)
    requires '\0' !in a && '\0' !in c && DepPairKey(a, b) == DepPairKey(c, d)
    ensures a == c && b == d
  {
    var p := DepPairKey(a, b);
    FirstNul(a, b);
    FirstNul(c, d);
    assert a == p[..|a|] && c == p[..|c|] && b == p[|a| + 1..] && d == p[|c| + 1..];
  }

  lemma FirstNul(a: ID, b: ID)
    requires '\0' !in a
    ensures var p := DepPairKey(a, b);
            |a| < |p| && p[|a|] == '\0' && forall i | 0 <= i < |a| :: p[i] != '\0'
  {
    forall i | 0 <= i < |a| ensures DepPairKey(a, b)[i] != '\0' {
      assert a[i] in a;
    }
  }
}
