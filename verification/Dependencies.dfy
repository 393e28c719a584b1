/**
The two dependency tables, the cycle checks over them, and the bulk insert with
its two ways of refusing a cycle.
*/
module Dependencies {
  import opened Wrappers
  import opened Paths
  import opened BlockedTables

  datatype Dependency = Dependency(issueID: ID, dependsOnID: ID, kind: DepType)

  /** One table: the type of the edge between an issue and its target. */
  type DepTable = map<(ID, ID), DepType>

  datatype DepTables = DepTables(regular: DepTable, wisp: DepTable) {
    function Get(useWisp: bool): DepTable {
      if useWisp then wisp else regular
    }

    function Put(useWisp: bool, t: DepTable): DepTables {
      if useWisp then this.(wisp := t) else this.(regular := t)
    }

    /** The edges of both tables whose type satisfies `follow`. */
    function EdgesOf(follow: DepType -> bool): Edges<ID> {
      (set x | x in regular && follow(regular[x])) + (set x | x in wisp && follow(wisp[x]))
    }

    predicate Valid() {
      (forall x | x in regular :: x.0 != "" && x.1 != "") && forall x | x in wisp :: x.0 != "" && x.1 != ""
    }
  }

  function Blocking(t: DepTables): Edges<ID> {
    t.EdgesOf(Hard)
  }

  /** A row with the same type is left as it is; one with another type refuses the insert. */
  function Inserted(t: DepTables, d: Dependency, useWisp: bool): Option<DepTables> {
    var x, table := (d.issueID, d.dependsOnID), t.Get(useWisp);
    if x in table && table[x] != d.kind then None else Some(t.Put(useWisp, table[x := d.kind]))
  }

  function InsertedAll(t: DepTables, ds: seq<Dependency>, useWisp: bool): Option<DepTables> {
    if ds == [] then Some(t) else
      match InsertedAll(t, ds[..|ds| - 1], useWisp)
      case None => None
      case Some(u) => Inserted(u, ds[|ds| - 1], useWisp)
  }

  function DepEdges(ds: seq<Dependency>, follow: DepType -> bool): Edges<ID> {
    set d | d in ds && follow(d.kind) :: (d.issueID, d.dependsOnID)
  }

  lemma InsertedEdges(t: DepTables, d: Dependency, useWisp: bool, follow: DepType -> bool)
    requires Inserted(t, d, useWisp).Some?
    ensures Inserted(t, d, useWisp).value.EdgesOf(follow)
            == t.EdgesOf(follow) + if follow(d.kind) then {(d.issueID, d.dependsOnID)} else {}
  {
  }

  /** Inserts add exactly the edges asked for. */
  lemma {:induction false} InsertedAllEdges(t: DepTables, ds: seq<Dependency>, useWisp: bool, follow: DepType -> bool)
    requires InsertedAll(t, ds, useWisp).Some?
    ensures InsertedAll(t, ds, useWisp).value.EdgesOf(follow) == t.EdgesOf(follow) + DepEdges(ds, follow)
  {
    if ds != [] {
      var front, d := ds[..|ds| - 1], ds[|ds| - 1];
      InsertedAllEdges(t, front, useWisp, follow);
      InsertedEdges(InsertedAll(t, front, useWisp).value, d, useWisp, follow);
      assert ds == front + [d];
    }
  }

  /** The edges of both tables with one of the two blocking types, and no others. */
  lemma BlockingIff(t: DepTables, u: ID, v: ID)
    ensures (u, v) in Blocking(t) <==>
              || ((u, v) in t.regular && t.regular[(u, v)] in {Blocks, ConditionalBlocks})
              || ((u, v) in t.wisp && t.wisp[(u, v)] in {Blocks, ConditionalBlocks})
  {
  }

  /** So a path counts exactly when each of its steps is a row of one of these types, in either table. */
  lemma BlockingPathIff(t: DepTables, a: ID, b: ID)
    ensures Reaches(Blocking(t), a, b) <==>
              exists p: seq<ID> :: |p| > 0 && p[0] == a && p[|p| - 1] == b && forall i | 0 <= i < |p| - 1 ::
                || ((p[i], p[i + 1]) in t.regular && t.regular[(p[i], p[i + 1])] in {Blocks, ConditionalBlocks})
                || ((p[i], p[i + 1]) in t.wisp && t.wisp[(p[i], p[i + 1])] in {Blocks, ConditionalBlocks})
  {
    hide Blocking;
    forall u, v ensures (u, v) in Blocking(t) <==>
                          || ((u, v) in t.regular && t.regular[(u, v)] in {Blocks, ConditionalBlocks})
                          || ((u, v) in t.wisp && t.wisp[(u, v)] in {Blocks, ConditionalBlocks})
    {
      BlockingIff(t, u, v);
    }
    if p: seq<ID> :| |p| > 0 && p[0] == a && p[|p| - 1] == b && forall i | 0 <= i < |p| - 1 :: (p[i], p[i + 1]) in Blocking(t) {
      assert PathBetween(Blocking(t), a, b, p);
    }
  }

  /** One insert changes one row of the chosen table, and is refused exactly by a row of another type there. */
  lemma InsertedRow(t: DepTables, d: Dependency, useWisp: bool)
    ensures var was, x := if useWisp then t.wisp else t.regular, (d.issueID, d.dependsOnID);
            match Inserted(t, d, useWisp)
            case None => x in was && was[x] != d.kind
            case Some(u) =>
              && (x in was ==> was[x] == d.kind)
              && u == if useWisp then DepTables(t.regular, was[x := d.kind]) else DepTables(was[x := d.kind], t.wisp)
  {
  }

  /**
  A list of inserts is refused exactly when one asks for another type than a row
  that is there already or that the list asks for; otherwise the table of the
  chosen kind gains the rows asked for, each with its type, and the other table none.
  */
  lemma {:induction false} InsertedAllRows(t: DepTables, ds: seq<Dependency>, useWisp: bool)
    ensures var was := if useWisp then t.wisp else t.regular;
            match InsertedAll(t, ds, useWisp)
            case None =>
              || (exists d | d in ds :: (d.issueID, d.dependsOnID) in was && was[(d.issueID, d.dependsOnID)] != d.kind)
              || (exists d, e | d in ds && e in ds ::
                    d.issueID == e.issueID && d.dependsOnID == e.dependsOnID && d.kind != e.kind)
            case Some(u) =>
              var rows := if useWisp then u.wisp else u.regular;
              && (if useWisp then u.regular == t.regular else u.wisp == t.wisp)
              && (forall x | x in was :: x in rows && rows[x] == was[x])
              && (forall d | d in ds :: (d.issueID, d.dependsOnID) in rows && rows[(d.issueID, d.dependsOnID)] == d.kind)
              && forall x | x in rows :: x in was || exists d | d in ds :: x == (d.issueID, d.dependsOnID)
  {
    hide Inserted;
    if ds != [] {
      var front, last := ds[..|ds| - 1], ds[|ds| - 1];
      InsertedAllRows(t, front, useWisp);
      assert forall d :: d in ds <==> d in front || d == last;
      if InsertedAll(t, front, useWisp).Some? {
        InsertedRow(InsertedAll(t, front, useWisp).value, last, useWisp);
      }
    }
  }

  // ----- what the two modes of the bulk insert accept -----

  /** Every blocking edge is checked before it is inserted. */
  ghost predicate AcceptedPerEdge(t: DepTables, ds: seq<Dependency>, useWisp: bool) {
    ds == [] ||
    var front, d := ds[..|ds| - 1], ds[|ds| - 1];
    && AcceptedPerEdge(t, front, useWisp)
    && InsertedAll(t, ds, useWisp).Some?
    && (Hard(d.kind) ==> !Reaches(Blocking(InsertedAll(t, front, useWisp).value), d.dependsOnID, d.issueID))
  }

  /** Every edge is inserted, then none of the new blocking edges may lie on a cycle. */
  ghost predicate AcceptedAtEnd(t: DepTables, ds: seq<Dependency>, useWisp: bool) {
    && InsertedAll(t, ds, useWisp).Some?
    && forall d | d in ds && Hard(d.kind) ::
         !Reaches(Blocking(InsertedAll(t, ds, useWisp).value), d.dependsOnID, d.issueID)
  }

  /**
  The two modes accept the same lists, whatever the list and whatever cycles
  the tables already had.
  */
  lemma {:induction false} BulkModesAgree(t: DepTables, ds: seq<Dependency>, useWisp: bool)
    ensures AcceptedPerEdge(t, ds, useWisp) <==> AcceptedAtEnd(t, ds, useWisp)
  {
    if ds != [] && InsertedAll(t, ds, useWisp).Some? {
      var front, last := ds[..|ds| - 1], ds[|ds| - 1];
      assert ds == front + [last];
      BulkModesAgree(t, front, useWisp);
      var u, v := InsertedAll(t, front, useWisp).value, InsertedAll(t, ds, useWisp).value;
      InsertedEdges(u, last, useWisp, Hard);
      InsertedAllEdges(t, front, useWisp, Hard);
      if AcceptedPerEdge(t, ds, useWisp) {
        forall d | d in ds && Hard(d.kind)
          ensures !Reaches(Blocking(v), d.dependsOnID, d.issueID)
        {
          LastEdgeClosesNothing(t, front, last, useWisp, d);
        }
      }
      if AcceptedAtEnd(t, ds, useWisp) {
        forall d | d in ds && Hard(d.kind)
          ensures !Reaches(Blocking(u), d.dependsOnID, d.issueID)
        {
          if Reaches(Blocking(u), d.dependsOnID, d.issueID) {
            ReachesMono(Blocking(u), Blocking(v), d.dependsOnID, d.issueID);
          }
        }
      }
    }
  }

  lemma LastEdgeClosesNothing(t: DepTables, front: seq<Dependency>, last: Dependency, useWisp: bool, d: Dependency)
    requires AcceptedPerEdge(t, front + [last], useWisp) && AcceptedAtEnd(t, front, useWisp)
    requires d in front + [last] && Hard(d.kind)
    ensures !Reaches(Blocking(InsertedAll(t, front + [last], useWisp).value), d.dependsOnID, d.issueID)
  {
    var ds := front + [last];
    assert ds[..|ds| - 1] == front;
    var u, v := InsertedAll(t, front, useWisp).value, InsertedAll(t, ds, useWisp).value;
    InsertedEdges(u, last, useWisp, Hard);
    var e, a, b := Blocking(u), last.issueID, last.dependsOnID;
    if !Hard(last.kind) {
      assert Blocking(v) == e && d in front;
    } else if Reaches(Blocking(v), d.dependsOnID, d.issueID) {
      ReachesAddEdge(e, a, b, d.dependsOnID, d.issueID);
      if d in front {
        InsertedAllEdges(t, front, useWisp, Hard);
        assert (d.issueID, d.dependsOnID) in e;
        ReachesEdge(e, d.issueID, d.dependsOnID, a);
        ReachesThen(e, b, d.issueID, a);
      }
    }
  }

  /** A list either mode accepts leaves the tables with no cycle they did not have before. */
  lemma AcceptedKeepsAcyclic(t: DepTables, ds: seq<Dependency>, useWisp: bool)
    requires AcceptedAtEnd(t, ds, useWisp) && Acyclic(Blocking(t))
    ensures Acyclic(Blocking(InsertedAll(t, ds, useWisp).value))
  {
    InsertedAllEdges(t, ds, useWisp, Hard);
    NewEdgesKeepAcyclic(Blocking(t), DepEdges(ds, Hard));
  }

  /** New edges none of which lies on a cycle close no cycle at all. */
  lemma NewEdgesKeepAcyclic<N(!new)>(e: Edges<N>, added: Edges<N>)
    requires Acyclic(e) && forall u, v | (u, v) in added :: !Reaches(e + added, v, u)
    ensures Acyclic(e + added)
  {
    forall u, v ensures !OnCycle(e + added, u, v) {
      if OnCycle(e + added, u, v) && (u, v) !in added {
        assert !OnCycle(e, u, v);
        var p :| PathBetween(e + added, v, u, p);
        CycleAvoidsAdded(e, added, u, v, p);
      }
    }
  }

  /** Every edge of a cycle lies on it. */
  lemma CycleReturns<N(!new)>(e: Edges<N>, u: N, v: N, p: seq<N>, i: nat)
    requires (u, v) in e && PathBetween(e, v, u, p) && i < |p| - 1
    ensures Reaches(e, p[i + 1], p[i])
  {
    assert PathBetween(e, p[i + 1], u, p[i + 1..]);
    assert PathBetween(e, v, p[i], p[..i + 1]);
    ReachesEdge(e, u, v, p[i]);
    ReachesThen(e, p[i + 1], u, p[i]);
  }

  lemma CycleAvoidsAdded<N(!new)>(e: Edges<N>, added: Edges<N>, u: N, v: N, p: seq<N>)
    requires (u, v) in e + added && PathBetween(e + added, v, u, p)
    requires forall x, y | (x, y) in added :: !Reaches(e + added, y, x)
    ensures Reaches(e, v, u)
  {
    forall i | 0 <= i < |p| - 1 ensures (p[i], p[i + 1]) in e {
      CycleReturns(e + added, u, v, p, i);
    }
    assert PathBetween(e, v, u, p);
  }

  // ----- the cycle checks of the store -----

  type Graph = map<ID, seq<ID>>

  ghost predicate IsGraphOf(g: Graph, e: Edges<ID>) {
    forall u, v :: (u, v) in e <==> u in g && v in g[u]
  }

  /** AppendBlockingGraphInTx over both tables: adjacency lists in the order the rows come back. */
  method BlockingGraph(t: DepTables) returns (g: Graph)
    ensures IsGraphOf(g, Blocking(t))
  {
    g := map[];
    var todo := Blocking(t);
    while todo != {}
      invariant todo <= Blocking(t) && IsGraphOf(g, Blocking(t) - todo)
      decreases todo
    {
      var x :| x in todo;
      g := g[x.0 := (if x.0 in g then g[x.0] else []) + [x.1]];
      todo := todo - {x};
    }
  }

  /** The predecessors recorded by a breadth-first search from `start`, in order of discovery. */
  ghost predicate SearchTree(e: Edges<ID>, start: ID, parent: map<ID, ID>, order: map<ID, nat>) {
    && start in parent && parent[start] == "" && parent.Keys == order.Keys && "" !in parent
    && forall n | n in parent && n != start ::
         parent[n] in parent && (parent[n], n) in e && order[parent[n]] < order[n]
  }

  /** The nodes of `done` have had all their successors discovered. */
  ghost predicate Explored(e: Edges<ID>, parent: map<ID, ID>, done: set<ID>) {
    forall u, v | (u, v) in e && u in done :: v in parent
  }

  /** Walks the predecessors from `node` back to `start`, then appends `goal`. */
  method TreePath(ghost e: Edges<ID>, start: ID, node: ID, goal: ID, parent: map<ID, ID>, ghost order: map<ID, nat>)
    returns (path: seq<ID>)
    requires SearchTree(e, start, parent, order) && node in parent && (node, goal) in e
    ensures PathBetween(e, start, goal, path)
  {
    path := [goal];
    var at := node;
    while at != ""
      invariant at == "" || at in parent
      invariant |path| > 0 && PathBetween(e, path[0], goal, path)
      invariant if at == "" then path[0] == start else (at, path[0]) in e
      decreases if at == "" then 0 else 1 + order[at]
    {
      assert PathBetween(e, at, goal, [at] + path);
      path := [at] + path;
      at := parent[at];
    }
  }

  /** The state of a search: `done` nodes have been expanded, those in `queue` wait. */
  datatype Search = Search(parent: map<ID, ID>, order: map<ID, nat>, queue: seq<ID>) {
    ghost predicate Valid(e: Edges<ID>, start: ID, goal: ID) {
      && SearchTree(e, start, parent, order) && goal !in parent
      && parent.Keys <= Ends(e) + {start} && forall n | n in queue :: n in parent
    }

    ghost predicate Waiting(done: set<ID>) {
      forall n | n in parent :: n in done || n in queue
    }
  }

  /** Discovers the successors of `node`; stops when one of them is the goal. */
  method Expand(g: Graph, start: ID, goal: ID, ghost e: Edges<ID>, node: ID, s: Search)
    returns (s': Search, path: seq<ID>)
    requires IsGraphOf(g, e) && s.Valid(e, start, goal) && node in s.parent && forall x | x in e :: x.1 != ""
    ensures path != [] ==> PathBetween(e, start, goal, path)
    ensures path == [] ==>
              && s'.Valid(e, start, goal) && s.parent.Keys <= s'.parent.Keys
              && (s'.parent.Keys == s.parent.Keys ==> s'.queue == s.queue)
              && (forall v | (node, v) in e :: v in s'.parent)
              && (forall n | n in s'.parent && n !in s.parent :: n in s'.queue) && s.queue <= s'.queue
  {
    s', path := s, [];
    var nexts := if node in g then g[node] else [];
    for i := 0 to |nexts|
      invariant s'.Valid(e, start, goal) && s.parent.Keys <= s'.parent.Keys && path == []
      invariant s'.parent.Keys == s.parent.Keys ==> s'.queue == s.queue
      invariant forall v | v in nexts[..i] :: v in s'.parent
      invariant (forall n | n in s'.parent && n !in s.parent :: n in s'.queue) && s.queue <= s'.queue
    {
      var next := nexts[i];
      assert (node, next) in e && (node, next).1 in Ends(e);
      if next !in s'.parent {
        var parent := s'.parent[next := node];
        var order := s'.order[next := s'.order[node] + 1];
        if next == goal {
          path := TreePath(e, start, node, goal, s'.parent, s'.order);
          return;
        }
        s' := Search(parent, order, s'.queue + [next]);
      }
    }
  }

  lemma SelfPath(e: Edges<ID>, n: ID)
    ensures PathBetween(e, n, n, [n]) && Reaches(e, n, n)
  {
    ReachesSelf(e, n);
  }

  lemma SearchStart(e: Edges<ID>, start: ID, goal: ID)
    requires start != "" && start != goal
    ensures Search(map[start := ""], map[start := 0], [start]).Valid(e, start, goal)
  {
  }

  lemma SearchOver(e: Edges<ID>, start: ID, goal: ID, s: Search, done: set<ID>)
    requires s.Valid(e, start, goal) && s.Waiting(done) && Explored(e, s.parent, done) && s.queue == []
    ensures !Reaches(e, start, goal)
  {
    assert ClosedUnder(e, s.parent.Keys);
    ClosedReaches(e, s.parent.Keys, start);
  }

  /** reachPath: a breadth-first path from start to goal, empty when there is none. */
  method ReachPath(g: Graph, start: ID, goal: ID, ghost e: Edges<ID>) returns (path: seq<ID>)
    requires IsGraphOf(g, e) && start != "" && forall x | x in e :: x.1 != ""
    ensures path == [] <==> !Reaches(e, start, goal)
    ensures path != [] ==> PathBetween(e, start, goal, path)
  {
    hide IsGraphOf, SearchTree, IsPath;
    if start == goal {
      SelfPath(e, start);
      return [start];
    }
    SearchStart(e, start, goal);
    var s := Search(map[start := ""], map[start := 0], [start]);
    ghost var done: set<ID> := {};
    while s.queue != []
      invariant s.Valid(e, start, goal) && s.Waiting(done) && Explored(e, s.parent, done)
      decreases Ends(e) + {start} - s.parent.Keys, |s.queue|
    {
      var node := s.queue[0];
      s, path := Expand(g, start, goal, e, node, s.(queue := s.queue[1..]));
      if path != [] {
        assert Reaches(e, start, goal);
        return;
      }
      done := done + {node};
    }
    SearchOver(e, start, goal, s, done);
    return [];
  }

  /**
  CycleThroughEdgesInGraph: a cycle through one of the new edges, as the list
  of its nodes with the first repeated at the end, or the empty list.
  */
  method CycleThroughEdges(t: DepTables, pairs: seq<(ID, ID)>) returns (cycle: seq<ID>)
    requires t.Valid() && forall x | x in pairs && x.0 != "" && x.1 != "" :: x in Blocking(t)
    ensures cycle == [] <==> forall x | x in pairs && x.0 != "" && x.1 != "" :: !Reaches(Blocking(t), x.1, x.0)
    ensures cycle != [] ==>
              && |cycle| >= 2 && cycle[0] == cycle[|cycle| - 1]
              && (cycle[0], cycle[1]) in pairs && IsPath(Blocking(t), cycle)
  {
    var g := BlockingGraph(t);
    for i := 0 to |pairs|
      invariant forall x | x in pairs[..i] && x.0 != "" && x.1 != "" :: !Reaches(Blocking(t), x.1, x.0)
    {
      var source, target := pairs[i].0, pairs[i].1;
      assert (source, target) in pairs;
      if source != "" && target != "" {
        if source == target {
          ReachesSelf(Blocking(t), source);
          return [source, source];
        }
        var path := ReachPath(g, target, source, Blocking(t));
        if path != [] {
          return [source] + path;
        }
      }
    }
    return [];
  }

  /** DepSQLRepository.HasCycle: collects what is reachable from the new target until nothing is added. */
  method HasCycle(t: DepTables, issueID: ID, dependsOnID: ID) returns (cycle: bool)
    ensures cycle <==> Reaches(Blocking(t), dependsOnID, issueID)
  {
    var e := Blocking(t);
    var reachable, frontier := {dependsOnID}, {dependsOnID};
    ReachesSelf(e, dependsOnID);
    while frontier != {}
      invariant dependsOnID in reachable && frontier <= reachable <= Ends(e) + {dependsOnID}
      invariant forall n | n in reachable :: Reaches(e, dependsOnID, n)
      invariant forall u, v | (u, v) in e && u in reachable - frontier :: v in reachable
      decreases Ends(e) + {dependsOnID} - reachable, frontier
    {
      var next := set x | x in e && x.0 in frontier && x.1 !in reachable :: x.1;
      forall n | n in next ensures n in Ends(e) && Reaches(e, dependsOnID, n) {
        var x :| x in e && x.0 in frontier && x.1 == n;
        ReachesSelf(e, n);
        ReachesEdge(e, x.0, n, n);
        ReachesThen(e, dependsOnID, x.0, n);
      }
      reachable, frontier := reachable + next, next;
    }
    ClosedReaches(e, reachable, dependsOnID);
    return issueID in reachable;
  }

  // ----- the bulk insert -----

  datatype Outcome = Added | Refused(index: int)

  /** The dependency repository inside one transaction. */
  class DependencyStore {
    var tables: DepTables

    constructor (t: DepTables)
      ensures tables == t
    {
      tables := t;
    }

    method Insert(d: Dependency, useWisp: bool) returns (ok: bool)
      modifies this
      ensures ok <==> Inserted(old(tables), d, useWisp).Some?
      ensures tables == if ok then Inserted(old(tables), d, useWisp).value else old(tables)
    {
      var table := tables.Get(useWisp);
      var x := (d.issueID, d.dependsOnID);
      if x in table && table[x] != d.kind {
        return false;
      }
      tables := tables.Put(useWisp, table[x := d.kind]);
      return true;
    }

    /** addBulk, in both cycle-check modes; a nil dependency is None. */
    method AddBulk(deps: seq<Option<Dependency>>, skipPerEdgeCycleCheck: bool, useWisp: bool) returns (r: Outcome)
      requires tables.Valid()
      modifies this
      ensures r.Added? <==>
                && WellFormed(deps)
                && (if skipPerEdgeCycleCheck then AcceptedAtEnd(old(tables), Values(deps), useWisp)
                    else AcceptedPerEdge(old(tables), Values(deps), useWisp))
      ensures r.Added? ==> InsertedAll(old(tables), Values(deps), useWisp) == Some(tables)
      ensures r.Refused? && r.index < |deps| ==>
                && 0 <= r.index && WellFormed(deps[..r.index])
                && (if skipPerEdgeCycleCheck then InsertedAll(old(tables), Values(deps[..r.index]), useWisp).Some?
                    else AcceptedPerEdge(old(tables), Values(deps[..r.index]), useWisp))
                && (WellFormed(deps[..r.index + 1]) ==>
                      if skipPerEdgeCycleCheck then InsertedAll(old(tables), Values(deps[..r.index + 1]), useWisp).None?
                      else !AcceptedPerEdge(old(tables), Values(deps[..r.index + 1]), useWisp))
      ensures r.Refused? && r.index >= |deps| ==>
                skipPerEdgeCycleCheck && WellFormed(deps) && InsertedAll(old(tables), Values(deps), useWisp).Some?
    {
      hide AcceptedAtEnd, DepEdges, Blocking;
      if |deps| == 0 {
        EmptyAccepted(tables, useWisp);
        return Added;
      }
      ghost var before := tables;
      for i := 0 to |deps|
        invariant tables.Valid() && WellFormed(deps[..i])
        invariant InsertedAll(before, Values(deps[..i]), useWisp) == Some(tables)
        invariant !skipPerEdgeCycleCheck ==> AcceptedPerEdge(before, Values(deps[..i]), useWisp)
      {
        ValuesStep(deps, i);
        if deps[i].None? {
          return Refused(i);
        }
        var d := deps[i].value;
        if d.issueID == "" || d.dependsOnID == "" {
          return Refused(i);
        }
        if !skipPerEdgeCycleCheck && Hard(d.kind) {
          var cycle := HasCycle(tables, d.issueID, d.dependsOnID);
          if cycle {
            RefusedStays(before, deps, i, useWisp);
            return Refused(i);
          }
        }
        var ok := Insert(d, useWisp);
        if !ok {
          RefusedStays(before, deps, i, useWisp);
          return Refused(i);
        }
      }
      assert deps[..|deps|] == deps;
      if skipPerEdgeCycleCheck {
        var pairs := BlockingPairs(deps);
        AcceptedByPairs(before, Values(deps), useWisp, pairs);
        if |pairs| > 0 {
          var cycle := CycleThroughEdges(tables, pairs);
          if cycle != [] {
            return Refused(|deps|);
          }
        }
      }
      return Added;
    }
  }

  predicate WellFormed(deps: seq<Option<Dependency>>) {
    forall d | d in deps :: d.Some? && d.value.issueID != "" && d.value.dependsOnID != ""
  }

  function Values(deps: seq<Option<Dependency>>): seq<Dependency> {
    if deps == [] then []
    else Values(deps[..|deps| - 1]) + match deps[|deps| - 1] case None => [] case Some(d) => [d]
  }

  lemma ValuesStep(deps: seq<Option<Dependency>>, i: nat)
    requires i < |deps|
    ensures Values(deps[..i + 1]) == Values(deps[..i]) + match deps[i] case None => [] case Some(d) => [d]
    ensures WellFormed(deps) ==> WellFormed(deps[..i + 1])
    ensures WellFormed(deps[..i + 1]) <==> WellFormed(deps[..i]) && WellFormed([deps[i]])
  {
    assert deps[..i + 1][..i] == deps[..i];
    assert deps[..i + 1] == deps[..i] + [deps[i]];
    assert deps[i] in deps[..i + 1];
  }

  lemma {:induction false} ValuesPrefix(deps: seq<Option<Dependency>>, i: nat)
    requires i <= |deps|
    ensures Values(deps[..i]) <= Values(deps)
    decreases |deps|
  {
    if i == |deps| {
      assert deps[..i] == deps;
    } else {
      var front := deps[..|deps| - 1];
      ValuesPrefix(front, i);
      assert front[..i] == deps[..i];
    }
  }

  lemma {:induction false} AcceptedPrefix(t: DepTables, ds: seq<Dependency>, k: nat, useWisp: bool)
    requires k <= |ds|
    ensures InsertedAll(t, ds, useWisp).Some? ==> InsertedAll(t, ds[..k], useWisp).Some?
    ensures AcceptedPerEdge(t, ds, useWisp) ==> AcceptedPerEdge(t, ds[..k], useWisp)
    decreases |ds|
  {
    if k == |ds| {
      assert ds[..k] == ds;
    } else {
      var front := ds[..|ds| - 1];
      AcceptedPrefix(t, front, k, useWisp);
      assert front[..k] == ds[..k];
    }
  }

  /** A list refused at its i-th entry is refused as a whole. */
  lemma RefusedStays(t: DepTables, deps: seq<Option<Dependency>>, i: nat, useWisp: bool)
    requires i < |deps|
    ensures AcceptedAtEnd(t, Values(deps), useWisp) ==> InsertedAll(t, Values(deps[..i + 1]), useWisp).Some?
    ensures AcceptedPerEdge(t, Values(deps), useWisp) ==> AcceptedPerEdge(t, Values(deps[..i + 1]), useWisp)
  {
    ValuesPrefix(deps, i + 1);
    var all, front := Values(deps), Values(deps[..i + 1]);
    assert all[..|front|] == front;
    AcceptedPrefix(t, all, |front|, useWisp);
  }

  lemma EmptyAccepted(t: DepTables, useWisp: bool)
    ensures AcceptedAtEnd(t, [], useWisp) && AcceptedPerEdge(t, [], useWisp)
  {
  }

  lemma AcceptedByPairs(t: DepTables, ds: seq<Dependency>, useWisp: bool, pairs: seq<(ID, ID)>)
    requires InsertedAll(t, ds, useWisp).Some? && forall x :: x in pairs <==> x in DepEdges(ds, Hard)
    requires InsertedAll(t, ds, useWisp).value.Valid()
    ensures var e := Blocking(InsertedAll(t, ds, useWisp).value);
            && (AcceptedAtEnd(t, ds, useWisp) <==> forall x | x in pairs && x.0 != "" && x.1 != "" :: !Reaches(e, x.1, x.0))
            && forall x | x in pairs :: x in e
  {
    InsertedAllEdges(t, ds, useWisp, Hard);
    forall d | d in ds && Hard(d.kind) ensures (d.issueID, d.dependsOnID) in pairs {
      assert (d.issueID, d.dependsOnID) in DepEdges(ds, Hard);
    }
  }

  method BlockingPairs(deps: seq<Option<Dependency>>) returns (pairs: seq<(ID, ID)>)
    requires WellFormed(deps)
    ensures forall x :: x in pairs <==> x in DepEdges(Values(deps), Hard)
  {
    pairs := [];
    for i := 0 to |deps|
      invariant forall x :: x in pairs <==> x in DepEdges(Values(deps[..i]), Hard)
    {
      ValuesStep(deps, i);
      if Hard(deps[i].value.kind) {
        pairs := pairs + [(deps[i].value.issueID, deps[i].value.dependsOnID)];
      }
    }
    assert deps[..|deps|] == deps;
  }
}
