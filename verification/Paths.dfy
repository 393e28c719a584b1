/**
Paths and reachability in a finite directed graph, given as a set of edges.
*/
module Paths {
  import opened Sets

  type Edges<N(==)> = set<(N, N)>

  ghost predicate IsPath<N(!new)>(e: Edges<N>, p: seq<N>) {
    |p| > 0 && forall i | 0 <= i < |p| - 1 :: (p[i], p[i + 1]) in e
  }

  ghost predicate PathBetween<N(!new)>(e: Edges<N>, a: N, b: N, p: seq<N>) {
    IsPath(e, p) && p[0] == a && p[|p| - 1] == b
  }

  /** `b` can be reached from `a` over any number of edges, none included. */
  ghost predicate Reaches<N(!new)>(e: Edges<N>, a: N, b: N) {
    exists p :: PathBetween(e, a, b, p)
  }

  /** The edge `u -> v` lies on a cycle. */
  ghost predicate OnCycle<N(!new)>(e: Edges<N>, u: N, v: N) {
    (u, v) in e && Reaches(e, v, u)
  }

  ghost predicate Acyclic<N(!new)>(e: Edges<N>) {
    forall u, v :: !OnCycle(e, u, v)
  }

  ghost predicate ClosedUnder<N(!new)>(e: Edges<N>, s: set<N>) {
    forall u, v | (u, v) in e && u in s :: v in s
  }

  lemma ReachesSelf<N(!new)>(e: Edges<N>, a: N)
    ensures Reaches(e, a, a)
  {
    assert PathBetween(e, a, a, [a]);
  }

  lemma ReachesThen<N(!new)>(e: Edges<N>, a: N, b: N, c: N)
    requires Reaches(e, a, b) && Reaches(e, b, c)
    ensures Reaches(e, a, c)
  {
    var p :| PathBetween(e, a, b, p);
    var q :| PathBetween(e, b, c, q);
    assert PathBetween(e, a, c, p + q[1..]);
  }

  lemma ReachesEdge<N(!new)>(e: Edges<N>, a: N, b: N, c: N)
    requires (a, b) in e && Reaches(e, b, c)
    ensures Reaches(e, a, c)
  {
    assert PathBetween(e, a, b, [a, b]);
    ReachesThen(e, a, b, c);
  }

  lemma ReachesMono<N(!new)>(e: Edges<N>, f: Edges<N>, a: N, b: N)
    requires e <= f && Reaches(e, a, b)
    ensures Reaches(f, a, b)
  {
    var p :| PathBetween(e, a, b, p);
    assert PathBetween(f, a, b, p);
  }

  lemma {:induction false} StaysInside<N(!new)>(e: Edges<N>, s: set<N>, p: seq<N>, a: N, b: N)
    requires ClosedUnder(e, s) && a in s && PathBetween(e, a, b, p)
    ensures b in s
    decreases |p|
  {
    if |p| > 1 {
      assert (p[0], p[1]) in e;
      StaysInside(e, s, p[1..], p[1], b);
    }
  }

  /** A closed set that holds `a` holds everything reachable from it. */
  lemma ClosedReaches<N(!new)>(e: Edges<N>, s: set<N>, a: N)
    requires ClosedUnder(e, s) && a in s
    ensures forall b | Reaches(e, a, b) :: b in s
  {
    forall b | Reaches(e, a, b) ensures b in s {
      var p :| PathBetween(e, a, b, p);
      StaysInside(e, s, p, a, b);
    }
  }

  lemma {:induction false} PathAddEdge<N(!new)>(e: Edges<N>, u: N, v: N, a: N, b: N, p: seq<N>)
    requires PathBetween(e + {(u, v)}, a, b, p)
    ensures Reaches(e, a, b) || (Reaches(e, a, u) && Reaches(e, v, b))
    decreases |p|
  {
    if |p| == 1 {
      ReachesSelf(e, a);
    } else {
      PathAddEdge(e, u, v, p[1], b, p[1..]);
      if (a, p[1]) in e {
        if Reaches(e, p[1], b) {
          ReachesEdge(e, a, p[1], b);
        } else {
          ReachesEdge(e, a, p[1], u);
        }
      } else {
        ReachesSelf(e, a);
      }
    }
  }

  /** A new edge only helps on the way through it. */
  lemma ReachesAddEdge<N(!new)>(e: Edges<N>, u: N, v: N, a: N, b: N)
    requires Reaches(e + {(u, v)}, a, b)
    ensures Reaches(e, a, b) || (Reaches(e, a, u) && Reaches(e, v, b))
  {
    var p :| PathBetween(e + {(u, v)}, a, b, p);
    PathAddEdge(e, u, v, a, b, p);
  }

  // ----- acyclicity and rankings -----

  ghost function Ends<N(!new)>(e: Edges<N>): set<N> {
    (set x | x in e :: x.0) + (set x | x in e :: x.1)
  }

  ghost function Below<N(!new)>(e: Edges<N>, all: set<N>, a: N): set<N> {
    set x | x in all && Reaches(e, a, x)
  }

  /** A finite graph is acyclic exactly when its nodes can be ranked downhill along every edge. */
  lemma AcyclicIffRanked<N(!new)>(e: Edges<N>, all: set<N>)
    requires Ends(e) <= all
    ensures Acyclic(e) <==>
              exists rank: map<N, nat> :: rank.Keys == all && forall u, v | (u, v) in e :: rank[v] < rank[u]
  {
    assert forall u, v | (u, v) in e :: (u, v).0 in Ends(e) && (u, v).1 in Ends(e);
    if Acyclic(e) {
      var rank := map a | a in all :: |Below(e, all, a)|;
      forall u, v | (u, v) in e ensures rank[v] < rank[u] {
        assert !OnCycle(e, u, v);
        forall x | x in Below(e, all, v) ensures x in Below(e, all, u) {
          ReachesEdge(e, u, v, x);
        }
        ReachesSelf(e, u);
        assert u in Below(e, all, u) - Below(e, all, v);
        SubsetSize(Below(e, all, v), Below(e, all, u));
      }
      assert rank.Keys == all;
    }
    if rank: map<N, nat> :| rank.Keys == all && forall u, v | (u, v) in e :: rank[v] < rank[u] {
      forall u, v ensures !OnCycle(e, u, v) {
        if OnCycle(e, u, v) {
          var p :| PathBetween(e, v, u, p);
          RankDown(e, rank, v, u, p);
        }
      }
    }
  }

  lemma {:induction false} RankDown<N(!new)>(e: Edges<N>, rank: map<N, nat>, a: N, b: N, p: seq<N>)
    requires PathBetween(e, a, b, p) && a in rank && b in rank
    requires forall u, v | (u, v) in e :: u in rank && v in rank && rank[v] < rank[u]
    ensures rank[b] <= rank[a]
    decreases |p|
  {
    if |p| > 1 {
      assert (p[0], p[1]) in e;
      RankDown(e, rank, p[1], b, p[1..]);
    }
  }
}
