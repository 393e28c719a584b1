/** The height of a row over its parents: the length of the longest chain of parent links that starts at it. */
module ParentHeights {
  import opened Paths
  import opened BlockedTables

  function Parents(g: Tables, r: Node): set<Node> {
    set e | e in ParentEdges(g) && e.0 == r :: e.1
  }

  ghost function Max(s: set<nat>): (m: nat)
    requires s != {}
    ensures m in s && forall x | x in s :: x <= m
  {
    var x :| x in s;
    if s == {x} then x
    else
      var rest := Max(s - {x});
      assert forall y | y in s :: y == x || y in s - {x};
      if rest < x then x else rest
  }

  /** One more than the highest parent. */
  ghost function Height(g: Tables, rank: map<Node, nat>, r: Node): nat
    requires Ranks(g, rank) && r in g.status
    decreases rank[r]
  {
    if Parents(g, r) == {} then 0
    else
      ParentsRankLower(g, rank, r);
      var heights := set p | p in Parents(g, r) :: Height(g, rank, p);
      var p :| p in Parents(g, r);
      assert Height(g, rank, p) in heights;
      1 + Max(heights)
  }

  lemma ParentsRankLower(g: Tables, rank: map<Node, nat>, r: Node)
    requires Ranks(g, rank)
    ensures forall p | p in Parents(g, r) :: p in g.status && rank[p] < rank[r]
  {
  }

  lemma ParentIsLower(g: Tables, rank: map<Node, nat>, r: Node, p: Node)
    requires Ranks(g, rank) && (r, p) in ParentEdges(g)
    ensures r in g.status && p in g.status && Height(g, rank, p) < Height(g, rank, r)
  {
    ParentsRankLower(g, rank, r);
    assert (r, p).1 in Parents(g, r);
    var heights := set q | q in Parents(g, r) :: Height(g, rank, q);
    assert Height(g, rank, p) in heights;
  }

  /** Every chain of parent links from `p[0]` has at most its height of links. */
  lemma {:induction false} ChainsFit(g: Tables, rank: map<Node, nat>, p: seq<Node>)
    requires Ranks(g, rank) && IsPath(ParentEdges(g), p) && p[0] in g.status
    ensures |p| - 1 <= Height(g, rank, p[0])
    decreases |p|
  {
    if |p| > 1 {
      assert (p[0], p[1]) in ParentEdges(g);
      ParentIsLower(g, rank, p[0], p[1]);
      ChainsFit(g, rank, p[1..]);
    }
  }

  /** And some chain has as many. */
  lemma {:induction false} LongestChain(g: Tables, rank: map<Node, nat>, r: Node) returns (p: seq<Node>)
    requires Ranks(g, rank) && r in g.status
    ensures IsPath(ParentEdges(g), p) && p[0] == r && |p| - 1 == Height(g, rank, r)
    decreases rank[r]
  {
    if Parents(g, r) == {} {
      p := [r];
    } else {
      ParentsRankLower(g, rank, r);
      var heights := set q | q in Parents(g, r) :: Height(g, rank, q);
      var some :| some in Parents(g, r);
      assert Height(g, rank, some) in heights;
      var q :| q in Parents(g, r) && Height(g, rank, q) == Max(heights);
      var rest := LongestChain(g, rank, q);
      p := [r] + rest;
      assert (r, q) in ParentEdges(g);
    }
  }

  /** The heights are a ranking of their own. */
  lemma HeightsRank(g: Tables, rank: map<Node, nat>)
    requires Ranks(g, rank)
    ensures Ranks(g, Heights(g, rank))
  {
    forall d | d in g.deps && d.kind.ParentChild? && d.src in g.status && d.dst in g.status
      ensures Height(g, rank, d.dst) < Height(g, rank, d.src)
    {
      ParentIsLower(g, rank, d.src, d.dst);
    }
  }

  ghost function Heights(g: Tables, rank: map<Node, nat>): map<Node, nat>
    requires Ranks(g, rank)
  {
    map r | r in g.status :: Height(g, rank, r)
  }

  /** No chain of parent links that starts in `scope` has more than `h` links, and one has `h` if `h` is not 0. */
  ghost predicate IsChainHeight(g: Tables, scope: set<Node>, h: nat) {
    && (forall p | IsPath(ParentEdges(g), p) && p[0] in scope :: |p| - 1 <= h)
    && (h > 0 ==> exists p :: IsPath(ParentEdges(g), p) && p[0] in scope && |p| - 1 == h)
  }

  lemma ChainHeightUnique(g: Tables, scope: set<Node>, h: nat, k: nat)
    requires IsChainHeight(g, scope, h) && IsChainHeight(g, scope, k)
    ensures h == k
  {
  }

  /** With acyclic parents there is such a height, and it bounds the heights of the scoped rows. */
  lemma ChainHeightOf(g: Tables, rank: map<Node, nat>, scope: set<Node>) returns (h: nat)
    requires Ranks(g, rank)
    ensures IsChainHeight(g, scope, h)
    ensures forall r | r in g.status && r in scope :: Height(g, rank, r) <= h
  {
    var rows := set r | r in g.status && r in scope;
    var heights := set r | r in rows :: Height(g, rank, r);
    if rows == {} {
      h := 0;
    } else {
      var r :| r in rows;
      assert Height(g, rank, r) in heights;
      h := Max(heights);
      var top :| top in rows && Height(g, rank, top) == h;
      var p := LongestChain(g, rank, top);
    }
    forall q | q in rows ensures Height(g, rank, q) <= h {
      assert Height(g, rank, q) in heights;
    }
    assert forall q | q in g.status && q in scope :: q in rows;
    forall p | IsPath(ParentEdges(g), p) && p[0] in scope ensures |p| - 1 <= h {
      if |p| > 1 {
        assert (p[0], p[1]) in ParentEdges(g);
        ChainsFit(g, rank, p);
        assert p[0] in rows;
      }
    }
  }
}
