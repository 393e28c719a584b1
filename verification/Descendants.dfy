/**
The recursive query over parent-child edges: it enumerates paths away from a
root, keeps each path as a comma-separated text to avoid going round a cycle,
and reports an error once a path is as long as the depth limit.
*/
module Descendants {
  import opened Paths
  import opened Wrappers

  type ID = string

  /** A parent-child row: the child, and the parent it depends on. */
  datatype Row = Row(issue: ID, dependsOn: ID)

  /** Down from parent to child. */
  function Down(rows: seq<Row>): Edges<ID> {
    set r | r in rows :: (r.dependsOn, r.issue)
  }

  // ----- the path column -----

  /** The ids of a path between commas. */
  function PathText(p: seq<ID>): (text: string)
    ensures |text| > 0 && text[|text| - 1] == ','
  {
    if p == [] then "," else PathText(p[..|p| - 1]) + p[|p| - 1] + ","
  }

  predicate OccursAt(text: string, part: string, i: int) {
    0 <= i <= |text| - |part| && text[i..i + |part|] == part
  }

  predicate Instr(text: string, part: string) {
    exists i | 0 <= i <= |text| - |part| :: OccursAt(text, part, i)
  }

  predicate Visited(p: seq<ID>, id: ID) {
    Instr(PathText(p), "," + id + ",")
  }

  ghost predicate CommaFree(rows: seq<Row>) {
    forall r | r in rows :: ',' !in r.issue && ',' !in r.dependsOn
  }

  /** An id on the path is always seen in its text. */
  lemma {:induction false} OnPathIsVisited(p: seq<ID>, id: ID)
    requires id in p
    ensures Visited(p, id)
  {
    var part, q, last := "," + id + ",", p[..|p| - 1], p[|p| - 1];
    var before := PathText(q);
    if id == last {
      assert OccursAt(PathText(p), part, |before| - 1);
    } else {
      assert p == q + [last];
      OnPathIsVisited(q, id);
      var i :| 0 <= i <= |before| - |part| && OccursAt(before, part, i);
      assert OccursAt(PathText(p), part, i);
    }
  }

  /** Without commas in ids, the text test is exactly the question whether the id is on the path. */
  lemma {:induction false} VisitedIffOnPath(p: seq<ID>, id: ID)
    requires ',' !in id && forall x | x in p :: ',' !in x
    ensures Visited(p, id) <==> id in p
  {
    if id in p {
      OnPathIsVisited(p, id);
    } else if Visited(p, id) {
      var part := "," + id + ",";
      var i :| 0 <= i <= |PathText(p)| - |part| && OccursAt(PathText(p), part, i);
      if p == [] {
        assert false;
      } else {
        var q, last := p[..|p| - 1], p[|p| - 1];
        assert last in p;
        if i + |id| + 1 >= |PathText(q)| {
          OccursLast(PathText(q), last, id, i);
          assert false;
        }
        assert OccursAt(PathText(q), part, i);
        VisitedIffOnPath(q, id);
      }
    }
  }

  /** In a text extended by one id, an occurrence that ends in the new part is that id. */
  lemma OccursLast(before: string, last: ID, id: ID, i: int)
    requires ',' !in id && ',' !in last
    requires before != "" && before[|before| - 1] == ','
    requires OccursAt(before + last + ",", "," + id + ",", i) && i + |id| + 1 >= |before|
    ensures id == last
  {
    var text, part, j := before + last + ",", "," + id + ",", i + |id| + 1;
    var found := text[i..i + |part|];
    assert text[i] == found[0] && text[j] == found[|part| - 1];
    forall k | |before| <= k < |before| + |last| ensures text[k] != ',' {
      assert text[k] == last[k - |before|];
    }
    forall k | i < k < j ensures text[k] != ',' {
      assert text[k] == found[k - i] && found[k - i] == id[k - i - 1];
    }
    assert text[|before| - 1] == ',';
    assert j == |before| + |last|;
    assert i == |before| - 1;
    assert found[1..|found| - 1] == text[|before|..|text| - 1];
    assert text[|before|..|text| - 1] == last;
    assert part[1..|part| - 1] == id;
  }

  // ----- the recursive query -----

  predicate MayDescend(p: seq<ID>, maxDepth: int) {
    maxDepth <= 0 || |p| - 1 < maxDepth
  }

  function Base(rows: seq<Row>, root: ID): seq<seq<ID>> {
    if rows == [] then []
    else (if rows[0].dependsOn == root then [[root, rows[0].issue]] else []) + Base(rows[1..], root)
  }

  /** The rows that the recursive part produces from one path. */
  function Join(rows: seq<Row>, p: seq<ID>, maxDepth: int): seq<seq<ID>>
    requires p != []
  {
    if rows == [] then []
    else
      (if rows[0].dependsOn == p[|p| - 1] && MayDescend(p, maxDepth) && !Visited(p, rows[0].issue)
       then [p + [rows[0].issue]] else [])
      + Join(rows[1..], p, maxDepth)
  }

  function JoinAll(rows: seq<Row>, level: seq<seq<ID>>, maxDepth: int): seq<seq<ID>>
    requires forall i | 0 <= i < |level| :: level[i] != []
  {
    if level == [] then [] else Join(rows, level[0], maxDepth) + JoinAll(rows, level[1..], maxDepth)
  }

  lemma {:induction false} InBase(rows: seq<Row>, root: ID)
    ensures forall p :: p in Base(rows, root) <==> exists r | r in rows :: r.dependsOn == root && p == [root, r.issue]
  {
    if rows != [] {
      InBase(rows[1..], root);
      assert rows == [rows[0]] + rows[1..];
    }
  }

  ghost predicate Extends(rows: seq<Row>, p: seq<ID>, maxDepth: int, q: seq<ID>)
    requires p != []
  {
    exists r | r in rows ::
      r.dependsOn == p[|p| - 1] && MayDescend(p, maxDepth) && !Visited(p, r.issue) && q == p + [r.issue]
  }

  lemma {:induction false} InJoin(rows: seq<Row>, p: seq<ID>, maxDepth: int)
    requires p != []
    ensures forall q :: q in Join(rows, p, maxDepth) <==> Extends(rows, p, maxDepth, q)
  {
    if rows != [] {
      InJoin(rows[1..], p, maxDepth);
      assert rows == [rows[0]] + rows[1..];
    }
  }

  lemma {:induction false} InJoinAll(rows: seq<Row>, level: seq<seq<ID>>, maxDepth: int)
    requires forall i | 0 <= i < |level| :: level[i] != []
    ensures forall q :: q in JoinAll(rows, level, maxDepth) <==> exists p | p in level :: Extends(rows, p, maxDepth, q)
  {
    if level != [] {
      InJoin(rows, level[0], maxDepth);
      InJoinAll(rows, level[1..], maxDepth);
      assert level == [level[0]] + level[1..];
    }
  }

  // ----- trails: what the query enumerates -----

  ghost predicate NoDup(p: seq<ID>) {
    forall i, j | 0 <= i < j < |p| :: p[i] != p[j]
  }

  /**
  A path down from the root in which only the first child may repeat an earlier
  id: the base rows are not checked, so a root that is its own parent starts
  the trail twice.
  */
  ghost predicate Trail(rows: seq<Row>, root: ID, p: seq<ID>) {
    && |p| >= 2 && p[0] == root && IsPath(Down(rows), p)
    && forall i, j | 0 <= i < j < |p| && j >= 2 :: p[i] != p[j]
  }

  /** The same with the text test in place of the id test. */
  ghost predicate TextTrail(rows: seq<Row>, root: ID, p: seq<ID>) {
    && |p| >= 2 && p[0] == root && IsPath(Down(rows), p)
    && forall i | 2 <= i < |p| :: !Visited(p[..i], p[i])
  }

  ghost predicate InDepth(p: seq<ID>, maxDepth: int) {
    maxDepth <= 0 || |p| - 1 <= maxDepth
  }

  lemma TextTrailIsTrail(rows: seq<Row>, root: ID, p: seq<ID>)
    requires TextTrail(rows, root, p)
    ensures Trail(rows, root, p)
  {
    forall i, j | 0 <= i < j < |p| && j >= 2 ensures p[i] != p[j] {
      if p[i] == p[j] {
        assert p[..j][i] == p[j];
        OnPathIsVisited(p[..j], p[j]);
      }
    }
  }

  lemma PathIDs(rows: seq<Row>, p: seq<ID>)
    requires |p| >= 2 && IsPath(Down(rows), p)
    ensures forall x | x in p :: exists r | r in rows :: x == r.issue || x == r.dependsOn
  {
    forall x | x in p ensures exists r | r in rows :: x == r.issue || x == r.dependsOn {
      var i :| 0 <= i < |p| && p[i] == x;
      var k := if i == 0 then 0 else i - 1;
      assert (p[k], p[k + 1]) in Down(rows);
    }
  }

  /** No child that hangs below a trail and is not on it is hidden by the trail's text. */
  ghost predicate Unhidden(rows: seq<Row>, root: ID) {
    forall p, r | Trail(rows, root, p) && r in rows && r.dependsOn == p[|p| - 1] && r.issue !in p :: !Visited(p, r.issue)
  }

  /** In particular none is when the ids are free of commas. */
  lemma CommaFreeIsUnhidden(rows: seq<Row>, root: ID)
    requires CommaFree(rows)
    ensures Unhidden(rows, root)
  {
    forall p, r | Trail(rows, root, p) && r in rows && r.dependsOn == p[|p| - 1] && r.issue !in p
      ensures !Visited(p, r.issue)
    {
      PathIDs(rows, p);
      VisitedIffOnPath(p, r.issue);
    }
  }

  lemma TrailPrefix(rows: seq<Row>, root: ID, p: seq<ID>, i: nat)
    requires Trail(rows, root, p) && 2 <= i < |p|
    ensures Trail(rows, root, p[..i]) && p[i] !in p[..i]
    ensures exists r | r in rows :: r.dependsOn == p[..i][i - 1] && r.issue == p[i]
  {
    assert (p[i - 1], p[i]) in Down(rows);
  }

  lemma TrailIsTextTrail(rows: seq<Row>, root: ID, p: seq<ID>)
    requires Unhidden(rows, root) && Trail(rows, root, p)
    ensures TextTrail(rows, root, p)
  {
    hide Visited;
    forall i | 2 <= i < |p| ensures !Visited(p[..i], p[i]) {
      TrailPrefix(rows, root, p, i);
      var r :| r in rows && r.dependsOn == p[..i][i - 1] && r.issue == p[i];
    }
  }

  /** The text test admits every trail exactly when nothing is hidden. */
  lemma UnhiddenIff(rows: seq<Row>, root: ID)
    ensures Unhidden(rows, root) <==> forall p | Trail(rows, root, p) :: TextTrail(rows, root, p)
  {
    hide Visited;
    if Unhidden(rows, root) {
      forall p | Trail(rows, root, p) ensures TextTrail(rows, root, p) {
        TrailIsTextTrail(rows, root, p);
      }
    } else {
      var p, r :| Trail(rows, root, p) && r in rows && r.dependsOn == p[|p| - 1] && r.issue !in p && Visited(p, r.issue);
      var q := p + [r.issue];
      assert (r.dependsOn, r.issue) in Down(rows);
      assert Trail(rows, root, q);
      assert q[..|p|] == p && q[|p|] == r.issue;
    }
  }

  /** Trails are no longer than there are nodes, so the query stops on every graph. */
  lemma TrailsAreShort(rows: seq<Row>, root: ID, p: seq<ID>)
    requires Trail(rows, root, p)
    ensures |p| - 1 <= |Ends(Down(rows))|
  {
    var q := p[1..];
    forall x | x in q ensures x in Ends(Down(rows)) {
      var i :| 0 <= i < |q| && q[i] == x;
      assert (p[i], p[i + 1]) in Down(rows) && (p[i], p[i + 1]).1 in Ends(Down(rows));
    }
    NoDupSize(q, Ends(Down(rows)));
  }

  lemma {:induction false} NoDupSize(q: seq<ID>, s: set<ID>)
    requires NoDup(q) && forall x | x in q :: x in s
    ensures |q| <= |s|
  {
    if q != [] {
      var last := q[|q| - 1];
      NoDupSize(q[..|q| - 1], s - {last});
      assert |s - {last}| == |s| - 1;
    }
  }

  /** A level holds exactly the text trails of one length. */
  ghost predicate IsLevel(rows: seq<Row>, root: ID, maxDepth: int, depth: nat, level: seq<seq<ID>>) {
    forall p :: p in level <==> TextTrail(rows, root, p) && |p| == depth + 1 && InDepth(p, maxDepth)
  }

  lemma BaseIsLevel(rows: seq<Row>, root: ID, maxDepth: int)
    ensures IsLevel(rows, root, maxDepth, 1, Base(rows, root))
  {
    InBase(rows, root);
    forall p | TextTrail(rows, root, p) && |p| == 2 ensures p in Base(rows, root) {
      assert (p[0], p[1]) in Down(rows);
      assert p == [root, p[1]];
    }
  }

  lemma ExtendsTextTrail(rows: seq<Row>, root: ID, maxDepth: int, p: seq<ID>, q: seq<ID>)
    requires TextTrail(rows, root, p) && Extends(rows, p, maxDepth, q)
    ensures TextTrail(rows, root, q) && |q| == |p| + 1 && InDepth(q, maxDepth)
  {
    hide Visited;
    assert q[..|p|] == p && forall i | 2 <= i < |p| :: q[..i] == p[..i];
  }

  lemma TextTrailPrefix(rows: seq<Row>, root: ID, q: seq<ID>, n: nat)
    requires TextTrail(rows, root, q) && 2 <= n <= |q|
    ensures TextTrail(rows, root, q[..n])
  {
    hide Visited;
    assert forall i | 2 <= i < n :: q[..n][..i] == q[..i];
  }

  lemma TextTrailExtends(rows: seq<Row>, root: ID, maxDepth: int, q: seq<ID>)
    requires TextTrail(rows, root, q) && |q| >= 3 && InDepth(q, maxDepth)
    ensures Extends(rows, q[..|q| - 1], maxDepth, q)
  {
    hide Visited;
    var p := q[..|q| - 1];
    assert q == p + [q[|q| - 1]];
    assert (q[|q| - 2], q[|q| - 1]) in Down(rows);
  }

  lemma JoinedAreTrails(rows: seq<Row>, root: ID, maxDepth: int, depth: nat, level: seq<seq<ID>>, p: seq<ID>, q: seq<ID>)
    requires IsLevel(rows, root, maxDepth, depth, level) && p in level && p != [] && Extends(rows, p, maxDepth, q)
    ensures TextTrail(rows, root, q) && |q| == depth + 2 && InDepth(q, maxDepth)
  {
    hide TextTrail, Extends, InDepth;
    ExtendsTextTrail(rows, root, maxDepth, p, q);
  }

  lemma TrailsAreJoined(rows: seq<Row>, root: ID, maxDepth: int, depth: nat, level: seq<seq<ID>>, q: seq<ID>)
    requires depth >= 1 && IsLevel(rows, root, maxDepth, depth, level)
    requires TextTrail(rows, root, q) && |q| == depth + 2 && InDepth(q, maxDepth)
    ensures q[..depth + 1] in level && Extends(rows, q[..depth + 1], maxDepth, q)
  {
    hide TextTrail, Extends, InDepth;
    TextTrailPrefix(rows, root, q, depth + 1);
    ShallowerInDepth(q, maxDepth, depth + 1);
    TextTrailExtends(rows, root, maxDepth, q);
  }

  lemma LevelPathsAreNotEmpty(rows: seq<Row>, root: ID, maxDepth: int, depth: nat, level: seq<seq<ID>>)
    requires IsLevel(rows, root, maxDepth, depth, level)
    ensures forall i | 0 <= i < |level| :: level[i] != []
    ensures forall p | p in level :: p != []
  {
    hide TextTrail, InDepth;
    forall i | 0 <= i < |level| ensures level[i] != [] {
      assert level[i] in level;
    }
  }

  lemma JoinIsLevel(rows: seq<Row>, root: ID, maxDepth: int, depth: nat, level: seq<seq<ID>>)
    requires depth >= 1 && IsLevel(rows, root, maxDepth, depth, level)
    ensures forall i | 0 <= i < |level| :: level[i] != []
    ensures IsLevel(rows, root, maxDepth, depth + 1, JoinAll(rows, level, maxDepth))
  {
    hide TextTrail, Extends, InDepth, JoinAll;
    LevelPathsAreNotEmpty(rows, root, maxDepth, depth, level);
    InJoinAll(rows, level, maxDepth);
    var next := JoinAll(rows, level, maxDepth);
    forall q | q in next ensures TextTrail(rows, root, q) && |q| == depth + 2 && InDepth(q, maxDepth) {
      var p :| p in level && Extends(rows, p, maxDepth, q);
      JoinedAreTrails(rows, root, maxDepth, depth, level, p, q);
    }
    forall q | TextTrail(rows, root, q) && |q| == depth + 2 && InDepth(q, maxDepth) ensures q in next {
      TrailsAreJoined(rows, root, maxDepth, depth, level, q);
    }
  }

  lemma ShallowerInDepth(q: seq<ID>, maxDepth: int, n: nat)
    requires n <= |q| && InDepth(q, maxDepth)
    ensures InDepth(q[..n], maxDepth)
  {
  }

  lemma LevelIsShallow(rows: seq<Row>, root: ID, maxDepth: int, depth: nat, level: seq<seq<ID>>)
    requires IsLevel(rows, root, maxDepth, depth, level) && level != []
    ensures depth <= |Ends(Down(rows))|
  {
    assert level[0] in level;
    TextTrailIsTrail(rows, root, level[0]);
    TrailsAreShort(rows, root, level[0]);
  }

  /** The rows of the recursive table, level after level until a level is empty. */
  function Recursion(rows: seq<Row>, root: ID, maxDepth: int, depth: nat, level: seq<seq<ID>>): (table: seq<seq<ID>>)
    requires depth >= 1 && IsLevel(rows, root, maxDepth, depth, level)
    ensures forall p | p in table :: TextTrail(rows, root, p) && |p| > depth && InDepth(p, maxDepth)
    decreases |Ends(Down(rows))| + 1 - depth
  {
    if level == [] then []
    else
      LevelIsShallow(rows, root, maxDepth, depth, level);
      JoinIsLevel(rows, root, maxDepth, depth, level);
      level + Recursion(rows, root, maxDepth, depth + 1, JoinAll(rows, level, maxDepth))
  }

  lemma PrefixInLevel(rows: seq<Row>, root: ID, maxDepth: int, depth: nat, level: seq<seq<ID>>, p: seq<ID>)
    requires depth >= 1 && IsLevel(rows, root, maxDepth, depth, level)
    requires TextTrail(rows, root, p) && |p| > depth && InDepth(p, maxDepth)
    ensures p[..depth + 1] in level
  {
    hide TextTrail, InDepth;
    TextTrailPrefix(rows, root, p, depth + 1);
    ShallowerInDepth(p, maxDepth, depth + 1);
  }

  lemma {:induction false} RecursionFinds(rows: seq<Row>, root: ID, maxDepth: int, depth: nat, level: seq<seq<ID>>,
                                          p: seq<ID>)
    requires depth >= 1 && IsLevel(rows, root, maxDepth, depth, level)
    requires TextTrail(rows, root, p) && |p| > depth && InDepth(p, maxDepth)
    ensures p in Recursion(rows, root, maxDepth, depth, level)
    decreases |p| - depth
  {
    hide TextTrail, InDepth, IsLevel, JoinAll, Ends;
    var q := p[..depth + 1];
    PrefixInLevel(rows, root, maxDepth, depth, level, p);
    LevelIsShallow(rows, root, maxDepth, depth, level);
    if |p| == depth + 1 {
      assert p == q;
    } else {
      JoinIsLevel(rows, root, maxDepth, depth, level);
      RecursionFinds(rows, root, maxDepth, depth + 1, JoinAll(rows, level, maxDepth), p);
    }
  }

  function DescendantsTable(rows: seq<Row>, root: ID, maxDepth: int): seq<seq<ID>> {
    BaseIsLevel(rows, root, maxDepth);
    Recursion(rows, root, maxDepth, 1, Base(rows, root))
  }

  /** If nothing is hidden the recursive table holds exactly the trails within the depth limit. */
  lemma TableHoldsTheTrails(rows: seq<Row>, root: ID, maxDepth: int)
    requires Unhidden(rows, root)
    ensures forall p :: p in DescendantsTable(rows, root, maxDepth) <==> Trail(rows, root, p) && InDepth(p, maxDepth)
  {
    BaseIsLevel(rows, root, maxDepth);
    forall p ensures p in DescendantsTable(rows, root, maxDepth) <==> Trail(rows, root, p) && InDepth(p, maxDepth) {
      if p in DescendantsTable(rows, root, maxDepth) {
        TextTrailIsTrail(rows, root, p);
      }
      if Trail(rows, root, p) && InDepth(p, maxDepth) {
        TrailIsTextTrail(rows, root, p);
        RecursionFinds(rows, root, maxDepth, 1, Base(rows, root), p);
      }
    }
  }

  /** Without a depth limit it holds every trail exactly when nothing is hidden. */
  lemma TableHoldsAllTrailsIff(rows: seq<Row>, root: ID)
    ensures Unhidden(rows, root) <==> forall p | Trail(rows, root, p) :: p in DescendantsTable(rows, root, 0)
  {
    BaseIsLevel(rows, root, 0);
    UnhiddenIff(rows, root);
    forall p | Trail(rows, root, p) ensures p in DescendantsTable(rows, root, 0) <==> TextTrail(rows, root, p) {
      if TextTrail(rows, root, p) {
        RecursionFinds(rows, root, 0, 1, Base(rows, root), p);
      }
    }
  }

  // ----- proper descendants -----

  ghost predicate Descends(rows: seq<Row>, root: ID, x: ID) {
    x != root && Reaches(Down(rows), root, x)
  }

  lemma {:induction false} SimplePath(e: Edges<ID>, a: ID, b: ID, p: seq<ID>) returns (q: seq<ID>)
    requires PathBetween(e, a, b, p)
    ensures PathBetween(e, a, b, q) && NoDup(q)
    decreases |p|
  {
    if i, j :| 0 <= i < j < |p| && p[i] == p[j] {
      q := SimplePath(e, a, b, p[..i] + p[j..]);
    } else {
      q := p;
    }
  }

  lemma TrailTo(rows: seq<Row>, root: ID, x: ID) returns (p: seq<ID>)
    requires Descends(rows, root, x)
    ensures Trail(rows, root, p) && p[|p| - 1] == x && x != root
  {
    var w :| PathBetween(Down(rows), root, x, w);
    p := SimplePath(Down(rows), root, x, w);
  }

  lemma TrailDescends(rows: seq<Row>, root: ID, p: seq<ID>)
    requires Trail(rows, root, p) && p[|p| - 1] != root
    ensures Descends(rows, root, p[|p| - 1])
  {
    assert PathBetween(Down(rows), root, p[|p| - 1], p);
  }

  /** Some trail of exactly `maxDepth` edges ends away from the root. */
  ghost predicate ReachesDepth(rows: seq<Row>, root: ID, maxDepth: int) {
    maxDepth > 0 && exists p | Trail(rows, root, p) :: |p| == maxDepth + 1 && p[|p| - 1] != root
  }

  /** A trail longer than the limit has a prefix that meets the limit, so nothing is cut off silently. */
  lemma LongTrailReachesDepth(rows: seq<Row>, root: ID, maxDepth: int, p: seq<ID>)
    requires Trail(rows, root, p) && p[|p| - 1] != root && !InDepth(p, maxDepth)
    ensures ReachesDepth(rows, root, maxDepth)
  {
    var q := p[..maxDepth + 1];
    if maxDepth >= 2 {
      assert Trail(rows, root, q) && q[|q| - 1] != root;
    } else {
      assert |q| == 2;
      if q[1] == root {
        // The trail goes through the root's own loop; the next node is not the root, and hangs off it as well.
        var r := [root, p[2]];
        assert (p[1], p[2]) in Down(rows);
        assert Trail(rows, root, r) && r[1] != root;
      } else {
        assert Trail(rows, root, q);
      }
    }
  }

  predicate Away(p: seq<ID>, root: ID) {
    p != [] && p[|p| - 1] != root
  }

  predicate AtLimit(p: seq<ID>, maxDepth: int) {
    maxDepth > 0 && |p| - 1 >= maxDepth
  }

  lemma TableHoldsOnlyTrails(rows: seq<Row>, root: ID, maxDepth: int)
    ensures forall p | p in DescendantsTable(rows, root, maxDepth) ::
              Trail(rows, root, p) && InDepth(p, maxDepth) && |p| >= 2
  {
    BaseIsLevel(rows, root, maxDepth);
    forall p | p in DescendantsTable(rows, root, maxDepth) ensures Trail(rows, root, p) {
      TextTrailIsTrail(rows, root, p);
    }
  }

  lemma LimitReachesDepth(rows: seq<Row>, root: ID, maxDepth: int, p: seq<ID>)
    requires Trail(rows, root, p) && InDepth(p, maxDepth) && Away(p, root) && AtLimit(p, maxDepth)
    ensures ReachesDepth(rows, root, maxDepth)
  {
  }

  datatype Listing = Listed(ids: seq<ID>) | ReachedMaxDepth

  /** queryDescendants: the ids of the table's rows other than the root, and whether one was at the limit. */
  method QueryDescendants(rows: seq<Row>, root: ID, maxDepth: int) returns (result: seq<ID>, reachedMaxDepth: bool)
    ensures forall x | x in result :: Descends(rows, root, x)
    ensures reachedMaxDepth ==> ReachesDepth(rows, root, maxDepth)
    ensures Unhidden(rows, root) ==> reachedMaxDepth == ReachesDepth(rows, root, maxDepth)
    ensures Unhidden(rows, root) && !reachedMaxDepth ==> forall x :: Descends(rows, root, x) <==> x in result
  {
    hide Trail, TextTrail, Descends, Unhidden, DescendantsTable, ReachesDepth, IsLevel, Down;
    var table := DescendantsTable(rows, root, maxDepth);
    TableHoldsOnlyTrails(rows, root, maxDepth);
    result, reachedMaxDepth := [], false;
    for k := 0 to |table|
      invariant forall x | x in result :: Descends(rows, root, x)
      invariant forall i | 0 <= i < k && Away(table[i], root) :: table[i][|table[i]| - 1] in result
      invariant reachedMaxDepth <==> exists i | 0 <= i < k :: Away(table[i], root) && AtLimit(table[i], maxDepth)
    {
      var p := table[k];
      assert p in table;
      if Away(p, root) {
        TrailDescends(rows, root, p);
        result := result + [p[|p| - 1]];
        if AtLimit(p, maxDepth) {
          reachedMaxDepth := true;
        }
      }
    }
    if reachedMaxDepth {
      var i :| 0 <= i < |table| && Away(table[i], root) && AtLimit(table[i], maxDepth);
      assert table[i] in table;
      LimitReachesDepth(rows, root, maxDepth, table[i]);
    }
    if Unhidden(rows, root) {
      QueryIsComplete(rows, root, maxDepth, table, result, reachedMaxDepth);
    }
  }

  lemma QueryIsComplete(rows: seq<Row>, root: ID, maxDepth: int, table: seq<seq<ID>>, result: seq<ID>, reached: bool)
    requires Unhidden(rows, root) && table == DescendantsTable(rows, root, maxDepth)
    requires forall x | x in result :: Descends(rows, root, x)
    requires forall i | 0 <= i < |table| && Away(table[i], root) :: table[i][|table[i]| - 1] in result
    requires reached <==> exists i | 0 <= i < |table| :: Away(table[i], root) && AtLimit(table[i], maxDepth)
    ensures ReachesDepth(rows, root, maxDepth) ==> reached
    ensures !reached ==> forall x :: Descends(rows, root, x) <==> x in result
  {
    hide Trail, Descends, DescendantsTable, Unhidden;
    TableHoldsTheTrails(rows, root, maxDepth);
    if ReachesDepth(rows, root, maxDepth) {
      var p :| Trail(rows, root, p) && |p| == maxDepth + 1 && p[|p| - 1] != root;
      assert p in table;
      var i :| 0 <= i < |table| && table[i] == p;
      assert Away(table[i], root) && AtLimit(table[i], maxDepth);
    }
    forall x | !reached && Descends(rows, root, x) ensures x in result {
      var p := TrailTo(rows, root, x);
      if !InDepth(p, maxDepth) {
        LongTrailReachesDepth(rows, root, maxDepth, p);
      }
      assert p in table;
      var i :| 0 <= i < |table| && table[i] == p;
    }
  }

  /** GetDescendantIDsInTx; without a wisp table the query runs over the issue dependencies alone. */
  method GetDescendantIDs(deps: seq<Row>, wispDeps: Option<seq<Row>>, rootID: ID, maxDepth: int) returns (r: Listing)
    ensures rootID == "" ==> r == Listed([])
    ensures r.Listed? ==> forall x | x in r.ids :: Descends(Both(deps, wispDeps), rootID, x)
    ensures r.ReachedMaxDepth? ==> ReachesDepth(Both(deps, wispDeps), rootID, maxDepth)
    ensures rootID != "" && Unhidden(Both(deps, wispDeps), rootID) ==>
              && (r.ReachedMaxDepth? <==> ReachesDepth(Both(deps, wispDeps), rootID, maxDepth))
              && (r.Listed? ==> forall x :: Descends(Both(deps, wispDeps), rootID, x) <==> x in r.ids)
    ensures var down := Down(deps) + if wispDeps.Some? then Down(wispDeps.value) else {};
            && (r.Listed? ==> forall x | x in r.ids :: x != rootID && Reaches(down, rootID, x))
            && (r.Listed? && rootID != "" && Unhidden(Both(deps, wispDeps), rootID) ==>
                  forall x :: x in r.ids <==> x != rootID && Reaches(down, rootID, x))
            && (r.ReachedMaxDepth? ==>
                  maxDepth > 0 && exists p :: IsPath(down, p) && p[0] == rootID && |p| == maxDepth + 1 && p[maxDepth] != rootID)
  {
    DownBoth(deps, wispDeps);
    if rootID == "" {
      return Listed([]);
    }
    hide Down, Unhidden;
    var edges := deps;
    if wispDeps.Some? {
      edges := edges + wispDeps.value;
    }
    assert edges == Both(deps, wispDeps);
    var result, reachedMaxDepth := QueryDescendants(edges, rootID, maxDepth);
    r := if reachedMaxDepth then ReachedMaxDepth else Listed(result);
  }

  function Both(deps: seq<Row>, wispDeps: Option<seq<Row>>): seq<Row> {
    deps + if wispDeps.Some? then wispDeps.value else []
  }

  /** The query runs over the rows of both tables, or of `dependencies` alone when there is no wisp table. */
  lemma DownBoth(deps: seq<Row>, wispDeps: Option<seq<Row>>)
    ensures forall r :: r in Both(deps, wispDeps) <==> r in deps || (wispDeps.Some? && r in wispDeps.value)
    ensures forall u, v :: (u, v) in Down(Both(deps, wispDeps)) <==>
              Row(v, u) in deps || (wispDeps.Some? && Row(v, u) in wispDeps.value)
    ensures Down(Both(deps, wispDeps)) == Down(deps) + if wispDeps.Some? then Down(wispDeps.value) else {}
    ensures (forall r | r in deps :: ',' !in r.issue && ',' !in r.dependsOn)
            && (wispDeps.Some? ==> forall r | r in wispDeps.value :: ',' !in r.issue && ',' !in r.dependsOn)
            ==> forall root :: Unhidden(Both(deps, wispDeps), root)
  {
    hide Unhidden;
    var rows := Both(deps, wispDeps);
    assert forall r: Row :: r == Row(r.issue, r.dependsOn);
    if CommaFree(rows) {
      forall root ensures Unhidden(rows, root) {
        CommaFreeIsUnhidden(rows, root);
      }
    }
  }

  /**
  When the root is not its own parent, the error means a simple chain of
  `maxDepth` links hangs below the root. A root that is its own parent counts
  its loop as a link: the chain is then one shorter.
  */
  lemma ReachesDepthMeansChain(rows: seq<Row>, root: ID, maxDepth: int)
    ensures ReachesDepth(rows, root, maxDepth) <==>
              && maxDepth > 0
              && ((exists p | Chain(rows, root, p) :: |p| == maxDepth + 1)
                  || ((root, root) in Down(rows) && exists p | Chain(rows, root, p) :: |p| == maxDepth))
  {
    if ReachesDepth(rows, root, maxDepth) {
      var p :| Trail(rows, root, p) && |p| == maxDepth + 1 && p[|p| - 1] != root;
      if p[1] == root {
        assert (p[0], p[1]) in Down(rows);
        TrailTail(rows, root, p);
      } else {
        assert Chain(rows, root, p);
      }
    }
    if maxDepth > 0 {
      if p :| Chain(rows, root, p) && |p| == maxDepth + 1 {
        assert Trail(rows, root, p);
      }
      if p :| (root, root) in Down(rows) && Chain(rows, root, p) && |p| == maxDepth {
        var q := [root] + p;
        assert q[1..] == p;
        assert Trail(rows, root, q);
      }
    }
  }

  lemma TrailTail(rows: seq<Row>, root: ID, p: seq<ID>)
    requires Trail(rows, root, p) && p[1] == root && p[|p| - 1] != root
    ensures Chain(rows, root, p[1..])
  {
  }

  /** A path with no repeated id from the root down to a proper descendant. */
  ghost predicate Chain(rows: seq<Row>, root: ID, p: seq<ID>) {
    |p| >= 2 && p[0] == root && IsPath(Down(rows), p) && NoDup(p)
  }

  /** A comma inside an id hides another id: `x` is a descendant that is never listed when `ax` is its parent's id. */
  lemma CommaHides(rows: seq<Row>, root: ID, ax: ID, x: ID)
    requires rows == [Row(ax, root), Row(x, ax)] && root != ax && root != x && ax != x && Visited([root, ax], x)
    ensures Descends(rows, root, x) && forall p | p in DescendantsTable(rows, root, 0) :: p[|p| - 1] != x
  {
    hide Visited, Trail;
    assert rows[0] in rows && rows[1] in rows;
    assert PathBetween(Down(rows), root, x, [root, ax, x]);
    BaseIsLevel(rows, root, 0);
    forall p | p in DescendantsTable(rows, root, 0) ensures p[|p| - 1] != x {
      var n := |p|;
      assert TextTrail(rows, root, p);
      assert p[..2] == [root, p[1]];
      assert forall i | 0 <= i < n - 1 :: (p[i], p[i + 1]) in Down(rows);
    }
  }

  lemma CommaCanHide()
    ensures Visited(["r", "a,b"], "b")
  {
    var p := ["r", "a,b"];
    assert p[..1] == ["r"] && p[..1][..0] == [];
    assert PathText(["r"]) == ",r,";
    assert PathText(p) == ",r,a,b,";
    assert OccursAt(PathText(p), "," + "b" + ",", 4);
  }
}
