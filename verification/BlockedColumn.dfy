/**
The mark/unmark passes over the stored `is_blocked` column and the loops that
run them to a fixpoint.

The order in which a single UPDATE visits its rows is left to the database:
`ExecUpdate` evaluates its rows in arbitrary groups, so it covers a statement
evaluated against one snapshot as well as a row-at-a-time one.
*/
module BlockedColumn {
  import opened BlockedTables
  import opened ParentHeights

  const QUERY_BATCH_SIZE: nat := 200

  predicate Eligible(g: Tables, col: Column, mark: bool, r: Node) {
    r in col && col[r] != mark && ShouldBeBlocked(g, col, r) == mark
  }

  function IdNodes(wisps: bool, ids: seq<ID>): set<Node> {
    set id | id in ids :: if wisps then Wisp(id) else Issue(id)
  }

  function Parity(b: bool): nat {
    if b then 1 else 0
  }

  /**
  What a recompute is heading for: the fixpoint `want` over the rows of
  `scope`.  Rows outside `scope` and rows ranked below `k` are there already.
  */
  datatype Goal = Goal(rank: map<Node, nat>, scope: set<Node>, want: Column, k: nat) {
    ghost predicate For(g: Tables) {
      g.Valid() && Ranks(g, rank) && Fixpoint(g, scope, want)
    }

    ghost predicate RightBelow(col: Column) {
      && col.Keys == want.Keys && want.Keys <= rank.Keys
      && forall r | r in col && (r !in scope || rank[r] < k) :: col[r] == want[r]
    }

    /** Rows of rank at most `k` that are right in `before` are right in `after`. */
    ghost predicate KeepsRight(before: Column, after: Column) {
      && before.Keys == after.Keys == want.Keys && want.Keys <= rank.Keys
      && forall r | r in want && rank[r] <= k && before[r] == want[r] :: after[r] == want[r]
    }

    /** The rows of `rows` ranked at most `k` that should hold `v` hold it. */
    ghost predicate Reached(col: Column, rows: set<Node>, v: bool) {
      && col.Keys == want.Keys && want.Keys <= rank.Keys
      && forall r | r in rows && r in want && rank[r] <= k && want[r] == v :: col[r] == v
    }

    /** A row whose parents all rank below it is evaluated correctly. */
    lemma Evaluates(g: Tables, col: Column, r: Node)
      requires For(g) && RightBelow(col) && r in want && r in scope && rank[r] <= k
      ensures ShouldBeBlocked(g, col, r) == want[r]
    {
      ShouldBeBlockedLocal(g, col, want, r);
    }

    lemma Begin(g: Tables, col: Column, H: nat)
      requires k == 0 && For(g) && AgreeOutside(want, col, scope)
      requires forall r | r in col && r in scope && r in rank :: rank[r] <= H
      ensures RightBelow(col) && BoundedBy(H)
    {
    }

    lemma Empty(issueIDs: seq<ID>, wispIDs: seq<ID>, col: Column)
      requires RightBelow(col) && issueIDs == [] && wispIDs == []
      requires scope == IdNodes(false, issueIDs) + IdNodes(true, wispIDs)
      ensures col == want
    {
    }

    ghost predicate BoundedBy(H: nat) {
      forall r | r in want && r in scope && r in rank :: rank[r] <= H
    }

    lemma AllRight(col: Column)
      requires RightBelow(col) && forall r | r in col && r in scope :: rank[r] < k
      ensures col == want
    {
    }

    /** A full pass settles the rows of rank `k`. */
    lemma Next(col: Column)
      requires RightBelow(col) && Reached(col, scope, true) && Reached(col, scope, false)
      ensures this.(k := k + 1).RightBelow(col)
    {
    }

    /** What running mark and unmark over the rows of `done` has achieved, having changed `n` rows. */
    ghost predicate Passed(g: Tables, before: Column, after: Column, done: set<Node>, n: nat) {
      && AgreeOutside(after, before, done)
      && (n == 0 ==> after == before && forall r | r in done :: !IsStale(g, after, r))
      && RightBelow(after) && KeepsRight(before, after)
      && Reached(after, done, true) && Reached(after, done, false)
      && (before == want ==> n == 0)
    }

    lemma PassedNone(g: Tables, col: Column)
      requires RightBelow(col)
      ensures Passed(g, col, col, {}, 0)
    {
    }

    lemma PassedRight(g: Tables, before: Column, after: Column, done: set<Node>, n: nat)
      requires Passed(g, before, after, done, n)
      ensures RightBelow(after) && AgreeOutside(after, before, done)
    {
    }

    lemma DidRight(g: Tables, mark: bool, before: Column, done: set<Node>, after: Column, n: nat)
      requires Update(g, this, mark, before).Did(done, after, n)
      ensures RightBelow(after)
    {
    }

    /** Mark then unmark one batch. */
    lemma PassedBatch(g: Tables, before: Column, start: Column, marked: Column, after: Column,
                      done: set<Node>, batch: set<Node>, changed: nat, n: nat, m: nat)
      requires Passed(g, before, start, done, changed)
      requires Update(g, this, true, start).Did(batch, marked, n)
      requires Update(g, this, false, marked).Did(batch, after, m)
      ensures Passed(g, before, after, done + batch, changed + n + m)
    {
      hide ShouldBeBlocked;
      DifferEmpty(start, marked);
      DifferEmpty(marked, after);
      if changed + n + m == 0 {
        forall r | r in batch ensures !IsStale(g, after, r) {
          assert !Eligible(g, after, true, r) && !Eligible(g, after, false, r);
        }
      }
    }

    /** One round of both passes moves the frontier up a rank; a round that changes nothing is the last. */
    lemma FullPass(g: Tables, start: Column, mid: Column, after: Column, issues: set<Node>, wisps: set<Node>,
                   n: nat, m: nat, H: nat)
      requires For(g) && scope == issues + wisps && RightBelow(start)
      requires BoundedBy(H)
      requires Passed(g, start, mid, issues, n) && Passed(g, mid, after, wisps, m)
      ensures AgreeOutside(after, start, scope)
      ensures n + m == 0 ==> after == want
      ensures start == want ==> n + m == 0 && after == want
      ensures this.(k := k + 1).RightBelow(after) && this.(k := k + 1).BoundedBy(H)
      ensures k > H ==> n + m == 0
    {
      hide ShouldBeBlocked, Ranks, For;
      if k > H {
        AllRight(start);
      }
      if n + m == 0 {
        Stuck(g, after);
      }
      Next(after);
    }

    /** A column with no stale row in scope is the goal. */
    lemma Stuck(g: Tables, col: Column)
      requires For(g) && RightBelow(col) && forall r | r in scope :: !IsStale(g, col, r)
      ensures col == want
    {
      hide ShouldBeBlocked;
      FixpointUnique(g, rank, scope, col, want);
    }
  }

  function Hits(g: Tables, col: Column, mark: bool, group: set<Node>): set<Node> {
    set h | h in group && Eligible(g, col, mark, h)
  }

  function Write(col: Column, hits: set<Node>, mark: bool): (after: Column)
    ensures after.Keys == col.Keys
  {
    map r | r in col :: if r in hits then mark else col[r]
  }

  /** What one statement did to the rows of `done`, having changed `n` rows. */
  datatype Update = Update(g: Tables, goal: Goal, mark: bool, before: Column) {
    ghost predicate Did(done: set<Node>, after: Column, n: nat) {
      && AgreeOutside(after, before, done)
      && n == |Differ(before, after)|
      && (forall r | r in after && after[r] != before[r] :: after[r] == mark)
      && (n == 0 ==> forall r | r in done :: !Eligible(g, before, mark, r))
      && goal.RightBelow(after) && goal.KeepsRight(before, after) && goal.Reached(after, done, mark)
      && (before == goal.want ==> after == before)
    }

    lemma Begin()
      requires goal.For(g) && ColumnOf(g, before) && goal.RightBelow(before)
      ensures Did({}, before, 0)
    {
      DifferEmpty(before, before);
    }

    lemma ExtendDiffer(done: set<Node>, group: set<Node>, mid: Column, n: nat)
      requires Did(done, mid, n) && done !! group
      ensures AgreeOutside(Write(mid, Hits(g, mid, mark, group), mark), before, done + group)
      ensures n + |Hits(g, mid, mark, group)| == |Differ(before, Write(mid, Hits(g, mid, mark, group), mark))|
      ensures forall r | r in before && Write(mid, Hits(g, mid, mark, group), mark)[r] != before[r] ::
                Write(mid, Hits(g, mid, mark, group), mark)[r] == mark
    {
      hide ShouldBeBlocked, Goal.RightBelow, Goal.KeepsRight, Goal.Reached;
      assert Differ(before, Write(mid, Hits(g, mid, mark, group), mark)) == Differ(before, mid) + Hits(g, mid, mark, group);
    }

    lemma ExtendIdle(done: set<Node>, group: set<Node>, mid: Column, n: nat)
      requires Did(done, mid, n) && n + |Hits(g, mid, mark, group)| == 0
      ensures forall r | r in done + group :: !Eligible(g, before, mark, r)
    {
      hide ShouldBeBlocked, Goal.RightBelow, Goal.KeepsRight, Goal.Reached;
      DifferEmpty(before, mid);
      forall h | h in group ensures !Eligible(g, before, mark, h) {
        assert h !in Hits(g, mid, mark, group);
      }
    }

    lemma ExtendGoal(done: set<Node>, group: set<Node>, mid: Column, n: nat)
      requires goal.For(g) && Did(done, mid, n) && done + group <= goal.scope
      ensures var after := Write(mid, Hits(g, mid, mark, group), mark);
              goal.RightBelow(after) && goal.KeepsRight(before, after) && goal.Reached(after, done + group, mark)
    {
      forall h | h in group && h in goal.want && goal.rank[h] <= goal.k
        ensures ShouldBeBlocked(g, mid, h) == goal.want[h]
      {
        goal.Evaluates(g, mid, h);
      }
    }

    lemma ExtendSettled(done: set<Node>, group: set<Node>, mid: Column, n: nat)
      requires goal.For(g) && Did(done, mid, n) && done + group <= goal.scope && before == goal.want
      ensures Write(mid, Hits(g, mid, mark, group), mark) == before
    {
      assert Hits(g, mid, mark, group) == {};
    }

    lemma Extend(done: set<Node>, group: set<Node>, mid: Column, n: nat)
      requires goal.For(g) && Did(done, mid, n) && done !! group && done + group <= goal.scope
      ensures Did(done + group, Write(mid, Hits(g, mid, mark, group), mark), n + |Hits(g, mid, mark, group)|)
    {
      ExtendDiffer(done, group, mid, n);
      if n + |Hits(g, mid, mark, group)| == 0 {
        ExtendIdle(done, group, mid, n);
      }
      ExtendGoal(done, group, mid, n);
      if before == goal.want {
        ExtendSettled(done, group, mid, n);
      }
      hide ShouldBeBlocked, Goal.RightBelow, Goal.KeepsRight, Goal.Reached, Write, Hits, Differ, Eligible;
    }

    lemma Tallied(done: set<Node>, after: Column, n: nat, x: map<Node, nat>, y: map<Node, nat>)
      requires Did(done, after, n) && CountsFlips(x, y, before, after)
      ensures Tally(before, x).Matches(after, y, n)
    {
      hide ShouldBeBlocked, Goal.RightBelow, Goal.KeepsRight, Goal.Reached, CountsFlips;
      DifferEmpty(before, after);
    }
  }

  /** Per-row flip counters: a row flipped an odd number of times exactly when it changed from `a` to `b`. */
  ghost predicate CountsFlips(x: map<Node, nat>, y: map<Node, nat>, a: Column, b: Column) {
    && a.Keys == b.Keys && a.Keys <= x.Keys && x.Keys == y.Keys
    && forall r | r in a :: x[r] <= y[r] && (y[r] - x[r]) % 2 == Parity(a[r] != b[r])
  }

  lemma FlipsNone(x: map<Node, nat>, a: Column)
    requires a.Keys <= x.Keys
    ensures CountsFlips(x, x, a, a)
  {
  }

  function Bump(flips: map<Node, nat>, hits: set<Node>): (after: map<Node, nat>)
    ensures after.Keys == flips.Keys
  {
    map r | r in flips :: if r in hits then flips[r] + 1 else flips[r]
  }

  lemma FlipsWrite(x: map<Node, nat>, y: map<Node, nat>, a: Column, g: Tables, b: Column, mark: bool, group: set<Node>)
    requires CountsFlips(x, y, a, b)
    ensures CountsFlips(x, Bump(y, Hits(g, b, mark, group)), a, Write(b, Hits(g, b, mark, group), mark))
  {
    hide ShouldBeBlocked;
  }

  lemma FlipsCompose(x: map<Node, nat>, y: map<Node, nat>, z: map<Node, nat>, a: Column, b: Column, c: Column)
    requires CountsFlips(x, y, a, b) && CountsFlips(y, z, b, c)
    ensures CountsFlips(x, z, a, c)
  {
  }

  /** The bookkeeping every loop keeps: rows flipped, in total and one by one. */
  datatype Tally = Tally(before: Column, flips: map<Node, nat>) {
    ghost predicate Matches(after: Column, flipsAfter: map<Node, nat>, total: nat) {
      && CountsFlips(flips, flipsAfter, before, after)
      && |Differ(before, after)| <= total && total % 2 == |Differ(before, after)| % 2
      && (total == 0 ==> after == before)
    }

    lemma Start()
      requires before.Keys <= flips.Keys
      ensures Matches(before, flips, 0)
    {
      DifferEmpty(before, before);
    }

    lemma Zero(after: Column, flipsAfter: map<Node, nat>)
      requires Matches(after, flipsAfter, 0)
      ensures after == before
    {
    }

    lemma Compose(mid: Column, flipsMid: map<Node, nat>, n: nat, after: Column, flipsAfter: map<Node, nat>, m: nat)
      requires Matches(mid, flipsMid, n) && Tally(mid, flipsMid).Matches(after, flipsAfter, m)
      ensures Matches(after, flipsAfter, n + m)
    {
      DifferCompose(before, mid, after);
      FlipsCompose(flips, flipsMid, flipsAfter, before, mid, after);
    }
  }

  class BlockedStore {
    var tables: Tables
    var blocked: Column
    ghost var flips: map<Node, nat>  // how often a recompute has written each row with a new value

    ghost predicate Valid()
      reads this
    {
      tables.Valid() && ColumnOf(tables, blocked) && blocked.Keys <= flips.Keys
    }

    constructor (g: Tables, col: Column)
      requires g.Valid() && ColumnOf(g, col)
      ensures Valid() && tables == g && blocked == col
    {
      tables := g;
      blocked := col;
      flips := map r | r in col :: 0;
    }

    /** The tables change under the column: a merge, or the edit of a local write. */
    method Load(g: Tables, col: Column)
      requires g.Valid() && ColumnOf(g, col)
      modifies this
      ensures Valid() && tables == g && blocked == col
    {
      tables := g;
      blocked := col;
      flips := map r | r in col :: 0;
    }

    /** One mark (or unmark) UPDATE over the rows in `batch`; returns RowsAffected. */
    method ExecUpdate(mark: bool, batch: set<Node>, ghost goal: Goal) returns (n: nat)
      requires Valid() && goal.For(tables) && batch <= goal.scope && goal.RightBelow(blocked)
      modifies this`blocked, this`flips
      ensures Valid()
      ensures Update(tables, goal, mark, old(blocked)).Did(batch, blocked, n)
      ensures Tally(old(blocked), old(flips)).Matches(blocked, flips, n)
    {
      hide ShouldBeBlocked, Update.Did, Goal.RightBelow, Goal.For, CountsFlips, Hits, Write, Bump, Tally.Matches;
      ghost var update := Update(tables, goal, mark, blocked);
      var todo := batch;
      n := 0;
      update.Begin();
      FlipsNone(flips, blocked);
      assert batch - todo == {};
      while todo != {}
        invariant Valid() && todo <= batch
        invariant update.Did(batch - todo, blocked, n)
        invariant CountsFlips(old(flips), flips, old(blocked), blocked)
        decreases todo
      {
        var r :| r in todo;
        var group :| r in group && group <= todo;
        var hits := Hits(tables, blocked, mark, group);
        update.Extend(batch - todo, group, blocked, n);
        FlipsWrite(old(flips), flips, old(blocked), tables, blocked, mark, group);
        assert batch - (todo - group) == (batch - todo) + group;
        blocked := Write(blocked, hits, mark);
        flips := Bump(flips, hits);
        n := n + |hits|;
        todo := todo - group;
      }
      assert batch - todo == batch;
      update.Tallied(batch, blocked, n, old(flips), flips);
    }

    /** runMarkUnmarkBatchedInTx: mark then unmark each batch of at most QUERY_BATCH_SIZE ids. */
    method RunMarkUnmarkBatched(wisps: bool, ids: seq<ID>, ghost goal: Goal) returns (changed: nat)
      requires Valid() && goal.For(tables) && IdNodes(wisps, ids) <= goal.scope && goal.RightBelow(blocked)
      modifies this`blocked, this`flips
      ensures Valid()
      ensures Tally(old(blocked), old(flips)).Matches(blocked, flips, changed)
      ensures goal.Passed(tables, old(blocked), blocked, IdNodes(wisps, ids), changed)
    {
      hide ShouldBeBlocked, Tally.Matches, Goal.RightBelow, Goal.For, Goal.Passed;
      changed := 0;
      ghost var tally := Tally(blocked, flips);
      tally.Start();
      goal.PassedNone(tables, blocked);
      assert IdNodes(wisps, ids[..0]) == {};
      var start := 0;
      while start < |ids|
        invariant start <= |ids| && Valid()
        invariant tally.Matches(blocked, flips, changed)
        invariant goal.Passed(tables, old(blocked), blocked, IdNodes(wisps, ids[..start]), changed)
        decreases |ids| - start
      {
        var end := start + QUERY_BATCH_SIZE;
        if end > |ids| {
          end := |ids|;
        }
        IdNodesSplit(wisps, ids, start, end);
        changed := MarkUnmarkBatch(IdNodes(wisps, ids[start..end]), IdNodes(wisps, ids[..start]), changed, goal, tally);
        start := end;
      }
      assert ids[..start] == ids;
    }

    /** The body of the batch loop. */
    method MarkUnmarkBatch(batch: set<Node>, ghost done: set<Node>, changed: nat, ghost goal: Goal, ghost tally: Tally)
      returns (changed': nat)
      requires Valid() && goal.For(tables) && done + batch <= goal.scope
      requires tally.Matches(blocked, flips, changed) && goal.Passed(tables, tally.before, blocked, done, changed)
      modifies this`blocked, this`flips
      ensures Valid()
      ensures tally.Matches(blocked, flips, changed') && goal.Passed(tables, tally.before, blocked, done + batch, changed')
    {
      hide ShouldBeBlocked, Update.Did, Goal.For, Goal.RightBelow, Goal.Passed, Tally.Matches;
      goal.PassedRight(tables, tally.before, blocked, done, changed);
      ghost var start, startFlips := blocked, flips;
      var n := ExecUpdate(true, batch, goal);
      ghost var marked, markedFlips := blocked, flips;
      goal.DidRight(tables, true, start, batch, marked, n);
      tally.Compose(start, startFlips, changed, marked, markedFlips, n);
      var m := ExecUpdate(false, batch, goal);
      tally.Compose(marked, markedFlips, changed + n, blocked, flips, m);
      goal.PassedBatch(tables, tally.before, start, marked, blocked, done, batch, changed, n, m);
      changed' := changed + n + m;
    }

    /** One turn of the fixpoint loop: the pass over the issues, then the pass over the wisps. */
    method Round(issueIDs: seq<ID>, wispIDs: seq<ID>, ghost goal: Goal, ghost H: nat, ghost tally: Tally, ghost total: nat)
      returns (changed: nat)
      requires Valid() && goal.For(tables) && goal.RightBelow(blocked) && tally.Matches(blocked, flips, total)
      requires goal.scope == IdNodes(false, issueIDs) + IdNodes(true, wispIDs) && goal.BoundedBy(H)
      modifies this`blocked, this`flips
      ensures Valid() && tally.Matches(blocked, flips, total + changed)
      ensures goal.(k := goal.k + 1).RightBelow(blocked) && goal.(k := goal.k + 1).BoundedBy(H)
      ensures changed == 0 ==> blocked == goal.want
      ensures old(blocked) == goal.want || goal.k > H ==> changed == 0
    {
      hide ShouldBeBlocked, Tally.Matches, Goal.RightBelow, Goal.Passed, Goal.For, Goal.BoundedBy, IdNodes, AgreeOutside;
      ghost var start, startFlips := blocked, flips;
      var n := RunMarkUnmarkBatched(false, issueIDs, goal);
      ghost var mid, midFlips := blocked, flips;
      goal.PassedRight(tables, start, mid, IdNodes(false, issueIDs), n);
      var m := RunMarkUnmarkBatched(true, wispIDs, goal);
      tally.Compose(start, startFlips, total, mid, midFlips, n);
      tally.Compose(mid, midFlips, total + n, blocked, flips, m);
      goal.FullPass(tables, start, mid, blocked, IdNodes(false, issueIDs), IdNodes(true, wispIDs), n, m, H);
      changed := n + m;
    }

    /**
    recomputeIsBlockedInTx and recomputeIsBlockedCounting: repeat the two
    passes until one changes nothing.  With parent chains of at most `H` links
    above the scoped rows, that takes at most `H` + 2 rounds.
    */
    method Recompute(issueIDs: seq<ID>, wispIDs: seq<ID>, ghost acyclic: map<Node, nat>)
      returns (total: nat, ghost passes: nat)
      requires Valid() && Ranks(tables, acyclic)
      modifies this`blocked, this`flips
      ensures Valid()
      ensures blocked == SettledColumn(tables, acyclic, IdNodes(false, issueIDs) + IdNodes(true, wispIDs), old(blocked))
      ensures forall H: nat | IsChainHeight(tables, IdNodes(false, issueIDs) + IdNodes(true, wispIDs), H) :: passes <= H + 2
      ensures Tally(old(blocked), old(flips)).Matches(blocked, flips, total)
      ensures total == 0 <==> blocked == old(blocked)
    {
      hide ShouldBeBlocked, SettledColumn, Tally.Matches, Goal.RightBelow, Goal.BoundedBy, AgreeOutside, Fixpoint, Ranks, IdNodes,
           IsChainHeight, Heights;
      ghost var scope := IdNodes(false, issueIDs) + IdNodes(true, wispIDs);
      ghost var rank, H := RankByHeight(tables, acyclic, scope, blocked);
      ghost var want := SettledColumn(tables, rank, scope, blocked);
      SettledIsFixpoint(tables, rank, scope, blocked);
      total, passes := 0, 0;
      ghost var tally := Tally(blocked, flips);
      tally.Start();
      Goal(rank, scope, want, 0).Begin(tables, blocked, H);
      if |issueIDs| == 0 && |wispIDs| == 0 {
        Goal(rank, scope, want, 0).Empty(issueIDs, wispIDs, blocked);
        return;
      }
      while true
        invariant Valid() && blocked.Keys == want.Keys
        invariant passes <= H + 1
        invariant Goal(rank, scope, want, passes).RightBelow(blocked) && Goal(rank, scope, want, passes).BoundedBy(H)
        invariant tally.Matches(blocked, flips, total)
        invariant old(blocked) == want ==> total == 0 && blocked == want
        decreases H + 1 - passes
      {
        ghost var goal := Goal(rank, scope, want, passes);
        var changed := Round(issueIDs, wispIDs, goal, H, tally, total);
        total := total + changed;
        passes := passes + 1;
        if changed == 0 {
          if total == 0 {
            tally.Zero(blocked, flips);
          }
          return;
        }
      }
    }

    /** One mark UPDATE of the mark-only path; as in ExecUpdate its rows are evaluated in arbitrary groups. */
    method ExecMark(batch: set<Node>) returns (n: nat)
      requires Valid()
      modifies this`blocked
      ensures Valid() && Raised(tables, old(blocked), blocked, batch)
      ensures n == |Differ(old(blocked), blocked)|
      ensures n == 0 ==> blocked == old(blocked) && Unmarked(tables, blocked, batch) == {}
    {
      hide ShouldBeBlocked, Raised, Write, Hits, Unmarked;
      ghost var before := blocked;
      var todo := batch;
      n := 0;
      RaisedNone(tables, blocked, batch);
      UnmarkedInside(tables, blocked, batch);
      while todo != {}
        invariant Valid() && todo <= batch
        invariant Raised(tables, before, blocked, batch)
        invariant n == |Differ(before, blocked)|
        invariant n == 0 ==> blocked == before && Unmarked(tables, before, batch) <= todo
        decreases todo
      {
        var r :| r in todo;
        var group :| r in group && group <= todo;
        var hits := Hits(tables, blocked, true, group);
        RaisedMore(tables, before, blocked, batch, group);
        blocked := Write(blocked, hits, true);
        n := n + |hits|;
        todo := todo - group;
      }
    }

    /** runMarkBatchedInTx */
    method RunMarkBatched(wisps: bool, ids: seq<ID>) returns (changed: nat)
      requires Valid()
      modifies this`blocked
      ensures Valid() && Raised(tables, old(blocked), blocked, IdNodes(wisps, ids))
      ensures |Differ(old(blocked), blocked)| == changed
      ensures changed == 0 ==> blocked == old(blocked) && Unmarked(tables, blocked, IdNodes(wisps, ids)) == {}
    {
      hide ShouldBeBlocked, Raised, Unmarked;
      ghost var before := blocked;
      changed := 0;
      RaisedNone(tables, blocked, IdNodes(wisps, ids));
      assert IdNodes(wisps, ids[..0]) == {};
      UnmarkedNone(tables, blocked);
      var start := 0;
      while start < |ids|
        invariant start <= |ids| && Valid()
        invariant Raised(tables, before, blocked, IdNodes(wisps, ids))
        invariant |Differ(before, blocked)| == changed
        invariant changed == 0 ==> blocked == before && Unmarked(tables, before, IdNodes(wisps, ids[..start])) == {}
        decreases |ids| - start
      {
        var end := start + QUERY_BATCH_SIZE;
        if end > |ids| {
          end := |ids|;
        }
        IdNodesSplit(wisps, ids, start, end);
        ghost var mid := blocked;
        var n := ExecMark(IdNodes(wisps, ids[start..end]));
        RaisedTrans(tables, before, mid, blocked, IdNodes(wisps, ids), IdNodes(wisps, ids[start..end]));
        UnmarkedUnion(tables, blocked, IdNodes(wisps, ids[..start]), IdNodes(wisps, ids[start..end]));
        changed := changed + n;
        start := end;
      }
      assert ids[..start] == ids;
    }

    /** markIsBlockedInTx: repeat the mark passes until one changes nothing. */
    method MarkRows(issueIDs: seq<ID>, wispIDs: seq<ID>)
      requires Valid()
      modifies this`blocked
      ensures Valid() && Raised(tables, old(blocked), blocked, IdNodes(false, issueIDs) + IdNodes(true, wispIDs))
      ensures Unmarked(tables, blocked, IdNodes(false, issueIDs) + IdNodes(true, wispIDs)) == {}
    {
      hide ShouldBeBlocked, Raised, Unmarked, IdNodes;
      ghost var before := blocked;
      ghost var rows := IdNodes(false, issueIDs) + IdNodes(true, wispIDs);
      RaisedNone(tables, blocked, rows);
      if |issueIDs| == 0 && |wispIDs| == 0 {
        NoIdNodes();
        UnmarkedNone(tables, blocked);
        return;
      }
      while true
        invariant Valid() && Raised(tables, before, blocked, rows)
        decreases |ZeroRows(blocked)|
      {
        ghost var start := blocked;
        var n := RunMarkBatched(false, issueIDs);
        ghost var mid := blocked;
        var m := RunMarkBatched(true, wispIDs);
        RaisedTrans(tables, before, start, mid, rows, IdNodes(false, issueIDs));
        RaisedTrans(tables, before, mid, blocked, rows, IdNodes(true, wispIDs));
        RaisedShrinks(tables, start, mid, IdNodes(false, issueIDs));
        RaisedShrinks(tables, mid, blocked, IdNodes(true, wispIDs));
        if n + m == 0 {
          UnmarkedUnion(tables, blocked, IdNodes(false, issueIDs), IdNodes(true, wispIDs));
          return;
        }
      }
    }

    /** The ids of one table, in whatever order the database lists them. */
    method AllIDs(wisps: bool) returns (ids: seq<ID>)
      requires Valid()
      ensures IdNodes(wisps, ids) == set r | r in blocked && r.Wisp? == wisps
    {
      var todo := set r | r in blocked && r.Wisp? == wisps;
      ghost var all := todo;
      ids := [];
      while todo != {}
        invariant todo <= all && IdNodes(wisps, ids) == all - todo
        decreases todo
      {
        var r :| r in todo;
        IdNodesAppend(wisps, ids, r.id);
        ids := ids + [r.id];
        todo := todo - {r};
      }
    }

    /** RecomputeAllIsBlockedInTx: the full repair; returns the number of flags it wrote. */
    method RecomputeAll(ghost rank: map<Node, nat>) returns (total: nat, ghost passes: nat)
      requires Valid() && Ranks(tables, rank)
      modifies this`blocked, this`flips
      ensures Valid()
      ensures blocked == Truth(tables, rank) && Consistent(tables, blocked)
      ensures forall H: nat | IsChainHeight(tables, tables.status.Keys, H) :: passes <= H + 2
      ensures total == 0 <==> Consistent(tables, old(blocked))
      ensures Tally(old(blocked), old(flips)).Matches(blocked, flips, total)
    {
      hide ShouldBeBlocked, Truth, SettledColumn, Ranks, IdNodes, Consistent, Tally.Matches, IsChainHeight;
      TruthIsTheConsistentColumn(tables, rank, blocked);
      var issueIDs := AllIDs(false);
      var wispIDs := AllIDs(true);
      assert IdNodes(false, issueIDs) + IdNodes(true, wispIDs) == tables.status.Keys;
      total, passes := Recompute(issueIDs, wispIDs, rank);
      TruthIsTheConsistentColumn(tables, rank, blocked);
    }

    /** CountIsBlockedInconsistenciesInTx: zero exactly when there is nothing to repair. */
    method CountInconsistencies() returns (n: nat)
      requires Valid()
      ensures n == 0 <==> Consistent(tables, blocked)
      ensures n == |Stale(tables, blocked)|
    {
      hide ShouldBeBlocked;
      var issues := set r | r in blocked && r.Issue? && IsStale(tables, blocked, r);
      var wisps := set r | r in blocked && r.Wisp? && IsStale(tables, blocked, r);
      n := |issues| + |wisps|;
      assert Stale(tables, blocked) == issues + wisps;
      if n == 0 {
        forall r | r in blocked ensures !IsStale(tables, blocked, r) {
          assert r !in Stale(tables, blocked);
        }
      }
      if Consistent(tables, blocked) {
        assert issues == {} && wisps == {};
      }
    }
  }

  /** The ranking by height, with the longest chain above the scoped rows; where rows settle does not depend on the ranking. */
  lemma RankByHeight(g: Tables, rank: map<Node, nat>, scope: set<Node>, col: Column) returns (heights: map<Node, nat>, H: nat)
    requires Ranks(g, rank) && ColumnOf(g, col)
    ensures Ranks(g, heights) && IsChainHeight(g, scope, H)
    ensures forall r | r in col && r in scope && r in heights :: heights[r] <= H
    ensures SettledColumn(g, heights, scope, col) == SettledColumn(g, rank, scope, col)
    ensures forall K: nat | IsChainHeight(g, scope, K) :: K == H
  {
    hide SettledColumn, ShouldBeBlocked;
    HeightsRank(g, rank);
    heights := Heights(g, rank);
    H := ChainHeightOf(g, rank, scope);
    SettledIsFixpoint(g, rank, scope, col);
    SettledIsFixpoint(g, heights, scope, col);
    FixpointUnique(g, rank, scope, SettledColumn(g, heights, scope, col), SettledColumn(g, rank, scope, col));
    forall K: nat | IsChainHeight(g, scope, K) ensures K == H {
      ChainHeightUnique(g, scope, H, K);
    }
  }

  // ----- marking alone -----

  /** From `a` to `b` rows of `rows` have been marked, each for a reason that still holds. */
  ghost predicate Raised(g: Tables, a: Column, b: Column, rows: set<Node>) {
    && AgreeOutside(b, a, rows)
    && forall r | r in a && a[r] != b[r] :: b[r] && ShouldBeBlocked(g, b, r)
  }

  /** The rows that a mark update would still write. */
  ghost function Unmarked(g: Tables, col: Column, rows: set<Node>): set<Node> {
    set r | r in rows && Eligible(g, col, true, r)
  }

  ghost function ZeroRows(col: Column): set<Node> {
    set r | r in col && !col[r]
  }

  lemma RaisedNone(g: Tables, col: Column, rows: set<Node>)
    ensures Raised(g, col, col, rows) && |Differ(col, col)| == 0
  {
    DifferEmpty(col, col);
  }

  lemma NoIdNodes()
    ensures IdNodes(false, []) + IdNodes(true, []) == {}
  {
  }

  lemma UnmarkedNone(g: Tables, col: Column)
    ensures Unmarked(g, col, {}) == {}
  {
  }

  lemma UnmarkedInside(g: Tables, col: Column, rows: set<Node>)
    ensures Unmarked(g, col, rows) <= rows
  {
  }

  lemma UnmarkedUnion(g: Tables, col: Column, x: set<Node>, y: set<Node>)
    ensures Unmarked(g, col, x + y) == Unmarked(g, col, x) + Unmarked(g, col, y)
  {
    hide ShouldBeBlocked;
  }

  /** Marking more rows takes no reason away. */
  lemma ReasonsStay(g: Tables, a: Column, b: Column, r: Node)
    requires a.Keys == b.Keys && (forall q | q in a && a[q] :: b[q]) && ShouldBeBlocked(g, a, r)
    ensures ShouldBeBlocked(g, b, r)
  {
    hide DirectlyBlocked;
  }

  lemma RaisedTrans(g: Tables, a: Column, b: Column, c: Column, rows: set<Node>, part: set<Node>)
    requires Raised(g, a, b, rows) && Raised(g, b, c, part) && part <= rows
    ensures Raised(g, a, c, rows)
    ensures |Differ(a, c)| == |Differ(a, b)| + |Differ(b, c)|
  {
    hide ShouldBeBlocked;
    forall r | r in a && a[r] != b[r] ensures c[r] && ShouldBeBlocked(g, c, r) {
      ReasonsStay(g, b, c, r);
    }
    assert Differ(a, c) == Differ(a, b) + Differ(b, c);
  }

  lemma RaisedShrinks(g: Tables, a: Column, b: Column, rows: set<Node>)
    requires Raised(g, a, b, rows)
    ensures |ZeroRows(a)| == |ZeroRows(b)| + |Differ(a, b)|
  {
    hide ShouldBeBlocked;
    assert ZeroRows(a) == ZeroRows(b) + Differ(a, b);
  }

  /** One group of a mark update. */
  lemma RaisedMore(g: Tables, before: Column, mid: Column, batch: set<Node>, group: set<Node>)
    requires Raised(g, before, mid, batch) && group <= batch
    ensures var hits := Hits(g, mid, true, group);
            var after := Write(mid, hits, true);
            && Raised(g, before, after, batch)
            && |Differ(before, after)| == |Differ(before, mid)| + |hits|
            && (hits == {} ==> after == mid && Unmarked(g, mid, batch) !! group)
  {
    hide ShouldBeBlocked;
    var hits := Hits(g, mid, true, group);
    var after := Write(mid, hits, true);
    forall r | r in hits ensures ShouldBeBlocked(g, after, r) {
      ReasonsStay(g, mid, after, r);
    }
    assert Raised(g, mid, after, group);
    RaisedTrans(g, before, mid, after, batch, group);
    assert Differ(mid, after) == hits;
  }

  lemma IdNodesAppend(wisps: bool, ids: seq<ID>, id: ID)
    ensures IdNodes(wisps, ids + [id]) == IdNodes(wisps, ids) + {if wisps then Wisp(id) else Issue(id)}
  {
    assert forall x :: x in ids + [id] <==> x in ids || x == id;
  }

  lemma IdNodesSplit(wisps: bool, ids: seq<ID>, start: nat, end: nat)
    requires start <= end <= |ids|
    ensures IdNodes(wisps, ids[..end]) == IdNodes(wisps, ids[..start]) + IdNodes(wisps, ids[start..end])
    ensures IdNodes(wisps, ids[..end]) <= IdNodes(wisps, ids)
  {
    assert ids[..end] == ids[..start] + ids[start..end];
  }
}
