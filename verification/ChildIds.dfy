/**
Child numbers: a counter per parent, kept in the table of the parent's kind,
combined with a scan of the children that already exist in that table.
*/
module ChildIds {
  import opened Wrappers
  import opened HierarchyIds

  datatype Issue = Issue(id: ID, wisp: bool)

  type Counters = map<ID, int64>

  /** One parent's rows in the two counter tables. */
  datatype Entry = Entry(plain: Option<int64>, wisp: Option<int64>) {
    function Of(isWisp: bool): Option<int64> {
      if isWisp then wisp else plain
    }

    function Raised(isWisp: bool, max: int64): Entry {
      if max == 0 || (Of(isWisp).Some? && Of(isWisp).value >= max) then this
      else if isWisp then this.(wisp := Some(max))
      else this.(plain := Some(max))
    }
  }

  function Value(c: Counters, p: ID): Option<int64> {
    if p in c then Some(c[p]) else None
  }

  datatype Tables = Tables(issues: set<ID>, wisps: set<ID>, childCounters: Counters, wispChildCounters: Counters) {
    function Siblings(parentID: ID): set<ID> {
      if parentID in wisps then wisps else issues
    }

    /** The table that the parent is not in. */
    function Others(parentID: ID): set<ID> {
      if parentID in wisps then issues else wisps
    }

    function EntryOf(parentID: ID): Entry {
      Entry(Value(childCounters, parentID), Value(wispChildCounters, parentID))
    }

    function Counter(parentID: ID): int64 {
      var c := EntryOf(parentID).Of(parentID in wisps);
      if c.Some? then c.value else 0
    }

    function WithCounter(isWisp: bool, parentID: ID, n: int64): Tables {
      if isWisp then this.(wispChildCounters := wispChildCounters[parentID := n])
      else this.(childCounters := childCounters[parentID := n])
    }
  }

  /** issueops.ParseHierarchicalID: what precedes the last dot, and the number scanned after it. */
  function ParseChild(id: ID): (r: Option<(ID, int64)>)
    ensures forall head, tail | SplitAtLastDot(id, head, tail) ::
              r == if ScanInt(tail).Some? then Some((head, ScanInt(tail).value)) else None
    ensures '.' !in id ==> r.None?
  {
    var k := LastDot(id);
    if k == -1 then
      assert forall head, tail | SplitAtLastDot(id, head, tail) :: id[|head|] == '.';
      None
    else
      assert id[k] in id;
      assert SplitAtLastDot(id, id[..k], id[k + 1..]);
      assert forall head, tail | SplitAtLastDot(id, head, tail) :: head == id[..k] && tail == id[k + 1..] by {
        forall head, tail | SplitAtLastDot(id, head, tail) ensures head == id[..k] && tail == id[k + 1..] {
          LastDotIsUnique(id, id[..k], id[k + 1..], head, tail);
        }
      }
      match ScanInt(id[k + 1..])
      case None => None
      case Some(n) => Some((id[..k], n))
  }

  function LastDot(s: string): (k: int)
    ensures -1 <= k < |s| && (k >= 0 ==> s[k] == '.')
    ensures forall j | k < j < |s| :: s[j] != '.'
  {
    if s == "" then -1 else if s[|s| - 1] == '.' then |s| - 1 else LastDot(s[..|s| - 1])
  }

  lemma ParseGenerated(parentID: ID, n: int64)
    ensures ParseChild(GenerateChildID(parentID, n)) == Some((parentID, n))
  {
    DecimalHasNoDot(n);
    ScanDecimal(n);
    assert SplitAtLastDot(GenerateChildID(parentID, n), parentID, Decimal(n));
  }

  /** Addition of one in 64 bits. */
  function Successor(n: int64): int64 {
    if n == MAX_INT64 then MIN_INT64 else n + 1
  }

  /** The number that the scan reads off a row. */
  ghost predicate Scanned(t: Tables, parentID: ID, n: int64) {
    exists id | id in t.Siblings(parentID) && LooksLikeChild(id, parentID) :: ParseChild(id).Some? && ParseChild(id).value.1 == n
  }

  /** The largest of the counter and the scanned numbers. */
  ghost predicate IsLast(t: Tables, parentID: ID, last: int64) {
    && t.Counter(parentID) <= last && (last == t.Counter(parentID) || Scanned(t, parentID, last))
    && forall n: int64 | Scanned(t, parentID, n) :: n <= last
  }

  /** One allocation: the new counter and the new id follow the last number in use. */
  ghost predicate Allocates(t: Tables, parentID: ID, t': Tables, childID: ID) {
    exists last: int64 ::
      && IsLast(t, parentID, last)
      && t' == t.WithCounter(parentID in t.wisps, parentID, Successor(last))
      && childID == GenerateChildID(parentID, Successor(last))
  }

  // ----- reconciling counters with created issues -----

  ghost predicate Parses(issues: seq<Issue>, parentID: ID, n: int64) {
    exists i | i in issues :: ParseChild(i.id) == Some((parentID, n))
  }

  /** The largest positive child number that the issues name for a parent, or 0. */
  ghost predicate IsMaxChild(issues: seq<Issue>, parentID: ID, max: int64) {
    && 0 <= max && (max == 0 || Parses(issues, parentID, max))
    && forall n: int64 | Parses(issues, parentID, n) :: n <= max
  }

  /** Every named parent's counter, in the table of its kind, is raised to its largest named child number. */
  ghost predicate Reconciled(t: Tables, issues: seq<Issue>, t': Tables) {
    && t'.issues == t.issues && t'.wisps == t.wisps
    && forall p, max: int64 | IsMaxChild(issues, p, max)  ::
         t'.EntryOf(p) == t.EntryOf(p).Raised(p in t.wisps, max)
  }

  datatype Bucket = Bucket(maxChild: int64, isWisp: bool, known: bool)

  class Store {
    var tables: Tables

    constructor (t: Tables)
      ensures tables == t
    {
      tables := t;
    }

    /** GetNextChildID */
    method GetNextChildID(parentID: ID) returns (childID: ID)
      modifies this
      ensures Allocates(old(tables), parentID, tables, childID)
    {
      var t := tables;
      var lastChild := t.Counter(parentID);
      var rows := set id | id in t.Siblings(parentID) && LooksLikeChild(id, parentID);
      var todo := rows;
      while todo != {}
        invariant todo <= rows
        invariant t.Counter(parentID) <= lastChild
        invariant lastChild == t.Counter(parentID) || Scanned(t, parentID, lastChild)
        invariant forall id | id in rows - todo && ParseChild(id).Some? :: ParseChild(id).value.1 <= lastChild
        decreases todo
      {
        var id :| id in todo;
        match ParseChild(id) {
          case Some((_, childNum)) =>
            assert Scanned(t, parentID, childNum);
            if childNum > lastChild {
              lastChild := childNum;
            }
          case None =>
        }
        todo := todo - {id};
      }
      assert IsLast(t, parentID, lastChild);
      var nextChild := Successor(lastChild);
      tables := t.WithCounter(parentID in t.wisps, parentID, nextChild);
      childID := GenerateChildID(parentID, nextChild);
    }

    /** ReconcileChildCounters, run after the issues' rows are in place. */
    method ReconcileChildCounters(issues: seq<Issue>)
      requires forall i | i in issues && i.wisp :: i.id in tables.wisps
      modifies this
      ensures Reconciled(old(tables), issues, tables)
    {
      hide BucketsOf, Reconciled, Progress;
      var parents := BucketParents(issues, tables.wisps);
      ghost var t := tables;
      ProgressStart(t, parents);
      var todo := parents.Keys;
      while todo != {}
        invariant todo <= parents.Keys && Progress(t, tables, parents, parents.Keys - todo)
        decreases todo
      {
        var parentID :| parentID in todo;
        var b := parents[parentID];
        ProgressStep(t, tables, parents, parents.Keys - todo, parentID);
        if b.maxChild != 0 {
          var isWisp := if b.known then b.isWisp else parentID in tables.wisps;
          var current := Value(if isWisp then tables.wispChildCounters else tables.childCounters, parentID);
          if !(current.Some? && current.value >= b.maxChild) {
            tables := tables.WithCounter(isWisp, parentID, b.maxChild);
          }
        }
        assert parents.Keys - (todo - {parentID}) == parents.Keys - todo + {parentID};
        todo := todo - {parentID};
      }
      assert parents.Keys - todo == parents.Keys;
      BucketsReconcile(t, issues, parents, tables);
    }

    /** The buckets: parents named by the issues with their largest child number, and the wisps among the issues. */
    method BucketParents(issues: seq<Issue>, ghost wisps: set<ID>) returns (parents: map<ID, Bucket>)
      requires forall i | i in issues && i.wisp :: i.id in wisps
      ensures BucketsOf(issues, wisps, parents)
      ensures forall p | p in parents && parents[p].known :: parents[p].isWisp == (p in wisps)
    {
      parents := map[];
      for k := 0 to |issues|
        invariant forall p | p in parents :: parents[p] == Bucket(0, true, true) && p in wisps
      {
        if issues[k].wisp {
          assert issues[k] in issues;
          if issues[k].id in parents {
            var b := parents[issues[k].id];
            parents := parents[issues[k].id := b.(isWisp := true, known := true)];
          } else {
            parents := parents[issues[k].id := Bucket(0, true, true)];
          }
        }
      }
      for k := 0 to |issues|
        invariant BucketsOf(issues[..k], wisps, parents)
      {
        ghost var was := parents;
        match ParseChild(issues[k].id) {
          case Some((parentID, childNum)) =>
            var b := if parentID in parents then parents[parentID] else Bucket(0, false, false);
            if childNum > b.maxChild {
              b := b.(maxChild := childNum);
            }
            parents := parents[parentID := b];
          case None =>
        }
        BucketsGrow(issues[..k], wisps, was, issues[k], parents);
        assert issues[..k + 1] == issues[..k] + [issues[k]];
      }
      assert issues[..|issues|] == issues;
    }

    /** The single-issue and mixed-batch creation paths: rows first, then counters. */
    method CreateIssues(issues: seq<Issue>)
      modifies this
      ensures Creates(old(tables), issues, tables)
    {
      AddRows(issues);
      ReconcileChildCounters(issues);
    }

    /** The rows alone, which is all that the path for a batch of wisps does. */
    method AddRows(issues: seq<Issue>)
      modifies this
      ensures tables == WithRows(old(tables), issues)
      ensures forall i | i in issues && i.wisp :: i.id in tables.wisps
    {
      tables := WithRows(tables, issues);
    }
  }

  function WithRows(t: Tables, issues: seq<Issue>): Tables {
    t.(issues := t.issues + (set i | i in issues && !i.wisp :: i.id), wisps := t.wisps + set i | i in issues && i.wisp :: i.id)
  }

  ghost predicate Creates(t: Tables, issues: seq<Issue>, t': Tables) {
    Reconciled(WithRows(t, issues), issues, t')
  }

  ghost predicate BucketsOf(issues: seq<Issue>, wisps: set<ID>, parents: map<ID, Bucket>) {
    && (forall p | p in parents ::
          IsMaxChild(issues, p, parents[p].maxChild) && (parents[p].known ==> parents[p].isWisp && p in wisps))
    && forall p, n: int64 | Parses(issues, p, n) :: p in parents
  }

  lemma BucketsGrow(issues: seq<Issue>, wisps: set<ID>, was: map<ID, Bucket>, i: Issue, parents: map<ID, Bucket>)
    requires BucketsOf(issues, wisps, was)
    requires match ParseChild(i.id)
             case None => parents == was
             case Some((p, n)) =>
               var b := if p in was then was[p] else Bucket(0, false, false);
               parents == was[p := if n > b.maxChild then b.(maxChild := n) else b]
    ensures BucketsOf(issues + [i], wisps, parents)
  {
    hide IsMaxChild, Parses, ParseChild;
    ParsesSnoc(issues, i);
    forall p | p in parents ensures IsMaxChild(issues + [i], p, parents[p].maxChild) {
      MaxSnoc(issues, i, p, if p in was then was[p].maxChild else 0);
    }
  }

  lemma ParsesSnoc(issues: seq<Issue>, i: Issue)
    ensures forall p, n: int64 :: Parses(issues + [i], p, n) <==> Parses(issues, p, n) || ParseChild(i.id) == Some((p, n))
  {
    hide ParseChild;
    assert forall j :: j in issues + [i] <==> j in issues || j == i;
  }

  lemma MaxSnoc(issues: seq<Issue>, i: Issue, p: ID, max: int64)
    requires IsMaxChild(issues, p, max) || (max == 0 && forall n: int64 :: !Parses(issues, p, n))
    ensures var r := ParseChild(i.id);
            IsMaxChild(issues + [i], p, if r.Some? && r.value.0 == p && r.value.1 > max then r.value.1 else max)
  {
    hide ParseChild, Parses;
    ParsesSnoc(issues, i);
  }

  /** The parents in `done` have had their counters raised; nothing else has changed. */
  ghost predicate Progress(t: Tables, now: Tables, parents: map<ID, Bucket>, done: set<ID>) {
    && now.issues == t.issues && now.wisps == t.wisps
    && forall p :: now.EntryOf(p) ==
         if p in parents && p in done then t.EntryOf(p).Raised(p in t.wisps, parents[p].maxChild) else t.EntryOf(p)
  }

  lemma ProgressStart(t: Tables, parents: map<ID, Bucket>)
    ensures Progress(t, t, parents, parents.Keys - parents.Keys)
  {
  }

  lemma ProgressStep(t: Tables, now: Tables, parents: map<ID, Bucket>, done: set<ID>, p: ID)
    requires Progress(t, now, parents, done) && p in parents && p !in done
    ensures now.wisps == t.wisps
    ensures var b, isWisp := parents[p], p in t.wisps;
            var current := now.EntryOf(p).Of(isWisp);
            Progress(t, if b.maxChild != 0 && !(current.Some? && current.value >= b.maxChild)
                        then now.WithCounter(isWisp, p, b.maxChild) else now, parents, done + {p})
  {
    forall q, n: int64, w | q != p ensures now.WithCounter(w, p, n).EntryOf(q) == now.EntryOf(q) {
    }
  }

  lemma BucketsReconcile(t: Tables, issues: seq<Issue>, parents: map<ID, Bucket>, t': Tables)
    requires BucketsOf(issues, t.wisps, parents) && Progress(t, t', parents, parents.Keys)
    ensures Reconciled(t, issues, t')
  {
    forall p, max: int64 | IsMaxChild(issues, p, max) 
      ensures t'.EntryOf(p) == t.EntryOf(p).Raised(p in t.wisps, max)
    {
      if p in parents {
        assert IsMaxChild(issues, p, parents[p].maxChild);
        assert max == parents[p].maxChild;
      } else {
        assert max == 0;
      }
    }
  }

  // ----- runs of allocations, creations and deletions -----

  /** A batch of wisps only is created without reconciling; deleting a parent may drop its counters. */
  datatype Event = Allocate(parent: ID) | Create(issues: seq<Issue>) | CreateWisps(wisps: seq<Issue>) | Delete(ids: set<ID>)

  ghost predicate Step(e: Event, t: Tables, t': Tables, childID: ID) {
    match e
    case Allocate(parent) => Allocates(t, parent, t', childID)
    case Create(issues) => Creates(t, issues, t')
    case CreateWisps(wisps) => (forall i | i in wisps :: i.wisp) && t' == WithRows(t, wisps)
    case Delete(ids) =>
      && t'.issues == t.issues - ids && t'.wisps == t.wisps - ids
      && forall p | p !in ids :: t'.EntryOf(p) == t.EntryOf(p)
  }

  /** No 64-bit number follows the last one in use. */
  ghost predicate Full(t: Tables, parentID: ID) {
    IsLast(t, parentID, MAX_INT64)
  }

  /** The parent is neither deleted nor moved to the other table by this step. */
  ghost predicate Stays(e: Event, t: Tables, t': Tables, parentID: ID) {
    (parentID in t.wisps <==> parentID in t'.wisps) && (e.Delete? ==> parentID !in e.ids)
  }

  lemma {:induction false} MaxChildExists(issues: seq<Issue>, parentID: ID) returns (max: int64)
    ensures IsMaxChild(issues, parentID, max)
  {
    if issues == [] {
      max := 0;
    } else {
      var rest, i := issues[..|issues| - 1], issues[|issues| - 1];
      max := MaxChildExists(rest, parentID);
      assert issues == rest + [i];
      MaxSnoc(rest, i, parentID, max);
      var r := ParseChild(i.id);
      if r.Some? && r.value.0 == parentID && r.value.1 > max {
        max := r.value.1;
      }
    }
  }

  /** One allocation: the number of the new id is the new counter, and it exceeds the old one unless 64 bits run out. */
  lemma AllocatedNumber(t: Tables, parentID: ID, t': Tables, childID: ID)
    requires Allocates(t, parentID, t', childID)
    ensures ParseChild(childID) == Some((parentID, t'.Counter(parentID)))
    ensures childID == GenerateChildID(parentID, t'.Counter(parentID))
    ensures !Full(t, parentID) ==> t'.Counter(parentID) > t.Counter(parentID)
    ensures Full(t, parentID) ==> t'.Counter(parentID) == MIN_INT64
    ensures !Full(t, parentID) ==> forall n: int64 | Scanned(t, parentID, n) :: n < t'.Counter(parentID)
  {
    hide ParseChild, Scanned;
    var last: int64 :|
      && IsLast(t, parentID, last) && t' == t.WithCounter(parentID in t.wisps, parentID, Successor(last))
      && childID == GenerateChildID(parentID, Successor(last));
    ParseGenerated(parentID, Successor(last));
    assert IsLast(t, parentID, MAX_INT64) ==> last == MAX_INT64;
    assert t'.Counter(parentID) == Successor(last);
  }

  /** The counter written is the one of the parent's kind, and the other table of counters stays as it is. */
  lemma CountersByKind(t: Tables, parentID: ID, t': Tables, childID: ID)
    requires Allocates(t, parentID, t', childID)
    ensures t'.issues == t.issues && t'.wisps == t.wisps
    ensures parentID in t.wisps ==>
              && t'.childCounters == t.childCounters && parentID in t'.wispChildCounters
              && t'.wispChildCounters == t.wispChildCounters[parentID := t'.wispChildCounters[parentID]]
              && childID == GenerateChildID(parentID, t'.wispChildCounters[parentID])
    ensures parentID !in t.wisps ==>
              && t'.wispChildCounters == t.wispChildCounters && parentID in t'.childCounters
              && t'.childCounters == t.childCounters[parentID := t'.childCounters[parentID]]
              && childID == GenerateChildID(parentID, t'.childCounters[parentID])
    ensures !Full(t, parentID) && parentID in t.wispChildCounters && parentID in t.wisps ==>
              t'.wispChildCounters[parentID] > t.wispChildCounters[parentID]
    ensures !Full(t, parentID) && parentID in t.childCounters && parentID !in t.wisps ==>
              t'.childCounters[parentID] > t.childCounters[parentID]
  {
    hide ParseChild, Scanned;
    AllocatedNumber(t, parentID, t', childID);
  }

  /** An existing canonical child is always scanned. */
  lemma ExistingChildIsScanned(t: Tables, parentID: ID, n: int64)
    requires GenerateChildID(parentID, n) in t.Siblings(parentID)
    ensures Scanned(t, parentID, n)
  {
    CanonicalChildIsScanned(parentID, n);
    ParseGenerated(parentID, n);
  }

  /** The new id is not in the parent's own table, even if the counter lags behind its rows. */
  lemma AllocatedIsFresh(t: Tables, parentID: ID, t': Tables, childID: ID)
    requires Allocates(t, parentID, t', childID) && !Full(t, parentID)
    ensures childID !in t.Siblings(parentID)
  {
    AllocatedNumber(t, parentID, t', childID);
    if childID in t.Siblings(parentID) {
      ExistingChildIsScanned(t, parentID, t'.Counter(parentID));
    }
  }

  /** Nothing but an allocation at the end of the 64-bit range lowers the counter of a parent that stays. */
  lemma CounterOnlyRises(e: Event, t: Tables, t': Tables, childID: ID, parentID: ID)
    requires Step(e, t, t', childID) && Stays(e, t, t', parentID)
    requires e == Allocate(parentID) ==> !Full(t, parentID)
    ensures t'.Counter(parentID) >= t.Counter(parentID)
  {
    hide ParseChild, Scanned, LooksLikeChild, Full;
    match e
    case Allocate(parent) =>
      if parent == parentID {
        AllocatedNumber(t, parentID, t', childID);
      }
    case Create(issues) =>
      var max := MaxChildExists(issues, parentID);
      CreatedEntry(t, issues, t', parentID, max);
    case _ =>
  }

  lemma CreatedEntry(t: Tables, issues: seq<Issue>, t': Tables, p: ID, max: int64)
    requires Creates(t, issues, t') && IsMaxChild(issues, p, max)
    ensures t'.EntryOf(p) == t.EntryOf(p).Raised(p in t'.wisps, max)
  {
    hide IsMaxChild;
    assert WithRows(t, issues).EntryOf(p) == t.EntryOf(p);
  }

  ghost predicate Run(ts: seq<Tables>, es: seq<Event>, replies: seq<ID>) {
    && |ts| == |es| + 1 && |replies| == |es|
    && forall k | 0 <= k < |es| :: Step(es[k], ts[k], ts[k + 1], replies[k])
  }

  /** From `i` up to `j` the parent stays where it is, and its allocations have a next number. */
  ghost predicate Steady(ts: seq<Tables>, es: seq<Event>, parentID: ID, i: nat, j: nat)
    requires j <= |es| && |ts| == |es| + 1
  {
    forall k | i <= k < j ::
      Stays(es[k], ts[k], ts[k + 1], parentID) && (es[k] == Allocate(parentID) ==> !Full(ts[k], parentID))
  }

  lemma {:induction false} CounterRisesOverRun(ts: seq<Tables>, es: seq<Event>, replies: seq<ID>, parentID: ID, i: nat, j: nat)
    requires Run(ts, es, replies) && i <= j <= |es| && Steady(ts, es, parentID, i, j)
    ensures ts[i].Counter(parentID) <= ts[j].Counter(parentID)
    decreases j
  {
    hide Step, Full, Stays;
    if i < j {
      CounterRisesOverRun(ts, es, replies, parentID, i, j - 1);
      assert Step(es[j - 1], ts[j - 1], ts[j], replies[j - 1]);
      CounterOnlyRises(es[j - 1], ts[j - 1], ts[j], replies[j - 1], parentID);
    }
  }

  /** Over any run in which a parent stays in one table, its allocated numbers strictly increase, so no id comes twice. */
  lemma AllocationsIncrease(ts: seq<Tables>, es: seq<Event>, replies: seq<ID>, parentID: ID, i: nat, j: nat)
    requires Run(ts, es, replies) && i < j < |es| && Steady(ts, es, parentID, i, j + 1)
    requires es[i] == Allocate(parentID) && es[j] == Allocate(parentID)
    ensures ParseChild(replies[i]).Some? && ParseChild(replies[j]).Some?
    ensures ParseChild(replies[i]).value.1 < ParseChild(replies[j]).value.1 && replies[i] != replies[j]
    ensures replies[j] !in ts[j].Siblings(parentID)
  {
    hide Full, ParseChild, Allocates;
    assert Step(es[i], ts[i], ts[i + 1], replies[i]);
    assert Step(es[j], ts[j], ts[j + 1], replies[j]);
    AllocatedNumber(ts[i], parentID, ts[i + 1], replies[i]);
    AllocatedNumber(ts[j], parentID, ts[j + 1], replies[j]);
    CounterRisesOverRun(ts, es, replies, parentID, i + 1, j);
    AllocatedIsFresh(ts[j], parentID, ts[j + 1], replies[j]);
  }

  // ----- both tables -----

  lemma BothTables(t: Tables, parentID: ID)
    ensures t.issues + t.wisps == t.Siblings(parentID) + t.Others(parentID)
  {
  }

  lemma LastIsUnique(t: Tables, parentID: ID, last: int64, other: int64)
    requires IsLast(t, parentID, last) && IsLast(t, parentID, other)
    ensures last == other
  {
    hide Scanned;
  }

  /** One allocation steps the last number in use on by one. */
  lemma AllocatesNext(t: Tables, parentID: ID, t': Tables, childID: ID, last: int64)
    requires Allocates(t, parentID, t', childID) && IsLast(t, parentID, last) && last < MAX_INT64
    ensures childID == GenerateChildID(parentID, last + 1) && IsLast(t', parentID, last + 1)
    ensures t'.issues == t.issues && t'.wisps == t.wisps
  {
    hide ParseChild;
    var used: int64 :|
      && IsLast(t, parentID, used) && t' == t.WithCounter(parentID in t.wisps, parentID, Successor(used))
      && childID == GenerateChildID(parentID, Successor(used));
    LastIsUnique(t, parentID, last, used);
    assert t'.Counter(parentID) == last + 1;
    assert forall n: int64 :: Scanned(t', parentID, n) <==> Scanned(t, parentID, n);
  }

  /** `k` allocations in a row. */
  ghost predicate AllocatesAll(ts: seq<Tables>, parentID: ID, ids: seq<ID>) {
    |ts| == |ids| + 1 && forall i | 0 <= i < |ids| :: Allocates(ts[i], parentID, ts[i + 1], ids[i])
  }

  lemma {:induction false} AllocatesConsecutive(ts: seq<Tables>, parentID: ID, ids: seq<ID>, last: int64, i: nat)
    requires AllocatesAll(ts, parentID, ids) && IsLast(ts[0], parentID, last) && last + |ids| <= MAX_INT64
    requires i <= |ids|
    ensures IsLast(ts[i], parentID, last + i) && ts[i].issues == ts[0].issues && ts[i].wisps == ts[0].wisps
    ensures i > 0 ==> ids[i - 1] == GenerateChildID(parentID, last + i)
  {
    hide IsLast, Allocates;
    if i > 0 {
      AllocatesConsecutive(ts, parentID, ids, last, i - 1);
      AllocatesNext(ts[i - 1], parentID, ts[i], ids[i - 1], last + (i - 1));
    }
  }

  /** An id above the last number in use is not in the parent's own table. */
  lemma AboveLastIsFree(t: Tables, parentID: ID, last: int64, n: int64)
    requires IsLast(t, parentID, last) && last < n
    ensures GenerateChildID(parentID, n) !in t.Siblings(parentID)
  {
    hide Scanned;
    if GenerateChildID(parentID, n) in t.Siblings(parentID) {
      ExistingChildIsScanned(t, parentID, n);
    }
  }

  /**
  The ids that k allocations in a row return exist in neither table exactly
  when the table that the parent is not in holds none of the next k children.
  */
  lemma FreshInBothTablesIff(ts: seq<Tables>, parentID: ID, ids: seq<ID>, last: int64)
    requires AllocatesAll(ts, parentID, ids) && IsLast(ts[0], parentID, last) && last + |ids| <= MAX_INT64
    ensures (forall i | 0 <= i < |ids| :: ids[i] !in ts[i].issues + ts[i].wisps)
            <==> forall n: int64 | last < n <= last + |ids| :: GenerateChildID(parentID, n) !in ts[0].Others(parentID)
  {
    hide IsLast, Allocates, AllocatesAll;
    assert |ts| == |ids| + 1 by {
      LengthsAgree(ts, parentID, ids);
    }
    forall i | 0 <= i < |ids|
      ensures ids[i] == GenerateChildID(parentID, last + (i + 1))
      ensures ids[i] in ts[i].issues + ts[i].wisps <==> ids[i] in ts[0].Others(parentID)
    {
      AllocatesConsecutive(ts, parentID, ids, last, i);
      AllocatesConsecutive(ts, parentID, ids, last, i + 1);
      AboveLastIsFree(ts[0], parentID, last, last + (i + 1));
      BothTables(ts[0], parentID);
    }
    if forall i | 0 <= i < |ids| :: ids[i] !in ts[i].issues + ts[i].wisps {
      forall n: int64 | last < n <= last + |ids| ensures GenerateChildID(parentID, n) !in ts[0].Others(parentID) {
        assert ids[n - last - 1] == GenerateChildID(parentID, n);
      }
    }
  }

  lemma LengthsAgree(ts: seq<Tables>, parentID: ID, ids: seq<ID>)
    requires AllocatesAll(ts, parentID, ids)
    ensures |ts| == |ids| + 1
  {
  }

  /** Every canonical child in either table is covered by the counter. */
  ghost predicate Counted(t: Tables, parentID: ID) {
    && t.Counter(parentID) >= 0
    && forall n: int64 | n >= 1 && GenerateChildID(parentID, n) in t.issues + t.wisps :: n <= t.Counter(parentID)
  }

  lemma CountedIsFreshEverywhere(t: Tables, parentID: ID, t': Tables, childID: ID)
    requires Counted(t, parentID) && Allocates(t, parentID, t', childID) && !Full(t, parentID)
    ensures childID !in t.issues + t.wisps && Counted(t', parentID)
  {
    hide Full, ParseChild;
    AllocatedNumber(t, parentID, t', childID);
  }

  /** Creation that reconciles, and deletion, keep a parent counted while it stays. */
  lemma StepKeepsCounted(e: Event, t: Tables, t': Tables, childID: ID, parentID: ID)
    requires Counted(t, parentID) && Step(e, t, t', childID) && Stays(e, t, t', parentID) && !e.CreateWisps?
    requires e == Allocate(parentID) ==> !Full(t, parentID)
    ensures Counted(t', parentID)
  {
    hide Full, ParseChild, IsMaxChild, Parses;
    CounterOnlyRises(e, t, t', childID, parentID);
    if e.Create? {
      var max := MaxChildExists(e.issues, parentID);
      CreatedEntry(t, e.issues, t', parentID, max);
      forall n: int64 | n >= 1 && GenerateChildID(parentID, n) in t'.issues + t'.wisps
        ensures n <= t'.Counter(parentID)
      {
        if GenerateChildID(parentID, n) !in t.issues + t.wisps {
          CreatedIsNamed(e.issues, parentID, n, max);
        }
      }
    }
  }

  lemma CreatedIsNamed(issues: seq<Issue>, parentID: ID, n: int64, max: int64)
    requires (exists i | i in issues :: i.id == GenerateChildID(parentID, n)) && IsMaxChild(issues, parentID, max)
    ensures n <= max
  {
    ParseGenerated(parentID, n);
    assert Parses(issues, parentID, n);
  }

  /** The batch of wisps is not reconciled: the parent stays counted exactly when no new child outruns the counter. */
  lemma WispBatchKeepsCounted(wisps: seq<Issue>, t: Tables, t': Tables, parentID: ID)
    requires Counted(t, parentID) && Step(CreateWisps(wisps), t, t', "") && Stays(CreateWisps(wisps), t, t', parentID)
    ensures Counted(t', parentID) <==>
              forall n: int64, i | i in wisps && n >= 1 && i.id == GenerateChildID(parentID, n) :: n <= t.Counter(parentID)
  {
    forall n: int64, i | Counted(t', parentID) && i in wisps && n >= 1 && i.id == GenerateChildID(parentID, n)
      ensures n <= t.Counter(parentID)
    {
      assert i.id in t'.wisps;
    }
  }

  lemma NotItsOwnChild(parentID: ID)
    ensures !LooksLikeChild(parentID, parentID)
  {
    DotsAdd(parentID, ".%");
    DotsAdd(".", "%");
    assert Dots(".") == 1 && "." + "%" == ".%";
    if Like(parentID, parentID + ".%") {
      LikeNeedsDots(parentID, parentID + ".%");
    }
  }

  /** So a batch can put the next child of an issue among the wisps, and the allocator then returns that id. */
  lemma WispBatchCollides(t: Tables, t': Tables, t'': Tables, parentID: ID, childID: ID)
    requires t.issues == {parentID} && t.wisps == {} && t.childCounters == map[]
    requires Step(CreateWisps([Issue(GenerateChildID(parentID, 1), true)]), t, t', "")
    requires Allocates(t', parentID, t'', childID)
    ensures childID == GenerateChildID(parentID, 1) && childID in t'.wisps
  {
    var child := Issue(GenerateChildID(parentID, 1), true);
    assert child in [child] && child.id in t'.wisps;
    assert |child.id| > |parentID|;
    assert t'.Siblings(parentID) == {parentID};
    NotItsOwnChild(parentID);
    assert forall n: int64 :: !Scanned(t', parentID, n);
    assert t'.Counter(parentID) == 0;
  }
}
