/**
The cascade over `wisp_dependencies`: everything that depends, directly or not,
on a list of ids, found with a batched worklist that gives up above a cap.
*/
module WispDependents {
  import opened Paths
  import opened Sets

  type ID = string

  const MAX_RESULTS: nat := 10000
  const BATCH_SIZE: nat := 50

  /** Rows are (issue, target) pairs; the walk goes from a target to the issues that depend on it. */
  function DependentEdges(rows: set<(ID, ID)>): Edges<ID> {
    set r | r in rows :: (r.1, r.0)
  }

  function Elements(ids: seq<ID>): set<ID> {
    set id | id in ids
  }

  /** The seeds and all their transitive dependents. */
  ghost function Cascade(rows: set<(ID, ID)>, ids: seq<ID>): set<ID> {
    set x | x in Elements(ids) + Ends(DependentEdges(rows)) && exists s | s in ids :: Reaches(DependentEdges(rows), s, x)
  }

  /** An id is in the cascade exactly when a chain of rows, each onto the one before, leads to it from a seed. */
  lemma CascadeIff(rows: set<(ID, ID)>, ids: seq<ID>, x: ID)
    ensures x in Cascade(rows, ids) <==>
              exists p: seq<ID> ::
                |p| > 0 && p[0] in ids && p[|p| - 1] == x && forall i | 0 <= i < |p| - 1 :: (p[i + 1], p[i]) in rows
  {
    var e := DependentEdges(rows);
    if x in Cascade(rows, ids) {
      var s :| s in ids && Reaches(e, s, x);
      var p :| PathBetween(e, s, x, p);
      assert forall i | 0 <= i < |p| - 1 :: (p[i], p[i + 1]) in e;
    }
    if p: seq<ID> :| |p| > 0 && p[0] in ids && p[|p| - 1] == x && forall i | 0 <= i < |p| - 1 :: (p[i + 1], p[i]) in rows {
      forall i | 0 <= i < |p| - 1 ensures (p[i], p[i + 1]) in e {
        assert (p[i + 1], p[i]) in rows;
      }
      assert PathBetween(e, p[0], x, p) && Reaches(e, p[0], x) && p[0] in Elements(ids);
      if |p| > 1 {
        assert (p[|p| - 2], p[|p| - 1]) in e && (p[|p| - 2], p[|p| - 1]).1 in Ends(e);
      }
    }
  }

  datatype Traversal = Found(discovered: set<ID>) | Aborted(discovered: set<ID>)

  /** The state of the walk: `seen` holds the seeds and what was discovered; `toProcess` is still to be expanded. */
  datatype Walk = Walk(seen: set<ID>, discovered: set<ID>, toProcess: seq<ID>) {
    ghost predicate Valid(rows: set<(ID, ID)>, ids: seq<ID>) {
      && seen == Elements(ids) + discovered && discovered !! Elements(ids) && seen <= Cascade(rows, ids)
      && forall id | id in toProcess :: id in seen
    }

    /** Seen nodes that no longer wait, and are not in `batch`, have had all their dependents seen. */
    ghost predicate Expanded(rows: set<(ID, ID)>, batch: set<ID>) {
      forall r | r in rows && r.1 in seen && r.1 !in toProcess && r.1 !in batch :: r.0 in seen
    }
  }

  lemma SeedsInCascade(rows: set<(ID, ID)>, ids: seq<ID>)
    ensures Elements(ids) <= Cascade(rows, ids)
  {
    forall s | s in ids ensures s in Cascade(rows, ids) {
      ReachesSelf(DependentEdges(rows), s);
    }
  }

  lemma CascadeStep(rows: set<(ID, ID)>, ids: seq<ID>, r: (ID, ID))
    requires r in rows && r.1 in Cascade(rows, ids)
    ensures r.0 in Cascade(rows, ids)
  {
    var e := DependentEdges(rows);
    assert (r.1, r.0) in e && (r.1, r.0).1 in Ends(e);
    var s :| s in ids && Reaches(e, s, r.1);
    ReachesSelf(e, r.0);
    ReachesEdge(e, r.1, r.0, r.0);
    ReachesThen(e, s, r.1, r.0);
  }

  /** A closed set that holds the seeds holds the whole cascade. */
  lemma CascadeInside(rows: set<(ID, ID)>, ids: seq<ID>, seen: set<ID>)
    requires Elements(ids) <= seen && forall r | r in rows && r.1 in seen :: r.0 in seen
    ensures Cascade(rows, ids) <= seen
  {
    var e := DependentEdges(rows);
    assert ClosedUnder(e, seen);
    forall x | x in Cascade(rows, ids) ensures x in seen {
      var s :| s in ids && Reaches(e, s, x);
      assert s in Elements(ids);
      ClosedReaches(e, seen, s);
    }
  }

  /** One query: the dependents of a batch, in the order the rows come back. */
  method ExpandBatch(rows: set<(ID, ID)>, ghost ids: seq<ID>, w: Walk, batch: seq<ID>) returns (w': Walk)
    requires w.Valid(rows, ids) && w.Expanded(rows, Elements(batch)) && forall id | id in batch :: id in w.seen
    ensures w'.Valid(rows, ids) && w'.Expanded(rows, {}) && w.seen <= w'.seen
    ensures if w'.seen == w.seen then w'.toProcess == w.toProcess else w'.toProcess != []
  {
    w' := w;
    var todo := set r | r in rows && r.1 in batch;
    while todo != {}
      invariant todo <= set r | r in rows && r.1 in batch
      invariant w'.Valid(rows, ids) && w.seen <= w'.seen
      invariant w'.Expanded(rows, Elements(batch))
      invariant forall r | r in rows && r.1 in batch && r !in todo :: r.0 in w'.seen
      invariant if w'.seen == w.seen then w'.toProcess == w.toProcess else w'.toProcess != []
      decreases todo
    {
      var r :| r in todo;
      if r.0 !in w'.seen {
        CascadeStep(rows, ids, r);
        w' := Walk(w'.seen + {r.0}, w'.discovered + {r.0}, w'.toProcess + [r.0]);
      }
      todo := todo - {r};
    }
  }

  /** FindWispDependentsRecursiveInTx */
  method FindWispDependentsRecursive(rows: set<(ID, ID)>, ids: seq<ID>) returns (result: Traversal)
    ensures result.Found? <==> |Cascade(rows, ids)| <= 10000
    ensures result.Found? ==> result.discovered == Cascade(rows, ids) - Elements(ids)
    ensures result.Aborted? ==> result.discovered <= Cascade(rows, ids) - Elements(ids)
  {
    hide Cascade;
    SeedsInCascade(rows, ids);
    if |ids| == 0 {
      CascadeInside(rows, ids, {});
      return Found({});
    }
    var w := Walk(Elements(ids), {}, ids);
    while |w.toProcess| > 0
      invariant w.Valid(rows, ids) && w.Expanded(rows, {})
      invariant w.toProcess == [] ==> |w.seen| <= MAX_RESULTS
      decreases Cascade(rows, ids) - w.seen, |w.toProcess|
    {
      if |w.seen| > MAX_RESULTS {
        SubsetSize(w.seen, Cascade(rows, ids));
        return Aborted(w.discovered);
      }
      var end := BATCH_SIZE;
      if end > |w.toProcess| {
        end := |w.toProcess|;
      }
      var batch := w.toProcess[..end];
      assert w.toProcess == batch + w.toProcess[end..];
      w := ExpandBatch(rows, ids, w.(toProcess := w.toProcess[end..]), batch);
    }
    CascadeInside(rows, ids, w.seen);
    assert w.seen == Cascade(rows, ids);
    return Found(w.discovered);
  }
}
