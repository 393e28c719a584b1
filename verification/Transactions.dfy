/**
A transaction body that is re-run when the database is busy, and the hooks that
fire after it: the store's bounded retry, one attempt on a connection, and the
decorator that records hooks in the body and fires them when the call succeeds.
*/
module Transactions {
  import opened Wrappers
  import opened HookEvents

  const MAX_ATTEMPTS := 5

  /** Of an error only this matters: whether its message names a concurrency failure. */
  datatype Error = Nil | Fault(retryable: bool)

  /** errors.Join: nil only if both are; the joined message names what either names. */
  function Join(a: Error, b: Error): Error {
    if a == Nil then b else if b == Nil then a else Fault(a.retryable || b.retryable)
  }

  /** What the outside world answers in one attempt, and the hooks that the body has recorded when it returns. */
  datatype Attempt = Attempt(
    open: Error,
    begin: Error,
    recorded: seq<PendingHook>,
    body: Error,
    rollback: Error,
    commit: Error,
    cleanup: Error,
    cancelled: bool)
  {
    predicate Enters(closed: bool, persistent: bool) {
      !closed && (persistent || open == Nil) && begin == Nil
    }

    predicate Commits(closed: bool, persistent: bool) {
      Enters(closed, persistent) && body == Nil && commit == Nil
    }

    /** Cleaning up the store's own connection does nothing. */
    function Cleanup(persistent: bool): Error {
      if persistent then Nil else cleanup
    }
  }

  /** Only the first attempt can run on the store's own connection: a retry drops it. */
  predicate OnPersistent(persistent: bool, k: nat) {
    persistent && k == 0
  }

  // ----- what a call comes to -----

  ghost predicate CommitsAt(script: seq<Attempt>, closed: bool, persistent: bool, k: nat)
    requires k < |script|
  {
    script[k].Commits(closed, OnPersistent(persistent, k))
  }

  ghost predicate EntersAt(script: seq<Attempt>, closed: bool, persistent: bool, k: nat)
    requires k < |script|
  {
    script[k].Enters(closed, OnPersistent(persistent, k))
  }

  /** The attempt's error; an attempt succeeds exactly when it commits and cleans up. */
  ghost predicate ErrorAt(script: seq<Attempt>, closed: bool, persistent: bool, k: nat, err: Error)
    requires k < |script|
  {
    var a, p := script[k], OnPersistent(persistent, k);
    && (err == Nil <==> a.Commits(closed, p) && a.Cleanup(p) == Nil)
    && (closed ==> err == Fault(false))
    && (!closed && !p && a.open != Nil ==> err == a.open)
    && (!closed && (p || a.open == Nil) && err != Nil ==>
          (err.retryable <==>
           || a.begin == Fault(true) || a.Cleanup(p) == Fault(true)
           || (a.begin == Nil && (a.body == Fault(true) || (a.body != Nil && a.rollback == Fault(true))))
           || (a.begin == Nil && a.body == Nil && a.commit == Fault(true))))
  }

  /** `errs` are the errors of the attempts made: all but the last are retryable and not cancelled, and the last ends the loop. */
  ghost predicate Tried(script: seq<Attempt>, closed: bool, persistent: bool, errs: seq<Error>) {
    && 1 <= |errs| <= MAX_ATTEMPTS && |errs| <= |script|
    && (forall k | 0 <= k < |errs| :: ErrorAt(script, closed, persistent, k, errs[k]))
    && (forall k | 0 <= k < |errs| - 1 :: errs[k] != Nil && errs[k].retryable && !script[k].cancelled)
    && var last := |errs| - 1;
       errs[last] == Nil || !errs[last].retryable || script[last].cancelled || |errs| == MAX_ATTEMPTS
  }

  /** The attempts before `n` that committed. */
  function Committed(script: seq<Attempt>, closed: bool, persistent: bool, n: nat): (ks: seq<nat>)
    requires n <= |script|
    ensures forall i | 0 <= i < |ks| :: ks[i] < n
  {
    if n == 0 then []
    else
      Committed(script, closed, persistent, n - 1)
      + if script[n - 1].Commits(closed, OnPersistent(persistent, n - 1)) then [n - 1] else []
  }

  lemma {:induction false} CommittedHolds(script: seq<Attempt>, closed: bool, persistent: bool, n: nat)
    requires n <= |script|
    ensures forall k :: k in Committed(script, closed, persistent, n) <==> 0 <= k < n && CommitsAt(script, closed, persistent, k)
  {
    if n > 0 {
      CommittedHolds(script, closed, persistent, n - 1);
    }
  }

  lemma {:induction false} TriedAgree(script: seq<Attempt>, closed: bool, persistent: bool, errs: seq<Error>,
                                       others: seq<Error>, n: nat)
    requires Tried(script, closed, persistent, errs) && Tried(script, closed, persistent, others)
    requires n <= |errs| && n <= |others|
    ensures errs[..n] == others[..n]
  {
    if n > 0 {
      TriedAgree(script, closed, persistent, errs, others, n - 1);
      assert ErrorAt(script, closed, persistent, n - 1, errs[n - 1]);
      assert ErrorAt(script, closed, persistent, n - 1, others[n - 1]);
      assert errs[..n] == errs[..n - 1] + [errs[n - 1]] && others[..n] == others[..n - 1] + [others[n - 1]];
    }
  }

  /** There is one way to make the attempts: their answers determine how many there are and their errors. */
  lemma TriedIsDetermined(script: seq<Attempt>, closed: bool, persistent: bool, errs: seq<Error>, others: seq<Error>)
    requires Tried(script, closed, persistent, errs) && Tried(script, closed, persistent, others)
    ensures errs == others
  {
    hide ErrorAt;
    var n := if |errs| <= |others| then |errs| else |others|;
    TriedAgree(script, closed, persistent, errs, others, n);
    assert errs[n - 1] == errs[..n][n - 1] && others[n - 1] == others[..n][n - 1];
    assert errs[..|errs|] == errs && others[..|others|] == others;
  }

  /** Which attempt commits, and which succeeds: the store's own connection, which is neither opened nor cleaned up, serves the first alone. */
  lemma AttemptsIff(script: seq<Attempt>, closed: bool, persistent: bool, errs: seq<Error>, k: nat)
    requires Tried(script, closed, persistent, errs) && k < |errs|
    ensures var a := script[k];
            var opens := !closed && ((persistent && k == 0) || a.open == Nil);
            && (k in Committed(script, closed, persistent, |errs|) <==> opens && a.begin == Nil && a.body == Nil && a.commit == Nil)
            && (errs[k] == Nil <==>
                  opens && a.begin == Nil && a.body == Nil && a.commit == Nil && ((persistent && k == 0) || a.cleanup == Nil))
            && (!opens ==> errs[k] == if closed then Fault(false) else a.open)
            && (opens ==>
                  (errs[k] == Fault(true) <==>
                    || a.begin == Fault(true) || (!(persistent && k == 0) && a.cleanup == Fault(true))
                    || (a.begin == Nil && a.body == Nil && a.commit == Fault(true))
                    || (a.begin == Nil && a.body != Nil && (a.body == Fault(true) || a.rollback == Fault(true)))))
  {
    CommittedHolds(script, closed, persistent, |errs|);
    assert ErrorAt(script, closed, persistent, k, errs[k]);
  }

  /** There are at most five attempts; another follows exactly those before the fifth that fail for concurrency and are not cancelled. */
  lemma AttemptsMade(script: seq<Attempt>, closed: bool, persistent: bool, errs: seq<Error>, k: nat)
    requires Tried(script, closed, persistent, errs) && k < |errs|
    ensures |errs| <= 5 && (k + 1 < |errs| <==> k < 4 && errs[k] == Fault(true) && !script[k].cancelled)
  {
    hide ErrorAt;
  }

  lemma NoneYet(script: seq<Attempt>, closed: bool, persistent: bool)
    ensures Committed(script, closed, persistent, 0) == []
    ensures Trying(script, closed, persistent, []) && LastEntered(script, closed, persistent, 0, None)
  {
  }

  lemma OneMoreAttempt(script: seq<Attempt>, closed: bool, persistent: bool, n: nat)
    requires n < |script|
    ensures Committed(script, closed, persistent, n + 1)
            == Committed(script, closed, persistent, n) + if CommitsAt(script, closed, persistent, n) then [n] else []
  {
  }

  /** A call that succeeds ends with an attempt that committed. */
  lemma SuccessCommits(script: seq<Attempt>, closed: bool, persistent: bool, errs: seq<Error>)
    requires Tried(script, closed, persistent, errs) && errs[|errs| - 1] == Nil
    ensures CommitsAt(script, closed, persistent, |errs| - 1) && EntersAt(script, closed, persistent, |errs| - 1)
    ensures |errs| - 1 in Committed(script, closed, persistent, |errs|)
  {
    assert ErrorAt(script, closed, persistent, |errs| - 1, errs[|errs| - 1]);
    CommittedHolds(script, closed, persistent, |errs|);
  }

  /** Whether an attempt that committed, if it did, also cleaned up. */
  ghost predicate CleansUp(script: seq<Attempt>, closed: bool, persistent: bool, k: nat)
    requires k < |script|
  {
    CommitsAt(script, closed, persistent, k) ==> script[k].Cleanup(OnPersistent(persistent, k)) == Nil
  }

  lemma CleanAttempts(script: seq<Attempt>, closed: bool, persistent: bool, errs: seq<Error>)
    requires Tried(script, closed, persistent, errs)
    requires forall k | 0 <= k < |errs| :: CleansUp(script, closed, persistent, k)
    ensures Committed(script, closed, persistent, |errs|) == if errs[|errs| - 1] == Nil then [|errs| - 1] else []
  {
    hide ErrorAt, CommitsAt, Committed;
    var n := |errs|;
    forall k | 0 <= k < n ensures errs[k] == Nil <==> CommitsAt(script, closed, persistent, k) {
      assert CleansUp(script, closed, persistent, k);
      NilAt(script, closed, persistent, k, errs[k]);
    }
    NoneCommitted(script, closed, persistent, n - 1);
    OneMoreAttempt(script, closed, persistent, n - 1);
  }

  lemma AtMostTheLast(script: seq<Attempt>, closed: bool, persistent: bool, errs: seq<Error>, k: nat)
    requires Tried(script, closed, persistent, errs) && k < |errs| && CommitsAt(script, closed, persistent, k)
    requires Committed(script, closed, persistent, |errs|) == if errs[|errs| - 1] == Nil then [|errs| - 1] else []
    ensures CleansUp(script, closed, persistent, k)
  {
    hide ErrorAt, CommitsAt, Committed;
    CommittedHolds(script, closed, persistent, |errs|);
    assert k in Committed(script, closed, persistent, |errs|);
    NilAt(script, closed, persistent, k, errs[k]);
  }

  /**
  Success with exactly one commit, by the last attempt, or failure with none: this
  is what a caller gets exactly when no attempt fails to clean up after it has
  committed. Otherwise a committed body is run again, or its success is reported as an error.
  */
  lemma AllOrNothing(script: seq<Attempt>, closed: bool, persistent: bool, errs: seq<Error>)
    requires Tried(script, closed, persistent, errs)
    ensures Committed(script, closed, persistent, |errs|) == (if errs[|errs| - 1] == Nil then [|errs| - 1] else []) <==>
              forall k | 0 <= k < |errs| :: CleansUp(script, closed, persistent, k)
  {
    hide ErrorAt, CommitsAt, Committed;
    if forall k | 0 <= k < |errs| :: CleansUp(script, closed, persistent, k) {
      CleanAttempts(script, closed, persistent, errs);
    } else if Committed(script, closed, persistent, |errs|) == if errs[|errs| - 1] == Nil then [|errs| - 1] else [] {
      forall k | 0 <= k < |errs| ensures CleansUp(script, closed, persistent, k) {
        if CommitsAt(script, closed, persistent, k) {
          AtMostTheLast(script, closed, persistent, errs, k);
        }
      }
    }
  }

  lemma NilAt(script: seq<Attempt>, closed: bool, persistent: bool, k: nat, err: Error)
    requires k < |script| && ErrorAt(script, closed, persistent, k, err)
    ensures err == Nil <==>
              CommitsAt(script, closed, persistent, k) && script[k].Cleanup(OnPersistent(persistent, k)) == Nil
  {
  }

  lemma {:induction false} NoneCommitted(script: seq<Attempt>, closed: bool, persistent: bool, n: nat)
    requires n <= |script| && forall k | 0 <= k < n :: !CommitsAt(script, closed, persistent, k)
    ensures Committed(script, closed, persistent, n) == []
  {
    if n > 0 {
      NoneCommitted(script, closed, persistent, n - 1);
      assert !CommitsAt(script, closed, persistent, n - 1);
    }
  }

  /** An attempt on the store's own connection is never run again once it has committed. */
  lemma PersistentCommitIsFinal(script: seq<Attempt>, closed: bool, errs: seq<Error>)
    requires Tried(script, closed, true, errs) && CommitsAt(script, closed, true, 0)
    ensures errs == [Nil] && Committed(script, closed, true, |errs|) == [0]
  {
    assert ErrorAt(script, closed, true, 0, errs[0]);
    AllOrNothing(script, closed, true, errs);
  }

  /** The corner itself: two attempts commit when the first one's cleanup reports a busy database. */
  lemma BusyCleanupCommitsTwice(hooks: seq<PendingHook>)
    ensures var ok := Attempt(Nil, Nil, hooks, Nil, Nil, Nil, Nil, false);
            var script := [ok.(cleanup := Fault(true)), ok];
            Tried(script, false, false, [Fault(true), Nil]) && Committed(script, false, false, 2) == [0, 1]
  {
    var ok := Attempt(Nil, Nil, hooks, Nil, Nil, Nil, Nil, false);
    var script := [ok.(cleanup := Fault(true)), ok];
    assert Committed(script, false, false, 0) == [];
    assert Committed(script, false, false, 1) == [0];
  }

  // ----- the store -----

  class Store {
    var closed: bool
    var persistent: bool
    ghost var committed: seq<nat>

    constructor ()
      ensures !closed && persistent && committed == []
    {
      closed, persistent, committed := false, true, [];
    }

    /** withConnOnce, for attempt `k` of a call; `entered` tells whether the body ran. */
    method WithConnOnce(script: seq<Attempt>, k: nat, ghost wasPersistent: bool) returns (err: Error, entered: bool)
      requires k < |script| && persistent == OnPersistent(wasPersistent, k)
      modifies this`committed
      ensures ErrorAt(script, closed, wasPersistent, k, err)
      ensures entered <==> EntersAt(script, closed, wasPersistent, k)
      ensures committed == old(committed) + if CommitsAt(script, closed, wasPersistent, k) then [k] else []
    {
      var a := script[k];
      if closed {
        return Fault(false), false;
      }
      var cleanup := Nil;
      if !persistent {
        if a.open != Nil {
          return a.open, false;
        }
        cleanup := a.cleanup;
      }
      if a.begin != Nil {
        return Join(a.begin, cleanup), false;
      }
      if a.body != Nil {
        return Join(Join(a.body, a.rollback), cleanup), true;
      }
      if a.commit == Nil {
        committed := committed + [k];
      }
      return Join(a.commit, cleanup), true;
    }

    /** withRetryAfter around withConnOnce; `last` is the attempt whose body ran last. */
    method WithRetry(script: seq<Attempt>) returns (err: Error, last: Option<nat>, ghost errs: seq<Error>)
      requires |script| >= MAX_ATTEMPTS
      modifies this
      ensures closed == old(closed)
      ensures Tried(script, closed, old(persistent), errs) && LastError(errs, err)
      ensures committed == old(committed) + Committed(script, closed, old(persistent), |errs|)
      ensures LastEntered(script, closed, old(persistent), |errs|, last)
      ensures persistent <==> old(persistent) && errs[0] != Fault(true)
    {
      hide ErrorAt, Committed, EntersAt, CommitsAt, Trying, LastEntered, Tried;
      err, last, errs := Nil, None, [];
      ghost var c, p, before := closed, persistent, committed;
      NoneYet(script, c, p);
      for attempt := 0 to MAX_ATTEMPTS
        invariant closed == c && persistent == OnPersistent(p, attempt)
        invariant |errs| > 0 ==> errs[0] == Fault(true)
        invariant |errs| == attempt && Trying(script, c, p, errs) && LastEntered(script, c, p, attempt, last)
        invariant attempt == MAX_ATTEMPTS ==> Tried(script, c, p, errs) && LastError(errs, err)
        invariant committed == before + Committed(script, c, p, attempt)
      {
        OneMoreAttempt(script, c, p, attempt);
        var entered;
        err, entered := WithConnOnce(script, attempt, p);
        OneMoreTried(script, c, p, errs, last, err, entered);
        if entered {
          last := Some(attempt);
        }
        errs := errs + [err];
        if err == Nil {
          return;
        }
        if !err.retryable {
          return;
        }
        persistent := false;
        if script[attempt].cancelled {
          err := Join(err, Fault(false));
          return;
        }
      }
    }
  }

  /** The attempts so far have all asked for another. */
  ghost predicate Trying(script: seq<Attempt>, closed: bool, persistent: bool, errs: seq<Error>) {
    && |errs| <= MAX_ATTEMPTS && |errs| <= |script|
    && (forall k | 0 <= k < |errs| :: ErrorAt(script, closed, persistent, k, errs[k]))
    && forall k | 0 <= k < |errs| :: errs[k] != Nil && errs[k].retryable && !script[k].cancelled
  }

  /** `last` is the last of the first `n` attempts to enter the body. */
  ghost predicate LastEntered(script: seq<Attempt>, closed: bool, persistent: bool, n: nat, last: Option<nat>) {
    && n <= |script|
    && (last.Some? ==> last.value < n && EntersAt(script, closed, persistent, last.value))
    && forall k | 0 <= k < n && EntersAt(script, closed, persistent, k) :: last.Some? && k <= last.value
  }

  lemma OneMoreTried(script: seq<Attempt>, closed: bool, persistent: bool, errs: seq<Error>, last: Option<nat>,
                     err: Error, entered: bool)
    requires Trying(script, closed, persistent, errs) && |errs| < MAX_ATTEMPTS && |errs| < |script|
    requires LastEntered(script, closed, persistent, |errs|, last)
    requires ErrorAt(script, closed, persistent, |errs|, err)
    requires entered <==> EntersAt(script, closed, persistent, |errs|)
    ensures var again := err != Nil && err.retryable && !script[|errs|].cancelled;
            && (again ==> Trying(script, closed, persistent, errs + [err]))
            && (!again || |errs| + 1 == MAX_ATTEMPTS ==> Tried(script, closed, persistent, errs + [err]))
    ensures LastEntered(script, closed, persistent, |errs| + 1, if entered then Some(|errs|) else last)
  {
    hide ErrorAt, EntersAt;
  }

  ghost predicate LastError(errs: seq<Error>, err: Error) {
    errs != [] && err == errs[|errs| - 1]
  }

  // ----- hooks -----

  /** The decorator around a store, with the log of hooks it has run. */
  class HookFiringStore {
    const inner: Store
    var fired: seq<PendingHook>

    constructor (s: Store)
      ensures inner == s && fired == []
    {
      inner, fired := s, [];
    }

    /**
    RunInTransaction: `lock` and `version` are the errors of taking the directory
    lock and of the version commit that follows the transaction.
    */
    method RunInTransaction(script: seq<Attempt>, lock: Error, version: Error) returns (err: Error, ghost errs: seq<Error>)
      requires |script| >= MAX_ATTEMPTS
      modifies this`fired, inner
      ensures inner.closed == old(inner.closed)
      ensures lock != Nil ==> err == lock && errs == [] && inner.committed == old(inner.committed)
      ensures lock == Nil ==> Tried(script, inner.closed, old(inner.persistent), errs)
      ensures lock == Nil ==>
                inner.committed == old(inner.committed) + Committed(script, inner.closed, old(inner.persistent), |errs|)
      ensures err == Nil <==> lock == Nil && LastError(errs, Nil) && version == Nil
      ensures fired == old(fired) + if err == Nil then script[|errs| - 1].recorded else []
    {
      errs := [];
      if lock != Nil {
        return lock, errs;
      }
      ghost var was := inner.persistent;
      var tracked: Option<nat>;
      err, tracked, errs := inner.WithRetry(script);
      if err == Nil {
        SuccessCommits(script, inner.closed, was, errs);
        err := version;
      }
      if err != Nil || tracked.None? {
        return;
      }
      assert tracked.value == |errs| - 1;
      var pending := script[tracked.value].recorded;
      for i := 0 to |pending|
        modifies this`fired
        invariant fired == old(fired) + pending[..i]
      {
        fired := fired + [pending[i]];
        assert pending[..i + 1] == pending[..i] + [pending[i]];
      }
      assert pending[..|pending|] == pending;
    }
  }

  /** hookTrackingTransaction: what a mutation that succeeded adds to the hooks of its attempt. */
  class TrackingTransaction {
    var pending: seq<PendingHook>

    constructor ()
      ensures pending == []
    {
      pending := [];
    }

    /** CreateIssue, where `err` is the answer of the wrapped transaction. */
    method CreateIssue(issue: Option<Issue>, err: Error) returns (r: Error)
      modifies this
      ensures r == err
      ensures err != Nil || issue.None? ==> pending == old(pending)
      ensures err == Nil && issue.Some? ==>
                exists distinct, events :: CreationEvents(issue.value, distinct, events) && pending == old(pending) + events
    {
      if err != Nil {
        return err;
      }
      var events := CreateHookEvents(issue);
      pending := pending + events;
      return Nil;
    }

    /** CreateIssues: the creations of every issue, then the dependencies found persisted. */
    method CreateIssues(issues: seq<Option<Issue>>, snaps: Snapshots, err: Error) returns (r: Error)
      modifies this
      ensures r == err
      ensures err != Nil ==> pending == old(pending)
      ensures err == Nil ==>
                exists creations, reports, updates ::
                  && Creations(issues, creations) && Reports(snaps, RequestsOf(issues), reports, updates)
                  && pending == old(pending) + Flatten(creations) + updates
    {
      hide Creations, Reports, Flatten;
      if err != Nil {
        return err;
      }
      ghost var creations := RecordCreations(issues);
      var updates := DependencyHookEvents(issues, snaps);
      pending := pending + updates;
      return Nil;
    }

    /** The loop of CreateIssues over the issues. */
    method RecordCreations(issues: seq<Option<Issue>>) returns (ghost creations: seq<seq<PendingHook>>)
      modifies this
      ensures Creations(issues, creations) && pending == old(pending) + Flatten(creations)
    {
      hide Creations, Flatten, CreationEvents;
      creations := [];
      NoCreations();
      for k := 0 to |issues|
        invariant Creations(issues[..k], creations) && pending == old(pending) + Flatten(creations)
      {
        var events := CreateHookEvents(issues[k]);
        pending := pending + events;
        OneMoreCreation(issues[..k], creations, issues[k], events);
        assert issues[..k + 1] == issues[..k] + [issues[k]];
        creations := creations + [events];
      }
      assert issues[..|issues|] == issues;
    }

    /** The other mutations record the issue as read back, and nothing if it cannot be read. */
    method Touch(event: EventKind, snapshot: Option<Issue>, err: Error) returns (r: Error)
      modifies this
      ensures r == err
      ensures pending == old(pending) + if err == Nil && snapshot.Some? then [PendingHook(event, snapshot.value)] else []
    {
      if err != Nil {
        return err;
      }
      if snapshot.Some? {
        pending := pending + [PendingHook(event, snapshot.value)];
      }
      return Nil;
    }
  }

  lemma NoCreations()
    ensures Creations([], []) && Flatten([]) == []
  {
  }

  lemma OneMoreCreation(issues: seq<Option<Issue>>, creations: seq<seq<PendingHook>>, issue: Option<Issue>,
                        events: seq<PendingHook>)
    requires Creations(issues, creations)
    requires CreationsOf(issue, events)
    ensures Creations(issues + [issue], creations + [events])
    ensures Flatten(creations + [events]) == Flatten(creations) + events
  {
    hide CreationsOf;
    assert (creations + [events])[..|creations|] == creations;
  }

  ghost predicate Creations(issues: seq<Option<Issue>>, creations: seq<seq<PendingHook>>) {
    && |creations| == |issues|
    && forall k | 0 <= k < |issues| :: CreationsOf(issues[k], creations[k])
  }

  ghost predicate CreationsOf(issue: Option<Issue>, events: seq<PendingHook>) {
    if issue.None? then events == [] else exists distinct :: CreationEvents(issue.value, distinct, events)
  }

  function Flatten(s: seq<seq<PendingHook>>): seq<PendingHook> {
    if s == [] then [] else Flatten(s[..|s| - 1]) + s[|s| - 1]
  }
}
