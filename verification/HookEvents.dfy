/**
The hooks that creations record: one creation event, then one update per distinct
label and one update per dependency found persisted, each with a growing snapshot.
*/
module HookEvents {
  import opened Wrappers
  import opened Sets

  type ID = string

  datatype Dependency = Dependency(issueID: ID, dependsOnID: ID, kind: string)

  /** An issue as a hook sees it; `rest` stands for the columns that no rule here looks at. */
  datatype Issue = Issue(id: ID, labels: seq<string>, dependencies: seq<Option<Dependency>>, rest: string)

  datatype EventKind = OnCreate | OnUpdate | OnClose

  datatype PendingHook = PendingHook(event: EventKind, issue: Issue)

  // ----- labels -----

  ghost predicate NoDup<T>(s: seq<T>) {
    forall i, j | 0 <= i < j < |s| :: s[i] != s[j]
  }

  /** `d` lists the distinct elements of `s` in the order in which they first occur. */
  ghost predicate FirstOccurrences(d: seq<string>, s: seq<string>) {
    && NoDup(d)
    && (forall x :: x in d <==> x in s)
    && forall i, j, k | 0 <= i < j < |d| && 0 <= k < |s| && s[k] == d[j] :: d[i] in s[..k]
  }

  /** There is one such list. */
  lemma {:induction false} FirstOccurrencesUnique(d: seq<string>, e: seq<string>, s: seq<string>, n: nat)
    requires FirstOccurrences(d, s) && FirstOccurrences(e, s) && n <= |d| && n <= |e|
    ensures d[..n] == e[..n] && |d| == |e|
  {
    if n > 0 {
      FirstOccurrencesUnique(d, e, s, n - 1);
      FirstAgree(d, e, s, n - 1);
    } else {
      SameSize(d, e);
    }
  }

  lemma FirstAgree(d: seq<string>, e: seq<string>, s: seq<string>, n: nat)
    requires FirstOccurrences(d, s) && FirstOccurrences(e, s) && n < |d| && n < |e| && d[..n] == e[..n]
    ensures d[n] == e[n]
  {
    assert forall i | 0 <= i < n :: d[i] == d[..n][i] && e[i] == e[..n][i];
    if d[n] != e[n] {
      assert d[n] in e && e[n] in d;
      var i :| 0 <= i < |e| && e[i] == d[n];
      var j :| 0 <= j < |d| && d[j] == e[n];
      var k := FirstIndex(s, d[n], e[n]);
    }
  }

  /** The first position that holds one of the two. */
  lemma {:induction false} FirstIndex(s: seq<string>, x: string, y: string) returns (k: nat)
    requires x in s || y in s
    ensures k < |s| && (s[k] == x || s[k] == y) && x !in s[..k] && y !in s[..k]
  {
    if s[0] == x || s[0] == y {
      k := 0;
    } else {
      var rest := FirstIndex(s[1..], x, y);
      k := rest + 1;
      assert s[..k] == [s[0]] + s[1..][..rest];
    }
  }

  lemma {:induction false} SameSize(d: seq<string>, e: seq<string>)
    requires NoDup(d) && NoDup(e) && forall x :: x in d <==> x in e
    ensures |d| == |e|
  {
    NoDupSize(d);
    NoDupSize(e);
    assert (set x | x in d) == (set x | x in e);
  }

  lemma {:induction false} NoDupSize(d: seq<string>)
    requires NoDup(d)
    ensures |set x | x in d| == |d|
  {
    if d != [] {
      var r, last := d[..|d| - 1], d[|d| - 1];
      NoDupSize(r);
      assert d == r + [last];
      assert (set x | x in d) == (set x | x in r) + {last};
    }
  }

  /** Without labels one creation event; with labels a label-free creation, then an update for each new label. */
  ghost predicate CreationEvents(issue: Issue, distinct: seq<string>, events: seq<PendingHook>) {
    && FirstOccurrences(distinct, issue.labels)
    && |events| == |distinct| + 1
    && events[0] == PendingHook(OnCreate, issue.(labels := []))
    && forall i | 1 <= i < |events| :: events[i] == PendingHook(OnUpdate, issue.(labels := distinct[..i]))
  }

  /** The first loop of createHookEvents. */
  method DistinctLabels(all: seq<string>) returns (labels: seq<string>)
    ensures FirstOccurrences(labels, all)
  {
    hide FirstOccurrences;
    labels := [];
    var seen := {};
    NoLabels();
    for k := 0 to |all|
      invariant seen == set x | x in labels
      invariant FirstOccurrences(labels, all[..k])
    {
      OneMoreLabel(labels, all[..k], all[k]);
      assert all[..k + 1] == all[..k] + [all[k]];
      if all[k] !in seen {
        seen := seen + {all[k]};
        labels := labels + [all[k]];
      }
    }
    assert all[..|all|] == all;
  }

  lemma NoLabels()
    ensures FirstOccurrences([], [])
  {
  }

  /** createHookEvents */
  method CreateHookEvents(issue: Option<Issue>) returns (events: seq<PendingHook>)
    ensures issue.None? ==> events == []
    ensures issue.Some? ==> exists distinct :: CreationEvents(issue.value, distinct, events)
  {
    hide FirstOccurrences;
    NoLabels();
    if issue.None? {
      return [];
    }
    var all := issue.value.labels;
    if |all| == 0 {
      events := [PendingHook(OnCreate, issue.value)];
      assert issue.value.(labels := []) == issue.value;
      assert CreationEvents(issue.value, [], events);
      return;
    }
    var labels := DistinctLabels(all);
    events := [PendingHook(OnCreate, issue.value.(labels := []))];
    for i := 0 to |labels|
      invariant |events| == i + 1
      invariant events[0] == PendingHook(OnCreate, issue.value.(labels := []))
      invariant forall j | 1 <= j < |events| :: events[j] == PendingHook(OnUpdate, issue.value.(labels := labels[..j]))
    {
      events := events + [PendingHook(OnUpdate, issue.value.(labels := labels[..i + 1]))];
    }
    assert CreationEvents(issue.value, labels, events);
  }

  lemma OneMoreLabel(d: seq<string>, s: seq<string>, x: string)
    requires FirstOccurrences(d, s)
    ensures FirstOccurrences(if x in d then d else d + [x], s + [x])
  {
    var d', s' := if x in d then d else d + [x], s + [x];
    assert forall y :: y in s' <==> y in s || y == x;
    forall i, j, k | 0 <= i < j < |d'| && 0 <= k < |s'| && s'[k] == d'[j] ensures d'[i] in s'[..k] {
      if k < |s| {
        assert s'[..k] == s[..k];
        assert d'[j] in s;
        assert j < |d|;
      } else {
        assert s'[..k] == s;
        assert d'[i] in d;
      }
    }
  }

  /** The events are determined by the issue, and the last one carries every label of the issue once. */
  lemma CreationEventsDetermined(issue: Issue, d: seq<string>, events: seq<PendingHook>, e: seq<string>, others: seq<PendingHook>)
    requires CreationEvents(issue, d, events) && CreationEvents(issue, e, others)
    ensures events == others
    ensures var last := events[|events| - 1].issue.labels;
            NoDup(last) && forall x :: x in last <==> x in issue.labels
  {
    FirstOccurrencesUnique(d, e, issue.labels, 0);
    FirstOccurrencesUnique(d, e, issue.labels, |d|);
    assert d[..|d|] == d && e[..|e|] == e;
    assert forall i | 0 <= i < |events| :: events[i] == others[i];
    assert events[|events| - 1].issue.labels == d[..|d|];
  }

  // ----- dependencies -----

  /** What identifies a dependency record. */
  datatype Key = Key(issueID: ID, dependsOnID: ID, kind: string)

  /** A dependency to report, under the issue it is to be looked up for. */
  datatype Request = Request(issueID: ID, key: Key)

  function KeyOf(d: Dependency, issueID: ID): Key {
    Key(if d.issueID == "" then issueID else d.issueID, d.dependsOnID, d.kind)
  }

  /** sameDependency: the persisted record's own key against the requested one's. */
  predicate SameDependency(persisted: Option<Dependency>, requested: Dependency, issueID: ID) {
    && persisted.Some? && persisted.value.issueID == (if requested.issueID == "" then issueID else requested.issueID)
    && persisted.value.dependsOnID == requested.dependsOnID && persisted.value.kind == requested.kind
  }

  predicate HasKey(persisted: Option<Dependency>, key: Key) {
    persisted.Some? && Key(persisted.value.issueID, persisted.value.dependsOnID, persisted.value.kind) == key
  }

  /** dependencyHookState */
  datatype HookState = HookState(snapshot: Issue, used: seq<bool>, emitted: seq<Option<Dependency>>)

  /** take: the first unused record that is the same dependency. */
  method Take(state: HookState, requested: Dependency, issueID: ID) returns (state': HookState, at: Option<nat>)
    requires |state.used| == |state.snapshot.dependencies|
    ensures at.Some? ==>
              && at.value < |state.used| && !state.used[at.value]
              && SameDependency(state.snapshot.dependencies[at.value], requested, issueID)
              && (forall i | 0 <= i < at.value && SameDependency(state.snapshot.dependencies[i], requested, issueID) ::
                    state.used[i])
              && state' == state.(used := state.used[at.value := true])
    ensures at.None? ==>
              && state' == state
              && forall i | 0 <= i < |state.used| && SameDependency(state.snapshot.dependencies[i], requested, issueID) ::
                   state.used[i]
  {
    for i := 0 to |state.used|
      invariant forall j | 0 <= j < i && SameDependency(state.snapshot.dependencies[j], requested, issueID) :: state.used[j]
    {
      if state.used[i] || !SameDependency(state.snapshot.dependencies[i], requested, issueID) {
        continue;
      }
      return state.(used := state.used[i := true]), Some(i);
    }
    return state, None;
  }

  /** One event: the record that it reports, by its index among the persisted records of an issue. */
  datatype Report = Report(issueID: ID, index: nat)

  type Snapshots = map<ID, Issue>

  ghost predicate InRange(snaps: Snapshots, r: Report) {
    r.issueID in snaps && r.index < |snaps[r.issueID].dependencies| && snaps[r.issueID].dependencies[r.index].Some?
  }

  /** The records reported for an issue, in order. */
  ghost function Emitted(snaps: Snapshots, reports: seq<Report>, issueID: ID): seq<Option<Dependency>>
    requires forall r | r in reports :: InRange(snaps, r)
  {
    if reports == [] then []
    else
      var last := reports[|reports| - 1];
      assert InRange(snaps, last);
      Emitted(snaps, reports[..|reports| - 1], issueID)
      + if last.issueID == issueID then [snaps[issueID].dependencies[last.index]] else []
  }

  /** The indices reported for an issue. */
  ghost function Used(reports: seq<Report>, issueID: ID): set<nat> {
    set r | r in reports && r.issueID == issueID :: r.index
  }

  ghost function Matching(deps: seq<Option<Dependency>>, key: Key): set<nat> {
    set i | 0 <= i < |deps| && HasKey(deps[i], key)
  }

  /** How many requests ask for a key under an issue. */
  ghost function Asked(requests: seq<Request>, issueID: ID, key: Key): nat {
    if requests == [] then 0
    else
      Asked(requests[..|requests| - 1], issueID, key)
      + if requests[|requests| - 1] == Request(issueID, key) then 1 else 0
  }

  function Min(a: nat, b: nat): nat {
    if a <= b then a else b
  }

  /**
  Every event is an update with the records reported so far for its issue, the
  new one last, and no record is reported twice.
  */
  ghost predicate Follows(snaps: Snapshots, reports: seq<Report>, events: seq<PendingHook>) {
    && (forall r | r in reports :: InRange(snaps, r))
    && |events| == |reports|
    && (forall k | 0 <= k < |events| :: events[k] == EventAt(snaps, reports, k))
    && NoDup(reports)
  }

  /** Each key is reported as often as it is asked for, or as often as it is persisted if that is less. */
  ghost predicate Balanced(snaps: Snapshots, requests: seq<Request>, reports: seq<Report>) {
    forall id, key | id in snaps :: IsBalanced(snaps, requests, reports, id, key)
  }

  ghost predicate IsBalanced(snaps: Snapshots, requests: seq<Request>, reports: seq<Report>, id: ID, key: Key)
    requires id in snaps
  {
    var persisted := Matching(snaps[id].dependencies, key);
    |Used(reports, id) * persisted| == Min(Asked(requests, id, key), |persisted|)
  }

  ghost predicate Reports(snaps: Snapshots, requests: seq<Request>, reports: seq<Report>, events: seq<PendingHook>) {
    && Follows(snaps, reports, events) && FirstFirst(snaps, reports) && Balanced(snaps, requests, reports)
    && InTurn(snaps, requests, reports)
  }

  /** A request finds a record if its key is persisted more often than it has been asked for before. */
  ghost predicate Finds(snaps: Snapshots, before: seq<Request>, q: Request) {
    q.issueID in snaps && Asked(before, q.issueID, q.key) < |Matching(snaps[q.issueID].dependencies, q.key)|
  }

  /** The requests that find a record, in order. */
  ghost function Answered(snaps: Snapshots, requests: seq<Request>): seq<Request> {
    if requests == [] then []
    else
      var before, last := requests[..|requests| - 1], requests[|requests| - 1];
      Answered(snaps, before) + if Finds(snaps, before, last) then [last] else []
  }

  /** The k-th report is a record for the k-th request that finds one. */
  ghost predicate InTurn(snaps: Snapshots, requests: seq<Request>, reports: seq<Report>) {
    && |reports| == |Answered(snaps, requests)|
    && forall k | 0 <= k < |reports| :: Answers(snaps, reports[k], Answered(snaps, requests)[k])
  }

  ghost predicate Answers(snaps: Snapshots, r: Report, q: Request) {
    InRange(snaps, r) && r.issueID == q.issueID && HasKey(snaps[r.issueID].dependencies[r.index], q.key)
  }

  /** Of the records with one key, earlier ones are reported before later ones. */
  ghost predicate FirstFirst(snaps: Snapshots, reports: seq<Report>) {
    forall k, i | 0 <= k < |reports| && 0 <= i < reports[k].index && HaveOneKey(snaps, reports[k], i) ::
      Report(reports[k].issueID, i) in reports[..k]
  }

  /** Record `i` of the report's issue has the key of the reported one. */
  ghost predicate HaveOneKey(snaps: Snapshots, r: Report, i: nat) {
    && InRange(snaps, r) && i < |snaps[r.issueID].dependencies| && snaps[r.issueID].dependencies[i].Some?
    && snaps[r.issueID].dependencies[i].value == snaps[r.issueID].dependencies[r.index].value
  }

  ghost function EventAt(snaps: Snapshots, reports: seq<Report>, k: nat): PendingHook
    requires k < |reports| && forall r | r in reports :: InRange(snaps, r)
  {
    var id := reports[k].issueID;
    assert InRange(snaps, reports[k]);
    PendingHook(OnUpdate, snaps[id].(dependencies := Emitted(snaps, reports[..k + 1], id)))
  }

  /** Of two events for one issue the later carries the records of the earlier, and more after them. */
  lemma {:induction false} PrefixesGrow(snaps: Snapshots, reports: seq<Report>, events: seq<PendingHook>, j: nat, k: nat)
    requires Follows(snaps, reports, events) && j < k < |reports| && reports[j].issueID == reports[k].issueID
    ensures events[j].issue.dependencies < events[k].issue.dependencies
  {
    var id := reports[j].issueID;
    assert InRange(snaps, reports[k]);
    EmittedGrows(snaps, reports, id, j + 1, k);
    assert reports[..k + 1][..k] == reports[..k];
  }

  lemma {:induction false} EmittedGrows(snaps: Snapshots, reports: seq<Report>, id: ID, m: nat, n: nat)
    requires m <= n <= |reports| && forall r | r in reports :: InRange(snaps, r)
    ensures Emitted(snaps, reports[..m], id) <= Emitted(snaps, reports[..n], id)
    decreases n
  {
    if m < n {
      EmittedGrows(snaps, reports, id, m, n - 1);
      assert reports[..n][..n - 1] == reports[..n - 1];
    }
  }

  lemma AskedOnce(requests: seq<Request>, q: Request, id: ID, key: Key)
    ensures Asked(requests + [q], id, key) == Asked(requests, id, key) + if q == Request(id, key) then 1 else 0
  {
    assert (requests + [q])[..|requests|] == requests;
  }

  lemma SameIsHasKey(persisted: Option<Dependency>, requested: Dependency, id: ID)
    ensures SameDependency(persisted, requested, id) <==> HasKey(persisted, KeyOf(requested, id))
  {
  }

  /** A request that finds no unused record leaves the balance: its key is exhausted. */
  lemma NothingLeft(snaps: Snapshots, requests: seq<Request>, id: ID, key: Key, reports: seq<Report>)
    requires Balanced(snaps, requests, reports)
    requires id in snaps ==> Matching(snaps[id].dependencies, key) <= Used(reports, id)
    ensures Balanced(snaps, requests + [Request(id, key)], reports)
  {
    hide Used, Matching, Asked;
    forall i, k | i in snaps ensures IsBalanced(snaps, requests + [Request(id, key)], reports, i, k) {
      assert IsBalanced(snaps, requests, reports, i, k);
      AskedOnce(requests, Request(id, key), i, k);
      if i == id && k == key {
        var persisted := Matching(snaps[id].dependencies, key);
        assert Used(reports, id) * persisted == persisted;
      }
    }
  }

  lemma UsedOnce(reports: seq<Report>, r: Report, id: ID)
    ensures Used(reports + [r], id) == Used(reports, id) + if r.issueID == id then {r.index} else {}
  {
    assert forall q :: q in reports + [r] <==> q in reports || q == r;
  }

  /** A request that takes an unused record of its key keeps the balance. */
  lemma OneMore(snaps: Snapshots, requests: seq<Request>, id: ID, key: Key, reports: seq<Report>, index: nat)
    requires Balanced(snaps, requests, reports) && id in snaps
    requires index < |snaps[id].dependencies| && HasKey(snaps[id].dependencies[index], key) && index !in Used(reports, id)
    ensures Balanced(snaps, requests + [Request(id, key)], reports + [Report(id, index)])
  {
    hide Used, Asked, Matching, IsBalanced;
    forall i, k | i in snaps
      ensures IsBalanced(snaps, requests + [Request(id, key)], reports + [Report(id, index)], i, k)
    {
      assert IsBalanced(snaps, requests, reports, i, k);
      OneMoreOfKey(snaps, requests, id, key, reports, index, i, k);
    }
  }

  lemma OneMoreOfKey(snaps: Snapshots, requests: seq<Request>, id: ID, key: Key, reports: seq<Report>, index: nat, i: ID, k: Key)
    requires i in snaps && id in snaps && IsBalanced(snaps, requests, reports, i, k)
    requires index < |snaps[id].dependencies| && HasKey(snaps[id].dependencies[index], key) && index !in Used(reports, id)
    ensures IsBalanced(snaps, requests + [Request(id, key)], reports + [Report(id, index)], i, k)
  {
    hide Used, Asked;
    AskedOnce(requests, Request(id, key), i, k);
    UsedOnce(reports, Report(id, index), i);
    assert index in Matching(snaps[id].dependencies, key);
    assert k != key ==> index !in Matching(snaps[id].dependencies, k);
    var persisted := Matching(snaps[i].dependencies, k);
    var used, used' := Used(reports, i), Used(reports + [Report(id, index)], i);
    if i == id && k == key {
      OneMoreInside(used, persisted, index);
    } else if i == id {
      OneMoreOutside(used, persisted, index);
    }
  }

  lemma OneMoreInside(used: set<nat>, persisted: set<nat>, index: nat)
    requires index in persisted && index !in used
    ensures |(used + {index}) * persisted| == |used * persisted| + 1 <= |persisted|
  {
    assert (used + {index}) * persisted == used * persisted + {index};
    SubsetSize((used + {index}) * persisted, persisted);
  }

  lemma OneMoreOutside(used: set<nat>, persisted: set<nat>, index: nat)
    requires index !in persisted
    ensures (used + {index}) * persisted == used * persisted
  {
  }

  lemma FollowsOneMore(snaps: Snapshots, reports: seq<Report>, events: seq<PendingHook>, r: Report, e: PendingHook)
    requires Follows(snaps, reports, events) && InRange(snaps, r) && r.index !in Used(reports, r.issueID)
    requires e == PendingHook(OnUpdate, snaps[r.issueID].(dependencies :=
                    Emitted(snaps, reports, r.issueID) + [snaps[r.issueID].dependencies[r.index]]))
    ensures Follows(snaps, reports + [r], events + [e])
  {
    var reports', events' := reports + [r], events + [e];
    assert forall q | q in reports' :: q in reports || q == r;
    assert r in reports ==> r.index in Used(reports, r.issueID);
    assert reports'[..|reports|] == reports;
    forall k | 0 <= k < |events'| ensures events'[k] == EventAt(snaps, reports', k) {
      if k < |events| {
        assert reports'[..k + 1] == reports[..k + 1];
      } else {
        assert reports'[..k + 1] == reports';
      }
    }
  }

  // The requests are the dependencies that name an issue, taken under the id they name or else under their own issue's.

  function RequestsOfIssue(issue: Issue, deps: seq<Option<Dependency>>): seq<Request> {
    if deps == [] then []
    else
      RequestsOfIssue(issue, deps[..|deps| - 1]) + RequestOf(issue, deps[|deps| - 1])
  }

  function RequestOf(issue: Issue, dep: Option<Dependency>): seq<Request> {
    if dep.None? then []
    else
      var id := if dep.value.issueID == "" then issue.id else dep.value.issueID;
      if id == "" then [] else [Request(id, KeyOf(dep.value, id))]
  }

  function RequestsOf(issues: seq<Option<Issue>>): seq<Request> {
    if issues == [] then []
    else
      var last := issues[|issues| - 1];
      RequestsOf(issues[..|issues| - 1]) + if last.None? then [] else RequestsOfIssue(last.value, last.value.dependencies)
  }

  lemma {:induction false} InRequestsOfIssue(issue: Issue, deps: seq<Option<Dependency>>, q: Request)
    ensures q in RequestsOfIssue(issue, deps) <==>
              exists d | d in deps ::
                d.Some? && q.issueID != "" && q == Request(q.issueID, Key(q.issueID, d.value.dependsOnID, d.value.kind))
                && q.issueID == if d.value.issueID == "" then issue.id else d.value.issueID
  {
    if deps != [] {
      InRequestsOfIssue(issue, deps[..|deps| - 1], q);
      assert deps == deps[..|deps| - 1] + [deps[|deps| - 1]];
    }
  }

  /** The requests, read off the issues: one for each dependency that names an issue or stands under one that has an id. */
  lemma {:induction false} InRequests(issues: seq<Option<Issue>>, q: Request)
    ensures q in RequestsOf(issues) <==>
              exists i | i in issues :: i.Some? && exists d | d in i.value.dependencies ::
                d.Some? && q.issueID != "" && q == Request(q.issueID, Key(q.issueID, d.value.dependsOnID, d.value.kind))
                && q.issueID == if d.value.issueID == "" then i.value.id else d.value.issueID
  {
    hide RequestsOfIssue;
    if issues != [] {
      var front, last := issues[..|issues| - 1], issues[|issues| - 1];
      InRequests(front, q);
      assert issues == front + [last];
      if last.Some? {
        InRequestsOfIssue(last.value, last.value.dependencies, q);
      }
    }
  }

  lemma {:induction false} AnsweredAreRequests(snaps: Snapshots, requests: seq<Request>, q: Request)
    requires q in Answered(snaps, requests)
    ensures q in requests && q.issueID in snaps
  {
    var before := requests[..|requests| - 1];
    assert requests == before + [requests[|requests| - 1]];
    if q in Answered(snaps, before) {
      AnsweredAreRequests(snaps, before, q);
    }
  }

  /** Every event is an update of the issue that some dependency names, ending with a record of that dependency. */
  lemma EventsAnswerDependencies(issues: seq<Option<Issue>>, snaps: Snapshots, reports: seq<Report>,
                                 events: seq<PendingHook>, k: nat)
    requires Reports(snaps, RequestsOf(issues), reports, events) && k < |events|
    ensures exists i, d :: i in issues && i.Some? && d in i.value.dependencies && d.Some? &&
              var id := if d.value.issueID == "" then i.value.id else d.value.issueID;
              && id in snaps && events[k].event == OnUpdate
              && events[k].issue == snaps[id].(dependencies := events[k].issue.dependencies)
              && events[k].issue.dependencies != []
              && events[k].issue.dependencies[|events[k].issue.dependencies| - 1]
                 == Some(Dependency(id, d.value.dependsOnID, d.value.kind))
  {
    hide RequestsOf, Answered, Balanced, FirstFirst;
    var r, q := reports[k], Answered(snaps, RequestsOf(issues))[k];
    assert Answers(snaps, r, q) && events[k] == EventAt(snaps, reports, k);
    AnsweredAreRequests(snaps, RequestsOf(issues), q);
    InRequests(issues, q);
    assert reports[..k + 1][..k] == reports[..k];
  }

  /** The one dependency of an issue is reported exactly when it is found persisted, under its own issue or the one it names. */
  lemma OneDependency(issue: Issue, d: Dependency, id: ID, p: Dependency, snaps: Snapshots, reports: seq<Report>,
                      events: seq<PendingHook>)
    requires issue.dependencies == [Some(d)] && id == (if d.issueID == "" then issue.id else d.issueID) && id != ""
    requires id in snaps && snaps[id].dependencies == [Some(p)]
    requires Reports(snaps, RequestsOf([Some(issue)]), reports, events)
    ensures events == if p == Dependency(id, d.dependsOnID, d.kind) then [PendingHook(OnUpdate, snaps[id])] else []
  {
    hide Balanced, FirstFirst, Follows, RequestsOf, Answered;
    var q := Request(id, Key(id, d.dependsOnID, d.kind));
    OneRequest(issue, d, id);
    OneAnswered(snaps, q, p);
    SameLength(snaps, reports, events);
    if p == Dependency(id, d.dependsOnID, d.kind) {
      assert Answers(snaps, reports[0], q);
      OneEvent(snaps, reports, events);
    }
  }

  lemma SameLength(snaps: Snapshots, reports: seq<Report>, events: seq<PendingHook>)
    requires Follows(snaps, reports, events)
    ensures |events| == |reports|
  {
  }

  lemma OneRequest(issue: Issue, d: Dependency, id: ID)
    requires issue.dependencies == [Some(d)] && id == (if d.issueID == "" then issue.id else d.issueID) && id != ""
    ensures RequestsOf([Some(issue)]) == [Request(id, Key(id, d.dependsOnID, d.kind))]
  {
    assert RequestsOf([]) == [] && RequestsOfIssue(issue, []) == [];
    assert [Some(issue)][..0] == [] && [Some(d)][..0] == [];
  }

  lemma OneAnswered(snaps: Snapshots, q: Request, p: Dependency)
    requires q.issueID in snaps && snaps[q.issueID].dependencies == [Some(p)]
    ensures Answered(snaps, [q]) == if Key(p.issueID, p.dependsOnID, p.kind) == q.key then [q] else []
  {
    assert [q][..0] == [] && Answered(snaps, []) == [] && Asked([], q.issueID, q.key) == 0;
    assert Matching([Some(p)], q.key) == if Key(p.issueID, p.dependsOnID, p.kind) == q.key then {0} else {};
  }

  lemma OneEvent(snaps: Snapshots, reports: seq<Report>, events: seq<PendingHook>)
    requires |reports| == 1 && Follows(snaps, reports, events)
    requires InRange(snaps, reports[0]) && |snaps[reports[0].issueID].dependencies| == 1
    ensures events == [PendingHook(OnUpdate, snaps[reports[0].issueID])]
  {
    var id := reports[0].issueID;
    assert reports[0] in reports && reports[..1] == reports && reports[..0] == [];
    assert Emitted(snaps, [], id) == [];
    assert Emitted(snaps, reports, id) == snaps[id].dependencies;
    assert events[0] == EventAt(snaps, reports, 0);
  }

  /** The states that the loop keeps agree with what it has reported. */
  ghost predicate StatesAgree(snaps: Snapshots, states: map<ID, HookState>, reports: seq<Report>)
    requires forall r | r in reports :: InRange(snaps, r)
  {
    && (forall id | id in states :: id in snaps && StateAgrees(snaps, states[id], reports, id))
    && forall id | id !in states :: Used(reports, id) == {} && Emitted(snaps, reports, id) == []
  }

  ghost predicate StateAgrees(snaps: Snapshots, state: HookState, reports: seq<Report>, id: ID)
    requires id in snaps && forall r | r in reports :: InRange(snaps, r)
  {
    && state.snapshot == snaps[id] && |state.used| == |snaps[id].dependencies|
    && (forall i | 0 <= i < |state.used| :: state.used[i] <==> i in Used(reports, id))
    && state.emitted == Emitted(snaps, reports, id)
  }

  lemma {:induction false} ReportsAgree(snaps: Snapshots, requests: seq<Request>, a: seq<Report>, b: seq<Report>, n: nat)
    requires InTurn(snaps, requests, a) && FirstFirst(snaps, a) && NoDup(a)
    requires InTurn(snaps, requests, b) && FirstFirst(snaps, b) && NoDup(b)
    requires n <= |a|
    ensures |a| == |b| && a[..n] == b[..n]
  {
    hide FirstFirst, NoDup, Answered, Answers;
    if n > 0 {
      ReportsAgree(snaps, requests, a, b, n - 1);
      SameNext(snaps, requests, a, b, n - 1);
      assert a[..n] == a[..n - 1] + [a[n - 1]] && b[..n] == b[..n - 1] + [b[n - 1]];
    }
  }

  lemma SameNext(snaps: Snapshots, requests: seq<Request>, a: seq<Report>, b: seq<Report>, k: nat)
    requires InTurn(snaps, requests, a) && FirstFirst(snaps, a) && NoDup(a)
    requires InTurn(snaps, requests, b) && FirstFirst(snaps, b) && NoDup(b)
    requires k < |a| && |a| == |b| && a[..k] == b[..k]
    ensures a[k] == b[k]
  {
    assert Answers(snaps, a[k], Answered(snaps, requests)[k]) && Answers(snaps, b[k], Answered(snaps, requests)[k]);
    assert forall j | 0 <= j < k :: a[j] == a[..k][j] && b[j] == b[..k][j];
    assert HaveOneKey(snaps, b[k], a[k].index) && HaveOneKey(snaps, a[k], b[k].index);
    assert a[k] !in a[..k] && b[k] !in b[..k];
  }

  /** The events are determined by the requests and the snapshots. */
  lemma ReportsDetermined(snaps: Snapshots, requests: seq<Request>, a: seq<Report>, events: seq<PendingHook>,
                          b: seq<Report>, others: seq<PendingHook>)
    requires Reports(snaps, requests, a, events) && Reports(snaps, requests, b, others)
    ensures events == others
  {
    hide FirstFirst, Balanced, InTurn;
    ReportsAgree(snaps, requests, a, b, |a|);
    assert a[..|a|] == a && b[..|b|] == b;
  }

  lemma AnsweredOnce(snaps: Snapshots, requests: seq<Request>, q: Request)
    ensures Answered(snaps, requests + [q]) == Answered(snaps, requests) + if Finds(snaps, requests, q) then [q] else []
  {
    assert (requests + [q])[..|requests|] == requests;
  }

  /** A request whose key is exhausted, or that has no snapshot, is not answered. */
  lemma NotItsTurn(snaps: Snapshots, requests: seq<Request>, q: Request, reports: seq<Report>)
    requires InTurn(snaps, requests, reports) && Balanced(snaps, requests, reports)
    requires q.issueID in snaps ==> Matching(snaps[q.issueID].dependencies, q.key) <= Used(reports, q.issueID)
    ensures InTurn(snaps, requests + [q], reports)
  {
    hide Used, Matching, Asked;
    AnsweredOnce(snaps, requests, q);
    if q.issueID in snaps {
      assert IsBalanced(snaps, requests, reports, q.issueID, q.key);
      var persisted := Matching(snaps[q.issueID].dependencies, q.key);
      assert Used(reports, q.issueID) * persisted == persisted;
    }
  }

  /** A request that takes an unused record is the next one answered. */
  lemma ItsTurn(snaps: Snapshots, requests: seq<Request>, q: Request, reports: seq<Report>, r: Report)
    requires InTurn(snaps, requests, reports) && Balanced(snaps, requests, reports)
    requires Answers(snaps, r, q) && r.index !in Used(reports, r.issueID)
    ensures InTurn(snaps, requests + [q], reports + [r])
  {
    hide Used, Asked;
    AnsweredOnce(snaps, requests, q);
    assert IsBalanced(snaps, requests, reports, q.issueID, q.key);
    var persisted := Matching(snaps[q.issueID].dependencies, q.key);
    assert r.index in persisted;
    OneMoreInside(Used(reports, q.issueID), persisted, r.index);
  }

  lemma FirstFirstOneMore(snaps: Snapshots, reports: seq<Report>, r: Report)
    requires FirstFirst(snaps, reports)
    requires forall i | 0 <= i < r.index && HaveOneKey(snaps, r, i) :: i in Used(reports, r.issueID)
    ensures FirstFirst(snaps, reports + [r])
  {
    hide HaveOneKey;
    var reports' := reports + [r];
    forall k, i | 0 <= k < |reports'| && 0 <= i < reports'[k].index && HaveOneKey(snaps, reports'[k], i)
      ensures Report(reports'[k].issueID, i) in reports'[..k]
    {
      if k < |reports| {
        assert reports'[..k] == reports[..k];
      } else {
        assert reports'[..k] == reports;
      }
    }
  }

  lemma EarlierAreUsed(snaps: Snapshots, state: HookState, reports: seq<Report>, dep: Dependency, r: Report)
    requires AllInRange(snaps, reports) && InRange(snaps, r) && StateAgrees(snaps, state, reports, r.issueID)
    requires SameDependency(snaps[r.issueID].dependencies[r.index], dep, r.issueID)
    requires forall i | 0 <= i < r.index && SameDependency(state.snapshot.dependencies[i], dep, r.issueID) :: state.used[i]
    ensures forall i | 0 <= i < r.index && HaveOneKey(snaps, r, i) :: i in Used(reports, r.issueID)
  {
    hide Used;
  }

  ghost predicate InLoop(snaps: Snapshots, requests: seq<Request>, states: map<ID, HookState>, reports: seq<Report>,
                         events: seq<PendingHook>)
  {
    Reports(snaps, requests, reports, events) && StatesAgree(snaps, states, reports)
  }

  /** dependencyHookEvents; an issue that cannot be read, with its records, has no snapshot. */
  method DependencyHookEvents(issues: seq<Option<Issue>>, snaps: Snapshots)
    returns (events: seq<PendingHook>)
    ensures exists reports :: Reports(snaps, RequestsOf(issues), reports, events)
  {
    hide InLoop;
    events := [];
    ghost var reports: seq<Report> := [];
    var states: map<ID, HookState> := map[];
    ghost var requests: seq<Request> := [];
    InLoopAtStart(snaps);
    for k := 0 to |issues|
      invariant requests == RequestsOf(issues[..k])
      invariant InLoop(snaps, requests, states, reports, events)
    {
      assert issues[..k + 1][..k] == issues[..k];
      var issue := issues[k];
      if issue.None? {
        continue;
      }
      events, states, reports := ReportIssue(snaps, requests, issue.value, events, states, reports);
      requests := requests + RequestsOfIssue(issue.value, issue.value.dependencies);
    }
    assert issues[..|issues|] == issues;
    LoopReports(snaps, requests, states, reports, events);
  }

  lemma InLoopAtStart(snaps: Snapshots)
    ensures InLoop(snaps, [], map[], [], [])
  {
  }

  lemma LoopReports(snaps: Snapshots, requests: seq<Request>, states: map<ID, HookState>, reports: seq<Report>,
                    events: seq<PendingHook>)
    requires InLoop(snaps, requests, states, reports, events)
    ensures Reports(snaps, requests, reports, events)
  {
  }

  /** The inner loop, over the dependencies of one issue. */
  method ReportIssue(snaps: Snapshots, ghost requests: seq<Request>, issue: Issue, events: seq<PendingHook>,
                     states: map<ID, HookState>, ghost reports: seq<Report>)
    returns (events': seq<PendingHook>, states': map<ID, HookState>, ghost reports': seq<Report>)
    requires InLoop(snaps, requests, states, reports, events)
    ensures InLoop(snaps, requests + RequestsOfIssue(issue, issue.dependencies), states', reports', events')
  {
    hide InLoop, RequestsOfIssue;
    events', states', reports' := events, states, reports;
    var deps := issue.dependencies;
    NoRequests(issue);
    assert deps[..0] == [] && requests + [] == requests;
    ghost var asked := requests;
    for j := 0 to |deps|
      invariant asked == requests + RequestsOfIssue(issue, deps[..j])
      invariant InLoop(snaps, asked, states', reports', events')
    {
      RequestsNext(issue, deps, j);
      if deps[j].Some? {
        var id := if deps[j].value.issueID == "" then issue.id else deps[j].value.issueID;
        if id != "" {
          events', states', reports' := ReportOne(snaps, asked, deps[j].value, id, events', states', reports');
        }
      }
      assert asked + [] == asked;
      asked := asked + RequestOf(issue, deps[j]);
    }
    assert deps[..|deps|] == deps;
  }

  lemma NoRequests(issue: Issue)
    ensures RequestsOfIssue(issue, []) == []
  {
  }

  lemma RequestsNext(issue: Issue, deps: seq<Option<Dependency>>, j: nat)
    requires j < |deps|
    ensures RequestsOfIssue(issue, deps[..j + 1]) == RequestsOfIssue(issue, deps[..j]) + RequestOf(issue, deps[j])
  {
    assert deps[..j + 1][..j] == deps[..j];
  }

  /** One request of the loop. */
  method ReportOne(snaps: Snapshots, ghost requests: seq<Request>, dep: Dependency, id: ID, events: seq<PendingHook>,
                   states: map<ID, HookState>, ghost reports: seq<Report>)
    returns (events': seq<PendingHook>, states': map<ID, HookState>, ghost reports': seq<Report>)
    requires InLoop(snaps, requests, states, reports, events)
    ensures InLoop(snaps, requests + [Request(id, KeyOf(dep, id))], states', reports', events')
  {
    hide InLoop, StateAgrees;
    events', states', reports' := events, states, reports;
    if id !in states {
      if id !in snaps {
        NotReadable(snaps, requests, states, reports, events, dep, id);
        return;
      }
      states' := states[id := HookState(snaps[id], seq(|snaps[id].dependencies|, _ => false), [])];
      NewState(snaps, requests, states, reports, events, id);
    }
    StateInLoop(snaps, requests, states', reports, events, id);
    var state, at := Take(states'[id], dep, id);
    if at.None? {
      Exhausted(snaps, requests, states', reports, events, dep, id);
      return;
    }
    Taken(snaps, requests, states', reports, events, dep, id, at.value);
    var persisted := state.snapshot.dependencies[at.value];
    state := state.(emitted := state.emitted + [persisted]);
    events' := events + [PendingHook(OnUpdate, state.snapshot.(dependencies := state.emitted))];
    reports' := reports + [Report(id, at.value)];
    states' := states'[id := state];
  }

  lemma NotReadable(snaps: Snapshots, requests: seq<Request>, states: map<ID, HookState>, reports: seq<Report>,
                    events: seq<PendingHook>, dep: Dependency, id: ID)
    requires InLoop(snaps, requests, states, reports, events) && id !in snaps
    ensures InLoop(snaps, requests + [Request(id, KeyOf(dep, id))], states, reports, events)
  {
    hide Follows, FirstFirst, Balanced, InTurn, StatesAgree;
    NotItsTurn(snaps, requests, Request(id, KeyOf(dep, id)), reports);
    NothingLeft(snaps, requests, id, KeyOf(dep, id), reports);
  }

  /** An issue's state is made when it is first asked about. */
  lemma NewState(snaps: Snapshots, requests: seq<Request>, states: map<ID, HookState>, reports: seq<Report>,
                 events: seq<PendingHook>, id: ID)
    requires InLoop(snaps, requests, states, reports, events) && id in snaps && id !in states
    ensures InLoop(snaps, requests, states[id := HookState(snaps[id], seq(|snaps[id].dependencies|, _ => false), [])],
                   reports, events)
  {
    hide Balanced, InTurn, Used, Emitted, FirstFirst;
  }

  lemma StateInLoop(snaps: Snapshots, requests: seq<Request>, states: map<ID, HookState>, reports: seq<Report>,
                    events: seq<PendingHook>, id: ID)
    requires InLoop(snaps, requests, states, reports, events) && id in states
    ensures id in snaps && AllInRange(snaps, reports) && StateAgrees(snaps, states[id], reports, id)
    ensures states[id].snapshot == snaps[id] && |states[id].used| == |snaps[id].dependencies|
  {
    hide Balanced, InTurn, Used, Emitted, FirstFirst;
  }

  lemma Exhausted(snaps: Snapshots, requests: seq<Request>, states: map<ID, HookState>, reports: seq<Report>,
                  events: seq<PendingHook>, dep: Dependency, id: ID)
    requires InLoop(snaps, requests, states, reports, events) && id in states
    requires |states[id].used| == |states[id].snapshot.dependencies|
    requires forall i | 0 <= i < |states[id].used| && SameDependency(states[id].snapshot.dependencies[i], dep, id) ::
               states[id].used[i]
    ensures InLoop(snaps, requests + [Request(id, KeyOf(dep, id))], states, reports, events)
  {
    StateInLoop(snaps, requests, states, reports, events, id);
    AllUsed(snaps, states[id], reports, dep, id);
    NotItsTurn(snaps, requests, Request(id, KeyOf(dep, id)), reports);
    NothingLeft(snaps, requests, id, KeyOf(dep, id), reports);
    hide Follows, FirstFirst, Balanced, InTurn, StatesAgree;
  }

  lemma Taken(snaps: Snapshots, requests: seq<Request>, states: map<ID, HookState>, reports: seq<Report>,
              events: seq<PendingHook>, dep: Dependency, id: ID, at: nat)
    requires InLoop(snaps, requests, states, reports, events) && id in states
    requires |states[id].used| == |states[id].snapshot.dependencies| && at < |states[id].used| && !states[id].used[at]
    requires SameDependency(states[id].snapshot.dependencies[at], dep, id)
    requires forall i | 0 <= i < at && SameDependency(states[id].snapshot.dependencies[i], dep, id) :: states[id].used[i]
    ensures var state := states[id].(used := states[id].used[at := true],
                                     emitted := states[id].emitted + [states[id].snapshot.dependencies[at]]);
            InLoop(snaps, requests + [Request(id, KeyOf(dep, id))], states[id := state], reports + [Report(id, at)],
                   events + [PendingHook(OnUpdate, state.snapshot.(dependencies := state.emitted))])
  {
    hide Balanced, InTurn, Used, Emitted, FirstFirst, Follows, StatesAgree;
    StateInLoop(snaps, requests, states, reports, events, id);
    var r := Report(id, at);
    SameIsHasKey(snaps[id].dependencies[at], dep, id);
    OneMore(snaps, requests, id, KeyOf(dep, id), reports, at);
    ItsTurn(snaps, requests, Request(id, KeyOf(dep, id)), reports, r);
    EarlierAreUsed(snaps, states[id], reports, dep, r);
    FirstFirstOneMore(snaps, reports, r);
    var state := states[id].(used := states[id].used[at := true], emitted := states[id].emitted + [snaps[id].dependencies[at]]);
    FollowsOneMore(snaps, reports, events, r, PendingHook(OnUpdate, state.snapshot.(dependencies := state.emitted)));
    StatesOneMore(snaps, states, reports, r, state);
  }

  lemma AllUsed(snaps: Snapshots, state: HookState, reports: seq<Report>, dep: Dependency, id: ID)
    requires (forall r | r in reports :: InRange(snaps, r)) && id in snaps && StateAgrees(snaps, state, reports, id)
    requires forall i | 0 <= i < |state.used| && SameDependency(state.snapshot.dependencies[i], dep, id) :: state.used[i]
    ensures Matching(snaps[id].dependencies, KeyOf(dep, id)) <= Used(reports, id)
  {
    forall i | i in Matching(snaps[id].dependencies, KeyOf(dep, id)) ensures i in Used(reports, id) {
      SameIsHasKey(snaps[id].dependencies[i], dep, id);
    }
  }

  ghost predicate AllInRange(snaps: Snapshots, reports: seq<Report>) {
    forall r | r in reports :: InRange(snaps, r)
  }

  lemma OneMoreInRange(snaps: Snapshots, reports: seq<Report>, r: Report)
    requires AllInRange(snaps, reports) && InRange(snaps, r)
    ensures AllInRange(snaps, reports + [r])
  {
    assert forall q | q in reports + [r] :: q in reports || q == r;
  }

  lemma EmittedOnce(snaps: Snapshots, reports: seq<Report>, r: Report, id: ID)
    requires AllInRange(snaps, reports) && InRange(snaps, r) && AllInRange(snaps, reports + [r])
    ensures Emitted(snaps, reports + [r], id)
            == Emitted(snaps, reports, id) + if r.issueID == id then [snaps[id].dependencies[r.index]] else []
  {
    assert (reports + [r])[..|reports|] == reports;
  }

  lemma StateOneMore(snaps: Snapshots, reports: seq<Report>, r: Report, id: ID, state: HookState, state': HookState)
    requires AllInRange(snaps, reports) && InRange(snaps, r) && id in snaps && AllInRange(snaps, reports + [r])
    requires StateAgrees(snaps, state, reports, id) && (r.issueID == id ==> r.index < |state.used|)
    requires state' == if r.issueID == id
                       then state.(used := state.used[r.index := true],
                                   emitted := state.emitted + [snaps[id].dependencies[r.index]])
                       else state
    ensures StateAgrees(snaps, state', reports + [r], id)
  {
    hide Used, Emitted;
    UsedOnce(reports, r, id);
    EmittedOnce(snaps, reports, r, id);
  }

  lemma StatesOneMore(snaps: Snapshots, states: map<ID, HookState>, reports: seq<Report>, r: Report, state: HookState)
    requires AllInRange(snaps, reports) && InRange(snaps, r) && StatesAgree(snaps, states, reports)
    requires r.issueID in states && r.index < |states[r.issueID].used|
    requires state == states[r.issueID].(used := states[r.issueID].used[r.index := true],
                      emitted := states[r.issueID].emitted + [snaps[r.issueID].dependencies[r.index]])
    ensures AllInRange(snaps, reports + [r])
    ensures StatesAgree(snaps, states[r.issueID := state], reports + [r])
  {
    hide Used, Emitted, StateAgrees;
    OneMoreInRange(snaps, reports, r);
    var states' := states[r.issueID := state];
    forall id | id in states' ensures id in snaps && StateAgrees(snaps, states'[id], reports + [r], id) {
      StateOneMore(snaps, reports, r, id, states[id], states'[id]);
    }
    forall id | id !in states' ensures Used(reports + [r], id) == {} && Emitted(snaps, reports + [r], id) == [] {
      UsedOnce(reports, r, id);
      EmittedOnce(snaps, reports, r, id);
    }
  }
}
