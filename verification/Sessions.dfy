/**
The manager's sessions and cached stores. Every section under the mutex, and
every store opened or closed outside it, is one step; any interleaving of the
steps of any number of opens and closes is a run.
*/
module Sessions {
  import opened Wrappers
  import opened Sets

  type SessionID = string
  type StoreID = nat
  type Ref = nat

  datatype Key = Key(beadsDir: string, database: string, branch: string)

  /** `storeRef` is the cached entry that the session counts for; a bootstrap session has its store to itself. */
  datatype Session = Session(key: Key, store: StoreID, storeRef: Option<Ref>)

  datatype Entry = Entry(key: Key, store: StoreID, refs: int)

  /** What an opener that holds a new store has yet to install. */
  datatype Opener = Opener(key: Key, bootstrap: bool)

  /**
  The manager's fields, and what the calls in flight hold: `openers` have a new
  store and have not taken the lock yet, `releasing` closes are between their two
  sections, `owed` stores are about to be closed. `created` and `closed` are the past.
  */
  datatype State = State(
    sessions: map<SessionID, Session>,
    stores: map<Key, Ref>,
    entries: map<Ref, Entry>,
    openers: map<StoreID, Opener>,
    releasing: multiset<Ref>,
    owed: set<StoreID>,
    created: set<StoreID>,
    closed: multiset<StoreID>)

  const START := State(map[], map[], map[], map[], multiset{}, {}, {}, multiset{})

  datatype Event =
    | Acquire(key: Key, id: SessionID)
    | NewStore(key: Key, store: StoreID, bootstrap: bool)
    | ConfigFails(store: StoreID)
    | Install(store: StoreID, id: SessionID, ref: Ref)
    | CloseSession(id: SessionID)
    | Release(ref: Ref)
    | CloseStore(store: StoreID)
    | CloseAll

  // ----- steps -----

  ghost predicate Acquires(s: State, key: Key, id: SessionID, s': State) {
    && id !in s.sessions
    && if key in s.stores && s.stores[key] in s.entries then
         var r := s.stores[key];
         var e := s.entries[r];
         s' == s.(entries := s.entries[r := e.(refs := e.refs + 1)],
                  sessions := s.sessions[id := Session(key, e.store, Some(r))])
       else s' == s
  }

  /** The section that ends an open: join the entry that won the race, or become the entry. */
  ghost predicate Installs(s: State, store: StoreID, id: SessionID, ref: Ref, s': State) {
    && store in s.openers && id !in s.sessions && ref !in s.entries
    && var Opener(key, bootstrap) := s.openers[store];
       var t := s.(openers := s.openers - {store});
       if bootstrap then
         s' == t.(sessions := s.sessions[id := Session(key, store, None)])
       else if key in s.stores && s.stores[key] in s.entries then
         var r := s.stores[key];
         var e := s.entries[r];
         s' == t.(entries := s.entries[r := e.(refs := e.refs + 1)],
                  sessions := s.sessions[id := Session(key, e.store, Some(r))],
                  owed := s.owed + {store})
       else
         s' == t.(entries := s.entries[ref := Entry(key, store, 1)],
                  stores := s.stores[key := ref],
                  sessions := s.sessions[id := Session(key, store, Some(ref))])
  }

  /** The first section of a close, and for a session without an entry the decision to close its store. */
  ghost predicate ClosesSession(s: State, id: SessionID, s': State) {
    if id !in s.sessions then s' == s
    else
      var session := s.sessions[id];
      var t := s.(sessions := s.sessions - {id});
      match session.storeRef
      case Some(r) => s' == t.(releasing := s.releasing + multiset{r})
      case None => s' == t.(owed := s.owed + {session.store})
  }

  /** The second section of a close. */
  ghost predicate Releases(s: State, ref: Ref, s': State) {
    && ref in s.releasing && ref in s.entries
    && var e := s.entries[ref].(refs := s.entries[ref].refs - 1);
       var t := s.(releasing := s.releasing - multiset{ref}, entries := s.entries[ref := e]);
       if e.refs > 0 then s' == t
       else s' == t.(stores := s.stores - {e.key}, owed := s.owed + {e.store})
  }

  ghost predicate ClosesAll(s: State, s': State) {
    s' == s.(sessions := map[], stores := map[], owed := s.owed + BootStores(s.sessions) + CachedStores(s.stores, s.entries))
  }

  /** The stores of the sessions that have one to themselves. */
  function BootStores(sessions: map<SessionID, Session>): set<StoreID> {
    set id | id in sessions && sessions[id].storeRef.None? :: sessions[id].store
  }

  function CachedStores(stores: map<Key, Ref>, entries: map<Ref, Entry>): set<StoreID> {
    set k | k in stores && stores[k] in entries :: entries[stores[k]].store
  }

  ghost predicate Next(s: State, e: Event, s': State) {
    match e
    case Acquire(key, id) => Acquires(s, key, id, s')
    case NewStore(key, store, bootstrap) =>
      store !in s.created && s' == s.(created := s.created + {store}, openers := s.openers[store := Opener(key, bootstrap)])
    case ConfigFails(store) =>
      && store in s.openers && !s.openers[store].bootstrap
      && s' == s.(openers := s.openers - {store}, owed := s.owed + {store})
    case Install(store, id, ref) => Installs(s, store, id, ref, s')
    case CloseSession(id) => ClosesSession(s, id, s')
    case Release(ref) => Releases(s, ref, s')
    case CloseStore(store) =>
      store in s.owed && s' == s.(owed := s.owed - {store}, closed := s.closed + multiset{store})
    case CloseAll => s.releasing == multiset{} && ClosesAll(s, s')
  }

  // ----- reference counts -----

  function Holders(sessions: map<SessionID, Session>, ref: Ref): set<SessionID> {
    set id | id in sessions && sessions[id].storeRef == Some(ref)
  }

  /** The live sessions on an entry and the closes between their two sections. */
  function Owners(s: State, ref: Ref): nat {
    |Holders(s.sessions, ref)| + s.releasing[ref]
  }

  predicate IsCached(s: State, ref: Ref) {
    ref in s.entries && s.entries[ref].key in s.stores && s.stores[s.entries[ref].key] == ref
  }

  /** A cached entry counts its owners and has one; the other entries have none. */
  ghost predicate Counted(s: State) {
    && (forall r | r in s.entries && IsCached(s, r) :: s.entries[r].refs == Owners(s, r) && Owners(s, r) >= 1)
    && (forall r: Ref | !IsCached(s, r) :: Owners(s, r) == 0)
  }

  ghost predicate KeysAgree(s: State) {
    forall k | k in s.stores :: s.stores[k] in s.entries && s.entries[s.stores[k]].key == k
  }

  ghost predicate SessionsAgree(s: State) {
    forall id | id in s.sessions && s.sessions[id].storeRef.Some? :: SessionAgrees(s.entries, s.sessions[id])
  }

  predicate SessionAgrees(entries: map<Ref, Entry>, session: Session)
    requires session.storeRef.Some?
  {
    var r := session.storeRef.value;
    r in entries && entries[r].store == session.store && entries[r].key == session.key
  }

  // ----- who must close a store -----

  datatype Home = InOpener | InEntry(ref: Ref) | InSession(id: SessionID) | Owed | Closed

  ghost predicate At(s: State, store: StoreID, h: Home) {
    match h
    case InOpener => store in s.openers
    case InEntry(r) => IsCached(s, r) && s.entries[r].store == store
    case InSession(id) => id in s.sessions && s.sessions[id] == Session(s.sessions[id].key, store, None)
    case Owed => store in s.owed
    case Closed => store in s.closed
  }

  /** Every opened store has exactly one home, and is closed at most once. */
  ghost predicate Homed(s: State) {
    && (forall x, h, h' | At(s, x, h) && At(s, x, h') :: h == h')
    && (forall x, h | At(s, x, h) :: x in s.created)
    && (forall x | x in s.created :: exists h :: At(s, x, h))
    && forall x :: s.closed[x] <= 1
  }

  ghost predicate Inv(s: State) {
    Counted(s) && KeysAgree(s) && SessionsAgree(s) && Homed(s)
  }

  /** At most one store changes its home: `from` may be nothing, for a new store. */
  ghost predicate Moves(s: State, s': State, x: StoreID, from: Option<Home>, to: Home) {
    && (from.Some? ==> At(s, x, from.value) && x in s.created)
    && (from.None? ==> x !in s.created)
    && s'.created == s.created + {x}
    && (forall y, h | y != x :: At(s', y, h) <==> At(s, y, h))
    && At(s', x, to) && (forall h :: At(s', x, h) ==> h == to || (At(s, x, h) && Some(h) != from))
    && forall y :: s'.closed[y] <= 1
  }

  ghost predicate HomesStay(s: State, s': State) {
    s'.created == s.created && s'.closed == s.closed && forall y, h :: At(s', y, h) <==> At(s, y, h)
  }

  lemma MoveKeepsHomed(s: State, s': State, x: StoreID, from: Option<Home>, to: Home)
    requires Homed(s) && Moves(s, s', x, from, to)
    ensures Homed(s')
  {
    hide At;
    forall y | y in s'.created ensures exists h :: At(s', y, h) {
      if y != x {
        var h :| At(s, y, h);
        assert At(s', y, h);
      } else {
        assert At(s', x, to);
      }
    }
  }

  lemma StayKeepsHomed(s: State, s': State)
    requires Homed(s) && HomesStay(s, s')
    ensures Homed(s')
  {
    hide At;
    forall y | y in s'.created ensures exists h :: At(s', y, h) {
      var h :| At(s, y, h);
      assert At(s', y, h);
    }
  }

  lemma OwnersAfterOpen(s: State, s': State, id: SessionID, session: Session, r: Ref)
    requires id !in s.sessions && s'.sessions == s.sessions[id := session] && s'.releasing == s.releasing
    ensures Owners(s', r) == Owners(s, r) + if session.storeRef == Some(r) then 1 else 0
  {
    if session.storeRef == Some(r) {
      assert Holders(s'.sessions, r) == Holders(s.sessions, r) + {id};
    } else {
      assert Holders(s'.sessions, r) == Holders(s.sessions, r);
    }
  }

  /** The first section of a close turns a live session into a pending release. */
  lemma HoldersAfterClose(sessions: map<SessionID, Session>, id: SessionID, r: Ref)
    requires id in sessions
    ensures |Holders(sessions - {id}, r)| == |Holders(sessions, r)| - if sessions[id].storeRef == Some(r) then 1 else 0
  {
    var gone: set<SessionID> := if sessions[id].storeRef == Some(r) then {id} else {};
    assert Holders(sessions, r) == Holders(sessions - {id}, r) + gone;
  }

  /** The first section of a close turns a live session into a pending release. */
  lemma OwnersAfterClose(s: State, s': State, id: SessionID, r: Ref)
    requires id in s.sessions && s'.sessions == s.sessions - {id}
    requires s'.releasing == match s.sessions[id].storeRef
                             case Some(q) => s.releasing + multiset{q}
                             case None => s.releasing
    ensures Owners(s', r) == Owners(s, r)
  {
    hide Holders;
    HoldersAfterClose(s.sessions, id, r);
  }

  lemma SessionAdded(s: State, s': State, id: SessionID, session: Session)
    requires SessionsAgree(s) && s'.sessions == s.sessions[id := session]
    requires forall r | r in s.entries ::
               r in s'.entries && s'.entries[r].store == s.entries[r].store && s'.entries[r].key == s.entries[r].key
    requires session.storeRef.Some? ==> SessionAgrees(s'.entries, session)
    ensures SessionsAgree(s')
  {
    forall i | i in s'.sessions && s'.sessions[i].storeRef.Some?
      ensures SessionAgrees(s'.entries, s'.sessions[i])
    {
      assert i != id ==> SessionAgrees(s.entries, s.sessions[i]);
    }
  }

  /** What joining a cached entry changes, for an opener that found it and for one that lost the race. */
  ghost predicate Joins(s: State, key: Key, id: SessionID, s': State) {
    && id !in s.sessions && key in s.stores && s.stores[key] in s.entries
    && s'.stores == s.stores && s'.releasing == s.releasing
    && var r := s.stores[key];
       var e := s.entries[r];
       && s'.entries == s.entries[r := e.(refs := e.refs + 1)]
       && s'.sessions == s.sessions[id := Session(key, e.store, Some(r))]
  }

  lemma JoinKeepsCounts(s: State, key: Key, id: SessionID, s': State)
    requires Counted(s) && KeysAgree(s) && Joins(s, key, id, s')
    ensures Counted(s') && KeysAgree(s')
  {
    hide Owners;
    var q := s.stores[key];
    var session := Session(key, s.entries[q].store, Some(q));
    forall r: Ref ensures Owners(s', r) == Owners(s, r) + (if r == q then 1 else 0) && IsCached(s', r) == IsCached(s, r) {
      OwnersAfterOpen(s, s', id, session, r);
    }
  }

  lemma JoinKeepsSessions(s: State, key: Key, id: SessionID, s': State)
    requires KeysAgree(s) && SessionsAgree(s) && Joins(s, key, id, s')
    ensures SessionsAgree(s')
  {
    var q := s.stores[key];
    SessionAdded(s, s', id, Session(key, s.entries[q].store, Some(q)));
  }

  /** Joining moves no store: the entry stays cached and the session has no store of its own. */
  lemma JoinKeepsHomes(s: State, key: Key, id: SessionID, s': State, y: StoreID, h: Home)
    requires KeysAgree(s) && Joins(s, key, id, s') && (h.InEntry? || h.InSession?)
    ensures At(s', y, h) <==> At(s, y, h)
  {
  }

  lemma AcquireKeeps(s: State, key: Key, id: SessionID, s': State)
    requires Inv(s) && Acquires(s, key, id, s')
    ensures Inv(s')
  {
    hide Homed, Counted, SessionsAgree, At;
    if key in s.stores && s.stores[key] in s.entries {
      JoinKeepsCounts(s, key, id, s');
      JoinKeepsSessions(s, key, id, s');
      forall y, h ensures At(s', y, h) <==> At(s, y, h) {
        AcquireKeepsHome(s, key, id, s', y, h);
      }
      StayKeepsHomed(s, s');
    }
  }

  lemma AcquireKeepsHome(s: State, key: Key, id: SessionID, s': State, y: StoreID, h: Home)
    requires KeysAgree(s) && Joins(s, key, id, s')
    requires s'.openers == s.openers && s'.owed == s.owed && s'.closed == s.closed
    ensures At(s', y, h) <==> At(s, y, h)
  {
    if h.InEntry? || h.InSession? {
      JoinKeepsHomes(s, key, id, s', y, h);
    }
  }

  lemma InstallLateKeeps(s: State, store: StoreID, id: SessionID, s': State)
    requires Inv(s) && store in s.openers
    requires Joins(s, s.openers[store].key, id, s')
    requires s'.openers == s.openers - {store} && s'.owed == s.owed + {store}
    requires s'.created == s.created && s'.closed == s.closed
    ensures Inv(s')
  {
    hide Counted, SessionsAgree, Joins;
    var key := s.openers[store].key;
    JoinKeepsCounts(s, key, id, s');
    JoinKeepsSessions(s, key, id, s');
    assert At(s, store, InOpener);
    forall y, h: Home | h.InEntry? || h.InSession? ensures At(s', y, h) <==> At(s, y, h) {
      JoinKeepsHomes(s, key, id, s', y, h);
    }
    hide KeysAgree;
    assert Moves(s, s', store, Some(InOpener), Owed);
    MoveKeepsHomed(s, s', store, Some(InOpener), Owed);
  }

  lemma InstallBootstrapKeeps(s: State, store: StoreID, id: SessionID, s': State)
    requires Inv(s) && store in s.openers && id !in s.sessions
    requires s' == s.(openers := s.openers - {store},
                      sessions := s.sessions[id := Session(s.openers[store].key, store, None)])
    ensures Inv(s')
  {
    hide Owners, SessionsAgree, SessionAgrees;
    var session := Session(s.openers[store].key, store, None);
    SessionAdded(s, s', id, session);
    forall r: Ref ensures Owners(s', r) == Owners(s, r) && IsCached(s', r) == IsCached(s, r) {
      OwnersAfterOpen(s, s', id, session, r);
    }
    assert At(s, store, InOpener);
    assert Moves(s, s', store, Some(InOpener), InSession(id));
    MoveKeepsHomed(s, s', store, Some(InOpener), InSession(id));
  }

  lemma InstallFirstKeeps(s: State, store: StoreID, id: SessionID, ref: Ref, s': State)
    requires Inv(s) && store in s.openers && id !in s.sessions && ref !in s.entries
    requires Installs(s, store, id, ref, s') && !s.openers[store].bootstrap && s.openers[store].key !in s.stores
    ensures Inv(s')
  {
    hide Counted, KeysAgree, SessionsAgree, Homed, IsCached;
    SessionAdded(s, s', id, Session(s.openers[store].key, store, Some(ref)));
    InstallFirstKeepsCounts(s, store, id, ref, s');
    InstallFirstMoves(s, store, id, ref, s');
    MoveKeepsHomed(s, s', store, Some(InOpener), InEntry(ref));
  }

  lemma InstallFirstMoves(s: State, store: StoreID, id: SessionID, ref: Ref, s': State)
    requires Homed(s) && KeysAgree(s) && Installs(s, store, id, ref, s')
    requires !s.openers[store].bootstrap && s.openers[store].key !in s.stores
    ensures Moves(s, s', store, Some(InOpener), InEntry(ref))
  {
    assert At(s, store, InOpener);
    assert forall r: Ref | r != ref :: IsCached(s', r) == IsCached(s, r);
  }

  lemma InstallFirstKeepsCounts(s: State, store: StoreID, id: SessionID, ref: Ref, s': State)
    requires Counted(s) && KeysAgree(s) && Installs(s, store, id, ref, s')
    requires !s.openers[store].bootstrap && s.openers[store].key !in s.stores
    ensures Counted(s') && KeysAgree(s')
  {
    hide Owners;
    var session := Session(s.openers[store].key, store, Some(ref));
    forall r: Ref
      ensures Owners(s', r) == Owners(s, r) + (if r == ref then 1 else 0)
      ensures r != ref ==> IsCached(s', r) == IsCached(s, r)
    {
      OwnersAfterOpen(s, s', id, session, r);
    }
  }

  lemma InstallKeeps(s: State, store: StoreID, id: SessionID, ref: Ref, s': State)
    requires Inv(s) && Installs(s, store, id, ref, s')
    ensures Inv(s')
  {
    hide Homed, Counted, SessionsAgree;
    var Opener(key, bootstrap) := s.openers[store];
    if bootstrap {
      InstallBootstrapKeeps(s, store, id, s');
    } else if key in s.stores {
      InstallLateKeeps(s, store, id, s');
    } else {
      InstallFirstKeeps(s, store, id, ref, s');
    }
  }

  lemma SessionRemoved(s: State, s': State, id: SessionID)
    requires SessionsAgree(s) && s'.sessions == s.sessions - {id} && s'.entries == s.entries
    ensures SessionsAgree(s')
  {
    forall i | i in s'.sessions && s'.sessions[i].storeRef.Some?
      ensures SessionAgrees(s'.entries, s'.sessions[i])
    {
      assert SessionAgrees(s.entries, s.sessions[i]);
    }
  }

  lemma CloseSessionKeepsCounts(s: State, id: SessionID, s': State)
    requires Counted(s) && KeysAgree(s) && ClosesSession(s, id, s')
    ensures Counted(s') && KeysAgree(s')
  {
    hide Owners;
    if id in s.sessions {
      forall r: Ref ensures Owners(s', r) == Owners(s, r) && IsCached(s', r) == IsCached(s, r) {
        OwnersAfterClose(s, s', id, r);
      }
    }
  }

  lemma CloseSessionKeeps(s: State, id: SessionID, s': State)
    requires Inv(s) && ClosesSession(s, id, s')
    ensures Inv(s')
  {
    hide Counted, SessionsAgree, KeysAgree, Homed, IsCached;
    if id in s.sessions {
      CloseSessionKeepsCounts(s, id, s');
      SessionRemoved(s, s', id);
      if s.sessions[id].storeRef.Some? {
        CloseMovesNothing(s, id, s');
        StayKeepsHomed(s, s');
      } else {
        CloseMoves(s, id, s');
        MoveKeepsHomed(s, s', s.sessions[id].store, Some(InSession(id)), Owed);
      }
    }
  }

  lemma CloseMovesNothing(s: State, id: SessionID, s': State)
    requires ClosesSession(s, id, s') && id in s.sessions && s.sessions[id].storeRef.Some?
    ensures HomesStay(s, s')
  {
    assert forall r: Ref :: IsCached(s', r) == IsCached(s, r);
  }

  lemma CloseMoves(s: State, id: SessionID, s': State)
    requires Homed(s) && ClosesSession(s, id, s') && id in s.sessions && s.sessions[id].storeRef.None?
    ensures Moves(s, s', s.sessions[id].store, Some(InSession(id)), Owed)
  {
    assert At(s, s.sessions[id].store, InSession(id));
    assert forall r: Ref :: IsCached(s', r) == IsCached(s, r);
  }

  lemma EntryChanged(s: State, s': State, ref: Ref, refs: int)
    requires SessionsAgree(s) && ref in s.entries && s'.sessions == s.sessions
    requires s'.entries == s.entries[ref := s.entries[ref].(refs := refs)]
    ensures SessionsAgree(s')
  {
    forall i | i in s'.sessions && s'.sessions[i].storeRef.Some?
      ensures SessionAgrees(s'.entries, s'.sessions[i])
    {
      assert SessionAgrees(s.entries, s.sessions[i]);
    }
  }

  lemma OwnersAfterRelease(s: State, s': State, ref: Ref, r: Ref)
    requires ref in s.releasing && s'.sessions == s.sessions && s'.releasing == s.releasing - multiset{ref}
    ensures Owners(s, ref) >= 1
    ensures Owners(s', r) == Owners(s, r) - if r == ref then 1 else 0
  {
  }

  lemma ReleaseKeepsCounts(s: State, ref: Ref, s': State)
    requires Counted(s) && KeysAgree(s) && Releases(s, ref, s')
    ensures Counted(s') && KeysAgree(s') && IsCached(s, ref)
  {
    hide Owners;
    forall r: Ref ensures Owners(s', r) == Owners(s, r) - (if r == ref then 1 else 0) && Owners(s, ref) >= 1 {
      OwnersAfterRelease(s, s', ref, r);
    }
    assert IsCached(s, ref);
    assert forall r: Ref | r != ref :: IsCached(s', r) == IsCached(s, r);
  }

  lemma ReleaseKeeps(s: State, ref: Ref, s': State)
    requires Inv(s) && Releases(s, ref, s')
    ensures Inv(s')
  {
    hide SessionsAgree, Counted, Homed, KeysAgree, IsCached;
    EntryChanged(s, s', ref, s.entries[ref].refs - 1);
    ReleaseKeepsCounts(s, ref, s');
    if s.entries[ref].refs > 1 {
      ReleaseMovesNothing(s, ref, s');
      StayKeepsHomed(s, s');
    } else {
      ReleaseMoves(s, ref, s');
      MoveKeepsHomed(s, s', s.entries[ref].store, Some(InEntry(ref)), Owed);
    }
  }

  lemma ReleaseMovesNothing(s: State, ref: Ref, s': State)
    requires IsCached(s, ref) && Releases(s, ref, s') && s.entries[ref].refs > 1
    ensures HomesStay(s, s')
  {
    assert forall r: Ref | r != ref :: IsCached(s', r) == IsCached(s, r);
  }

  lemma ReleaseMoves(s: State, ref: Ref, s': State)
    requires IsCached(s, ref) && KeysAgree(s) && Homed(s) && Releases(s, ref, s') && s.entries[ref].refs <= 1
    ensures Moves(s, s', s.entries[ref].store, Some(InEntry(ref)), Owed)
  {
    assert At(s, s.entries[ref].store, InEntry(ref));
    forall r: Ref | r != ref ensures IsCached(s', r) == IsCached(s, r) {
    }
    assert !IsCached(s', ref);
  }

  /** Opening a new store, giving one up, and closing one touch no session and no entry. */
  ghost predicate OnlyStores(s: State, s': State) {
    s'.sessions == s.sessions && s'.stores == s.stores && s'.entries == s.entries && s'.releasing == s.releasing
  }

  lemma OnlyStoresKeeps(s: State, s': State)
    requires OnlyStores(s, s') && Counted(s) && KeysAgree(s) && SessionsAgree(s)
    ensures Counted(s') && KeysAgree(s') && SessionsAgree(s')
    ensures forall r: Ref :: IsCached(s', r) == IsCached(s, r)
  {
    assert forall r: Ref :: IsCached(s', r) == IsCached(s, r) && Owners(s', r) == Owners(s, r);
  }

  lemma NewStoreKeeps(s: State, e: Event, s': State)
    requires Inv(s) && e.NewStore? && Next(s, e, s')
    ensures Inv(s')
  {
    hide Counted, KeysAgree, SessionsAgree, IsCached;
    OnlyStoresKeeps(s, s');
    MoveKeepsHomed(s, s', e.store, None, InOpener);
  }

  lemma ConfigFailsKeeps(s: State, e: Event, s': State)
    requires Inv(s) && e.ConfigFails? && Next(s, e, s')
    ensures Inv(s')
  {
    hide Counted, KeysAgree, SessionsAgree, IsCached;
    OnlyStoresKeeps(s, s');
    assert At(s, e.store, InOpener);
    MoveKeepsHomed(s, s', e.store, Some(InOpener), Owed);
  }

  lemma CloseStoreKeeps(s: State, e: Event, s': State)
    requires Inv(s) && e.CloseStore? && Next(s, e, s')
    ensures Inv(s')
  {
    hide Counted, KeysAgree, SessionsAgree, IsCached;
    OnlyStoresKeeps(s, s');
    assert At(s, e.store, Owed);
    assert !At(s, e.store, Closed);
    MoveKeepsHomed(s, s', e.store, Some(Owed), Closed);
  }

  lemma CloseAllKeeps(s: State, s': State)
    requires Inv(s) && s.releasing == multiset{} && ClosesAll(s, s')
    ensures Inv(s')
  {
    forall r: Ref ensures !IsCached(s', r) && Owners(s', r) == 0 {
      assert Holders(s'.sessions, r) == {};
    }
    forall y, h ensures At(s', y, h) ==> if h == Owed then y in s'.owed else At(s, y, h) {
    }
    CloseAllOwes(s, s');
    CloseAllHomed(s, s');
  }

  lemma CloseAllOwes(s: State, s': State)
    requires KeysAgree(s) && ClosesAll(s, s')
    ensures forall y, h: Home | (h.InEntry? || h.InSession?) && At(s, y, h) :: y in s'.owed
    ensures forall y | y in s'.owed && y !in s.owed :: exists h: Home :: (h.InEntry? || h.InSession?) && At(s, y, h)
  {
    forall y | y in s'.owed && y !in s.owed ensures exists h: Home :: (h.InEntry? || h.InSession?) && At(s, y, h) {
      if y in BootStores(s.sessions) {
        var id :| id in s.sessions && s.sessions[id].storeRef.None? && s.sessions[id].store == y;
        assert At(s, y, InSession(id));
      } else {
        var k :| k in s.stores && s.stores[k] in s.entries && s.entries[s.stores[k]].store == y;
        assert At(s, y, InEntry(s.stores[k]));
      }
    }
  }

  lemma CloseAllHomed(s: State, s': State)
    requires Homed(s) && s'.created == s.created && s'.closed == s.closed
    requires forall y, h: Home | h.InEntry? || h.InSession? :: !At(s', y, h)
    requires forall y, h: Home | h.InOpener? || h.Closed? :: At(s', y, h) <==> At(s, y, h)
    requires s.owed <= s'.owed
    requires forall y, h: Home | (h.InEntry? || h.InSession?) && At(s, y, h) :: y in s'.owed
    requires forall y | y in s'.owed && y !in s.owed :: exists h: Home :: (h.InEntry? || h.InSession?) && At(s, y, h)
    ensures Homed(s')
  {
    forall y, h: Home | At(s', y, h) ensures if h.Owed? then (y in s'.owed && y in s'.created) else At(s, y, h) {
      if h.Owed? && y in s.owed {
        assert At(s, y, Owed);
      }
    }
    forall y | y in s'.created ensures exists h :: At(s', y, h) {
      var h :| At(s, y, h);
      assert At(s', y, h) || At(s', y, Owed);
    }
    forall y, h, h' | At(s', y, h) && At(s', y, h') ensures h == h' {
      if y in s'.owed {
        var g: Home :| At(s, y, g) && (g.Owed? || g.InEntry? || g.InSession?);
      }
    }
  }

  lemma StepKeepsInv(s: State, e: Event, s': State)
    requires Inv(s) && Next(s, e, s')
    ensures Inv(s')
  {
    hide Inv;
    match e
    case Acquire(key, id) => AcquireKeeps(s, key, id, s');
    case Install(store, id, ref) => InstallKeeps(s, store, id, ref, s');
    case CloseSession(id) => CloseSessionKeeps(s, id, s');
    case Release(ref) => ReleaseKeeps(s, ref, s');
    case CloseAll => CloseAllKeeps(s, s');
    case NewStore(_, _, _) => NewStoreKeeps(s, e, s');
    case ConfigFails(_) => ConfigFailsKeeps(s, e, s');
    case CloseStore(_) => CloseStoreKeeps(s, e, s');
  }

  // ----- what holds in every interleaving -----

  ghost predicate Run(states: seq<State>, events: seq<Event>) {
    && |states| == |events| + 1 && states[0] == START
    && forall i | 0 <= i < |events| :: Next(states[i], events[i], states[i + 1])
  }

  lemma StartInv()
    ensures Inv(START)
  {
  }

  lemma {:induction false} RunKeepsInv(states: seq<State>, events: seq<Event>, i: nat)
    requires Run(states, events) && i < |states|
    ensures Inv(states[i])
    decreases i
  {
    hide Inv, Next;
    if i == 0 {
      StartInv();
    } else {
      RunKeepsInv(states, events, i - 1);
      assert Next(states[i - 1], events[i - 1], states[i]);
      StepKeepsInv(states[i - 1], events[i - 1], states[i]);
    }
  }

  /** A session on an entry keeps that entry cached, as the one entry of its key. */
  lemma SessionIsCached(s: State, id: SessionID)
    requires Inv(s) && id in s.sessions && s.sessions[id].storeRef.Some?
    ensures var r := s.sessions[id].storeRef.value;
            && IsCached(s, r) && s.entries[r].store == s.sessions[id].store
            && s.stores[s.sessions[id].key] == r
  {
    hide Homed, At;
    var r := s.sessions[id].storeRef.value;
    assert SessionAgrees(s.entries, s.sessions[id]);
    assert id in Holders(s.sessions, r);
  }

  /** At every point of every run, a live session's store is open, and sessions that share a key share one store. */
  lemma LiveStoresAreOpen(states: seq<State>, events: seq<Event>, i: nat, id: SessionID)
    requires Run(states, events) && i < |states| && id in states[i].sessions
    ensures var s := states[i];
            && s.sessions[id].store in s.created && s.sessions[id].store !in s.closed && s.sessions[id].store !in s.owed
    ensures var s := states[i];
            forall other | other in s.sessions && s.sessions[other].key == s.sessions[id].key
              && s.sessions[other].storeRef.Some? && s.sessions[id].storeRef.Some? ::
              s.sessions[other].store == s.sessions[id].store
  {
    var s := states[i];
    RunKeepsInv(states, events, i);
    hide Run, Counted, KeysAgree, SessionsAgree;
    var home := if s.sessions[id].storeRef.Some? then InEntry(s.sessions[id].storeRef.value) else InSession(id);
    if s.sessions[id].storeRef.Some? {
      SessionIsCached(s, id);
    }
    var x := s.sessions[id].store;
    assert At(s, x, home);
    assert x in s.closed ==> At(s, x, Closed);
    assert x in s.owed ==> At(s, x, Owed);
    forall other | other in s.sessions && s.sessions[other].key == s.sessions[id].key
      && s.sessions[other].storeRef.Some? && s.sessions[id].storeRef.Some?
      ensures s.sessions[other].store == s.sessions[id].store
    {
      SessionIsCached(s, other);
    }
  }

  /** Two live sessions use one store exactly when both count for an entry and have the same key. */
  lemma OneStoreIff(states: seq<State>, events: seq<Event>, i: nat, a: SessionID, b: SessionID)
    requires Run(states, events) && i < |states| && a in states[i].sessions && b in states[i].sessions && a != b
    ensures var x, y := states[i].sessions[a], states[i].sessions[b];
            x.store == y.store <==> x.storeRef.Some? && y.storeRef.Some? && x.key == y.key
  {
    var s := states[i];
    RunKeepsInv(states, events, i);
    hide Run, Counted, KeysAgree;
    var x, y := s.sessions[a], s.sessions[b];
    if x.storeRef.Some? {
      SessionIsCached(s, a);
    }
    if y.storeRef.Some? {
      SessionIsCached(s, b);
    }
    assert At(s, x.store, if x.storeRef.Some? then InEntry(x.storeRef.value) else InSession(a));
    assert At(s, y.store, if y.storeRef.Some? then InEntry(y.storeRef.value) else InSession(b));
    hide At;
  }

  /** At every point of every run, a cached entry's count is its live sessions plus the closes between their sections. */
  lemma CountsAreRight(states: seq<State>, events: seq<Event>, i: nat, key: Key)
    requires Run(states, events) && i < |states| && key in states[i].stores
    ensures var s := states[i];
            && s.stores[key] in s.entries
            && var r := s.stores[key];
               s.entries[r].key == key && s.entries[r].refs == |Holders(s.sessions, r)| + s.releasing[r] >= 1
  {
    RunKeepsInv(states, events, i);
    hide Homed;
    assert IsCached(states[i], states[i].stores[key]);
  }

  /** The second section of a close hands the store over for closing exactly when it gives up the last reference. */
  lemma ClosedWithTheLastReference(s: State, ref: Ref, s': State)
    requires Inv(s) && Next(s, Release(ref), s')
    ensures IsCached(s, ref) && s.entries[ref].store !in s.owed
    ensures s.entries[ref].store in s'.owed <==> |Holders(s.sessions, ref)| == 0 && s.releasing[ref] == 1
    ensures s.entries[ref].store in s'.owed <==> !IsCached(s', ref)
  {
    hide KeysAgree, SessionsAgree;
    OwnersAfterRelease(s, s', ref, ref);
    assert IsCached(s, ref);
    assert At(s, s.entries[ref].store, InEntry(ref));
    assert s.entries[ref].store in s.owed ==> At(s, s.entries[ref].store, Owed);
  }

  /** No store is closed twice, and when nothing is live or in flight every store ever opened has been closed. */
  lemma EveryStoreIsClosedOnce(states: seq<State>, events: seq<Event>, i: nat, x: StoreID)
    requires Run(states, events) && i < |states|
    ensures states[i].closed[x] <= 1
    ensures var s := states[i];
            x in s.created && s.sessions == map[] && s.openers == map[] && s.releasing == multiset{} && s.owed == {} ==>
              s.closed[x] == 1 && s.stores == map[]
  {
    var s := states[i];
    RunKeepsInv(states, events, i);
    hide Run;
    if x in s.created && s.sessions == map[] && s.openers == map[] && s.releasing == multiset{} && s.owed == {} {
      assert forall k | k in s.stores :: IsCached(s, s.stores[k]);
      forall r: Ref ensures !IsCached(s, r) {
        assert Holders(s.sessions, r) == {};
        assert Owners(s, r) == 0;
      }
      var h :| At(s, x, h);
      assert h == Closed;
    }
  }

  // ----- the manager -----

  class Manager {
    var sessions: map<SessionID, Session>
    var stores: map<Key, Ref>
    var entries: map<Ref, Entry>
    ghost var openers: map<StoreID, Opener>
    ghost var releasing: multiset<Ref>
    ghost var owed: set<StoreID>
    ghost var created: set<StoreID>
    ghost var closed: multiset<StoreID>

    ghost function View(): State reads this {
      State(sessions, stores, entries, openers, releasing, owed, created, closed)
    }

    constructor ()
      ensures View() == START && Inv(View())
    {
      sessions, stores, entries := map[], map[], map[];
      openers, releasing, owed, created, closed := map[], multiset{}, {}, {}, multiset{};
    }

    /** acquireCachedSession */
    method AcquireCachedSession(key: Key, id: SessionID) returns (session: Option<Session>)
      requires Inv(View()) && id !in sessions
      modifies this
      ensures Inv(View()) && Next(old(View()), Acquire(key, id), View())
      ensures session.Some? <==> key in old(stores)
      ensures session.Some? ==> id in sessions && sessions[id] == session.value && session.value.key == key
    {
      ghost var s := View();
      if key !in stores {
        AcquireKeeps(s, key, id, View());
        return None;
      }
      var r := stores[key];
      var entry := entries[r];
      entries := entries[r := entry.(refs := entry.refs + 1)];
      session := Some(Session(key, entry.store, Some(r)));
      sessions := sessions[id := session.value];
      AcquireKeeps(s, key, id, View());
    }

    /** The store that New returned, from then on in the hands of its opener. */
    method HoldNewStore(key: Key, store: StoreID, bootstrap: bool)
      requires Inv(View()) && store !in created
      modifies this
      ensures Inv(View()) && Next(old(View()), NewStore(key, store, bootstrap), View())
      ensures store in openers && openers[store] == Opener(key, bootstrap)
    {
      ghost var s := View();
      created := created + {store};
      openers := openers[store := Opener(key, bootstrap)];
      StepKeepsInv(s, NewStore(key, store, bootstrap), View());
    }

    /** The last section of open: the session, and the store to close if another opener got there first. */
    method InstallSession(key: Key, bootstrap: bool, store: StoreID, id: SessionID, ref: Ref)
      returns (session: Session, surplus: Option<StoreID>)
      requires Inv(View()) && id !in sessions && ref !in entries
      requires store in openers && openers[store] == Opener(key, bootstrap)
      modifies this
      ensures Inv(View()) && Next(old(View()), Install(store, id, ref), View())
      ensures id in sessions && sessions[id] == session && session.key == key
      ensures surplus == if !bootstrap && key in old(stores) then Some(store) else None
      ensures surplus.None? ==> session.store == store
      ensures session.storeRef.None? <==> bootstrap
      ensures surplus.Some? ==> old(stores)[key] in old(entries) && session.store == old(entries)[old(stores)[key]].store
    {
      hide Inv, Counted, SessionsAgree, Homed;
      ghost var s := View();
      CachedEntriesExist(s);
      session, surplus := Session(key, store, None), None;
      if !bootstrap {
        if key in stores {
          var r := stores[key];
          var existing := entries[r];
          entries := entries[r := existing.(refs := existing.refs + 1)];
          session := session.(store := existing.store, storeRef := Some(r));
          surplus := Some(store);
          owed := owed + {store};
        } else {
          entries := entries[ref := Entry(key, store, 1)];
          stores := stores[key := ref];
          session := session.(storeRef := Some(ref));
        }
      }
      sessions := sessions[id := session];
      openers := openers - {store};
      InstallKeeps(s, store, id, ref, View());
    }

    /** The first section of Close. */
    method TakeSession(id: SessionID) returns (session: Option<Session>)
      requires Inv(View())
      modifies this
      ensures Inv(View()) && Next(old(View()), CloseSession(id), View())
      ensures session == if id in old(sessions) then Some(old(sessions)[id]) else None
      ensures session.None? ==> View() == old(View())
      ensures session.Some? ==> sessions == old(sessions) - {id} && entries == old(entries) && closed == old(closed)
      ensures session.Some? ==>
                match session.value.storeRef
                case Some(r) => releasing == old(releasing) + multiset{r}
                case None => session.value.store in owed
    {
      ghost var s := View();
      session := None;
      if id in sessions {
        session := Some(sessions[id]);
        sessions := sessions - {id};
        match session.value.storeRef {
          case Some(r) => releasing := releasing + multiset{r};
          case None => owed := owed + {session.value.store};
        }
      }
      CloseSessionKeeps(s, id, View());
    }

    /** The section of releaseCachedStore: the store to close, if this was the last reference. */
    method ReleaseCachedStore(ref: Ref) returns (last: Option<StoreID>)
      requires Inv(View()) && ref in releasing
      modifies this
      ensures Inv(View()) && Next(old(View()), Release(ref), View())
      ensures ref in old(entries) && ref in entries && (last.Some? ==> last.value == entries[ref].store && last.value in owed)
      ensures last.Some? <==> |Holders(old(sessions), ref)| == 0 && old(releasing)[ref] == 1
      ensures entries[ref].store == old(entries)[ref].store && sessions == old(sessions) && closed == old(closed)
    {
      hide Inv, Holders;
      ghost var s := View();
      ReleaseFindsEntry(s, ref);
      var entry := entries[ref];
      entry := entry.(refs := entry.refs - 1);
      entries := entries[ref := entry];
      releasing := releasing - multiset{ref};
      last := None;
      if entry.refs <= 0 {
        stores := stores - {entry.key};
        owed := owed + {entry.store};
        last := Some(entry.store);
      }
      ReleaseKeeps(s, ref, View());
    }

    /** A store closed outside the lock by the call that took charge of it. */
    method CloseOwedStore(store: StoreID)
      requires Inv(View()) && store in owed
      modifies this
      ensures Inv(View()) && Next(old(View()), CloseStore(store), View())
      ensures old(closed)[store] == 0 && closed == old(closed) + multiset{store}
      ensures sessions == old(sessions) && stores == old(stores) && owed == old(owed) - {store}
    {
      ghost var s := View();
      assert At(s, store, Owed) && (store in closed ==> At(s, store, Closed));
      owed := owed - {store};
      closed := closed + multiset{store};
      StepKeepsInv(s, CloseStore(store), View());
    }

    /** The config check failed: the opener closes the store that it holds. */
    method GiveUpStore(store: StoreID)
      requires Inv(View()) && store in openers && !openers[store].bootstrap
      modifies this
      ensures Inv(View()) && Next(old(View()), ConfigFails(store), View())
    {
      ghost var s := View();
      openers := openers - {store};
      owed := owed + {store};
      StepKeepsInv(s, ConfigFails(store), View());
    }

    /** Close when nothing gets between its sections: the store is closed exactly when no other session or close holds it. */
    method Close(id: SessionID) returns (ok: bool)
      requires Inv(View())
      modifies this
      ensures Inv(View())
      ensures ok <==> id in old(sessions)
      ensures !ok ==> View() == old(View())
      ensures ok ==> sessions == old(sessions) - {id}
      ensures ok ==> var session := old(sessions)[id];
                     var last := match session.storeRef
                                 case None => true
                                 case Some(r) => Holders(old(sessions), r) == {id} && old(releasing)[r] == 0;
                     closed == old(closed) + if last then multiset{session.store} else multiset{}
    {
      hide Inv, Holders, Next;
      ghost var s := View();
      var session := TakeSession(id);
      if session.None? {
        return false;
      }
      if session.value.storeRef.None? {
        CloseOwedStore(session.value.store);
        return true;
      }
      var ref := session.value.storeRef.value;
      SessionsHold(s, id);
      HoldersAfterClose(s.sessions, id, ref);
      var last := ReleaseCachedStore(ref);
      if last.Some? {
        CloseOwedStore(last.value);
      }
      return true;
    }

    /** CloseAll, with no close between its sections: every store of a session or an entry is closed, each once. */
    method CloseAllStores()
      requires Inv(View()) && releasing == multiset{}
      modifies this
      ensures Inv(View()) && sessions == map[] && stores == map[]
      ensures forall x | x in BootStores(old(sessions)) + CachedStores(old(stores), old(entries)) ::
                old(closed)[x] == 0 && closed[x] == 1
      ensures forall x | x !in BootStores(old(sessions)) + CachedStores(old(stores), old(entries)) :: closed[x] == old(closed)[x]
    {
      hide Inv, Next, BootStores, CachedStores;
      ghost var s := View();
      var todo := BootStores(sessions) + CachedStores(stores, entries);
      sessions, stores := map[], map[];
      owed := owed + todo;
      CloseAllKeeps(s, View());
      ghost var all := todo;
      while todo != {}
        invariant todo <= all && todo <= owed && Inv(View()) && sessions == map[] && stores == map[]
        invariant forall x | x in all - todo :: s.closed[x] == 0 && closed[x] == 1
        invariant forall x | x !in all - todo :: closed[x] == s.closed[x]
        decreases todo
      {
        var store :| store in todo;
        CloseOwedStore(store);
        todo := todo - {store};
      }
    }
  }

  lemma SessionsHold(s: State, id: SessionID)
    requires Inv(s) && id in s.sessions && s.sessions[id].storeRef.Some?
    ensures var r := s.sessions[id].storeRef.value;
            && r in s.entries && s.entries[r].store == s.sessions[id].store
            && (|Holders(s.sessions, r)| == 1 <==> Holders(s.sessions, r) == {id})
  {
    hide Homed, Counted;
    var r := s.sessions[id].storeRef.value;
    assert SessionAgrees(s.entries, s.sessions[id]);
    assert id in Holders(s.sessions, r);
    SubsetSize({id}, Holders(s.sessions, r));
  }

  lemma CachedEntriesExist(s: State)
    requires Inv(s)
    ensures forall k | k in s.stores :: s.stores[k] in s.entries
  {
  }

  lemma ReleaseFindsEntry(s: State, ref: Ref)
    requires Inv(s) && ref in s.releasing
    ensures ref in s.entries && s.entries[ref].refs == |Holders(s.sessions, ref)| + s.releasing[ref]
  {
    hide Homed;
    assert Owners(s, ref) >= 1;
  }
}
