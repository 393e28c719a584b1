/**
One transaction of the manager: a worker runs the store's transaction body, which
waits for a decision; any number of finishers send decisions and wait for the
outcome; the call that began it waits for the body to be ready. Every operation on
a channel, and every section under the mutex, is one step.
*/
module Handshake {
  import opened Wrappers

  type FinisherID = nat

  /** An error value: None is nil. */
  type Error = Option<string>

  /** A rollback, or a commit unless `err` makes the body fail. */
  datatype Decision = Decision(rollback: bool, err: Error)

  const COMMIT := Decision(false, None)
  const ROLLBACK := Decision(true, None)

  datatype BodyResult = Nil | RollBack | Failed(err: string)

  function ResultOf(d: Decision): BodyResult {
    if d.rollback then RollBack else if d.err.Some? then Failed(d.err.value) else Nil
  }

  /** Where the worker is. `Finishing` has left RunInTransaction and is about to take the id out of the map. */
  datatype Worker =
    | Starting
    | InBody
    | Left(result: BodyResult)
    | Finishing(err: Error)
    | Sending(err: Error)
    | Exited(err: Error)

  datatype Reply = Outcome(err: Error) | Cancelled

  datatype Finisher =
    | Offering(decision: Decision)
    | Awaiting(decision: Decision)
    | Returned(decision: Decision, sent: bool, reply: Reply)

  datatype Beginner = Waiting | GotID | Ended(err: Error) | Withdrawn

  /** `done` and `finished` are channels with room for one value; `ready` is closed or not. */
  datatype State = State(
    registered: bool,
    ready: bool,
    done: Option<Decision>,
    finished: Option<Error>,
    worker: Worker,
    taken: Option<Decision>,
    committed: bool,
    finishers: map<FinisherID, Finisher>,
    beginner: Beginner)

  const START := State(true, false, None, None, Starting, None, false, map[], Waiting)

  datatype Event =
    | FailEarly(err: string)
    | Enter
    | Decide
    | Commit
    | CommitFails(err: string, applied: bool)
    | Undo
    | Unregister
    | Send
    | Call(f: FinisherID, decision: Decision)
    | Offer(f: FinisherID)
    | Take(f: FinisherID)
    | Cancel(f: FinisherID)
    | BeginReady
    | BeginEnded
    | BeginCancelled(f: FinisherID)
    | CloseAll(f: FinisherID)

  /** The step can be taken; a send on a full channel and a receive from an empty one cannot. */
  predicate Enabled(s: State, e: Event) {
    match e
    case FailEarly(_) => s.worker == Starting
    case Enter => s.worker == Starting
    case Decide => s.worker == InBody && s.done.Some?
    case Commit => s.worker == Left(Nil)
    case CommitFails(_, _) => s.worker == Left(Nil)
    case Undo => s.worker.Left? && s.worker.result != Nil
    case Unregister => s.worker.Finishing?
    case Send => s.worker.Sending? && s.finished.None?
    case Call(f, _) => s.registered && f !in s.finishers
    case Offer(f) => f in s.finishers && s.finishers[f].Offering? && s.done.None?
    case Take(f) => f in s.finishers && !s.finishers[f].Returned? && s.finished.Some?
    case Cancel(f) => f in s.finishers && !s.finishers[f].Returned?
    case BeginReady => s.beginner == Waiting && s.ready
    case BeginEnded => s.beginner == Waiting && s.finished.Some?
    case BeginCancelled(f) => s.beginner == Waiting && f !in s.finishers
    case CloseAll(f) => s.registered && f !in s.finishers
  }

  function Next(s: State, e: Event): State
    requires Enabled(s, e)
  {
    match e
    case FailEarly(err) => s.(worker := Finishing(Some(err)))
    case Enter => s.(worker := InBody, ready := true)
    case Decide => s.(worker := Left(ResultOf(s.done.value)), taken := s.done, done := None)
    case Commit => s.(worker := Finishing(None), committed := true)
    case CommitFails(err, applied) => s.(worker := Finishing(Some(err)), committed := applied)
    case Undo => s.(worker := Finishing(if s.worker.result == RollBack then None else Some(s.worker.result.err)))
    case Unregister => s.(worker := Sending(s.worker.err), registered := false)
    case Send => s.(worker := Exited(s.worker.err), finished := Some(s.worker.err))
    case Call(f, d) => s.(finishers := s.finishers[f := Offering(d)])
    case Offer(f) =>
      s.(done := Some(s.finishers[f].decision), finishers := s.finishers[f := Awaiting(s.finishers[f].decision)])
    case Take(f) =>
      var fin := s.finishers[f];
      s.(finished := None,
         finishers := s.finishers[f := Returned(fin.decision, fin.Awaiting?, Outcome(s.finished.value))])
    case Cancel(f) =>
      var fin := s.finishers[f];
      s.(finishers := s.finishers[f := Returned(fin.decision, fin.Awaiting?, Cancelled)])
    case BeginReady => s.(beginner := GotID)
    case BeginEnded => s.(beginner := Ended(s.finished.value), finished := None)
    case BeginCancelled(f) => s.(beginner := Withdrawn, finishers := s.finishers[f := Offering(ROLLBACK)])
    case CloseAll(f) => s.(registered := false, finishers := s.finishers[f := Offering(ROLLBACK)])
  }

  // ----- the invariant -----

  predicate HasSent(fin: Finisher) {
    fin.Awaiting? || (fin.Returned? && fin.sent)
  }

  predicate Sent(s: State, f: FinisherID) {
    f in s.finishers && HasSent(s.finishers[f])
  }

  predicate Observed(fin: Finisher) {
    fin.Returned? && fin.reply.Outcome?
  }

  /** The taken decision determines how the body returned, and what the store may have done with it. */
  ghost predicate WorkerFollows(s: State) {
    match s.worker
    case Starting => s.taken.None? && !s.ready && !s.committed
    case InBody => s.taken.None? && s.ready && !s.committed
    case Left(result) => s.taken.Some? && result == ResultOf(s.taken.value) && !s.committed
    case Finishing(err) => Settled(s, err)
    case Sending(err) => Settled(s, err)
    case Exited(err) => Settled(s, err)
  }

  /** The worker's final error: nil means that the taken decision was carried out. */
  ghost predicate Settled(s: State, err: Error) {
    && (s.taken.None? ==> err.Some? && !s.committed)
    && (s.taken.Some? && ResultOf(s.taken.value) != Nil ==> !s.committed)
    && (err.None? && s.taken.Some? ==>
          ResultOf(s.taken.value) == RollBack || (ResultOf(s.taken.value) == Nil && s.committed))
  }

  /** Values on the two channels come from where they should. */
  ghost predicate ChannelsFollow(s: State) {
    && (s.done.Some? ==> exists f :: Sent(s, f) && s.finishers[f].decision == s.done.value)
    && (s.taken.Some? ==> exists f :: Sent(s, f) && s.finishers[f].decision == s.taken.value)
    && (forall f | Sent(s, f) :: s.done.Some? || s.taken.Some?)
    && (s.finished.Some? ==> s.worker == Exited(s.finished.value))
  }

  /** The outcome is received once, as the worker sent it, and not before the id is out of the map. */
  ghost predicate OutcomeOnce(s: State) {
    && (forall f | f in s.finishers && Observed(s.finishers[f]) ::
          && s.worker == Exited(s.finishers[f].reply.err) && s.finished.None? && !s.beginner.Ended?
          && forall g | g in s.finishers && Observed(s.finishers[g]) :: g == f)
    && (s.beginner.Ended? ==> s.worker == Exited(s.beginner.err) && s.finished.None?)
    && (s.worker.Sending? || s.worker.Exited? ==> !s.registered)
  }

  ghost predicate Inv(s: State) {
    WorkerFollows(s) && ChannelsFollow(s) && OutcomeOnce(s)
  }

  lemma StepKeepsWorker(s: State, e: Event)
    requires WorkerFollows(s) && Enabled(s, e)
    ensures WorkerFollows(Next(s, e))
  {
  }

  lemma SentStays(s: State, e: Event, f: FinisherID)
    requires Enabled(s, e)
    ensures Sent(s, f) ==>
              && Sent(Next(s, e), f) && f in s.finishers && f in Next(s, e).finishers
              && Next(s, e).finishers[f].decision == s.finishers[f].decision
    ensures Sent(Next(s, e), f) ==> e == Offer(f) || Sent(s, f)
  {
  }

  lemma StepKeepsChannels(s: State, e: Event)
    requires WorkerFollows(s) && ChannelsFollow(s) && Enabled(s, e)
    ensures ChannelsFollow(Next(s, e))
  {
    hide Sent, Settled;
    var s' := Next(s, e);
    forall f
      ensures Sent(s, f) ==>
                && Sent(s', f) && f in s.finishers && f in s'.finishers
                && s'.finishers[f].decision == s.finishers[f].decision
      ensures Sent(s', f) ==> e == Offer(f) || Sent(s, f)
    {
      SentStays(s, e, f);
    }
    if e.Offer? {
      OfferSends(s, e.f);
    }
  }

  lemma OfferSends(s: State, f: FinisherID)
    requires Enabled(s, Offer(f))
    ensures var s' := Next(s, Offer(f)); Sent(s', f) && Some(s'.finishers[f].decision) == s'.done
  {
  }

  lemma StepKeepsOutcome(s: State, e: Event)
    requires ChannelsFollow(s) && OutcomeOnce(s) && Enabled(s, e)
    ensures OutcomeOnce(Next(s, e))
  {
    var s' := Next(s, e);
    forall f | f in s'.finishers && Observed(s'.finishers[f])
      ensures e == Take(f) || (f in s.finishers && s.finishers[f] == s'.finishers[f])
    {
    }
  }

  ghost predicate Run(states: seq<State>, events: seq<Event>) {
    && |states| == |events| + 1 && states[0] == START
    && forall i | 0 <= i < |events| :: Enabled(states[i], events[i]) && states[i + 1] == Next(states[i], events[i])
  }

  lemma {:induction false} RunKeepsInv(states: seq<State>, events: seq<Event>, i: nat)
    requires Run(states, events) && i < |states|
    ensures Inv(states[i])
    decreases i
  {
    hide Next, Enabled, WorkerFollows, ChannelsFollow, OutcomeOnce;
    if i == 0 {
      StartInv();
    } else {
      RunKeepsInv(states, events, i - 1);
      StepKeepsWorker(states[i - 1], events[i - 1]);
      StepKeepsChannels(states[i - 1], events[i - 1]);
      StepKeepsOutcome(states[i - 1], events[i - 1]);
    }
  }

  lemma StartInv()
    ensures Inv(START)
  {
  }

  // ----- what every run keeps -----

  /** A finisher that is told nil knows that the decision the body took was carried out, whoever sent it. */
  lemma NilMeansCarriedOut(states: seq<State>, events: seq<Event>, i: nat, f: FinisherID)
    requires Run(states, events) && i < |states| && f in states[i].finishers
    requires states[i].finishers[f].Returned? && states[i].finishers[f].reply == Outcome(None)
    ensures var s := states[i];
            && s.taken.Some? && (s.committed <==> !s.taken.value.rollback)
            && (s.committed <==> ResultOf(s.taken.value) == Nil)
            && (exists g :: Sent(s, g) && s.finishers[g].decision == s.taken.value)
  {
    RunKeepsInv(states, events, i);
    assert Observed(states[i].finishers[f]);
  }

  /** The only decision sent is this finisher's. */
  ghost predicate OnlySender(s: State, f: FinisherID) {
    forall g | Sent(s, g) :: g == f
  }

  /**
  With one finisher, a commit is reported successful only if the body returned
  nil and the store committed, and a rollback only if the store did not commit.
  */
  lemma OneFinisherIsToldTheTruth(states: seq<State>, events: seq<Event>, i: nat, f: FinisherID)
    requires Run(states, events) && i < |states| && f in states[i].finishers && OnlySender(states[i], f)
    requires states[i].finishers[f].Returned? && states[i].finishers[f].reply == Outcome(None)
    ensures var s := states[i];
            && s.taken == Some(s.finishers[f].decision)
            && (s.committed <==> !s.finishers[f].decision.rollback)
            && (s.committed ==> ResultOf(s.taken.value) == Nil)
  {
    NilMeansCarriedOut(states, events, i, f);
  }

  /** With any number of finishers, a nil report is true of the caller's own decision if all decisions are of its kind. */
  lemma AgreeingFinishersAreToldTheTruth(states: seq<State>, events: seq<Event>, i: nat, f: FinisherID)
    requires Run(states, events) && i < |states| && f in states[i].finishers
    requires states[i].finishers[f].Returned? && states[i].finishers[f].reply == Outcome(None)
    requires forall g | g in states[i].finishers ::
               states[i].finishers[g].decision.rollback == states[i].finishers[f].decision.rollback
    ensures states[i].committed <==> !states[i].finishers[f].decision.rollback
  {
    NilMeansCarriedOut(states, events, i, f);
  }

  /** A body that waits, with an empty channel, while `f` and `g` offer decisions of opposite kinds. */
  ghost predicate Contested(s: State, f: FinisherID, g: FinisherID) {
    && f != g && f in s.finishers && g in s.finishers
    && s.worker == InBody && s.taken.None? && s.done.None? && s.finished.None? && s.registered && !s.committed
    && s.finishers[f] == Offering(if s.finishers[g].decision.rollback then COMMIT else ROLLBACK)
    && s.finishers[g] == Offering(if s.finishers[f].decision.rollback then COMMIT else ROLLBACK)
  }

  /** The body takes `g`'s decision, and only then `f` sends its own. */
  lemma TakesTheOther(states: seq<State>, events: seq<Event>, f: FinisherID, g: FinisherID)
    returns (longer: seq<State>, more: seq<Event>)
    requires Run(states, events) && states != [] && Contested(states[|states| - 1], f, g)
    ensures Run(longer, more) && |longer| == |states| + 3
    ensures var s, t := states[|states| - 1], longer[|longer| - 1];
            t == s.(done := Some(s.finishers[f].decision), taken := Some(s.finishers[g].decision),
                    worker := Left(ResultOf(s.finishers[g].decision)),
                    finishers := s.finishers[g := Awaiting(s.finishers[g].decision)][f := Awaiting(s.finishers[f].decision)])
  {
    hide Run;
    longer, more := Extend(states, events, Offer(g));
    longer, more := Extend(longer, more, Decide);
    longer, more := Extend(longer, more, Offer(f));
  }

  /** From every contested point there is a run on which `f` is told nil although the opposite of its decision was carried out. */
  lemma ContestedCanMisreport(states: seq<State>, events: seq<Event>, f: FinisherID, g: FinisherID)
    returns (longer: seq<State>, more: seq<Event>)
    requires Run(states, events) && states != [] && Contested(states[|states| - 1], f, g)
    ensures Run(longer, more) && |longer| > |states|
    ensures var t := longer[|longer| - 1];
            && f in t.finishers && t.finishers[f] == Returned(states[|states| - 1].finishers[f].decision, true, Outcome(None))
            && (t.committed <==> t.finishers[f].decision.rollback)
  {
    hide Run;
    var s := states[|states| - 1];
    longer, more := TakesTheOther(states, events, f, g);
    var settle := if s.finishers[g].decision.rollback then Undo else Commit;
    longer, more := Extend(longer, more, settle);
    longer, more := Extend(longer, more, Unregister);
    longer, more := Extend(longer, more, Send);
    longer, more := Extend(longer, more, Take(f));
  }

  /** Once the body has taken a rollback it does not return nil, and the store never commits. */
  lemma RollbackNeverCommits(states: seq<State>, events: seq<Event>, i: nat)
    requires Run(states, events) && i < |states|
    requires states[i].taken.Some? && states[i].taken.value.rollback
    ensures !states[i].committed && states[i].worker != Left(Nil) && states[i].worker != InBody
  {
    RunKeepsInv(states, events, i);
  }

  /** A finisher sends what its call was given; those that a cancelled begin or CloseAll starts send a rollback. */
  lemma {:induction false} DecisionsComeFromCalls(states: seq<State>, events: seq<Event>, i: nat, f: FinisherID)
    requires Run(states, events) && i < |states| && f in states[i].finishers
    ensures states[i].finishers[f].decision == Decision(true, None) ||
            exists k | 0 <= k < i :: events[k] == Call(f, states[i].finishers[f].decision)
    decreases i
  {
    if i > 0 {
      var s, e := states[i - 1], events[i - 1];
      assert Enabled(s, e) && states[i] == Next(s, e);
      if f in s.finishers {
        DecisionsComeFromCalls(states, events, i - 1, f);
      }
    }
  }

  /** The body returns nil, and the store commits, only if some caller asked for a commit. */
  lemma CommitNeedsACall(states: seq<State>, events: seq<Event>, i: nat)
    requires Run(states, events) && i < |states| && (states[i].committed || states[i].worker == Left(Nil))
    ensures exists k, f | 0 <= k < i :: events[k] == Call(f, Decision(false, None))
  {
    hide Run;
    RunKeepsInv(states, events, i);
    var f :| Sent(states[i], f) && Some(states[i].finishers[f].decision) == states[i].taken;
    DecisionsComeFromCalls(states, events, i, f);
  }

  /** So a transaction that only a cancelled begin, CloseAll and callers who want no commit finish is never committed. */
  lemma WithdrawnNeverCommits(states: seq<State>, events: seq<Event>, i: nat)
    requires Run(states, events) && i < |states|
    requires forall k | 0 <= k < |events| && events[k].Call? :: events[k].decision.rollback || events[k].decision.err != None
    ensures !states[i].committed && states[i].worker != Left(Nil)
    ensures states[i].taken.Some? ==> states[i].taken.value != Decision(false, None)
  {
    RunKeepsInv(states, events, i);
    if states[i].committed || states[i].worker == Left(Nil) {
      CommitNeedsACall(states, events, i);
    }
    if states[i].taken.Some? {
      var f :| Sent(states[i], f) && states[i].finishers[f].decision == states[i].taken.value;
      DecisionsComeFromCalls(states, events, i, f);
    }
  }

  /** The worker's final error: nil for a rollback or a commit, and otherwise the error of the step that failed. */
  lemma {:induction false} FinalErrorExplained(states: seq<State>, events: seq<Event>, i: nat)
    requires Run(states, events) && i < |states|
    requires states[i].worker.Finishing? || states[i].worker.Sending? || states[i].worker.Exited?
    ensures var s, err := states[i], states[i].worker.err;
            match s.taken
            case None => exists k | 0 <= k < i :: events[k].FailEarly? && err == Some(events[k].err)
            case Some(Decision(true, _)) => err == None
            case Some(Decision(false, Some(x))) => err == Some(x)
            case Some(Decision(false, None)) =>
              || (err == None && s.committed)
              || exists k | 0 <= k < i :: events[k].CommitFails? && err == Some(events[k].err)
    decreases i
  {
    if i > 0 {
      var s, e := states[i - 1], events[i - 1];
      assert Enabled(s, e) && states[i] == Next(s, e);
      RunKeepsInv(states, events, i - 1);
      if s.worker.Finishing? || s.worker.Sending? || s.worker.Exited? {
        FinalErrorExplained(states, events, i - 1);
      }
    }
  }

  /** Once CloseAll has taken the id out of the map, no further caller finds the transaction. */
  lemma {:induction false} ClosedTakesNoCalls(states: seq<State>, events: seq<Event>, i: nat, j: nat)
    requires Run(states, events) && i < j < |events| && events[i].CloseAll?
    ensures !states[j].registered && !events[j].Call? && !events[j].CloseAll?
    decreases j
  {
    assert Enabled(states[j], events[j]) && Enabled(states[j - 1], events[j - 1]) && states[j] == Next(states[j - 1], events[j - 1]);
    if i < j - 1 {
      ClosedTakesNoCalls(states, events, i, j - 1);
    }
  }

  /** The worker's last send always finds room. */
  lemma LastSendNeverBlocks(states: seq<State>, events: seq<Event>, i: nat)
    requires Run(states, events) && i < |states| && states[i].worker.Sending?
    ensures Enabled(states[i], Send)
  {
    RunKeepsInv(states, events, i);
  }

  /** Whoever has an outcome, or could receive one now, finds the id gone from the map. */
  lemma OutcomeAfterUnregister(states: seq<State>, events: seq<Event>, i: nat)
    requires Run(states, events) && i < |states|
    requires || states[i].finished.Some? || states[i].beginner.Ended?
             || exists f | f in states[i].finishers :: Observed(states[i].finishers[f])
    ensures !states[i].registered && states[i].worker.Exited?
  {
    RunKeepsInv(states, events, i);
  }

  ghost predicate WorkerCanStep(s: State) {
    || Enabled(s, Enter) || Enabled(s, Decide) || Enabled(s, Commit) || Enabled(s, Undo)
    || Enabled(s, Unregister) || Enabled(s, Send)
  }

  /** Once a decision has been sent, nothing holds the worker up until it has sent the outcome. */
  lemma WorkerRunsToTheEnd(states: seq<State>, events: seq<Event>, i: nat)
    requires Run(states, events) && i < |states| && !states[i].worker.Exited?
    ensures WorkerCanStep(states[i]) <==> states[i].worker != InBody || states[i].done.Some?
    ensures (exists f :: Sent(states[i], f)) ==> WorkerCanStep(states[i])
  {
    RunKeepsInv(states, events, i);
  }

  /** So a sole finisher that waits can go on as soon as the worker has ended, unless the beginner took the outcome. */
  lemma SoleFinisherIsServed(states: seq<State>, events: seq<Event>, i: nat, f: FinisherID)
    requires Run(states, events) && i < |states|
    requires states[i].finishers.Keys == {f} && !states[i].finishers[f].Returned? && !states[i].beginner.Ended?
    requires states[i].worker.Exited?
    ensures Enabled(states[i], Take(f))
  {
    OutcomeIsSomewhere(states, events, i);
  }

  /** When the worker has ended, its outcome is on the channel or has been received. */
  lemma {:induction false} OutcomeIsSomewhere(states: seq<State>, events: seq<Event>, i: nat)
    requires Run(states, events) && i < |states| && states[i].worker.Exited?
    ensures || states[i].finished.Some? || states[i].beginner.Ended?
            || exists f | f in states[i].finishers :: Observed(states[i].finishers[f])
    decreases i
  {
    if i > 0 {
      var s, e := states[i - 1], events[i - 1];
      assert Enabled(s, e) && states[i] == Next(s, e);
      if s.worker.Exited? {
        OutcomeIsSomewhere(states, events, i - 1);
        if e.Take? {
          assert Observed(states[i].finishers[e.f]);
        }
        if f :| f in s.finishers && Observed(s.finishers[f]) {
          assert Observed(states[i].finishers[f]);
        }
      }
    }
  }

  lemma Extend(states: seq<State>, events: seq<Event>, e: Event) returns (longer: seq<State>, more: seq<Event>)
    requires Run(states, events) && states != [] && Enabled(states[|states| - 1], e)
    ensures |longer| == |states| + 1 && longer[|states|] == Next(states[|states| - 1], e)
    ensures more == events + [e] && Run(longer, more)
  {
    longer, more := states + [Next(states[|states| - 1], e)], events + [e];
    assert forall i | 0 <= i < |events| :: longer[i] == states[i] && more[i] == events[i];
  }

  /** A body that has taken one finisher's commit, with the id still in the map. */
  lemma CommitTaken(f: FinisherID) returns (states: seq<State>, events: seq<Event>)
    ensures Run(states, events) && |states| == 5
    ensures states[4] == State(true, true, None, None, Left(Nil), Some(COMMIT), false, map[f := Awaiting(COMMIT)], Waiting)
  {
    states, events := [START], [];
    assert Run(states, events);
    hide Run;
    states, events := Extend(states, events, Enter);
    states, events := Extend(states, events, Call(f, COMMIT));
    states, events := Extend(states, events, Offer(f));
    states, events := Extend(states, events, Decide);
  }

  /** Two finishers share one outcome: here a rollback is reported successful although the transaction committed. */
  lemma TwoFinishersShareOneOutcome(f: FinisherID, g: FinisherID) returns (states: seq<State>, events: seq<Event>)
    requires f != g
    ensures Run(states, events) && |states| == 11
    ensures g in states[10].finishers && states[10].finishers[g] == Returned(ROLLBACK, true, Outcome(None))
    ensures states[10].committed
  {
    hide Run;
    states, events := CommitTaken(f);
    states, events := Extend(states, events, Call(g, ROLLBACK));
    states, events := Extend(states, events, Offer(g));
    states, events := Extend(states, events, Commit);
    states, events := Extend(states, events, Unregister);
    states, events := Extend(states, events, Send);
    states, events := Extend(states, events, Take(g));
  }

  // ----- the transaction object -----

  /** What a select takes when more than one of its cases is ready is not determined: `choice` says. */
  datatype Choice = SendDecision | ReceiveOutcome | ContextDone

  class ActiveTransaction {
    var registered: bool
    var ready: bool
    var done: Option<Decision>
    var finished: Option<Error>
    ghost var worker: Worker
    ghost var taken: Option<Decision>
    ghost var committed: bool
    ghost var finishers: map<FinisherID, Finisher>
    ghost var beginner: Beginner

    ghost function View(): State reads this {
      State(registered, ready, done, finished, worker, taken, committed, finishers, beginner)
    }

    constructor ()
      ensures View() == START && Inv(View())
    {
      registered, ready, done, finished := true, false, None, None;
      worker, taken, committed, finishers, beginner := Starting, None, false, map[], Waiting;
    }

    /** The body up to its wait. */
    method EnterBody()
      requires worker == Starting
      modifies this
      ensures View() == Next(old(View()), Enter)
    {
      ready := true;
      worker := InBody;
    }

    /** The rest of the body: the decision becomes the error it returns. */
    method ReceiveDecision() returns (result: BodyResult)
      requires Enabled(View(), Decide)
      modifies this
      ensures View() == Next(old(View()), Decide) && worker == Left(result)
      ensures result == Nil <==> !taken.value.rollback && taken.value.err.None?
    {
      var decision := done.value;
      taken, done := done, None;
      if decision.rollback {
        result := RollBack;
      } else if decision.err.Some? {
        result := Failed(decision.err.value);
      } else {
        result := Nil;
      }
      worker := Left(result);
    }

    /** After RunInTransaction: the id leaves the map, then the outcome goes out, for which there is always room. */
    method Deliver(err: Error)
      requires Inv(View()) && worker == Finishing(err)
      modifies this
      ensures View() == Next(Next(old(View()), Unregister), Send)
      ensures finished == Some(err) && !registered && old(finished) == None
    {
      ghost var s := View();
      registered := false;
      worker := Sending(err);
      StepKeepsChannels(s, Unregister);
      assert finished.None?;
      finished := Some(err);
      worker := Exited(err);
    }

    /** The first select of finish. */
    method FirstSelect(f: FinisherID, decision: Decision, choice: Choice) returns (reply: Option<Reply>)
      requires f in finishers && finishers[f] == Offering(decision)
      requires choice == SendDecision ==> done.None?
      requires choice == ReceiveOutcome ==> finished.Some?
      modifies this
      ensures View() == Next(old(View()), match choice
                                          case SendDecision => Offer(f)
                                          case ReceiveOutcome => Take(f)
                                          case ContextDone => Cancel(f))
      ensures match choice
              case SendDecision => reply.None?
              case ReceiveOutcome => reply == Some(Outcome(old(finished).value))
              case ContextDone => reply == Some(Cancelled)
    {
      match choice {
        case SendDecision =>
          done := Some(decision);
          finishers := finishers[f := Awaiting(decision)];
          reply := None;
        case ReceiveOutcome =>
          reply := Some(Outcome(finished.value));
          finishers := finishers[f := Returned(decision, false, reply.value)];
          finished := None;
        case ContextDone =>
          reply := Some(Cancelled);
          finishers := finishers[f := Returned(decision, false, reply.value)];
      }
    }

    /** The second select of finish. */
    method SecondSelect(f: FinisherID, decision: Decision, choice: Choice) returns (reply: Reply)
      requires f in finishers && finishers[f] == Awaiting(decision) && choice != SendDecision
      requires choice == ReceiveOutcome ==> finished.Some?
      modifies this
      ensures View() == Next(old(View()), if choice == ReceiveOutcome then Take(f) else Cancel(f))
      ensures reply == if choice == ReceiveOutcome then Outcome(old(finished).value) else Cancelled
    {
      if choice == ReceiveOutcome {
        reply := Outcome(finished.value);
        finished := None;
      } else {
        reply := Cancelled;
      }
      finishers := finishers[f := Returned(decision, true, reply)];
    }

    /** GetTransaction: the body's transaction is handed out only while the id is in the map and the body is ready. */
    method GetTransaction() returns (ok: bool)
      ensures ok <==> registered && ready
    {
      if !registered {
        return false;
      }
      return ready;
    }
  }
}
