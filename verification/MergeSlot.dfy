/**
The merge slot: one issue whose status says whether the slot is free and whose
metadata names the holder and those who wait. Every call is one transaction.
*/
module MergeSlot {
  import opened Wrappers

  type Agent = string

  const OPEN := "open"
  const IN_PROGRESS := "in_progress"

  datatype Meta = Meta(holder: Agent, waiters: seq<Agent>)

  /** The slot issue: its status column may hold any text, and only `open` means available. */
  datatype Slot = Slot(status: string, meta: Meta)

  datatype Reply =
    | NotFound
    | EmptyHolder
    | HeldBy(holder: Agent)
    | Granted(acquired: bool, currentHolder: Agent, waiting: bool, position: nat)
    | Released
    | Seen(available: bool, seenHolder: Agent, seenWaiters: seq<Agent>)
    | Created

  datatype Call = Create | Acquire(holder: Agent, wait: bool) | Release(named: Agent) | Check

  /** What a call does to the slot, and what it answers. */
  ghost predicate Does(call: Call, before: Option<Slot>, after: Option<Slot>, reply: Reply) {
    match call
    case Create =>
      after == (if before.Some? then before else Some(Slot(OPEN, Meta("", [])))) && reply == Created
    case Acquire(holder, wait) =>
      if holder == "" then after == before && reply == EmptyHolder
      else if before.None? then after == before && reply == NotFound
      else
        var Slot(status, meta) := before.value;
        if status == OPEN then
          after == Some(Slot(IN_PROGRESS, Meta(holder, meta.waiters))) && reply == Granted(true, holder, false, 0)
        else if !wait then after == before && reply == Granted(false, meta.holder, false, 0)
        else
          var queue := if holder in meta.waiters then meta.waiters else meta.waiters + [holder];
          after == Some(Slot(status, Meta(meta.holder, queue))) && reply == Granted(false, meta.holder, true, |queue|)
    case Release(named) =>
      if before.None? then after == before && reply == NotFound
      else
        var Slot(status, meta) := before.value;
        if named != "" && named != meta.holder then after == before && reply == HeldBy(meta.holder)
        else if status == OPEN then after == before && reply == Released
        else after == Some(Slot(OPEN, Meta("", meta.waiters))) && reply == Released
    case Check =>
      && after == before
      && reply == (if before.None? then NotFound
                   else Seen(before.value.status == OPEN, before.value.meta.holder, before.value.meta.waiters))
  }

  class SlotStore {
    var slot: Option<Slot>

    constructor ()
      ensures slot == None
    {
      slot := None;
    }

    method MergeSlotCreate() returns (r: Reply)
      modifies this
      ensures Does(Create, old(slot), slot, r)
    {
      if slot.None? {
        slot := Some(Slot(OPEN, Meta("", [])));
      }
      return Created;
    }

    method MergeSlotCheck() returns (r: Reply)
      ensures Does(Check, slot, slot, r)
    {
      if slot.None? {
        return NotFound;
      }
      return Seen(slot.value.status == OPEN, slot.value.meta.holder, slot.value.meta.waiters);
    }

    method MergeSlotAcquire(holder: Agent, wait: bool) returns (r: Reply)
      modifies this
      ensures Does(Acquire(holder, wait), old(slot), slot, r)
    {
      if holder == "" {
        return EmptyHolder;
      }
      if slot.None? {
        return NotFound;
      }
      var meta := slot.value.meta;
      if slot.value.status != OPEN {
        if !wait {
          return Granted(false, meta.holder, false, 0);
        }
        var alreadyWaiting := false;
        for i := 0 to |meta.waiters|
          invariant !alreadyWaiting && holder !in meta.waiters[..i]
        {
          if meta.waiters[i] == holder {
            alreadyWaiting := true;
            break;
          }
        }
        if !alreadyWaiting {
          meta := meta.(waiters := meta.waiters + [holder]);
        }
        slot := Some(slot.value.(meta := meta));
        return Granted(false, meta.holder, true, |meta.waiters|);
      }
      slot := Some(Slot(IN_PROGRESS, Meta(holder, meta.waiters)));
      return Granted(true, holder, false, 0);
    }

    method MergeSlotRelease(holder: Agent) returns (r: Reply)
      modifies this
      ensures Does(Release(holder), old(slot), slot, r)
    {
      if slot.None? {
        return NotFound;
      }
      var meta := slot.value.meta;
      if holder != "" && meta.holder != holder {
        return HeldBy(meta.holder);
      }
      if slot.value.status == OPEN {
        return Released;
      }
      slot := Some(Slot(OPEN, Meta("", meta.waiters)));
      return Released;
    }
  }

  // ----- runs -----

  /** `slots[i]` is the slot before call `i`. */
  ghost predicate Run(slots: seq<Option<Slot>>, calls: seq<Call>, replies: seq<Reply>) {
    && |slots| == |calls| + 1 && |replies| == |calls|
    && forall i | 0 <= i < |calls| :: Does(calls[i], slots[i], slots[i + 1], replies[i])
  }

  ghost predicate NoDup(s: seq<Agent>) {
    forall i, j | 0 <= i < j < |s| :: s[i] != s[j]
  }

  /** In progress exactly when a holder is recorded; the queue names nobody twice. */
  ghost predicate Good(s: Option<Slot>) {
    s.Some? ==>
      && (s.value.status == OPEN || s.value.status == IN_PROGRESS)
      && (s.value.status == IN_PROGRESS <==> s.value.meta.holder != "")
      && NoDup(s.value.meta.waiters)
  }

  function Queue(s: Option<Slot>): seq<Agent> {
    if s.Some? then s.value.meta.waiters else []
  }

  ghost predicate HeldFor(s: Option<Slot>, holder: Agent) {
    s.Some? && s.value.status == IN_PROGRESS && s.value.meta.holder == holder
  }

  lemma StepKeepsGood(call: Call, before: Option<Slot>, after: Option<Slot>, reply: Reply)
    requires Good(before) && Does(call, before, after, reply)
    ensures Good(after) && Queue(before) <= Queue(after)
  {
    assert OPEN[0] != IN_PROGRESS[0];
    assert Queue(before) == [] || |Queue(before)| >= 0;
  }

  /** Over any run the status and the recorded holder agree, and the queue only grows at its end. */
  lemma {:induction false} RunKeepsGood(slots: seq<Option<Slot>>, calls: seq<Call>, replies: seq<Reply>, i: nat, j: nat)
    requires Run(slots, calls, replies) && Good(slots[0]) && i <= j < |slots|
    ensures Good(slots[i]) && Good(slots[j]) && Queue(slots[i]) <= Queue(slots[j])
    decreases j
  {
    if j > 0 {
      RunKeepsGood(slots, calls, replies, if i < j then i else j - 1, j - 1);
      StepKeepsGood(calls[j - 1], slots[j - 1], slots[j], replies[j - 1]);
    }
  }

  ghost predicate Acquired(calls: seq<Call>, replies: seq<Reply>, i: nat)
    requires i < |calls| == |replies|
  {
    calls[i].Acquire? && replies[i].Granted? && replies[i].acquired
  }

  /** A release that took effect: it found the slot held, by the agent it names if it names one, and left it open. */
  ghost predicate Freed(slots: seq<Option<Slot>>, calls: seq<Call>, i: nat)
    requires i < |calls| && |slots| == |calls| + 1
  {
    && calls[i].Release? && slots[i].Some? && slots[i + 1].Some?
    && slots[i].value.status == IN_PROGRESS && slots[i + 1].value.status == OPEN
    && (calls[i].named == "" || HeldFor(slots[i], calls[i].named))
  }

  /** A tenure lasts until a release by its holder, or one that names nobody, takes effect. */
  lemma {:induction false} HeldUntilFreed(slots: seq<Option<Slot>>, calls: seq<Call>, replies: seq<Reply>, i: nat, m: nat)
    requires Run(slots, calls, replies) && Good(slots[0]) && i < m < |slots|
    requires Acquired(calls, replies, i)
    requires forall k | i < k < m :: !Freed(slots, calls, k)
    ensures HeldFor(slots[m], calls[i].holder)
    decreases m
  {
    assert OPEN[0] != IN_PROGRESS[0];
    if m > i + 1 {
      HeldUntilFreed(slots, calls, replies, i, m - 1);
      assert !Freed(slots, calls, m - 1);
      assert Does(calls[m - 1], slots[m - 1], slots[m], replies[m - 1]);
    } else {
      assert Does(calls[i], slots[i], slots[m], replies[i]);
    }
  }

  /** Between two successful acquires a release took effect, and the first of them ended the first holder's tenure. */
  lemma OneHolderAtATime(slots: seq<Option<Slot>>, calls: seq<Call>, replies: seq<Reply>, i: nat, j: nat)
    requires Run(slots, calls, replies) && Good(slots[0]) && i < j < |calls|
    requires Acquired(calls, replies, i) && Acquired(calls, replies, j)
    ensures exists k | i < k < j :: Freed(slots, calls, k) && HeldFor(slots[k], calls[i].holder)
  {
    assert OPEN[0] != IN_PROGRESS[0];
    assert Does(calls[j], slots[j], slots[j + 1], replies[j]);
    if forall k | i < k < j :: !Freed(slots, calls, k) {
      HeldUntilFreed(slots, calls, replies, i, j);
    } else {
      var k := FirstFreed(slots, calls, i + 1, j);
      HeldUntilFreed(slots, calls, replies, i, k);
    }
  }

  lemma {:induction false} FirstFreed(slots: seq<Option<Slot>>, calls: seq<Call>, i: nat, j: nat) returns (k: nat)
    requires |slots| == |calls| + 1 && i <= j <= |calls|
    requires exists m | i <= m < j :: Freed(slots, calls, m)
    ensures i <= k < j && Freed(slots, calls, k) && forall m | i <= m < k :: !Freed(slots, calls, m)
    decreases j - i
  {
    if Freed(slots, calls, i) {
      k := i;
    } else {
      k := FirstFreed(slots, calls, i + 1, j);
    }
  }

  /** While someone holds the slot, everyone who asks is told that holder, and only releases by that holder count. */
  lemma HeldSlotAnswers(slots: seq<Option<Slot>>, calls: seq<Call>, replies: seq<Reply>, i: nat)
    requires Run(slots, calls, replies) && i < |calls| && Good(slots[i]) && slots[i].Some?
    requires slots[i].value.status == IN_PROGRESS
    ensures calls[i].Acquire? && calls[i].holder != "" ==>
              replies[i].Granted? && !replies[i].acquired && replies[i].currentHolder == slots[i].value.meta.holder
    ensures calls[i].Acquire? && calls[i].holder != "" && !calls[i].wait ==>
              !replies[i].waiting && replies[i].position == 0 && slots[i + 1] == slots[i]
    ensures calls[i].Release? && calls[i].named != "" && !HeldFor(slots[i], calls[i].named) ==>
              replies[i] == HeldBy(slots[i].value.meta.holder) && slots[i + 1] == slots[i]
    ensures calls[i].Release? && (calls[i].named == "" || HeldFor(slots[i], calls[i].named)) ==> Freed(slots, calls, i)
  {
    assert OPEN[0] != IN_PROGRESS[0];
    assert Does(calls[i], slots[i], slots[i + 1], replies[i]);
  }

  /**
  The position that a waiting agent is told. A new waiter is told its 1-based
  place. One already in the queue is told the length of the queue, which is its
  place only when it is last.
  */
  lemma PositionTold(holder: Agent, before: Option<Slot>, after: Option<Slot>, reply: Reply)
    requires Does(Acquire(holder, true), before, after, reply) && Good(before) && reply.Granted? && reply.waiting
    ensures reply.position >= 1 && reply.position == |Queue(after)| && holder in Queue(after)
    ensures holder !in Queue(before) ==> Queue(after) == Queue(before) + [holder]
    ensures forall i | 0 <= i < |Queue(after)| && Queue(after)[i] == holder ::
              reply.position == i + 1 <==> i == |Queue(after)| - 1
    ensures holder !in Queue(before) ==> Queue(after)[reply.position - 1] == holder
  {
  }

  /** A release that names someone fails on an open slot; only the unnamed one may be repeated. */
  lemma ReleasingAnOpenSlot(named: Agent, before: Option<Slot>, after: Option<Slot>, reply: Reply)
    requires Does(Release(named), before, after, reply) && Good(before) && before.Some? && before.value.status == OPEN
    ensures after == before && (reply == Released <==> named == "")
  {
    assert OPEN[0] != IN_PROGRESS[0];
  }

  /** Getting the slot does not take an agent out of the queue: whoever once waited is listed for ever. */
  lemma WaitersStayListed(slots: seq<Option<Slot>>, calls: seq<Call>, replies: seq<Reply>, i: nat, j: nat, w: Agent)
    requires Run(slots, calls, replies) && Good(slots[0]) && i < j < |slots|
    requires calls[i] == Acquire(w, true) && replies[i].Granted? && replies[i].waiting
    ensures w in Queue(slots[j])
    ensures w !in Queue(slots[i]) ==>
              1 <= replies[i].position <= |Queue(slots[j])| && Queue(slots[j])[replies[i].position - 1] == w
  {
    RunKeepsGood(slots, calls, replies, i, i + 1);
    RunKeepsGood(slots, calls, replies, i + 1, j);
    PositionTold(w, slots[i], slots[i + 1], replies[i]);
    assert forall k | 0 <= k < |Queue(slots[i + 1])| :: Queue(slots[i + 1])[k] == Queue(slots[j])[k];
  }

  /** Creating the slot leaves one that is there as it is, and a new one for the first agent who asks. */
  lemma CreatedSlotIsFree(before: Option<Slot>, created: Option<Slot>, r: Reply, holder: Agent, wait: bool,
                          after: Option<Slot>, reply: Reply)
    requires Does(Create, before, created, r) && holder != "" && Does(Acquire(holder, wait), created, after, reply)
    ensures before.Some? ==> created == before
    ensures before.None? ==>
              reply == Granted(true, holder, false, 0) && after.Some? && after.value.meta == Meta(holder, [])
  {
  }

  /** Check says available exactly when an acquire made at that moment would be granted. */
  lemma CheckTellsAcquire(s: Option<Slot>, seen: Reply, holder: Agent, wait: bool, after: Option<Slot>, reply: Reply)
    requires Does(Check, s, s, seen) && holder != "" && Does(Acquire(holder, wait), s, after, reply)
    ensures seen == NotFound <==> reply == NotFound
    ensures (seen.Seen? && seen.available) <==> (reply.Granted? && reply.acquired)
    ensures seen.Seen? && !seen.available ==> reply.Granted? && reply.currentHolder == seen.seenHolder
  {
  }

  /** A release undoes an acquire: the slot is as it was before, queue included, whoever asked in between in vain. */
  lemma {:induction false} ReleaseUndoesAcquire(slots: seq<Option<Slot>>, calls: seq<Call>, replies: seq<Reply>, i: nat, j: nat)
    requires Run(slots, calls, replies) && Good(slots[0]) && i < j < |calls| && Acquired(calls, replies, i)
    requires forall k | i < k < j :: !Freed(slots, calls, k)
    requires calls[j] == Release(calls[i].holder) || calls[j] == Release("")
    ensures replies[j] == Released && slots[i].Some? && slots[j + 1].Some?
    ensures slots[j + 1].value.status == slots[i].value.status == OPEN
    ensures slots[j + 1].value.meta.holder == slots[i].value.meta.holder == ""
    ensures Queue(slots[i]) <= Queue(slots[j + 1])
    ensures (forall k | i < k < j :: calls[k].Acquire? ==> !calls[k].wait) ==> slots[j + 1] == slots[i]
  {
    assert OPEN[0] != IN_PROGRESS[0];
    assert Does(calls[i], slots[i], slots[i + 1], replies[i]);
    assert Does(calls[j], slots[j], slots[j + 1], replies[j]);
    RunKeepsGood(slots, calls, replies, i, j + 1);
    HeldUntilFreed(slots, calls, replies, i, j);
    if forall k | i < k < j :: calls[k].Acquire? ==> !calls[k].wait {
      QueueStays(slots, calls, replies, i, j);
    }
  }

  /** The queue is unchanged while nobody asks to wait. */
  lemma {:induction false} QueueStays(slots: seq<Option<Slot>>, calls: seq<Call>, replies: seq<Reply>, i: nat, j: nat)
    requires Run(slots, calls, replies) && Good(slots[0]) && i < j < |slots| && Acquired(calls, replies, i)
    requires forall k | i < k < j :: !Freed(slots, calls, k) && (calls[k].Acquire? ==> !calls[k].wait)
    ensures Queue(slots[j]) == Queue(slots[i])
    decreases j
  {
    assert Does(calls[j - 1], slots[j - 1], slots[j], replies[j - 1]);
    if j > i + 1 {
      QueueStays(slots, calls, replies, i, j - 1);
      HeldUntilFreed(slots, calls, replies, i, j - 1);
    }
  }
}
