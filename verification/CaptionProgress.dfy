/** What becomes of a caption call: who is stopped, and that whoever holds a permit gets to
    the end. */
module CaptionProgress {
  import opened Text
  import opened CaptionSlots

  // ---------------------------------------------------------------- being stopped

  predicate IsStopped(p: Phase) {
    p.Cancelled? || p.Orphaned? || p.Leaked?
  }

  lemma StepStops(site: Site, s: System, e: Event, t: nat)
    requires InRange(site, s) && t < |site.callers|
    ensures t < |Step(site, s, e).phases|
    ensures IsStopped(Step(site, s, e).phases[t]) ==> IsStopped(s.phases[t]) || e == Cancel(t)
  {
    assert SemInRange(s.phases[t], s.slots);
  }

  /** A call stops short only if it was cancelled. */
  lemma {:induction false} OnlyCancelledStop(site: Site, events: seq<Event>, t: nat)
    requires t < |site.callers| && IsStopped(Run(site, events).phases[t])
    ensures Cancel(t) in events
  {
    if events != [] {
      var before, e := events[..|events| - 1], events[|events| - 1];
      StepStops(site, Run(site, before), e, t);
      if e != Cancel(t) {
        OnlyCancelledStop(site, before, t);
        var k :| 0 <= k < |before| && before[k] == Cancel(t);
        assert events[k] == Cancel(t);
      } else {
        assert events[|events| - 1] == Cancel(t);
      }
    }
  }

  /** Cancelling stops a call if and only if it is asynchronous, not over, and not just opening
      its client, where it does not await; any other stays where it is. */
  lemma CancelStops(site: Site, events: seq<Event>, t: nat)
    requires t < |site.callers|
    ensures var p, p' := Run(site, events).phases[t], Run(site, events + [Cancel(t)]).phases[t];
            if site.callers[t].call.kind.Async? && !p.Opening? && !p.Finished? && !p.Refused? then IsStopped(p') else p' == p
  {
    RunSnoc(site, events, Cancel(t));
    assert SemInRange(Run(site, events).phases[t], Run(site, events).slots);
  }

  lemma StepKeepsStopped(site: Site, s: System, e: Event, t: nat)
    requires InRange(site, s) && t < |site.callers| && IsStopped(s.phases[t])
    ensures t < |Step(site, s, e).phases| && IsStopped(Step(site, s, e).phases[t])
  {
    assert SemInRange(s.phases[t], s.slots);
  }

  lemma StoppedStays(site: Site, events: seq<Event>, e: Event, t: nat)
    requires t < |site.callers| && IsStopped(Run(site, events).phases[t])
    ensures IsStopped(Run(site, events + [e]).phases[t])
  {
    RunSnoc(site, events, e);
    StepKeepsStopped(site, Run(site, events), e, t);
  }

  /** A stopped call never goes on. */
  lemma {:induction false} StoppedForGood(site: Site, events: seq<Event>, more: seq<Event>, t: nat)
    requires t < |site.callers| && IsStopped(Run(site, events).phases[t])
    ensures IsStopped(Run(site, events + more).phases[t])
  {
    if more == [] {
      assert events + more == events;
    } else {
      var before, e := more[..|more| - 1], more[|more| - 1];
      StoppedForGood(site, events, before, t);
      StoppedStays(site, events + before, e, t);
      assert events + more == (events + before) + [e];
    }
  }

  // ---------------------------------------------------------------- getting to the semaphore

  /** Where the first step leads: a call that cannot be prepared is over without a caption, one
      with a negative limit is refused, and any other waits at the semaphore of its key, an
      asynchronous one through a worker thread. */
  ghost predicate HasBegun(c: Caller, p: Phase, registry: map<Key, nat>) {
    if !c.prepared then p == Finished(0, "")
    else if c.limit < 0 then p == Refused
    else CallerKey(c) in registry && p == if c.call.kind.Async? then Queued(registry[CallerKey(c)]) else Blocked(registry[CallerKey(c)])
  }

  lemma EnrolledBegins(slots: Slots, c: Caller)
    requires OneEach(slots)
    ensures var (slots', p) := Advanced(slots, c, Starting); HasBegun(c, p, slots'.registry)
  {
  }

  /** Only an asynchronous call that has an image to encode needs a worker thread for this. */
  lemma FirstStepBegins(site: Site, events: seq<Event>, t: nat)
    requires t < |site.callers| && Run(site, events).phases[t].Starting?
    ensures var c, s, s' := site.callers[t], Run(site, events), Run(site, events + [Advance(t)]);
            if c.call.kind.Async? && c.hasImage && Busy(site.callers, s.phases, c.loop) >= site.workers then s' == s
            else HasBegun(c, s'.phases[t], s'.slots.registry)
  {
    RunConserves(site, events);
    RunSnoc(site, events, Advance(t));
    EnrolledBegins(Run(site, events).slots, site.callers[t]);
  }

  /** A call waits for a worker thread exactly while all of its loop are waiting, and for a permit
      exactly while there is none; it takes one only. */
  lemma WaitingStep(site: Site, events: seq<Event>, t: nat)
    requires t < |site.callers|
    ensures var s, s' := Run(site, events), Run(site, events + [Advance(t)]);
            && (s.phases[t].Queued? ==>
                  && s'.phases[t] == (if Busy(site.callers, s.phases, site.callers[t].loop) < site.workers
                                      then Blocked(s.phases[t].sem) else s.phases[t])
                  && s'.slots == s.slots)
            && (s.phases[t].Blocked? ==>
                  && s.phases[t].sem < |s.slots.permits| == |s'.slots.permits|
                  && var sem, free := s.phases[t].sem, s.slots.permits[s.phases[t].sem];
                     && s'.phases[t] == (if free > 0 then Granted(sem) else Blocked(sem))
                     && s'.slots.permits[sem] == (if free > 0 then free - 1 else 0))
  {
    RunConserves(site, events);
    RunSnoc(site, events, Advance(t));
    OnlyAsyncQueue(site, events, t);
    assert SemInRange(Run(site, events).phases[t], Run(site, events).slots);
  }

  lemma StepQueues(site: Site, s: System, e: Event, t: nat)
    requires InRange(site, s) && t < |site.callers| && (s.phases[t].Queued? ==> site.callers[t].call.kind.Async?)
    ensures t < |Step(site, s, e).phases| && (Step(site, s, e).phases[t].Queued? ==> site.callers[t].call.kind.Async?)
  {
    assert SemInRange(s.phases[t], s.slots);
  }

  lemma {:induction false} OnlyAsyncQueue(site: Site, events: seq<Event>, t: nat)
    requires t < |site.callers|
    ensures Run(site, events).phases[t].Queued? ==> site.callers[t].call.kind.Async?
  {
    if events != [] {
      var before := events[..|events| - 1];
      OnlyAsyncQueue(site, before, t);
      StepQueues(site, Run(site, before), events[|events| - 1], t);
    }
  }

  // ---------------------------------------------------------------- getting to the end

  /** How many steps a caller that holds a permit can still take. */
  function StepsLeft(c: Caller, p: Phase): nat {
    var retries := if c.call.maxRetries > 0 then c.call.maxRetries else 0;
    match p
    case Granted(_) => 2 * retries + 3
    case Opening(_) => 2 * retries + 2
    case Posting(_, attempt) => if attempt <= retries then 2 * (retries - attempt) + 1 else 1
    case Sleeping(_, attempt) => if attempt < retries then 2 * (retries - attempt) else 0
    case _ => 0
  }

  predicate HoldsPermit(p: Phase) {
    p.Granted? || p.Opening? || p.Posting? || p.Sleeping?
  }

  /** The caller holds a permit or is done, with so many steps left. */
  ghost predicate IsOnItsWay(c: Caller, p: Phase, n: nat) {
    p.Finished? || (HoldsPermit(p) && StepsLeft(c, p) <= n)
  }

  lemma PostedGetsCloser(slots: Slots, c: Caller, p: Phase, n: nat)
    requires SemInRange(p, slots) && Fits(c, p, slots.registry)
    requires p.Posting? && StepsLeft(c, p) <= n
    ensures n > 0 && IsOnItsWay(c, Posted(slots, c, p.sem, p.attempt).1, n - 1)
  {
  }

  lemma AdvancedGetsCloser(slots: Slots, c: Caller, p: Phase, n: nat)
    requires SemInRange(p, slots) && Fits(c, p, slots.registry)
    requires IsOnItsWay(c, p, n)
    ensures n > 0 ==> IsOnItsWay(c, Advanced(slots, c, p).1, n - 1)
    ensures n == 0 ==> p.Finished?
  {
    if p.Posting? {
      PostedGetsCloser(slots, c, p, n);
    }
  }

  lemma StepGetsCloser(site: Site, s: System, e: Event, t: nat, n: nat)
    requires Sound(site, s) && t < |site.callers| && e != Cancel(t)
    requires IsOnItsWay(site.callers[t], s.phases[t], n)
    ensures t < |Step(site, s, e).phases|
    ensures IsOnItsWay(site.callers[t], Step(site, s, e).phases[t], if e == Advance(t) && n > 0 then n - 1 else n)
  {
    assert SemInRange(s.phases[t], s.slots) && Fits(site.callers[t], s.phases[t], s.slots.registry);
    AdvancedGetsCloser(s.slots, site.callers[t], s.phases[t], n);
  }

  /** How often the caller gets to take a step. */
  function Turns(events: seq<Event>, t: nat): nat {
    if events == [] then 0
    else Turns(events[..|events| - 1], t) + if events[|events| - 1] == Advance(t) then 1 else 0
  }

  function Less(a: nat, b: nat): nat {
    if a >= b then a - b else 0
  }

  lemma {:induction false} TurnsGetCloser(site: Site, events: seq<Event>, more: seq<Event>, t: nat)
    requires t < |site.callers| && HoldsPermit(Run(site, events).phases[t]) && Cancel(t) !in more
    ensures IsOnItsWay(site.callers[t], Run(site, events + more).phases[t],
                       Less(StepsLeft(site.callers[t], Run(site, events).phases[t]), Turns(more, t)))
  {
    if more == [] {
      assert events + more == events;
    } else {
      var before, e := more[..|more| - 1], more[|more| - 1];
      assert forall k :: 0 <= k < |before| ==> before[k] == more[k];
      TurnsGetCloser(site, events, before, t);
      RunConserves(site, events + before);
      RunSnoc(site, events + before, e);
      assert events + more == (events + before) + [e];
      StepGetsCloser(site, Run(site, events + before), e, t,
                     Less(StepsLeft(site.callers[t], Run(site, events).phases[t]), Turns(before, t)));
    }
  }

  /** Whatever the others do, a call that holds a permit and is not cancelled is finished after
      at most two steps for each retry and three more; and then it has posted as often, and
      returns what, it would on its own. */
  lemma HolderFinishes(site: Site, events: seq<Event>, more: seq<Event>, t: nat)
    requires t < |site.callers| && HoldsPermit(Run(site, events).phases[t]) && Cancel(t) !in more
    requires Turns(more, t) >= 2 * (if site.callers[t].call.maxRetries > 0 then site.callers[t].call.maxRetries else 0) + 3
    ensures Run(site, events + more).phases[t] == Finished(ExpectedPosts(site.callers[t]), ExpectedCaption(site.callers[t]))
  {
    TurnsGetCloser(site, events, more, t);
    RunConserves(site, events);
    RunConserves(site, events + more);
    var c, p, p' := site.callers[t], Run(site, events).phases[t], Run(site, events + more).phases[t];
    assert Fits(c, p, Run(site, events).slots.registry);
    LeftIsBounded(c, p);
    assert SemInRange(p', Run(site, events + more).slots) && Fits(c, p', Run(site, events + more).slots.registry);
    AdvancedGetsCloser(Run(site, events + more).slots, c, p', 0);
    FinishesAsAlone(site, events + more, t);
  }

  lemma LeftIsBounded(c: Caller, p: Phase)
    ensures StepsLeft(c, p) <= 2 * (if c.call.maxRetries > 0 then c.call.maxRetries else 0) + 3
  {
  }
}
