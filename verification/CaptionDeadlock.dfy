/** When caption calls come to a standstill: permits lost to cancelled calls, and worker threads
    that wait for them. */
module CaptionDeadlock {
  import opened CaptionSlots

  /** A call that has not ended and was not cancelled while acquiring. */
  predicate IsPending(p: Phase) {
    !IsOver(p) && !IsStray(p)
  }

  /** The caller's next step changes something. */
  ghost predicate CanGoOn(site: Site, s: System, u: nat)
    requires InRange(site, s)
  {
    Step(site, s, Advance(u)) != s
  }

  /** The caller waits for a semaphore all of whose permits are lost. */
  ghost predicate IsStarved(site: Site, s: System, u: nat)
    requires u < |site.callers| && u < |s.phases|
  {
    s.phases[u].Blocked? && Count(s.phases, s.phases[u].sem, Leaking) == site.callers[u].limit
  }

  /** It is starved, or no worker thread is left for it. */
  ghost predicate IsHeldUp(site: Site, s: System, u: nat)
    requires u < |site.callers| == |s.phases|
  {
    IsStarved(site, s, u) || LacksWorker(site, s, u)
  }

  lemma GoesOnIff(site: Site, s: System, u: nat)
    requires InRange(site, s) && u < |site.callers| && IsPending(s.phases[u])
    ensures s.phases[u].Blocked? ==> s.phases[u].sem < |s.slots.permits|
    ensures CanGoOn(site, s, u) <==>
              !LacksWorker(site, s, u) && !(s.phases[u].Blocked? && s.slots.permits[s.phases[u].sem] == 0)
  {
    assert SemInRange(s.phases[u], s.slots);
    if !LacksWorker(site, s, u) {
      if !(s.phases[u].Blocked? && s.slots.permits[s.phases[u].sem] == 0) {
      } else {
        assert s.phases[u := s.phases[u]] == s.phases;
      }
    }
  }

  /** What is free, held and lost at the semaphore that a caller or its thread waits for. */
  lemma WaiterIsBalanced(site: Site, s: System, u: nat)
    requires Conserved(site, s) && u < |site.callers| && (s.phases[u].Blocked? || s.phases[u].Orphaned?)
    ensures var sem := s.phases[u].sem;
            && sem < |s.slots.permits|
            && s.slots.permits[sem] + Count(s.phases, sem, Holding) + Count(s.phases, sem, Leaking) == site.callers[u].limit
  {
    assert Fits(site.callers[u], s.phases[u], s.slots.registry);
    assert Balanced(s, CallerKey(site.callers[u]));
  }

  lemma SomeoneMoves(site: Site, s: System, u: nat) returns (t: nat)
    requires Conserved(site, s) && u < |site.callers| && IsPending(s.phases[u]) && !IsHeldUp(site, s, u)
    ensures t < |site.callers| && CallerKey(site.callers[t]) == CallerKey(site.callers[u])
    ensures IsPending(s.phases[t]) && CanGoOn(site, s, t)
  {
    t := u;
    GoesOnIff(site, s, u);
    if !CanGoOn(site, s, u) {
      WaiterIsBalanced(site, s, u);
      t := SomeonePlays(s.phases, s.phases[u].sem, Holding);
      GoesOnIff(site, s, t);
      assert Fits(site.callers[t], s.phases[t], s.slots.registry) && Fits(site.callers[u], s.phases[u], s.slots.registry);
    }
  }

  /** Unless a pending call is held up, it or another one of the same key can go on. */
  lemma SomeoneCanMove(site: Site, events: seq<Event>, u: nat) returns (t: nat)
    requires u < |site.callers| && IsPending(Run(site, events).phases[u])
    requires !IsHeldUp(site, Run(site, events), u)
    ensures t < |site.callers| && CallerKey(site.callers[t]) == CallerKey(site.callers[u])
    ensures IsPending(Run(site, events).phases[t]) && CanGoOn(site, Run(site, events), t)
  {
    RunConserves(site, events);
    t := SomeoneMoves(site, Run(site, events), u);
  }

  /** The calls that are pending for one of the given keys. */
  predicate Concerns(site: Site, s: System, keys: iset<Key>, u: nat) {
    u < |site.callers| && u < |s.phases| && CallerKey(site.callers[u]) in keys && IsPending(s.phases[u])
  }

  ghost predicate IsDeadlocked(site: Site, s: System, keys: iset<Key>)
    requires InRange(site, s)
  {
    forall u: nat :: Concerns(site, s, keys, u) ==> !CanGoOn(site, s, u)
  }

  ghost predicate AllHeldUp(site: Site, s: System, keys: iset<Key>)
    requires InRange(site, s)
  {
    forall u: nat :: Concerns(site, s, keys, u) ==> IsHeldUp(site, s, u)
  }

  lemma StuckIff(site: Site, s: System, keys: iset<Key>)
    requires Conserved(site, s)
    ensures IsDeadlocked(site, s, keys) <==> AllHeldUp(site, s, keys)
  {
    forall u: nat | Concerns(site, s, keys, u) && IsHeldUp(site, s, u) ensures !CanGoOn(site, s, u) {
      GoesOnIff(site, s, u);
      if IsStarved(site, s, u) {
        WaiterIsBalanced(site, s, u);
      }
    }
    if u: nat :| Concerns(site, s, keys, u) && !IsHeldUp(site, s, u) {
      var t := SomeoneMoves(site, s, u);
      assert Concerns(site, s, keys, t);
    }
  }

  /** For one key, or any number of them, or all: in every run, no pending call can go on
      exactly when each is starved, because cancelled calls have lost all permits of its
      semaphore (a limit of zero has none to lose), or needs a worker thread while all of its
      loop are waiting. */
  lemma DeadlockIff(site: Site, events: seq<Event>, keys: iset<Key>)
    ensures IsDeadlocked(site, Run(site, events), keys) <==> AllHeldUp(site, Run(site, events), keys)
  {
    RunConserves(site, events);
    StuckIff(site, Run(site, events), keys);
  }

  /** A call that waits, cancelled or not, for a semaphore that has lost all its permits. */
  ghost predicate WaitsInVain(site: Site, s: System, u: nat)
    requires u < |site.callers| && u < |s.phases|
  {
    (s.phases[u].Blocked? || s.phases[u].Orphaned?) && Count(s.phases, s.phases[u].sem, Leaking) == site.callers[u].limit
  }

  lemma WaiterStays(site: Site, s: System, e: Event, u: nat)
    requires Sound(site, s) && u < |site.callers|
    requires s.phases[u].Blocked? || s.phases[u].Orphaned?
    requires s.phases[u].sem < |s.slots.permits| && s.slots.permits[s.phases[u].sem] == 0
    ensures var p' := Step(site, s, e).phases[u];
            (p'.Blocked? || p'.Orphaned?) && p'.sem == s.phases[u].sem
  {
  }

  lemma StepInVain(site: Site, s: System, e: Event, u: nat)
    requires Conserved(site, s) && u < |site.callers| && WaitsInVain(site, s, u)
    ensures u < |Step(site, s, e).phases| && WaitsInVain(site, Step(site, s, e), u)
  {
    if e.caller < |site.callers| {
      WaiterIsBalanced(site, s, u);
      WaiterStays(site, s, e, u);
      LostStaysLost(site, s, e, s.phases[u].sem);
      StepConserves(site, s, e);
      WaiterIsBalanced(site, Step(site, s, e), u);
    }
  }

  lemma LostStaysLost(site: Site, s: System, e: Event, sem: nat)
    requires Sound(site, s) && e.caller < |site.callers|
    ensures Count(Step(site, s, e).phases, sem, Leaking) >= Count(s.phases, sem, Leaking)
  {
    StepIsMove(site, s, e);
    if s.phases[e.caller].Leaked? {
      LeakedStays(site, s, e);
    }
    CountUpdate(s.phases, e.caller, Step(site, s, e).phases[e.caller], sem, Leaking);
  }

  lemma LeakedStays(site: Site, s: System, e: Event)
    requires InRange(site, s) && e.caller < |site.callers| && s.phases[e.caller].Leaked?
    ensures Step(site, s, e).phases[e.caller] == s.phases[e.caller]
  {
    assert SemInRange(s.phases[e.caller], s.slots);
  }

  lemma {:induction false} ChainHolds(holds: seq<Event> -> bool, events: seq<Event>, more: seq<Event>)
    requires holds(events)
    requires forall es, e :: holds(es) ==> holds(es + [e])
    ensures holds(events + more)
    decreases |more|
  {
    if more == [] {
      assert events + more == events;
    } else {
      ChainHolds(holds, events + [more[0]], more[1..]);
      assert events + [more[0]] + more[1..] == events + more;
    }
  }

  lemma NextInVain(site: Site, events: seq<Event>, e: Event, u: nat)
    requires u < |site.callers| && WaitsInVain(site, Run(site, events), u)
    ensures WaitsInVain(site, Run(site, events + [e]), u)
  {
    RunConserves(site, events);
    RunSnoc(site, events, e);
    StepInVain(site, Run(site, events), e, u);
  }

  /** A starved call never gets any further, whatever the others do. */
  lemma StarvedForever(site: Site, events: seq<Event>, more: seq<Event>, u: nat)
    requires u < |site.callers| && WaitsInVain(site, Run(site, events), u)
    ensures WaitsInVain(site, Run(site, events + more), u)
  {
    var holds := es => WaitsInVain(site, Run(site, es), u);
    forall es, e | holds(es) ensures holds(es + [e]) {
      NextInVain(site, es, e, u);
    }
    ChainHolds(holds, events, more);
  }

  /** No thread's next step changes anything, not even that of one left behind. */
  ghost predicate IsStandstill(site: Site, s: System)
    requires InRange(site, s)
  {
    forall u: nat :: u < |site.callers| ==> !CanGoOn(site, s, u)
  }

  /** The call is over, or it or its thread waits in vain, or it has no worker thread. */
  ghost predicate IsDone(site: Site, s: System, u: nat)
    requires u < |site.callers| == |s.phases|
  {
    IsOver(s.phases[u]) || s.phases[u].Leaked? || WaitsInVain(site, s, u) || LacksWorker(site, s, u)
  }

  lemma StrayGoesOnIff(site: Site, s: System, u: nat)
    requires InRange(site, s) && u < |site.callers| && !IsPending(s.phases[u])
    ensures s.phases[u].Orphaned? ==> s.phases[u].sem < |s.slots.permits|
    ensures CanGoOn(site, s, u) <==> s.phases[u].Orphaned? && s.slots.permits[s.phases[u].sem] > 0
  {
    assert SemInRange(s.phases[u], s.slots);
    assert s.phases[u := s.phases[u]] == s.phases;
  }

  lemma StandstillEnds(site: Site, s: System, u: nat)
    requires Conserved(site, s) && u < |site.callers| && IsStandstill(site, s)
    ensures IsDone(site, s, u)
  {
    assert !CanGoOn(site, s, u);
    if IsPending(s.phases[u]) {
      GoesOnIff(site, s, u);
    } else {
      StrayGoesOnIff(site, s, u);
    }
    if s.phases[u].Blocked? || s.phases[u].Orphaned? {
      WaiterIsBalanced(site, s, u);
      if Count(s.phases, s.phases[u].sem, Holding) > 0 {
        HolderGoesOn(site, s, s.phases[u].sem);
      }
    }
  }

  lemma HolderGoesOn(site: Site, s: System, sem: nat)
    requires InRange(site, s) && Count(s.phases, sem, Holding) > 0
    ensures !IsStandstill(site, s)
  {
    var t := SomeonePlays(s.phases, sem, Holding);
    GoesOnIff(site, s, t);
    assert CanGoOn(site, s, t);
  }

  lemma DoneStandsStill(site: Site, s: System, u: nat)
    requires Conserved(site, s) && u < |site.callers| && IsDone(site, s, u)
    ensures !CanGoOn(site, s, u)
  {
    if WaitsInVain(site, s, u) {
      WaiterIsBalanced(site, s, u);
    }
    if IsPending(s.phases[u]) {
      GoesOnIff(site, s, u);
    } else {
      StrayGoesOnIff(site, s, u);
    }
  }

  ghost predicate AllDone(site: Site, s: System)
    requires InRange(site, s)
  {
    forall u: nat :: u < |site.callers| ==> IsDone(site, s, u)
  }

  /** Every worker thread that is taken waits in vain. */
  ghost predicate AllTakenInVain(site: Site, s: System)
    requires InRange(site, s)
  {
    forall u: nat, loop :: u < |site.callers| && Occupies(site.callers[u], s.phases[u], loop) ==> WaitsInVain(site, s, u)
  }

  lemma StillIff(site: Site, s: System)
    requires Conserved(site, s)
    ensures IsStandstill(site, s) <==> AllDone(site, s)
    ensures AllDone(site, s) ==> AllTakenInVain(site, s)
  {
    if IsStandstill(site, s) {
      forall u: nat | u < |site.callers| ensures IsDone(site, s, u) {
        StandstillEnds(site, s, u);
      }
    }
    if AllDone(site, s) {
      forall u: nat | u < |site.callers| ensures !CanGoOn(site, s, u) {
        DoneStandsStill(site, s, u);
      }
      forall u: nat, loop | u < |site.callers| && Occupies(site.callers[u], s.phases[u], loop) ensures WaitsInVain(site, s, u) {
        assert IsDone(site, s, u);
      }
    }
  }

  /** In every run, everything stands still exactly when every call is over, or waits in vain
      for lost permits, or lacks a worker thread, all of which then wait in vain. */
  lemma StandstillIff(site: Site, events: seq<Event>)
    ensures IsStandstill(site, Run(site, events)) <==> AllDone(site, Run(site, events))
    ensures AllDone(site, Run(site, events)) ==> AllTakenInVain(site, Run(site, events))
  {
    RunConserves(site, events);
    StillIff(site, Run(site, events));
  }

  lemma {:induction false} BusyUpdate(callers: seq<Caller>, phases: seq<Phase>, t: nat, p: Phase, loop: nat)
    requires t < |phases| == |callers|
    ensures Busy(callers, phases[t := p], loop) + Bit(Occupies(callers[t], phases[t], loop))
            == Busy(callers, phases, loop) + Bit(Occupies(callers[t], p, loop))
  {
    if t == 0 {
      assert phases[0 := p][1..] == phases[1..];
    } else {
      BusyUpdate(callers[1..], phases[1..], t - 1, p, loop);
      assert phases[t := p][1..] == phases[1..][t - 1 := p];
    }
  }

  lemma {:induction false} NobodyBusy(callers: seq<Caller>, loop: nat)
    ensures Busy(callers, seq(|callers|, _ => Starting), loop) == 0
  {
    if callers != [] {
      NobodyBusy(callers[1..], loop);
      assert seq(|callers|, _ => Starting)[1..] == seq(|callers[1..]|, _ => Starting);
    }
  }

  lemma StepOccupies(site: Site, s: System, e: Event, loop: nat)
    requires InRange(site, s) && e.caller < |site.callers|
    ensures var c, p, p' := site.callers[e.caller], s.phases[e.caller], Step(site, s, e).phases[e.caller];
            Occupies(c, p', loop) && !Occupies(c, p, loop) ==> Busy(site.callers, s.phases, loop) < site.workers
    ensures Step(site, s, e).phases == s.phases[e.caller := Step(site, s, e).phases[e.caller]]
  {
    assert SemInRange(s.phases[e.caller], s.slots);
    assert s.phases[e.caller := s.phases[e.caller]] == s.phases;
  }

  /** Never more threads of a loop wait than it has. */
  lemma {:induction false} WorkersSuffice(site: Site, events: seq<Event>, loop: nat)
    ensures Busy(site.callers, Run(site, events).phases, loop) <= site.workers
  {
    if events == [] {
      NobodyBusy(site.callers, loop);
    } else {
      var before, e := events[..|events| - 1], events[|events| - 1];
      WorkersSuffice(site, before, loop);
      if e.caller < |site.callers| {
        var s := Run(site, before);
        StepOccupies(site, s, e, loop);
        BusyUpdate(site.callers, s.phases, e.caller, Step(site, s, e).phases[e.caller], loop);
      }
    }
  }

  /** A worker thread is taken when a queued call begins to wait, and free again only when the
      wait is over: cancelling the call does not free it. */
  lemma WorkersAreKept(site: Site, events: seq<Event>, e: Event, loop: nat)
    requires e.caller < |site.callers|
    ensures var s, s' := Run(site, events), Run(site, events + [e]);
            var p, p' := s.phases[e.caller], s'.phases[e.caller];
            var own := site.callers[e.caller].call.kind.Async? && site.callers[e.caller].loop == loop;
            Busy(site.callers, s'.phases, loop) == Busy(site.callers, s.phases, loop)
              + Bit(own && p.Queued? && p'.Blocked?)
              - Bit(own && (p.Blocked? || p.Orphaned?) && (p'.Granted? || p'.Leaked?))
  {
    var s := Run(site, events);
    RunSnoc(site, events, e);
    StepOccupies(site, s, e, loop);
    BusyUpdate(site.callers, s.phases, e.caller, Step(site, s, e).phases[e.caller], loop);
    StepTakesWorker(site, s, e, loop);
  }

  lemma StepTakesWorker(site: Site, s: System, e: Event, loop: nat)
    requires InRange(site, s) && e.caller < |site.callers|
    ensures var c, p, p' := site.callers[e.caller], s.phases[e.caller], Step(site, s, e).phases[e.caller];
            var own := c.call.kind.Async? && c.loop == loop;
            Bit(Occupies(c, p', loop)) == Bit(Occupies(c, p, loop))
              + Bit(own && p.Queued? && p'.Blocked?)
              - Bit(own && (p.Blocked? || p.Orphaned?) && (p'.Granted? || p'.Leaked?))
  {
    assert SemInRange(s.phases[e.caller], s.slots);
  }
}
