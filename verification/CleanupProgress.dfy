/** How the clean-up tasks of the rate limiter are created, go on and end. */
module CleanupProgress {
  import opened RateLimiter

  // ---------------------------------------------------------------- going on

  /** How often the task is resumed. */
  function Resumes(events: seq<Event>, task: nat): nat {
    if events == [] then 0
    else
      var last := events[|events| - 1];
      Resumes(events[..|events| - 1], task) + if last.Resume? && last.task == task then 1 else 0
  }

  function Min(a: nat, b: nat): nat {
    if a <= b then a else b
  }

  /** A started task is at its end or at a multiple of 100. */
  predicate AtYield(t: Task) {
    t.Sweeping? ==> t.next <= |t.keys| && (t.next == |t.keys| || t.next % 100 == 0)
  }

  ghost predicate AllAtYield(s: State) {
    forall k :: 0 <= k < |s.tasks| ==> AtYield(s.tasks[k])
  }

  lemma NextBatch(next: nat, total: nat)
    requires next < total && next % 100 == 0
    ensures BatchEnd(next, total) == Min(total, next + 100)
  {
  }

  lemma StepAtYield(s: State, e: Event, cfg: Config)
    requires AllAtYield(s)
    ensures AllAtYield(Step(s, e, cfg))
    ensures |s.tasks| <= |Step(s, e, cfg).tasks|
  {
  }

  lemma {:induction false} RunAtYield(events: seq<Event>, cfg: Config)
    ensures AllAtYield(Run(Init(), events, cfg))
  {
    if events != [] {
      RunAtYield(events[..|events| - 1], cfg);
      StepAtYield(Run(Init(), events[..|events| - 1], cfg), events[|events| - 1], cfg);
    }
  }

  lemma StepProgress(s: State, e: Event, task: nat, cfg: Config)
    requires task < |s.tasks| && s.tasks[task].Sweeping? && AtYield(s.tasks[task])
    ensures var t, tasks := s.tasks[task], Step(s, e, cfg).tasks;
            task < |tasks| && GoneOn(t, tasks[task], if e.Resume? && e.task == task then 1 else 0)
  {
    var t := s.tasks[task];
    if t.next < |t.keys| {
      NextBatch(t.next, |t.keys|);
    }
  }

  /** The task after it has been resumed `n` times. */
  predicate GoneOn(t: Task, t': Task, n: nat) {
    t.Sweeping? && t' == Sweeping(t.now, t.keys, Min(|t.keys|, t.next + 100 * n))
  }

  lemma GoneOnFurther(t: Task, t': Task, t'': Task, n: nat, k: nat)
    requires AtYield(t) && GoneOn(t, t', n) && GoneOn(t', t'', k)
    ensures GoneOn(t, t'', n + k)
  {
  }

  /** In every run, whatever happens in between, a started task goes on by 100 keys whenever
      it is resumed, until it has been through all keys of its snapshot. */
  lemma {:induction false} TaskGoesOn(events: seq<Event>, more: seq<Event>, task: nat, cfg: Config)
    requires task < |Run(Init(), events, cfg).tasks| && Run(Init(), events, cfg).tasks[task].Sweeping?
    ensures var tasks, tasks' := Run(Init(), events, cfg).tasks, Run(Init(), events + more, cfg).tasks;
            task < |tasks'| && GoneOn(tasks[task], tasks'[task], Resumes(more, task))
  {
    var t := Run(Init(), events, cfg).tasks[task];
    RunAtYield(events, cfg);
    assert AtYield(t);
    if more == [] {
      assert events + more == events;
    } else {
      var before, e := more[..|more| - 1], more[|more| - 1];
      TaskGoesOn(events, before, task, cfg);
      NextGoesOn(events + before, e, t, task, Resumes(before, task), cfg);
      assert events + more == (events + before) + [e];
    }
  }

  lemma NextGoesOn(events: seq<Event>, e: Event, t: Task, task: nat, n: nat, cfg: Config)
    requires task < |Run(Init(), events, cfg).tasks| && AtYield(t) && GoneOn(t, Run(Init(), events, cfg).tasks[task], n)
    ensures task < |Run(Init(), events + [e], cfg).tasks|
    ensures GoneOn(t, Run(Init(), events + [e], cfg).tasks[task], n + if e.Resume? && e.task == task then 1 else 0)
  {
    var s := Run(Init(), events, cfg);
    RunSnoc(events, e, cfg);
    RunAtYield(events, cfg);
    assert AtYield(s.tasks[task]);
    StepProgress(s, e, task, cfg);
    GoneOnFurther(t, s.tasks[task], Step(s, e, cfg).tasks[task], n, if e.Resume? && e.task == task then 1 else 0);
  }

  /** A new task that is resumed takes the keys of the store as its snapshot, and does its
      first 100. */
  lemma TaskStarts(events: seq<Event>, task: nat, order: seq<Client>, cfg: Config)
    requires task < |Run(Init(), events, cfg).tasks| && Run(Init(), events, cfg).tasks[task].Spawned?
    requires Enumerates(order, Run(Init(), events, cfg).store)
    ensures var t, s := Run(Init(), events, cfg).tasks[task], Run(Init(), events + [Resume(task, order)], cfg);
            task < |s.tasks| && s.tasks[task] == Sweeping(t.now, order, Min(|order|, 100))
  {
    RunSnoc(events, Resume(task, order), cfg);
    if order != [] {
      NextBatch(0, |order|);
    }
  }

  // ---------------------------------------------------------------- ending

  /** The client is not stored, or nothing in its deque had expired at the given time. */
  predicate IsClean(store: Store, c: Client, now: real, window: real) {
    c in store ==> forall i :: 0 <= i < |store[c]| ==> now - store[c][i] < window
  }

  /** A task that is resumed often enough after its start ends; and then no key of its
      snapshot holds anything that had expired at the task's own clock, whatever requests and
      other tasks ran in between. */
  lemma TaskCompletes(events: seq<Event>, more: seq<Event>, task: nat, cfg: Config)
    requires cfg.window > 0.0 || cfg.limit <= 0
    requires task < |Run(Init(), events, cfg).tasks| && Run(Init(), events, cfg).tasks[task].Sweeping?
    requires var t := Run(Init(), events, cfg).tasks[task]; t.next + 100 * Resumes(more, task) >= |t.keys|
    ensures var t, s := Run(Init(), events, cfg).tasks[task], Run(Init(), events + more, cfg);
            && task < |s.tasks| && s.tasks[task] == Sweeping(t.now, t.keys, |t.keys|)
            && forall c :: c in t.keys ==> IsClean(s.store, c, t.now, cfg.window)
  {
    TaskGoesOn(events, more, task, cfg);
    CleanupEffect(cfg);
    SweptIsClean(Run(Init(), events + more, cfg), task, cfg);
  }

  lemma SweptIsClean(s: State, task: nat, cfg: Config)
    requires Swept(s, cfg) && task < |s.tasks| && s.tasks[task].Sweeping? && s.tasks[task].next == |s.tasks[task].keys|
    ensures forall c :: c in s.tasks[task].keys ==> IsClean(s.store, c, s.tasks[task].now, cfg.window)
  {
    var t := s.tasks[task];
    assert TaskSwept(s.store, t, cfg.window);
    forall c | c in t.keys ensures IsClean(s.store, c, t.now, cfg.window) {
      var j :| 0 <= j < |t.keys| && t.keys[j] == c;
      assert NoneExpired(DequeOf(s.store, t.keys[j]), t.now, cfg.window);
    }
  }

  // ---------------------------------------------------------------- being created

  /** When the last task was created; zero before the first. */
  function LastCreated(tasks: seq<Task>): real {
    if tasks == [] then 0.0 else tasks[|tasks| - 1].now
  }

  ghost predicate KnowsLast(s: State) {
    s.lastCleanup == LastCreated(s.tasks)
  }

  lemma StepKnowsLast(s: State, e: Event, cfg: Config)
    requires KnowsLast(s)
    ensures KnowsLast(Step(s, e, cfg))
  {
  }

  lemma {:induction false} RunKnowsLast(events: seq<Event>, cfg: Config)
    ensures KnowsLast(Run(Init(), events, cfg))
  {
    if events != [] {
      RunKnowsLast(events[..|events| - 1], cfg);
      StepKnowsLast(Run(Init(), events[..|events| - 1], cfg), events[|events| - 1], cfg);
    }
  }

  /** A request creates a task exactly when 600 seconds have passed since the last one was
      created; nothing else does, and no task disappears. */
  lemma TaskIsCreatedIff(events: seq<Event>, e: Event, cfg: Config)
    ensures var s, s' := Run(Init(), events, cfg), Run(Init(), events + [e], cfg);
            if e.Request? && s.clock - LastCreated(s.tasks) >= 600.0 then s'.tasks == s.tasks + [Spawned(s.clock)]
            else |s'.tasks| == |s.tasks|
  {
    RunSnoc(events, e, cfg);
    RunKnowsLast(events, cfg);
  }

  /** The clock shows the latest tick. */
  lemma {:induction false} ClockIsLatestTick(events: seq<Event>, cfg: Config)
    ensures var clock := Run(Init(), events, cfg).clock;
            && clock >= 0.0
            && (forall i :: 0 <= i < |events| && events[i].Tick? ==> events[i].to <= clock)
            && (clock == 0.0 || exists i :: 0 <= i < |events| && events[i] == Tick(clock))
  {
    if events != [] {
      var before, last := events[..|events| - 1], events[|events| - 1];
      ClockIsLatestTick(before, cfg);
      var clock := Run(Init(), before, cfg).clock;
      if clock != 0.0 {
        var i :| 0 <= i < |before| && before[i] == Tick(clock);
        assert events[i] == Tick(clock);
      }
      if last.Tick? {
        assert events[|events| - 1] == Tick(last.to);
      }
      assert forall i :: 0 <= i < |before| ==> before[i] == events[i];
    }
  }
}
