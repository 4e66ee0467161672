/** Any number of threads calling the converter pool at once.  The two locked sections of a
    call are atomic; between them, and between the threads, anything may be interleaved. */
module PoolThreads {
  import opened Text
  import opened Recency
  import opened ModelPool

  /** What a thread is doing: it has missed in the first section and must build; it has
      built and must publish; or its last call has returned, or raised. */
  datatype Thread =
    | Idle
    | Missed(options: Options)
    | Built(options: Options, converter: Converter)
    | Returned(options: Options, converter: Converter)
    | Raised(options: Options)

  /** `trace` lists the keys served since the last reset, in the order of the sections that
      served them. */
  datatype State = State(pool: Pool, threads: seq<Thread>, nextSerial: nat, trace: seq<Key>)

  datatype Event =
    | Call(thread: nat, options: Options)
    | Build(thread: nat)
    | Finish(thread: nat)
    | Reset

  function Init(threads: nat): State {
    State(Pool(map[], []), seq(threads, _ => Idle), 0, [])
  }

  predicate CanCall(t: Thread) {
    t.Idle? || t.Returned? || t.Raised?
  }

  function Step(s: State, e: Event, maxSize: int): State {
    match e
    case Call(t, options) =>
      if t >= |s.threads| || !CanCall(s.threads[t]) then s
      else (match LookUp(s.pool, KeyOf(options)) {
        case (pool, Some(c)) =>
          State(pool, s.threads[t := Returned(options, c)], s.nextSerial, s.trace + [KeyOf(options)])
        case (_, None) => s.(threads := s.threads[t := Missed(options)])
      })
    case Build(t) =>
      if t >= |s.threads| || !s.threads[t].Missed? then s
      else
        var options := s.threads[t].options;
        s.(threads := s.threads[t := Built(options, Converter(s.nextSerial, options))], nextSerial := s.nextSerial + 1)
    case Finish(t) =>
      if t >= |s.threads| || !s.threads[t].Built? then s
      else
        var options := s.threads[t].options;
        (match Publish(s.pool, KeyOf(options), s.threads[t].converter, maxSize) {
          case (pool, Some(c)) =>
            State(pool, s.threads[t := Returned(options, c)], s.nextSerial, s.trace + [KeyOf(options)])
          case (pool, None) => s.(pool := pool, threads := s.threads[t := Raised(options)])
        })
    case Reset => s.(pool := Pool(map[], []), trace := [])
  }

  function Run(s: State, events: seq<Event>, maxSize: int): State {
    if events == [] then s else Step(Run(s, events[..|events| - 1], maxSize), events[|events| - 1], maxSize)
  }

  /** The call that the event completes, if it completes one: the options asked for and the
      converter handed out. */
  function Served(s: State, e: Event, maxSize: int): Option<(Options, Converter)> {
    match e
    case Call(t, options) =>
      if t < |s.threads| && CanCall(s.threads[t]) && KeyOf(options) in s.pool.items
      then Some((options, s.pool.items[KeyOf(options)])) else None
    case Finish(t) =>
      if t < |s.threads| && s.threads[t].Built? then
        (match Publish(s.pool, KeyOf(s.threads[t].options), s.threads[t].converter, maxSize).1
         case Some(c) => Some((s.threads[t].options, c))
         case None => None)
      else None
    case _ => None
  }

  // ---------------------------------------------------------------- the invariant

  /** A thread holds only converters that exist and fit its key; one that is not yet
      published is held by its builder alone. */
  ghost predicate ThreadOk(s: State, t: nat)
    requires t < |s.threads|
  {
    match s.threads[t]
    case Built(options, c) =>
      && c.options == options && c.serial < s.nextSerial
      && (forall k :: k in s.pool.items ==> s.pool.items[k].serial != c.serial)
      && (forall u :: 0 <= u < |s.threads| && u != t && HasConverter(s.threads[u]) ==> s.threads[u].converter.serial != c.serial)
    case Returned(options, c) => KeyOf(c.options) == KeyOf(options) && c.serial < s.nextSerial
    case _ => true
  }

  predicate HasConverter(t: Thread) {
    t.Built? || t.Returned?
  }

  ghost predicate ItemsOk(s: State) {
    forall k :: k in s.pool.items ==> KeyOf(s.pool.items[k].options) == k && s.pool.items[k].serial < s.nextSerial
  }

  ghost predicate Inv(s: State, maxSize: int) {
    && IsLru(s.pool, s.trace, maxSize)
    && ItemsOk(s)
    && forall t: nat :: t < |s.threads| ==> ThreadOk(s, t)
  }

  lemma CallKeepsLru(s: State, t: nat, options: Options, maxSize: int)
    requires IsLru(s.pool, s.trace, maxSize)
    ensures var s' := Step(s, Call(t, options), maxSize); IsLru(s'.pool, s'.trace, maxSize)
  {
    if KeyOf(options) in s.pool.items {
      TouchIsLru(s.pool, s.trace, KeyOf(options), maxSize);
    }
  }

  lemma FinishKeepsLru(s: State, t: nat, maxSize: int)
    requires IsLru(s.pool, s.trace, maxSize)
    ensures var s' := Step(s, Finish(t), maxSize); IsLru(s'.pool, s'.trace, maxSize)
  {
    if t < |s.threads| && s.threads[t].Built? {
      PublishIsLru(s.pool, s.trace, KeyOf(s.threads[t].options), s.threads[t].converter, maxSize);
    }
  }

  lemma StepKeepsLru(s: State, e: Event, maxSize: int)
    requires IsLru(s.pool, s.trace, maxSize)
    ensures IsLru(Step(s, e, maxSize).pool, Step(s, e, maxSize).trace, maxSize)
  {
    match e
    case Call(t, options) => CallKeepsLru(s, t, options, maxSize);
    case Build(t) =>
    case Finish(t) => FinishKeepsLru(s, t, maxSize);
    case Reset => assert Last(ByLastUse<Key>([]), maxSize) == [];
  }

  lemma OtherThreadStaysOk(s: State, e: Event, t: nat, maxSize: int)
    requires ItemsOk(s) && t < |s.threads| && ThreadOk(s, t)
    requires e.Reset? || (e.thread != t && e.thread < |s.threads|)
    ensures ThreadOk(Step(s, e, maxSize), t)
  {
  }

  lemma BuiltIsNew(s: State, t: nat, maxSize: int)
    requires ItemsOk(s) && t < |s.threads| && s.threads[t].Missed?
    requires forall u: nat :: u < |s.threads| ==> ThreadOk(s, u)
    ensures ItemsOk(Step(s, Build(t), maxSize)) && ThreadOk(Step(s, Build(t), maxSize), t)
  {
    forall u: nat | u < |s.threads| && HasConverter(s.threads[u]) ensures s.threads[u].converter.serial < s.nextSerial {
      assert ThreadOk(s, u);
    }
  }

  lemma FinishedIsOk(s: State, t: nat, maxSize: int)
    requires ItemsOk(s) && t < |s.threads| && s.threads[t].Built? && ThreadOk(s, t)
    ensures ItemsOk(Step(s, Finish(t), maxSize)) && ThreadOk(Step(s, Finish(t), maxSize), t)
  {
  }

  lemma OwnThreadStaysOk(s: State, e: Event, maxSize: int)
    requires ItemsOk(s) && !e.Reset? && e.thread < |s.threads|
    requires forall t: nat :: t < |s.threads| ==> ThreadOk(s, t)
    ensures ItemsOk(Step(s, e, maxSize)) && ThreadOk(Step(s, e, maxSize), e.thread)
  {
    assert ThreadOk(s, e.thread);
    if e.Build? && s.threads[e.thread].Missed? {
      BuiltIsNew(s, e.thread, maxSize);
    } else if e.Finish? && s.threads[e.thread].Built? {
      FinishedIsOk(s, e.thread, maxSize);
    }
  }

  lemma StepKeepsThreads(s: State, e: Event, maxSize: int)
    requires ItemsOk(s) && forall t: nat :: t < |s.threads| ==> ThreadOk(s, t)
    ensures ItemsOk(Step(s, e, maxSize))
    ensures forall t: nat :: t < |Step(s, e, maxSize).threads| ==> ThreadOk(Step(s, e, maxSize), t)
  {
    if e.Reset? || e.thread < |s.threads| {
      if !e.Reset? {
        OwnThreadStaysOk(s, e, maxSize);
      }
      forall t: nat | t < |s.threads| ensures ThreadOk(Step(s, e, maxSize), t) {
        if e.Reset? || e.thread != t {
          OtherThreadStaysOk(s, e, t, maxSize);
        }
      }
    }
  }

  lemma {:induction false} RunKeepsInv(threads: nat, events: seq<Event>, maxSize: int)
    ensures Inv(Run(Init(threads), events, maxSize), maxSize)
  {
    if events != [] {
      var s := Run(Init(threads), events[..|events| - 1], maxSize);
      RunKeepsInv(threads, events[..|events| - 1], maxSize);
      StepKeepsLru(s, events[|events| - 1], maxSize);
      StepKeepsThreads(s, events[|events| - 1], maxSize);
    }
  }

  // ---------------------------------------------------------------- main results

  /** In every interleaving the pool is the least-recently-used cache of its trace: the
      dictionary and the access list hold the same keys, none twice, and never more than
      the configured number. */
  lemma PoolIsAlwaysLru(threads: nat, events: seq<Event>, maxSize: int)
    requires maxSize >= 1
    ensures var s := Run(Init(threads), events, maxSize);
            && s.pool.order == Last(ByLastUse(s.trace), maxSize)
            && s.pool.items.Keys == Elements(s.pool.order)
            && |s.pool.items| == |s.pool.order| <= maxSize
  {
    RunKeepsInv(threads, events, maxSize);
    var s := Run(Init(threads), events, maxSize);
    LruFacts(s.pool, s.trace, maxSize);
  }

  ghost predicate NobodyRaised(s: State) {
    forall t :: 0 <= t < |s.threads| ==> !s.threads[t].Raised?
  }

  lemma {:induction false} NoCallRaises(threads: nat, events: seq<Event>, maxSize: int)
    requires maxSize >= 1
    ensures NobodyRaised(Run(Init(threads), events, maxSize))
  {
    if events != [] {
      var before, e := events[..|events| - 1], events[|events| - 1];
      var s := Run(Init(threads), before, maxSize);
      NoCallRaises(threads, before, maxSize);
      RunKeepsInv(threads, before, maxSize);
      if e.Finish? && e.thread < |s.threads| && s.threads[e.thread].Built? {
        PublishIsLru(s.pool, s.trace, KeyOf(s.threads[e.thread].options), s.threads[e.thread].converter, maxSize);
      }
    }
  }

  lemma RunSnoc(s: State, events: seq<Event>, e: Event, maxSize: int)
    ensures Run(s, events + [e], maxSize) == Step(Run(s, events, maxSize), e, maxSize)
  {
    assert (events + [e])[..|events|] == events;
  }

  lemma FirstCallRaises(threads: nat, options: Options, maxSize: int)
    requires threads >= 1 && maxSize <= 0
    ensures exists events :: !NobodyRaised(Run(Init(threads), events, maxSize))
  {
    var s0 := Init(threads);
    RunSnoc(s0, [], Call(0, options), maxSize);
    RunSnoc(s0, [] + [Call(0, options)], Build(0), maxSize);
    RunSnoc(s0, [] + [Call(0, options)] + [Build(0)], Finish(0), maxSize);
    var s3 := Run(s0, [] + [Call(0, options)] + [Build(0)] + [Finish(0)], maxSize);
    assert s3.threads[0] == Raised(options);
  }

  /** Evicting never meets an empty access list, in any interleaving, exactly when the pool
      has room for at least one converter. */
  lemma EvictionIsSafe(threads: nat, maxSize: int)
    requires threads >= 1
    ensures (forall events :: NobodyRaised(Run(Init(threads), events, maxSize))) <==> maxSize >= 1
  {
    if maxSize >= 1 {
      forall events ensures NobodyRaised(Run(Init(threads), events, maxSize)) {
        NoCallRaises(threads, events, maxSize);
      }
    } else {
      var o := Options(0.0, false, false, false, false, "", 0, false, false, None);
      FirstCallRaises(threads, o, maxSize);
    }
  }

  /** One step during which a key stays resident keeps its instance, and hands out that
      instance if it serves the key. */
  lemma ResidentStep(s: State, e: Event, k: Key, maxSize: int)
    requires Inv(s, maxSize)
    requires k in s.pool.items && k in Step(s, e, maxSize).pool.items
    ensures Step(s, e, maxSize).pool.items[k] == s.pool.items[k]
    ensures Served(s, e, maxSize).Some? && KeyOf(Served(s, e, maxSize).value.0) == k ==>
              Served(s, e, maxSize).value.1 == s.pool.items[k]
  {
  }

  ghost predicate ResidentThroughout(s: State, events: seq<Event>, k: Key, maxSize: int) {
    && k in Run(s, events, maxSize).pool.items
    && (events != [] ==> ResidentThroughout(s, events[..|events| - 1], k, maxSize))
  }

  /** Every call for the key that the run completes is handed this instance. */
  ghost predicate ServesOnly(s: State, events: seq<Event>, k: Key, c: Converter, maxSize: int) {
    events != [] ==>
      var before := events[..|events| - 1];
      var served := Served(Run(s, before, maxSize), events[|events| - 1], maxSize);
      && ServesOnly(s, before, k, c, maxSize)
      && (served.Some? && KeyOf(served.value.0) == k ==> served.value.1 == c)
  }

  /** As long as a key stays resident, all callers asking for it receive the instance that
      was cached first, whatever other threads do. */
  lemma {:induction false} OneInstancePerResidency(s: State, events: seq<Event>, k: Key, c: Converter, maxSize: int)
    requires Inv(s, maxSize) && k in s.pool.items && s.pool.items[k] == c
    requires ResidentThroughout(s, events, k, maxSize)
    ensures Inv(Run(s, events, maxSize), maxSize)
    ensures Run(s, events, maxSize).pool.items[k] == c
    ensures ServesOnly(s, events, k, c, maxSize)
  {
    if events != [] {
      var before, e := events[..|events| - 1], events[|events| - 1];
      OneInstancePerResidency(s, before, k, c, maxSize);
      var t := Run(s, before, maxSize);
      ResidentStep(t, e, k, maxSize);
      StepKeepsLru(t, e, maxSize);
      StepKeepsThreads(t, e, maxSize);
    }
  }

  /** An instance nobody can get any more. */
  ghost predicate Gone(s: State, c: Converter) {
    && c.serial < s.nextSerial
    && (forall k :: k in s.pool.items ==> s.pool.items[k].serial != c.serial)
    && (forall t :: 0 <= t < |s.threads| && HasConverter(s.threads[t]) ==> s.threads[t].converter.serial != c.serial)
  }

  lemma {:induction false} GoneForever(s: State, events: seq<Event>, c: Converter, maxSize: int)
    requires Gone(s, c)
    ensures Gone(Run(s, events, maxSize), c)
    ensures forall e :: Served(Run(s, events, maxSize), e, maxSize).Some? ==>
              Served(Run(s, events, maxSize), e, maxSize).value.1 != c
  {
    if events != [] {
      GoneForever(s, events[..|events| - 1], c, maxSize);
    }
  }

  /** A thread that finds its key already cached drops the converter it has built: that
      instance is never cached and never handed out in any continuation of the run. */
  lemma LosingInstanceIsNeverPublished(s: State, t: nat, events: seq<Event>, maxSize: int)
    requires Inv(s, maxSize) && t < |s.threads| && s.threads[t].Built?
    requires KeyOf(s.threads[t].options) in s.pool.items
    ensures var c := s.threads[t].converter;
            var s' := Run(Step(s, Finish(t), maxSize), events, maxSize);
            && Gone(s', c)
            && forall e :: Served(s', e, maxSize).Some? ==> Served(s', e, maxSize).value.1 != c
  {
    assert ThreadOk(s, t);
    var s1 := Step(s, Finish(t), maxSize);
    assert Gone(s1, s.threads[t].converter);
    GoneForever(s1, events, s.threads[t].converter, maxSize);
  }

  /** Every call is served a converter built for its key; it runs the pipeline a freshly
      built one would run exactly when the page-break option and the artifacts path agree
      as well. */
  lemma ServedFitsKey(threads: nat, events: seq<Event>, e: Event, maxSize: int, gpu: bool)
    ensures var served := Served(Run(Init(threads), events, maxSize), e, maxSize);
            served.Some? ==>
              var (wanted, c) := served.value;
              && KeyOf(c.options) == KeyOf(wanted)
              && (SettingsOf(c.options, gpu) == SettingsOf(wanted, gpu) <==>
                    c.options.includePageBreaks == wanted.includePageBreaks
                    && EffectivePath(c.options) == EffectivePath(wanted))
  {
    var s := Run(Init(threads), events, maxSize);
    RunKeepsInv(threads, events, maxSize);
    var served := Served(s, e, maxSize);
    if served.Some? {
      if e.Finish? {
        assert ThreadOk(s, e.thread);
      }
      CachedEqualsFresh(served.value.1.options, served.value.0, gpu);
    }
  }

  /** All options that calls use, and that the pool and the threads therefore hold. */
  ghost predicate CallsUse(events: seq<Event>, used: iset<Options>) {
    forall i :: 0 <= i < |events| && events[i].Call? ==> events[i].options in used
  }

  ghost predicate InUse(s: State, used: iset<Options>) {
    && (forall k :: k in s.pool.items ==> s.pool.items[k].options in used)
    && (forall t :: 0 <= t < |s.threads| && (s.threads[t].Missed? || s.threads[t].Built?) ==> s.threads[t].options in used)
    && (forall t :: 0 <= t < |s.threads| && s.threads[t].Built? ==> s.threads[t].converter.options in used)
  }

  lemma StepInUse(s: State, e: Event, maxSize: int, used: iset<Options>)
    requires InUse(s, used)
    requires e.Call? ==> e.options in used
    ensures InUse(Step(s, e, maxSize), used)
  {
  }

  lemma {:induction false} RunInUse(threads: nat, events: seq<Event>, maxSize: int, used: iset<Options>)
    requires CallsUse(events, used)
    ensures InUse(Run(Init(threads), events, maxSize), used)
  {
    if events != [] {
      var before, e := events[..|events| - 1], events[|events| - 1];
      RunInUse(threads, before, maxSize, used);
      StepInUse(Run(Init(threads), before, maxSize), e, maxSize, used);
    }
  }

  /** If the event completes a call after the run, its converter is as good as a fresh one. */
  ghost predicate FreshAfter(threads: nat, events: seq<Event>, e: Event, maxSize: int, gpu: bool) {
    var served := Served(Run(Init(threads), events, maxSize), e, maxSize);
    served.Some? ==> SettingsOf(served.value.1.options, gpu) == SettingsOf(served.value.0, gpu)
  }

  ghost predicate AlwaysFresh(threads: nat, used: iset<Options>, maxSize: int, gpu: bool) {
    forall events, e :: CallsUse(events + [e], used) ==> FreshAfter(threads, events, e, maxSize, gpu)
  }

  /** Among the options in use the key decides the two options it leaves out. */
  ghost predicate KeyDecides(used: iset<Options>) {
    forall a, b :: a in used && b in used && KeyOf(a) == KeyOf(b) ==>
      a.includePageBreaks == b.includePageBreaks && EffectivePath(a) == EffectivePath(b)
  }

  lemma DecidedIsFresh(threads: nat, events: seq<Event>, e: Event, used: iset<Options>, maxSize: int, gpu: bool)
    requires KeyDecides(used) && CallsUse(events + [e], used)
    ensures FreshAfter(threads, events, e, maxSize, gpu)
  {
    assert (events + [e])[|events|] == e;
    assert forall i :: 0 <= i < |events| ==> (events + [e])[i] == events[i];
    RunInUse(threads, events, maxSize, used);
    ServedFitsKey(threads, events, e, maxSize, gpu);
  }

  lemma NothingServed(threads: nat, events: seq<Event>, e: Event, maxSize: int)
    requires threads == 0 || maxSize <= 0
    ensures Served(Run(Init(threads), events, maxSize), e, maxSize) == None
  {
    RunKeepsInv(threads, events, maxSize);
    ThreadsStay(threads, events, maxSize);
    var s := Run(Init(threads), events, maxSize);
    if maxSize <= 0 {
      LruFacts(s.pool, s.trace, maxSize);
      if e.Finish? && e.thread < |s.threads| && s.threads[e.thread].Built? {
        PublishIsLru(s.pool, s.trace, KeyOf(s.threads[e.thread].options), s.threads[e.thread].converter, maxSize);
      }
    }
  }

  lemma {:induction false} ThreadsStay(threads: nat, events: seq<Event>, maxSize: int)
    ensures |Run(Init(threads), events, maxSize).threads| == threads
  {
    if events != [] {
      ThreadsStay(threads, events[..|events| - 1], maxSize);
    }
  }

  lemma FirstCallCaches(threads: nat, a: Options, maxSize: int)
    requires threads >= 1 && maxSize >= 1
    ensures var s := Step(Step(Step(Init(threads), Call(0, a), maxSize), Build(0), maxSize), Finish(0), maxSize);
            s.pool.items == map[KeyOf(a) := Converter(0, a)] && |s.threads| == threads && CanCall(s.threads[0])
  {
  }

  lemma ThreeEvents(s: State, d: Event, e: Event, f: Event, maxSize: int)
    ensures Run(s, [] + [d] + [e] + [f], maxSize) == Step(Step(Step(s, d, maxSize), e, maxSize), f, maxSize)
  {
    RunSnoc(s, [], d, maxSize);
    RunSnoc(s, [] + [d], e, maxSize);
    RunSnoc(s, [] + [d] + [e], f, maxSize);
  }

  /** One thread builds with one option and is then asked for the other: the run that serves
      a stale converter. */
  lemma StaleRun(threads: nat, a: Options, b: Options, maxSize: int, gpu: bool)
    requires threads >= 1 && maxSize >= 1
    requires KeyOf(a) == KeyOf(b) && SettingsOf(a, gpu) != SettingsOf(b, gpu)
    ensures !FreshAfter(threads, [] + [Call(0, a)] + [Build(0)] + [Finish(0)], Call(0, b), maxSize, gpu)
  {
    ThreeEvents(Init(threads), Call(0, a), Build(0), Finish(0), maxSize);
    FirstCallCaches(threads, a, maxSize);
    ServesCached(Run(Init(threads), [] + [Call(0, a)] + [Build(0)] + [Finish(0)], maxSize), b, Converter(0, a), maxSize);
  }

  lemma ServesCached(s: State, b: Options, c: Converter, maxSize: int)
    requires s.threads != [] && CanCall(s.threads[0]) && s.pool.items == map[KeyOf(b) := c]
    ensures Served(s, Call(0, b), maxSize) == Some((b, c))
  {
  }

  lemma StaleIsReached(threads: nat, used: iset<Options>, maxSize: int, gpu: bool)
    requires threads >= 1 && maxSize >= 1 && !KeyDecides(used)
    ensures !AlwaysFresh(threads, used, maxSize, gpu)
  {
    var a, b :| a in used && b in used && KeyOf(a) == KeyOf(b) &&
      !(a.includePageBreaks == b.includePageBreaks && EffectivePath(a) == EffectivePath(b));
    CachedEqualsFresh(a, b, gpu);
    StaleRun(threads, a, b, maxSize, gpu);
    FourUse(Call(0, a), Build(0), Finish(0), Call(0, b), used);
  }

  lemma FourUse(d: Event, e: Event, f: Event, g: Event, used: iset<Options>)
    requires forall x :: x in {d, e, f, g} && x.Call? ==> x.options in used
    ensures CallsUse([] + [d] + [e] + [f] + [g], used)
  {
  }

  /** The cache is invisible in every run, through hits, evictions and resets, exactly when
      the key decides the two options it leaves out, for the options its callers use (or when
      nothing is ever served at all). */
  lemma AlwaysFreshIff(threads: nat, used: iset<Options>, maxSize: int, gpu: bool)
    ensures AlwaysFresh(threads, used, maxSize, gpu) <==> threads == 0 || maxSize <= 0 || KeyDecides(used)
  {
    if threads == 0 || maxSize <= 0 {
      forall events, e ensures FreshAfter(threads, events, e, maxSize, gpu) {
        NothingServed(threads, events, e, maxSize);
      }
    } else if KeyDecides(used) {
      forall events, e | CallsUse(events + [e], used) ensures FreshAfter(threads, events, e, maxSize, gpu) {
        DecidedIsFresh(threads, events, e, used, maxSize, gpu);
      }
    } else {
      StaleIsReached(threads, used, maxSize, gpu);
    }
  }

  /** The workers' case: preloaded with one option, they are then asked for another that
      differs in the page breaks only. */
  lemma PreloadThenPageBreaks(preload: Options, gpu: bool)
    ensures var job := preload.(includePageBreaks := !preload.includePageBreaks);
            !AlwaysFresh(1, iset{preload, job}, 4, gpu)
  {
    var job := preload.(includePageBreaks := !preload.includePageBreaks);
    AlwaysFreshIff(1, iset{preload, job}, 4, gpu);
    assert KeyOf(job) == KeyOf(preload);
  }

  /** When all callers share those two options, every converter served is as good as fresh. */
  lemma UniformRunsServeFresh(threads: nat, events: seq<Event>, e: Event, maxSize: int, gpu: bool,
                              pageBreaks: bool, path: Option<string>)
    requires CallsUse(events + [e], Uniform(pageBreaks, path))
    ensures FreshAfter(threads, events, e, maxSize, gpu)
  {
    DecidedIsFresh(threads, events, e, Uniform(pageBreaks, path), maxSize, gpu);
  }

  ghost function Uniform(pageBreaks: bool, path: Option<string>): iset<Options> {
    iset o: Options | o.includePageBreaks == pageBreaks && EffectivePath(o) == path
  }

  // ---------------------------------------------------------------- every call is served

  /** None of the events is a step of the thread. */
  ghost predicate Elsewhere(events: seq<Event>, t: nat) {
    forall i :: 0 <= i < |events| ==> events[i].Reset? || events[i].thread != t
  }

  lemma {:induction false} OthersLeaveThread(s: State, events: seq<Event>, t: nat, maxSize: int)
    requires Inv(s, maxSize) && Elsewhere(events, t) && t < |s.threads|
    ensures var s' := Run(s, events, maxSize);
            Inv(s', maxSize) && |s'.threads| == |s.threads| && s'.threads[t] == s.threads[t]
  {
    if events != [] {
      var before, e := events[..|events| - 1], events[|events| - 1];
      assert forall i :: 0 <= i < |before| ==> before[i] == events[i];
      OthersLeaveThread(s, before, t, maxSize);
      OtherStep(Run(s, before, maxSize), e, t, maxSize);
    }
  }

  lemma OtherStep(s: State, e: Event, t: nat, maxSize: int)
    requires Inv(s, maxSize) && t < |s.threads| && (e.Reset? || e.thread != t)
    ensures var s' := Step(s, e, maxSize);
            Inv(s', maxSize) && |s'.threads| == |s.threads| && s'.threads[t] == s.threads[t]
  {
    StepKeepsLru(s, e, maxSize);
    StepKeepsThreads(s, e, maxSize);
  }

  lemma OwnStep(s: State, e: Event, maxSize: int)
    requires Inv(s, maxSize) && !e.Reset? && e.thread < |s.threads|
    ensures var s' := Step(s, e, maxSize); Inv(s', maxSize) && |s'.threads| == |s.threads|
  {
    StepKeepsLru(s, e, maxSize);
    StepKeepsThreads(s, e, maxSize);
  }

  /** A converter that is built is used, and cached, unless its key has one by now. */
  lemma FinishEffect(s: State, t: nat, maxSize: int)
    requires maxSize >= 1 && Inv(s, maxSize) && t < |s.threads| && s.threads[t].Built?
    ensures var options, k := s.threads[t].options, KeyOf(s.threads[t].options);
            var c := if k in s.pool.items then s.pool.items[k] else s.threads[t].converter;
            var s' := Step(s, Finish(t), maxSize);
            && s'.threads[t] == Returned(options, c)
            && k in s'.pool.items && s'.pool.items[k] == c && s'.trace == s.trace + [k]
  {
    PublishIsLru(s.pool, s.trace, KeyOf(s.threads[t].options), s.threads[t].converter, maxSize);
  }

  lemma CallEffect(s: State, t: nat, options: Options, maxSize: int)
    requires t < |s.threads| && CanCall(s.threads[t])
    ensures var k, s' := KeyOf(options), Step(s, Call(t, options), maxSize);
            && s'.threads[t] == (if k in s.pool.items then Returned(options, s.pool.items[k]) else Missed(options))
            && s'.trace == (if k in s.pool.items then s.trace + [k] else s.trace)
            && s'.pool.items == s.pool.items
  {
  }

  lemma ReturnedStays(s: State, t: nat, b: seq<Event>, maxSize: int)
    requires Inv(s, maxSize) && t < |s.threads| && s.threads[t].Returned? && Elsewhere(b, t)
    ensures var built := Run(Step(s, Build(t), maxSize), b, maxSize);
            t < |built.threads| && Step(built, Finish(t), maxSize) == built && built.threads[t] == s.threads[t]
  {
    assert Step(s, Build(t), maxSize) == s;
    OthersLeaveThread(s, b, t, maxSize);
  }

  lemma BuildEffect(s: State, t: nat, b: seq<Event>, maxSize: int)
    requires Inv(s, maxSize) && t < |s.threads| && s.threads[t].Missed? && Elsewhere(b, t)
    ensures var built := Run(Step(s, Build(t), maxSize), b, maxSize);
            && Inv(built, maxSize) && t < |built.threads|
            && built.threads[t] == Built(s.threads[t].options, Converter(s.nextSerial, s.threads[t].options))
  {
    OwnStep(s, Build(t), maxSize);
    OthersLeaveThread(Step(s, Build(t), maxSize), b, t, maxSize);
  }

  /** How a call ends that is at work in `called`, has built before `b`, and began with `first`
      as the instance of its key. */
  ghost predicate IsServed(first: Option<Converter>, called: State, built: State, t: nat, options: Options, maxSize: int) {
    var k, served := KeyOf(options), Step(built, Finish(t), maxSize);
    && t < |served.threads|
    && served.threads[t] == Returned(options,
         if first.Some? then first.value
         else if k in built.pool.items then built.pool.items[k]
         else Converter(called.nextSerial, options))
    && (first.None? ==>
          && k in served.pool.items && served.pool.items[k] == served.threads[t].converter
          && served.trace == built.trace + [k])
  }

  lemma PendingIsServed(first: Option<Converter>, s: State, t: nat, options: Options, b: seq<Event>, maxSize: int)
    requires Inv(s, maxSize) && maxSize >= 1 && t < |s.threads| && Elsewhere(b, t)
    requires s.threads[t] == if first.Some? then Returned(options, first.value) else Missed(options)
    ensures IsServed(first, s, Run(Step(s, Build(t), maxSize), b, maxSize), t, options, maxSize)
  {
    if first.Some? {
      ReturnedStays(s, t, b, maxSize);
    } else {
      BuildEffect(s, t, b, maxSize);
      FinishEffect(Run(Step(s, Build(t), maxSize), b, maxSize), t, maxSize);
    }
  }

  /** Every call of a free thread is served, whatever the others do after its first section and
      after it has built: with the instance its key has when it comes, or else the one the key
      has when it enters the second section, or else the one it has built from its options,
      which then is the cached one. */
  lemma EveryCallIsServed(s: State, t: nat, options: Options, a: seq<Event>, b: seq<Event>, maxSize: int)
    requires Inv(s, maxSize) && maxSize >= 1 && t < |s.threads| && CanCall(s.threads[t])
    requires Elsewhere(a, t) && Elsewhere(b, t)
    ensures var k := KeyOf(options);
            var called := Run(Step(s, Call(t, options), maxSize), a, maxSize);
            var built := Run(Step(called, Build(t), maxSize), b, maxSize);
            && Step(s, Call(t, options), maxSize).trace == (if k in s.pool.items then s.trace + [k] else s.trace)
            && IsServed(if k in s.pool.items then Some(s.pool.items[k]) else None, called, built, t, options, maxSize)
  {
    OwnStep(s, Call(t, options), maxSize);
    CallEffect(s, t, options, maxSize);
    OthersLeaveThread(Step(s, Call(t, options), maxSize), a, t, maxSize);
    var k := KeyOf(options);
    PendingIsServed(if k in s.pool.items then Some(s.pool.items[k]) else None,
                    Run(Step(s, Call(t, options), maxSize), a, maxSize), t, options, b, maxSize);
  }

  // ---------------------------------------------------------------- the reset is two statements

  /** The first conversion empties the dictionary and then the access list, without taking
      the pool's lock; these are the two halves. */
  function ClearItems(s: State): State {
    s.(pool := s.pool.(items := map[]))
  }

  function ClearOrder(s: State): State {
    s.(pool := s.pool.(order := []), trace := [])
  }

  ghost predicate SecondSectionRuns(s: State, e: Event) {
    e.Finish? && e.thread < |s.threads| && s.threads[e.thread].Built?
  }

  /** Since the last whole reset among the events, if there is one, a second section ran. */
  ghost predicate SecondSectionSince(s: State, events: seq<Event>, maxSize: int) {
    && events != [] && !events[|events| - 1].Reset?
    && var before := events[..|events| - 1];
       SecondSectionSince(s, before, maxSize) || SecondSectionRuns(Run(s, before, maxSize), events[|events| - 1])
  }

  lemma {:induction false} WindowItems(s: State, events: seq<Event>, maxSize: int)
    requires maxSize >= 1 && s.pool.items == map[]
    ensures var s' := Run(s, events, maxSize);
            && (s'.pool.items == map[] <==> !SecondSectionSince(s, events, maxSize))
            && forall k :: k in s'.pool.items ==> k in s'.pool.order
  {
    if events != [] {
      var before := events[..|events| - 1];
      WindowItems(s, before, maxSize);
      WindowStep(Run(s, before, maxSize), events[|events| - 1], maxSize);
    }
  }

  lemma WindowStep(s: State, e: Event, maxSize: int)
    requires maxSize >= 1
    requires forall k :: k in s.pool.items ==> k in s.pool.order
    ensures var s' := Step(s, e, maxSize);
            && (s'.pool.items == map[] <==> e.Reset? || (s.pool.items == map[] && !SecondSectionRuns(s, e)))
            && forall k :: k in s'.pool.items ==> k in s'.pool.order
  {
    match e
    case Call(t, options) => RemoveFirstKeepsOthers(s.pool.order, KeyOf(options));
    case Finish(t) =>
      if SecondSectionRuns(s, e) {
        var k := KeyOf(s.threads[t].options);
        RemoveFirstKeepsOthers(s.pool.order, k);
        if |s.pool.items| >= maxSize {
          assert s.pool.items.Keys != {};
          var x :| x in s.pool.items.Keys;
          assert forall x :: x in s.pool.order && x != s.pool.order[0] ==> x in s.pool.order[1..];
        }
        assert k in Step(s, e, maxSize).pool.items;
      }
    case _ =>
  }

  ghost predicate NoSecondSection(s: State, events: seq<Event>, maxSize: int) {
    events != [] ==>
      var before := events[..|events| - 1];
      NoSecondSection(s, before, maxSize) && !SecondSectionRuns(Run(s, before, maxSize), events[|events| - 1])
  }

  /** Without a second section an empty dictionary stays empty, and the access list has no
      influence. */
  lemma {:induction false} OrderIsIdle(s: State, events: seq<Event>, maxSize: int)
    requires s.pool.items == map[] && NoSecondSection(s, events, maxSize)
    ensures Run(s, events, maxSize).pool.items == map[]
    ensures ClearOrder(Run(s, events, maxSize)) == Run(ClearOrder(s), events, maxSize)
  {
    if events != [] {
      OrderIsIdle(s, events[..|events| - 1], maxSize);
    }
  }

  /** The two halves leave an empty pool, and dictionary and access list in agreement,
      exactly when no second section runs between them (or a whole reset comes after it).
      If there is none at all, they are one whole reset before what runs in between. */
  lemma ResetIsAtomicIff(s: State, between: seq<Event>, maxSize: int)
    requires maxSize >= 1
    ensures var s' := ClearOrder(Run(ClearItems(s), between, maxSize));
            && (s'.pool == Pool(map[], []) <==> !SecondSectionSince(ClearItems(s), between, maxSize))
            && (s'.pool.items.Keys == Elements(s'.pool.order) <==> !SecondSectionSince(ClearItems(s), between, maxSize))
            && (NoSecondSection(ClearItems(s), between, maxSize) ==> s' == Run(Step(s, Reset, maxSize), between, maxSize))
  {
    WindowItems(ClearItems(s), between, maxSize);
    if NoSecondSection(ClearItems(s), between, maxSize) {
      OrderIsIdle(ClearItems(s), between, maxSize);
    }
  }
}
