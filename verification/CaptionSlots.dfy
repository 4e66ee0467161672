/** The semaphores that bound the concurrent caption calls: a registry with one semaphore for
    each provider, endpoint and limit, and any number of callers, blocking and asynchronous,
    moving through a call in any interleaving. */
module CaptionSlots {
  import opened Text
  import opened CaptionRetries

  // ---------------------------------------------------------------- the registry

  datatype Key = Key(provider: string, endpoint: string, limit: int)

  function Lower(s: string): (r: string)
    ensures |r| == |s|
    ensures forall i :: 0 <= i < |s| ==> r[i] as int == s[i] as int + if 65 <= s[i] as int <= 90 then 32 else 0
  {
    seq(|s|, i requires 0 <= i < |s| => if 'A' <= s[i] <= 'Z' then s[i] - 'A' + 'a' else s[i])
  }

  function KeyFor(provider: string, endpoint: string, limit: int): Key {
    Key(if provider != "" then Lower(Strip(provider)) else "ollama", Lower(Strip(endpoint)), limit)
  }

  /** The same text up to case and surrounding whitespace. */
  predicate SameName(a: string, b: string) {
    Lower(Strip(a)) == Lower(Strip(b))
  }

  function ProviderOrDefault(provider: string): string {
    if provider == "" then "ollama" else provider
  }

  lemma DefaultIsClean()
    ensures Lower(Strip("ollama")) == "ollama"
  {
    var name := "ollama";
    StripStripped(name);
    assert Lower(name) == name;
  }

  /** Keys are the same exactly when limit, endpoint and provider are, the latter two as
      names, and no provider standing for the default one. */
  lemma KeysAgreeIff(provider: string, endpoint: string, limit: int, provider': string, endpoint': string, limit': int)
    ensures KeyFor(provider, endpoint, limit) == KeyFor(provider', endpoint', limit') <==>
              && limit == limit'
              && SameName(endpoint, endpoint')
              && SameName(ProviderOrDefault(provider), ProviderOrDefault(provider'))
  {
    DefaultIsClean();
  }

  /** A semaphore is a position in `permits`, which holds its free permits. */
  datatype Slots = Slots(registry: map<Key, nat>, permits: seq<nat>)

  /** The slots after a look-up; None if the key is new and its limit is refused. */
  function Register(slots: Slots, key: Key): Option<Slots> {
    if key in slots.registry then Some(slots)
    else if key.limit < 0 then None
    else Some(Slots(slots.registry[key := |slots.permits|], slots.permits + [key.limit]))
  }

  class SemaphoreRegistry {
    var slots: Slots

    constructor ()
      ensures slots == Slots(map[], [])
    {
      slots := Slots(map[], []);
    }

    method GetSemaphore(maxConcurrent: int, provider: string, endpoint: string) returns (sem: Option<nat>)
      modifies this
      ensures var key := KeyFor(provider, endpoint, maxConcurrent);
              && (sem.None? <==> key !in old(slots.registry) && maxConcurrent < 0)
              && (sem.None? ==> slots == old(slots))
              && (sem.Some? ==> Register(old(slots), key) == Some(slots)
                                && key in slots.registry && slots.registry[key] == sem.value)
      ensures forall key :: key in old(slots.registry) ==> key in slots.registry && slots.registry[key] == old(slots.registry[key])
    {
      var key := Key(if provider != "" then Lower(Strip(provider)) else "ollama",
                     if endpoint != "" then Lower(Strip(endpoint)) else "", maxConcurrent);
      EmptyEndpoint();
      if key !in slots.registry {
        if maxConcurrent < 0 {
          return None;
        }
        slots := Slots(slots.registry[key := |slots.permits|], slots.permits + [maxConcurrent]);
      }
      return Some(slots.registry[key]);
    }
  }

  lemma EmptyEndpoint()
    ensures Lower(Strip("")) == ""
  {
  }

  // ---------------------------------------------------------------- callers

  /** `prepared` and `client` say whether encoding the image, if there is one, and opening the
      client succeed; `loop` is the event loop of an asynchronous caller. */
  datatype Caller = Caller(
    hasImage: bool, prepared: bool, provider: string, endpoint: string, limit: int, client: bool, loop: nat, call: Call)

  /** The calls, and how many worker threads each event loop has for those that would block. */
  datatype Site = Site(callers: seq<Caller>, workers: nat)

  /** Where a caller is.  An asynchronous one waits through a worker thread: it is `Queued`
      until the thread runs, and `Granted` from when the thread has the permit until it hears
      of it.  `Orphaned` is a waiting thread whose caller was cancelled; the permit it gets is
      `Leaked`. */
  datatype Phase =
    | Starting
    | Queued(sem: nat)
    | Blocked(sem: nat)
    | Granted(sem: nat)
    | Opening(sem: nat)
    | Posting(sem: nat, attempt: nat)
    | Sleeping(sem: nat, attempt: nat)
    | Finished(posts: nat, caption: string)
    | Refused
    | Cancelled
    | Orphaned(sem: nat)
    | Leaked(sem: nat)

  datatype System = System(slots: Slots, phases: seq<Phase>)

  datatype Event = Advance(caller: nat) | Cancel(caller: nat)

  function CallerKey(c: Caller): Key {
    KeyFor(c.provider, c.endpoint, c.limit)
  }

  function Take(slots: Slots, sem: nat): Slots
    requires sem < |slots.permits| && slots.permits[sem] > 0
  {
    slots.(permits := slots.permits[sem := slots.permits[sem] - 1])
  }

  function Release(slots: Slots, sem: nat): Slots
    requires sem < |slots.permits|
  {
    slots.(permits := slots.permits[sem := slots.permits[sem] + 1])
  }

  /** The semaphore a phase refers to, if any. */
  function SemOf(p: Phase): Option<nat> {
    match p
    case Queued(sem) => Some(sem)
    case Blocked(sem) => Some(sem)
    case Granted(sem) => Some(sem)
    case Opening(sem) => Some(sem)
    case Posting(sem, _) => Some(sem)
    case Sleeping(sem, _) => Some(sem)
    case Orphaned(sem) => Some(sem)
    case Leaked(sem) => Some(sem)
    case _ => None
  }

  predicate SemInRange(p: Phase, slots: Slots) {
    SemOf(p).Some? ==> SemOf(p).value < |slots.permits|
  }

  predicate RegistryInRange(slots: Slots) {
    forall key :: key in slots.registry ==> slots.registry[key] < |slots.permits|
  }

  /** What one outcome leads to: another sleep, or the end of the call, which releases. */
  function Posted(slots: Slots, c: Caller, sem: nat, attempt: nat): (Slots, Phase)
    requires sem < |slots.permits|
  {
    match c.call.script(attempt)
    case Success(content) => (Release(slots, sem), Finished(attempt + 1, Strip(content)))
    case OtherError => (Release(slots, sem), Finished(attempt + 1, ""))
    case Status(code) =>
      if attempt < c.call.maxRetries && ShouldRetryStatus(code) && CanSleep(c.call, attempt) then (slots, Sleeping(sem, attempt))
      else (Release(slots, sem), Finished(attempt + 1, ""))
    case NetworkError =>
      if attempt < c.call.maxRetries && CanSleep(c.call, attempt) then (slots, Sleeping(sem, attempt))
      else (Release(slots, sem), Finished(attempt + 1, ""))
  }

  /** Looking up the semaphore of the key, to wait for it next. */
  function Enrolled(slots: Slots, key: Key, kind: Kind): (Slots, Phase) {
    match Register(slots, key)
    case None => (slots, Refused)
    case Some(next) => (next, if kind.Async? then Queued(next.registry[key]) else Blocked(next.registry[key]))
  }

  /** The next atomic step of a caller in phase `p`. */
  function Advanced(slots: Slots, c: Caller, p: Phase): (Slots, Phase)
    requires SemInRange(p, slots)
  {
    match p
    case Starting =>
      if !c.prepared then (slots, Finished(0, ""))
      else Enrolled(slots, CallerKey(c), c.call.kind)
    case Queued(sem) => (slots, Blocked(sem))
    case Blocked(sem) => if slots.permits[sem] > 0 then (Take(slots, sem), Granted(sem)) else (slots, p)
    case Orphaned(sem) => if slots.permits[sem] > 0 then (Take(slots, sem), Leaked(sem)) else (slots, p)
    case Granted(sem) => (slots, Opening(sem))
    case Opening(sem) =>
      if !c.client || c.call.maxRetries < 0 then (Release(slots, sem), Finished(0, "")) else (slots, Posting(sem, 0))
    case Posting(sem, attempt) => Posted(slots, c, sem, attempt)
    case Sleeping(sem, attempt) => (slots, Posting(sem, attempt + 1))
    case _ => (slots, p)
  }

  /** Cancellation reaches asynchronous callers only, and only where they await. */
  function Stopped(slots: Slots, c: Caller, p: Phase): (Slots, Phase)
    requires SemInRange(p, slots)
  {
    if !c.call.kind.Async? then (slots, p)
    else match p
      case Starting => (slots, Cancelled)
      case Queued(_) => (slots, Cancelled)
      case Blocked(sem) => (slots, Orphaned(sem))
      case Granted(sem) => (slots, Leaked(sem))
      case Posting(sem, _) => (Release(slots, sem), Cancelled)
      case Sleeping(sem, _) => (Release(slots, sem), Cancelled)
      case _ => (slots, p)
  }

  // ---------------------------------------------------------------- worker threads

  /** The next step of an asynchronous caller needs a worker thread of its loop. */
  predicate NeedsWorker(c: Caller, p: Phase) {
    c.call.kind.Async? && (p.Queued? || (p.Starting? && c.hasImage))
  }

  /** A worker thread of the loop is waiting for a permit. */
  predicate Occupies(c: Caller, p: Phase, loop: nat) {
    c.call.kind.Async? && c.loop == loop && (p.Blocked? || p.Orphaned?)
  }

  function Busy(callers: seq<Caller>, phases: seq<Phase>, loop: nat): nat
    requires |callers| == |phases|
  {
    if callers == [] then 0
    else (if Occupies(callers[0], phases[0], loop) then 1 else 0) + Busy(callers[1..], phases[1..], loop)
  }

  /** All the threads that could take the caller's next step are waiting. */
  predicate LacksWorker(site: Site, s: System, u: nat)
    requires |site.callers| == |s.phases| && u < |site.callers|
  {
    && NeedsWorker(site.callers[u], s.phases[u])
    && Busy(site.callers, s.phases, site.callers[u].loop) >= site.workers
  }

  // ---------------------------------------------------------------- counting

  datatype Role = Holding | Leaking | InPost

  predicate Plays(p: Phase, sem: nat, role: Role) {
    match role
    case Holding => (p.Granted? || p.Opening? || p.Posting? || p.Sleeping?) && p.sem == sem
    case Leaking => p.Leaked? && p.sem == sem
    case InPost => p.Posting? && p.sem == sem
  }

  function Bit(b: bool): nat {
    if b then 1 else 0
  }

  /** How many callers play a role for a semaphore. */
  function Count(phases: seq<Phase>, sem: nat, role: Role): nat {
    if phases == [] then 0 else Bit(Plays(phases[0], sem, role)) + Count(phases[1..], sem, role)
  }

  lemma {:induction false} CountUpdate(phases: seq<Phase>, t: nat, p: Phase, sem: nat, role: Role)
    requires t < |phases|
    ensures Count(phases[t := p], sem, role) + Bit(Plays(phases[t], sem, role)) == Count(phases, sem, role) + Bit(Plays(p, sem, role))
  {
    if t == 0 {
      assert phases[0 := p][1..] == phases[1..];
    } else {
      CountUpdate(phases[1..], t - 1, p, sem, role);
      assert phases[t := p][1..] == phases[1..][t - 1 := p];
    }
  }

  lemma {:induction false} CountNone(phases: seq<Phase>, sem: nat, role: Role)
    requires forall t :: 0 <= t < |phases| ==> !Plays(phases[t], sem, role)
    ensures Count(phases, sem, role) == 0
  {
    if phases != [] {
      forall t | 0 <= t < |phases[1..]| ensures !Plays(phases[1..][t], sem, role) {
        assert phases[1..][t] == phases[t + 1];
      }
      CountNone(phases[1..], sem, role);
    }
  }

  lemma {:induction false} PostersHold(phases: seq<Phase>, sem: nat)
    ensures Count(phases, sem, InPost) <= Count(phases, sem, Holding)
  {
    if phases != [] {
      PostersHold(phases[1..], sem);
    }
  }

  // ---------------------------------------------------------------- the invariant

  ghost predicate InRange(site: Site, s: System) {
    && |s.phases| == |site.callers|
    && RegistryInRange(s.slots)
    && (forall t :: 0 <= t < |s.phases| ==> SemInRange(s.phases[t], s.slots))
  }

  ghost predicate Sound(site: Site, s: System) {
    && InRange(site, s)
    && OneEach(s.slots)
    && (forall t :: 0 <= t < |site.callers| ==> Fits(site.callers[t], s.phases[t], s.slots.registry))
  }

  /** Every registered key has a semaphore of its own. */
  ghost predicate OneEach(slots: Slots) {
    && RegistryInRange(slots)
    && (forall key :: key in slots.registry ==> key.limit >= 0)
    && (forall key, other :: key in slots.registry && other in slots.registry && slots.registry[key] == slots.registry[other] ==> key == other)
  }

  /** A caller uses the semaphore of its key, and is where the sequential loop would be. */
  ghost predicate Fits(c: Caller, p: Phase, registry: map<Key, nat>) {
    && (SemOf(p).Some? ==> CallerKey(c) in registry && registry[CallerKey(c)] == SemOf(p).value && c.prepared)
    && (p.Posting? || p.Sleeping? ==>
          c.client && p.attempt <= c.call.maxRetries && LastAttempt(c.call, p.attempt) == LastAttempt(c.call, 0))
    && (p.Sleeping? ==> p.attempt < c.call.maxRetries && Continues(c.call, p.attempt))
    && (p.Finished? ==> p.posts == ExpectedPosts(c) && p.caption == ExpectedCaption(c))
    && (p.Refused? ==> c.limit < 0)
  }

  /** What the call would do on its own. */
  function ExpectedPosts(c: Caller): nat {
    if c.prepared && c.client then Posts(c.call) else 0
  }

  function ExpectedCaption(c: Caller): string {
    if c.prepared && c.client then Result(c.call) else ""
  }

  ghost predicate Balanced(s: System, key: Key)
    requires key in s.slots.registry && s.slots.registry[key] < |s.slots.permits|
  {
    var sem := s.slots.registry[key];
    s.slots.permits[sem] + Count(s.phases, sem, Holding) + Count(s.phases, sem, Leaking) == key.limit
  }

  ghost predicate Conserved(site: Site, s: System) {
    Sound(site, s) && forall key :: key in s.slots.registry ==> Balanced(s, key)
  }

  function Step(site: Site, s: System, e: Event): System
    requires InRange(site, s)
  {
    if e.caller >= |site.callers| || (e.Advance? && LacksWorker(site, s, e.caller)) then s
    else
      var c, p := site.callers[e.caller], s.phases[e.caller];
      assert SemInRange(p, s.slots);
      var (slots, next) := if e.Advance? then Advanced(s.slots, c, p) else Stopped(s.slots, c, p);
      System(slots, s.phases[e.caller := next])
  }

  /** A step moves a permit between a semaphore and the caller, or none. */
  ghost predicate Shifts(slots: Slots, slots': Slots, p: Phase, p': Phase) {
    && slots'.registry == slots.registry && |slots'.permits| == |slots.permits|
    && forall sem :: 0 <= sem < |slots.permits| ==> slots'.permits[sem] + Held(p', sem) == slots.permits[sem] + Held(p, sem)
  }

  /** A step looks up the semaphore of the key, which it registers if it is new. */
  ghost predicate Enrols(slots: Slots, slots': Slots, key: Key, p: Phase, p': Phase) {
    Register(slots, key) == Some(slots') && HoldsNothing(p) && HoldsNothing(p')
  }

  predicate HoldsNothing(p: Phase) {
    !(p.Granted? || p.Opening? || p.Posting? || p.Sleeping? || p.Leaked?)
  }

  /** What a caller's step may do to the slots. */
  ghost predicate Moves(slots: Slots, slots': Slots, key: Key, p: Phase, p': Phase) {
    Shifts(slots, slots', p, p') || Enrols(slots, slots', key, p, p')
  }

  function Held(p: Phase, sem: nat): nat {
    Bit(Plays(p, sem, Holding)) + Bit(Plays(p, sem, Leaking))
  }

  lemma PostedShifts(slots: Slots, c: Caller, sem: nat, attempt: nat)
    requires sem < |slots.permits|
    ensures var (slots', p') := Posted(slots, c, sem, attempt); Shifts(slots, slots', Posting(sem, attempt), p')
  {
  }

  lemma AdvancedMoves(slots: Slots, c: Caller, p: Phase)
    requires SemInRange(p, slots)
    ensures var (slots', p') := Advanced(slots, c, p); Moves(slots, slots', CallerKey(c), p, p')
  {
    if p.Starting? {
    } else {
      AdvancedShifts(slots, c, p);
    }
  }

  lemma AdvancedShifts(slots: Slots, c: Caller, p: Phase)
    requires SemInRange(p, slots) && !p.Starting?
    ensures var (slots', p') := Advanced(slots, c, p); Shifts(slots, slots', p, p')
  {
    if p.Posting? {
      PostedShifts(slots, c, p.sem, p.attempt);
    }
  }

  lemma StoppedShifts(slots: Slots, c: Caller, p: Phase)
    requires SemInRange(p, slots)
    ensures var (slots', p') := Stopped(slots, c, p); Shifts(slots, slots', p, p')
  {
  }

  lemma PostedFits(slots: Slots, c: Caller, sem: nat, attempt: nat)
    requires sem < |slots.permits|
    requires Fits(c, Posting(sem, attempt), slots.registry)
    ensures var (slots', p') := Posted(slots, c, sem, attempt); Fits(c, p', slots'.registry)
  {
  }

  lemma StartedFits(slots: Slots, c: Caller)
    ensures var (slots', p') := Advanced(slots, c, Starting); Fits(c, p', slots'.registry)
  {
  }

  lemma AdvancedFits(slots: Slots, c: Caller, p: Phase)
    requires SemInRange(p, slots)
    requires Fits(c, p, slots.registry)
    ensures var (slots', p') := Advanced(slots, c, p); Fits(c, p', slots'.registry)
  {
    if p.Posting? {
      PostedFits(slots, c, p.sem, p.attempt);
    } else if p.Starting? {
      StartedFits(slots, c);
    }
  }

  lemma MoveKeepsSound(site: Site, s: System, t: nat, slots': Slots, p': Phase)
    requires Sound(site, s) && t < |site.callers|
    requires Moves(s.slots, slots', CallerKey(site.callers[t]), s.phases[t], p')
    requires Fits(site.callers[t], p', slots'.registry)
    ensures Sound(site, System(slots', s.phases[t := p']))
  {
    forall i | 0 <= i < |site.callers| && i != t ensures Fits(site.callers[i], s.phases[i], slots'.registry) {
      assert Fits(site.callers[i], s.phases[i], s.slots.registry);
    }
  }

  lemma UnusedCounts(site: Site, s: System, sem: nat, role: Role)
    requires Sound(site, s) && sem >= |s.slots.permits|
    ensures Count(s.phases, sem, role) == 0
  {
    forall t | 0 <= t < |s.phases| ensures !Plays(s.phases[t], sem, role) {
      assert Fits(site.callers[t], s.phases[t], s.slots.registry);
    }
    CountNone(s.phases, sem, role);
  }

  lemma MoveKeepsBalance(site: Site, s: System, t: nat, slots': Slots, p': Phase, key: Key)
    requires Conserved(site, s) && t < |site.callers|
    requires Moves(s.slots, slots', CallerKey(site.callers[t]), s.phases[t], p')
    requires key in slots'.registry && slots'.registry[key] < |slots'.permits|
    ensures Balanced(System(slots', s.phases[t := p']), key)
  {
    var sem := slots'.registry[key];
    CountUpdate(s.phases, t, p', sem, Holding);
    CountUpdate(s.phases, t, p', sem, Leaking);
    if key in s.slots.registry {
      assert Balanced(s, key);
    } else {
      UnusedCounts(site, s, sem, Holding);
      UnusedCounts(site, s, sem, Leaking);
    }
  }

  lemma StepIsMove(site: Site, s: System, e: Event)
    requires Sound(site, s) && e.caller < |site.callers|
    ensures var s', t := Step(site, s, e), e.caller;
            && |s'.phases| == |s.phases| && s' == System(s'.slots, s.phases[t := s'.phases[t]])
            && Moves(s.slots, s'.slots, CallerKey(site.callers[t]), s.phases[t], s'.phases[t])
            && Fits(site.callers[t], s'.phases[t], s'.slots.registry)
  {
    var c, p := site.callers[e.caller], s.phases[e.caller];
    assert Fits(c, p, s.slots.registry);
    if e.Advance? && LacksWorker(site, s, e.caller) {
      assert s.phases[e.caller := p] == s.phases;
    } else if e.Advance? {
      AdvancedMoves(s.slots, c, p);
      AdvancedFits(s.slots, c, p);
    } else {
      StoppedShifts(s.slots, c, p);
    }
  }

  // ---------------------------------------------------------------- runs

  function Start(n: nat): System {
    System(Slots(map[], []), seq(n, _ => Starting))
  }

  function Run(site: Site, events: seq<Event>): (s: System)
    ensures InRange(site, s)
  {
    if events == [] then Start(|site.callers|)
    else
      var s := Run(site, events[..|events| - 1]);
      StepInRange(site, s, events[|events| - 1]);
      Step(site, s, events[|events| - 1])
  }

  lemma AdvancedInRange(slots: Slots, c: Caller, p: Phase)
    requires SemInRange(p, slots) && RegistryInRange(slots)
    ensures var (slots', p') := Advanced(slots, c, p);
            SemInRange(p', slots') && RegistryInRange(slots') && |slots.permits| <= |slots'.permits|
  {
  }

  lemma StepInRange(site: Site, s: System, e: Event)
    requires InRange(site, s)
    ensures InRange(site, Step(site, s, e))
  {
    if e.caller < |site.callers| {
      var c, p := site.callers[e.caller], s.phases[e.caller];
      assert SemInRange(p, s.slots);
      AdvancedInRange(s.slots, c, p);
    }
  }

  lemma {:induction false} RunConserves(site: Site, events: seq<Event>)
    ensures Conserved(site, Run(site, events))
  {
    if events != [] {
      RunConserves(site, events[..|events| - 1]);
      StepConserves(site, Run(site, events[..|events| - 1]), events[|events| - 1]);
    }
  }

  lemma StepConserves(site: Site, s: System, e: Event)
    requires Conserved(site, s)
    ensures Conserved(site, Step(site, s, e))
  {
    if e.caller < |site.callers| {
      StepIsMove(site, s, e);
      var s', t := Step(site, s, e), e.caller;
      MoveKeepsSound(site, s, t, s'.slots, s'.phases[t]);
      forall key | key in s'.slots.registry ensures Balanced(s', key) {
        MoveKeepsBalance(site, s, t, s'.slots, s'.phases[t], key);
      }
    }
  }

  // ---------------------------------------------------------------- main results

  /** No permit appears or disappears: whatever the interleaving and however the calls end,
      free, held and leaked permits add up to the limit, and no more callers than that are
      posting. */
  lemma PermitsAreConserved(site: Site, events: seq<Event>, key: Key)
    requires key in Run(site, events).slots.registry
    ensures var s := Run(site, events);
            var sem := s.slots.registry[key];
            && sem < |s.slots.permits|
            && s.slots.permits[sem] + Count(s.phases, sem, Holding) + Count(s.phases, sem, Leaking) == key.limit
            && (s.slots.permits[sem] + Count(s.phases, sem, Holding) == key.limit <==> Count(s.phases, sem, Leaking) == 0)
            && Count(s.phases, sem, InPost) <= key.limit
  {
    var s := Run(site, events);
    RunConserves(site, events);
    assert Balanced(s, key);
    PostersHold(s.phases, s.slots.registry[key]);
  }

  predicate IsOver(p: Phase) {
    p.Finished? || p.Refused? || p.Cancelled?
  }

  /** When every call has ended, with no thread left behind, all permits are free. */
  lemma AllFreeInTheEnd(site: Site, events: seq<Event>, key: Key)
    requires key in Run(site, events).slots.registry
    requires forall t :: 0 <= t < |site.callers| ==> IsOver(Run(site, events).phases[t])
    ensures var s := Run(site, events);
            var sem := s.slots.registry[key];
            sem < |s.slots.permits| && s.slots.permits[sem] == key.limit
  {
    var s := Run(site, events);
    PermitsAreConserved(site, events, key);
    CountNone(s.phases, s.slots.registry[key], Holding);
    CountNone(s.phases, s.slots.registry[key], Leaking);
  }

  /** Some caller of the key was cancelled while its worker thread was acquiring. */
  ghost predicate CancelledWhileAcquiring(site: Site, events: seq<Event>, key: Key) {
    events != [] &&
    (var before, e := events[..|events| - 1], events[|events| - 1];
     || CancelledWhileAcquiring(site, before, key)
     || (e.Cancel? && e.caller < |site.callers| && CallerKey(site.callers[e.caller]) == key
         && site.callers[e.caller].call.kind.Async? && IsAcquiring(Run(site, before).phases[e.caller])))
  }

  predicate IsAcquiring(p: Phase) {
    p.Blocked? || p.Granted?
  }

  predicate IsStray(p: Phase) {
    p.Orphaned? || p.Leaked?
  }

  /** A thread of the key's callers was left behind, waiting or with a permit. */
  ghost predicate HasStray(callers: seq<Caller>, phases: seq<Phase>, key: Key) {
    exists t :: 0 <= t < |phases| && t < |callers| && IsStray(phases[t]) && CallerKey(callers[t]) == key
  }

  lemma StrayUpdate(callers: seq<Caller>, phases: seq<Phase>, t: nat, p: Phase, key: Key)
    requires t < |phases| == |callers| && (IsStray(phases[t]) ==> IsStray(p))
    ensures HasStray(callers, phases[t := p], key) <==>
              HasStray(callers, phases, key) || (IsStray(p) && CallerKey(callers[t]) == key)
  {
    assert phases[t := p][t] == p;
    if HasStray(callers, phases, key) {
      var u :| 0 <= u < |phases| && IsStray(phases[u]) && CallerKey(callers[u]) == key;
      assert IsStray(phases[t := p][u]);
    }
  }

  lemma AdvancedStray(slots: Slots, c: Caller, p: Phase)
    requires SemInRange(p, slots)
    ensures IsStray(Advanced(slots, c, p).1) <==> IsStray(p)
  {
  }

  lemma StoppedStray(slots: Slots, c: Caller, p: Phase)
    requires SemInRange(p, slots)
    ensures IsStray(Stopped(slots, c, p).1) <==> IsStray(p) || (c.call.kind.Async? && IsAcquiring(p))
  {
  }

  lemma StepStray(site: Site, s: System, e: Event)
    requires Sound(site, s) && e.caller < |site.callers|
    ensures var c, p, p' := site.callers[e.caller], s.phases[e.caller], Step(site, s, e).phases[e.caller];
            IsStray(p') <==> IsStray(p) || (e.Cancel? && c.call.kind.Async? && IsAcquiring(p))
  {
    var c, p := site.callers[e.caller], s.phases[e.caller];
    assert SemInRange(p, s.slots);
    AdvancedStray(s.slots, c, p);
    StoppedStray(s.slots, c, p);
  }

  /** A thread of a key's callers is left behind exactly when one of them was cancelled while
      acquiring. */
  lemma {:induction false} StrayIffCancelledWhileAcquiring(site: Site, events: seq<Event>, key: Key)
    ensures HasStray(site.callers, Run(site, events).phases, key) <==> CancelledWhileAcquiring(site, events, key)
  {
    if events != [] {
      var before, e := events[..|events| - 1], events[|events| - 1];
      StrayIffCancelledWhileAcquiring(site, before, key);
      RunConserves(site, before);
      if e.caller < |site.callers| {
        var s := Run(site, before);
        StepStray(site, s, e);
        StepIsMove(site, s, e);
        StrayUpdate(site.callers, s.phases, e.caller, Step(site, s, e).phases[e.caller], key);
      }
    }
  }

  /** Nobody holds a permit, and no thread left behind could still get one. */
  ghost predicate IsSettled(s: System) {
    forall t :: 0 <= t < |s.phases| ==>
      && !(s.phases[t].Granted? || s.phases[t].Opening? || s.phases[t].Posting? || s.phases[t].Sleeping?)
      && (s.phases[t].Orphaned? ==> s.phases[t].sem < |s.slots.permits| && s.slots.permits[s.phases[t].sem] == 0)
  }

  /** When all is settled, a semaphore has lost permits exactly when it had any and a caller
      of its key was cancelled while acquiring. */
  lemma PermitsLostIff(site: Site, events: seq<Event>, key: Key)
    requires key in Run(site, events).slots.registry && IsSettled(Run(site, events))
    ensures var s := Run(site, events);
            var sem := s.slots.registry[key];
            && sem < |s.slots.permits|
            && (s.slots.permits[sem] < key.limit <==> key.limit > 0 && CancelledWhileAcquiring(site, events, key))
  {
    var s := Run(site, events);
    var sem := s.slots.registry[key];
    RunConserves(site, events);
    PermitsAreConserved(site, events, key);
    StrayIffCancelledWhileAcquiring(site, events, key);
    CountNone(s.phases, sem, Holding);
    if Count(s.phases, sem, Leaking) > 0 {
      var t := SomeonePlays(s.phases, sem, Leaking);
      assert Fits(site.callers[t], s.phases[t], s.slots.registry);
      assert IsStray(s.phases[t]) && CallerKey(site.callers[t]) == key;
    }
    if t :| 0 <= t < |s.phases| && IsStray(s.phases[t]) && CallerKey(site.callers[t]) == key {
      assert Fits(site.callers[t], s.phases[t], s.slots.registry);
      if s.phases[t].Leaked? {
        PlayerCounts(s.phases, t, sem, Leaking);
      }
    }
  }

  lemma {:induction false} PlayerCounts(phases: seq<Phase>, t: nat, sem: nat, role: Role)
    requires t < |phases| && Plays(phases[t], sem, role)
    ensures Count(phases, sem, role) > 0
  {
    if t > 0 {
      PlayerCounts(phases[1..], t - 1, sem, role);
    }
  }

  ghost predicate Extends(registry: map<Key, nat>, larger: map<Key, nat>) {
    forall key :: key in registry ==> key in larger && larger[key] == registry[key]
  }

  lemma StepExtends(site: Site, s: System, e: Event)
    requires Sound(site, s)
    ensures Extends(s.slots.registry, Step(site, s, e).slots.registry)
  {
    if e.caller < |site.callers| {
      StepIsMove(site, s, e);
    }
  }

  lemma RunSnoc(site: Site, events: seq<Event>, e: Event)
    ensures Run(site, events + [e]) == Step(site, Run(site, events), e)
  {
    assert (events + [e])[..|events|] == events;
  }

  lemma {:induction false} ChainExtends(registryAfter: seq<Event> -> map<Key, nat>, events: seq<Event>, more: seq<Event>)
    requires forall es, e :: Extends(registryAfter(es), registryAfter(es + [e]))
    ensures Extends(registryAfter(events), registryAfter(events + more))
    decreases |more|
  {
    if more == [] {
      assert events + more == events;
    } else {
      var one := events + [more[0]];
      ChainExtends(registryAfter, one, more[1..]);
      assert one + more[1..] == events + more;
    }
  }

  lemma NextRegistryExtends(site: Site, events: seq<Event>, e: Event)
    ensures Extends(Run(site, events).slots.registry, Run(site, events + [e]).slots.registry)
  {
    RunSnoc(site, events, e);
    RunConserves(site, events);
    StepExtends(site, Run(site, events), e);
  }

  /** A registered semaphore is never replaced. */
  lemma RegisteredStays(site: Site, events: seq<Event>, more: seq<Event>)
    ensures Extends(Run(site, events).slots.registry, Run(site, events + more).slots.registry)
  {
    var registryAfter := es => Run(site, es).slots.registry;
    forall es, e ensures Extends(registryAfter(es), registryAfter(es + [e])) {
      NextRegistryExtends(site, es, e);
    }
    ChainExtends(registryAfter, events, more);
  }

  /** Callers share a semaphore exactly when limit, endpoint and provider are the same, the
      latter two up to case and surrounding whitespace. */
  lemma SharedIffSameKey(site: Site, events: seq<Event>, t: nat, u: nat)
    requires t < |site.callers| && u < |site.callers|
    ensures var a, b := SemOf(Run(site, events).phases[t]), SemOf(Run(site, events).phases[u]);
            var c, d := site.callers[t], site.callers[u];
            a.Some? && b.Some? ==>
              (a == b <==> && c.limit == d.limit
                           && SameName(c.endpoint, d.endpoint)
                           && SameName(ProviderOrDefault(c.provider), ProviderOrDefault(d.provider)))
  {
    var s := Run(site, events);
    var c, d := site.callers[t], site.callers[u];
    RunConserves(site, events);
    assert Fits(c, s.phases[t], s.slots.registry) && Fits(d, s.phases[u], s.slots.registry);
    KeysAgreeIff(c.provider, c.endpoint, c.limit, d.provider, d.endpoint, d.limit);
  }

  /** No more callers post at a semaphore than each of its users allows. */
  lemma PostsWithinLimit(site: Site, events: seq<Event>, t: nat)
    requires t < |site.callers| && SemOf(Run(site, events).phases[t]).Some?
    ensures Count(Run(site, events).phases, SemOf(Run(site, events).phases[t]).value, InPost) <= site.callers[t].limit
  {
    var s := Run(site, events);
    RunConserves(site, events);
    assert Fits(site.callers[t], s.phases[t], s.slots.registry);
    PermitsAreConserved(site, events, CallerKey(site.callers[t]));
  }

  /** However the callers interleave, each posts as often and returns the same caption as the
      sequential loop would on its own. */
  lemma FinishesAsAlone(site: Site, events: seq<Event>, t: nat)
    requires t < |site.callers| && Run(site, events).phases[t].Finished?
    ensures Run(site, events).phases[t] == Finished(ExpectedPosts(site.callers[t]), ExpectedCaption(site.callers[t]))
  {
    var s := Run(site, events);
    RunConserves(site, events);
    assert Fits(site.callers[t], s.phases[t], s.slots.registry);
  }

  lemma {:induction false} SomeonePlays(phases: seq<Phase>, sem: nat, role: Role) returns (t: nat)
    requires Count(phases, sem, role) > 0
    ensures t < |phases| && Plays(phases[t], sem, role)
  {
    if Plays(phases[0], sem, role) {
      t := 0;
    } else {
      t := SomeonePlays(phases[1..], sem, role);
      t := t + 1;
    }
  }
}
