/** The reset and the call that follows it, one conversion at a time: what happens when the two
    halves of the reset are steps of their own, and how the conversion lock keeps them together. */
module ConversionLock {
  import opened Text
  import opened ModelPool
  import opened PoolThreads

  // ---------------------------------------------------------------- without the lock

  datatype HalfEvent = Whole(event: Event) | FirstHalf | SecondHalf

  function HalfStep(s: State, e: HalfEvent, maxSize: int): State {
    match e
    case Whole(event) => Step(s, event, maxSize)
    case FirstHalf => ClearItems(s)
    case SecondHalf => ClearOrder(s)
  }

  function HalfRun(s: State, events: seq<HalfEvent>, maxSize: int): State {
    if events == [] then s else HalfStep(HalfRun(s, events[..|events| - 1], maxSize), events[|events| - 1], maxSize)
  }

  lemma HalfRunSnoc(s: State, events: seq<HalfEvent>, e: HalfEvent, maxSize: int)
    ensures HalfRun(s, events + [e], maxSize) == HalfStep(HalfRun(s, events, maxSize), e, maxSize)
  {
    assert (events + [e])[..|events|] == events;
  }

  /** Options with keys of their own. */
  function Numbered(i: int): Options {
    Options(0.0, false, false, false, false, "", i, false, false, None)
  }

  /** One undisturbed call. */
  function WithCall(events: seq<HalfEvent>, options: Options): seq<HalfEvent> {
    events + [Whole(Call(0, options))] + [Whole(Build(0))] + [Whole(Finish(0))]
  }

  lemma AfterCall(s0: State, events: seq<HalfEvent>, options: Options, maxSize: int)
    requires var s := HalfRun(s0, events, maxSize);
             |s.threads| > 0 && CanCall(s.threads[0]) && KeyOf(options) !in s.pool.items
    ensures var s := HalfRun(s0, events, maxSize);
            var c := Converter(s.nextSerial, options);
            var (pool, served) := Publish(s.pool, KeyOf(options), c, maxSize);
            var s' := HalfRun(s0, WithCall(events, options), maxSize);
            && s'.pool == pool
            && s'.threads == s.threads[0 := if served.Some? then Returned(options, c) else Raised(options)]
  {
    var call, build := [Whole(Call(0, options))], [Whole(Build(0))];
    HalfRunSnoc(s0, events, Whole(Call(0, options)), maxSize);
    HalfRunSnoc(s0, events + call, Whole(Build(0)), maxSize);
    HalfRunSnoc(s0, events + call + build, Whole(Finish(0)), maxSize);
  }

  /** Calls with `n` different keys after the first half of a reset. */
  function FillingRun(n: nat): seq<HalfEvent> {
    if n == 0 then [] + [FirstHalf] else WithCall(FillingRun(n - 1), Numbered(n - 1))
  }

  /** Without the lock the rest of the reset comes only now, and one more call after it. */
  function RacingRun(n: nat): seq<HalfEvent> {
    WithCall(FillingRun(n) + [SecondHalf], Numbered(n))
  }

  /** The pool holds `n` converters with numbers below `n`, and the first thread is free. */
  ghost predicate IsFilled(s: State, threads: nat, n: nat) {
    && |s.threads| == threads > 0 && CanCall(s.threads[0])
    && |s.pool.items| == n && forall k :: k in s.pool.items ==> k.numThreads < n
  }

  lemma PublishFills(pool: Pool, n: nat, c: Converter, maxSize: int)
    requires n < maxSize && |pool.items| == n && forall k :: k in pool.items ==> k.numThreads < n
    ensures KeyOf(Numbered(n)) !in pool.items
    ensures var (pool', served) := Publish(pool, KeyOf(Numbered(n)), c, maxSize);
            served.Some? && |pool'.items| == n + 1 && forall k :: k in pool'.items ==> k.numThreads < n + 1
  {
    assert KeyOf(Numbered(n)).numThreads == n;
  }

  lemma {:induction false} Filled(threads: nat, n: nat, maxSize: int)
    requires threads >= 1 && n <= maxSize
    ensures IsFilled(HalfRun(Init(threads), FillingRun(n), maxSize), threads, n)
  {
    if n == 0 {
      HalfRunSnoc(Init(threads), [], FirstHalf, maxSize);
    } else {
      Filled(threads, n - 1, maxSize);
      var s := HalfRun(Init(threads), FillingRun(n - 1), maxSize);
      PublishFills(s.pool, n - 1, Converter(s.nextSerial, Numbered(n - 1)), maxSize);
      AfterCall(Init(threads), FillingRun(n - 1), Numbered(n - 1), maxSize);
    }
  }

  /** Without the lock no size is safe: for every size, some run evicts from an empty access
      list.  In a pool with room, that many calls between the halves leave a full dictionary
      with an empty access list, and the next call raises. */
  lemma SplitResetRaises(threads: nat, maxSize: int)
    requires threads >= 1
    ensures exists events :: !NobodyRaised(HalfRun(Init(threads), events, maxSize))
  {
    var n := if maxSize > 0 then maxSize else 0;
    var s0, filling := Init(threads), FillingRun(n);
    if maxSize > 0 {
      Filled(threads, n, maxSize);
    } else {
      HalfRunSnoc(s0, [], FirstHalf, maxSize);
    }
    HalfRunSnoc(s0, filling, SecondHalf, maxSize);
    AfterCall(s0, filling + [SecondHalf], Numbered(n), maxSize);
    var s := HalfRun(s0, RacingRun(n), maxSize);
    assert s.threads[0] == Raised(Numbered(n));
  }

  // ---------------------------------------------------------------- with the lock

  /** How far the thread that holds the conversion lock has come. */
  datatype Stage = Entered | HalfReset | Ready | Calling | Converting

  datatype Holder = Nobody | Holds(thread: nat, options: Options, stage: Stage)

  /** `converted` says that the server remembers a converter, so that no reset is due. */
  datatype Locked = Locked(inner: State, holder: Holder, converted: bool)

  datatype LockEvent = Enter(thread: nat, options: Options) | Advance

  function LockedStep(s: Locked, e: LockEvent, maxSize: int): Locked {
    match e
    case Enter(t, options) =>
      if s.holder.Nobody? && t < |s.inner.threads| then s.(holder := Holds(t, options, Entered)) else s
    case Advance => if s.holder.Nobody? then s else Advanced(s, maxSize)
  }

  function Advanced(s: Locked, maxSize: int): Locked
    requires s.holder.Holds?
  {
    var Holds(t, options, stage) := s.holder;
    match stage
    case Entered =>
      if s.converted then s.(holder := s.holder.(stage := Ready))
      else s.(inner := ClearItems(s.inner), holder := s.holder.(stage := HalfReset))
    case HalfReset => s.(inner := ClearOrder(s.inner), holder := s.holder.(stage := Ready))
    case Ready => s.(inner := Step(s.inner, Call(t, options), maxSize), holder := s.holder.(stage := Calling))
    case Calling =>
      if t >= |s.inner.threads| then s.(holder := Nobody)
      else (match s.inner.threads[t]
            case Missed(_) => s.(inner := Step(s.inner, Build(t), maxSize))
            case Built(_, _) => s.(inner := Step(s.inner, Finish(t), maxSize))
            case Returned(_, _) => s.(holder := s.holder.(stage := Converting), converted := true)
            case _ => s.(holder := Nobody))
    case Converting => s.(holder := Nobody)
  }

  function LockedRun(threads: nat, events: seq<LockEvent>, maxSize: int): Locked {
    if events == [] then Locked(Init(threads), Nobody, false)
    else LockedStep(LockedRun(threads, events[..|events| - 1], maxSize), events[|events| - 1], maxSize)
  }

  predicate InReset(s: Locked) {
    s.holder.Holds? && s.holder.stage.HalfReset?
  }

  /** The pool and the threads are as after some atomic events, or one half of a reset later. */
  ghost predicate IsAtomic(s: Locked, threads: nat, events: seq<Event>, maxSize: int) {
    s.inner == if InReset(s) then ClearItems(Run(Init(threads), events, maxSize)) else Run(Init(threads), events, maxSize)
  }

  lemma StepIsAtomic(s: Locked, e: LockEvent, threads: nat, events: seq<Event>, maxSize: int) returns (events': seq<Event>)
    requires IsAtomic(s, threads, events, maxSize)
    ensures IsAtomic(LockedStep(s, e, maxSize), threads, events', maxSize)
  {
    events' := events;
    if e.Advance? && s.holder.Holds? {
      var t, stage := s.holder.thread, s.holder.stage;
      if stage.HalfReset? {
        events' := events + [Reset];
      } else if stage.Ready? {
        events' := events + [Call(t, s.holder.options)];
      } else if stage.Calling? && t < |s.inner.threads| && s.inner.threads[t].Missed? {
        events' := events + [Build(t)];
      } else if stage.Calling? && t < |s.inner.threads| && s.inner.threads[t].Built? {
        events' := events + [Finish(t)];
      }
      if events' != events {
        RunSnoc(Init(threads), events, events'[|events|], maxSize);
      }
    }
  }

  lemma {:induction false} LockedRunIsAtomic(threads: nat, events: seq<LockEvent>, maxSize: int) returns (atomic: seq<Event>)
    ensures IsAtomic(LockedRun(threads, events, maxSize), threads, atomic, maxSize)
  {
    atomic := [];
    if events != [] {
      var before := events[..|events| - 1];
      atomic := LockedRunIsAtomic(threads, before, maxSize);
      atomic := StepIsAtomic(LockedRun(threads, before, maxSize), events[|events| - 1], threads, atomic, maxSize);
    }
  }

  /** Under the conversion lock every run, with its resets in two halves, is a run of the
      atomic model.  So nothing raises, and outside a reset the pool is the least-recently-used
      cache of its trace. */
  lemma LockMakesResetAtomic(threads: nat, events: seq<LockEvent>, maxSize: int)
    requires maxSize >= 1
    ensures var s := LockedRun(threads, events, maxSize);
            && NobodyRaised(s.inner)
            && (!InReset(s) ==> IsLru(s.inner.pool, s.inner.trace, maxSize))
            && (InReset(s) ==> s.inner.pool.items == map[])
            && exists atomic :: IsAtomic(s, threads, atomic, maxSize)
  {
    var atomic := LockedRunIsAtomic(threads, events, maxSize);
    NoCallRaises(threads, atomic, maxSize);
    RunKeepsInv(threads, atomic, maxSize);
  }

  // ---------------------------------------------------------------- every conversion gets its converter

  /** The thread does not stand between the two sections of a call. */
  ghost predicate FreeUnlessCalling(s: Locked) {
    forall t :: 0 <= t < |s.inner.threads| && !(s.holder.Holds? && s.holder.thread == t && s.holder.stage.Calling?) ==>
      CanCall(s.inner.threads[t])
  }

  lemma StepFrees(s: Locked, e: LockEvent, maxSize: int)
    requires FreeUnlessCalling(s)
    ensures FreeUnlessCalling(LockedStep(s, e, maxSize))
    ensures |LockedStep(s, e, maxSize).inner.threads| == |s.inner.threads|
  {
  }

  lemma {:induction false} AlwaysFree(threads: nat, events: seq<LockEvent>, maxSize: int)
    ensures FreeUnlessCalling(LockedRun(threads, events, maxSize))
    ensures |LockedRun(threads, events, maxSize).inner.threads| == threads
  {
    if events != [] {
      var before := events[..|events| - 1];
      AlwaysFree(threads, before, maxSize);
      StepFrees(LockedRun(threads, before, maxSize), events[|events| - 1], maxSize);
    }
  }

  /** `n` steps of whoever holds the lock. */
  function Advances(s: Locked, n: nat, maxSize: int): Locked
    decreases n
  {
    if n == 0 then s else Advances(LockedStep(s, Advance, maxSize), n - 1, maxSize)
  }

  lemma {:induction false} NobodyAdvances(s: Locked, n: nat, maxSize: int)
    requires s.holder.Nobody?
    ensures Advances(s, n, maxSize) == s
  {
    if n > 0 {
      NobodyAdvances(s, n - 1, maxSize);
    }
  }

  /** The conversion is over; its thread was given the converter that its key now has. */
  ghost predicate IsConverted(base: State, s: Locked, t: nat, options: Options) {
    var k := KeyOf(options);
    && s.holder.Nobody? && s.converted && t < |s.inner.threads|
    && k in s.inner.pool.items && s.inner.threads[t] == Returned(options, s.inner.pool.items[k])
    && s.inner.trace == base.trace + [k]
    && (k in base.pool.items ==> s.inner.pool.items[k] == base.pool.items[k])
  }

  predicate IsAt(s: Locked, t: nat, options: Options, stage: Stage) {
    s.holder == Holds(t, options, stage) && t < |s.inner.threads|
  }

  lemma FromReturned(base: State, s: Locked, t: nat, options: Options, n: nat, maxSize: int)
    requires IsAt(s, t, options, Calling) && n >= 2
    requires var k := KeyOf(options);
             && k in s.inner.pool.items && s.inner.threads[t] == Returned(options, s.inner.pool.items[k])
             && s.inner.trace == base.trace + [k]
             && (k in base.pool.items ==> s.inner.pool.items[k] == base.pool.items[k])
    ensures IsConverted(base, Advances(s, n, maxSize), t, options)
  {
    var s1 := LockedStep(s, Advance, maxSize);
    var s2 := LockedStep(s1, Advance, maxSize);
    assert Advances(s, n, maxSize) == Advances(s1, n - 1, maxSize) == Advances(s2, n - 2, maxSize);
    NobodyAdvances(s2, n - 2, maxSize);
  }

  lemma FromBuilt(base: State, s: Locked, t: nat, options: Options, n: nat, maxSize: int)
    requires IsAt(s, t, options, Calling) && n >= 3 && maxSize >= 1 && Inv(s.inner, maxSize)
    requires s.inner.threads[t].Built? && s.inner.threads[t].options == options
    requires KeyOf(options) !in base.pool.items && s.inner.trace == base.trace
    ensures IsConverted(base, Advances(s, n, maxSize), t, options)
  {
    var s1 := LockedStep(s, Advance, maxSize);
    FinishEffect(s.inner, t, maxSize);
    FromReturned(base, s1, t, options, n - 1, maxSize);
  }

  lemma FromMissed(base: State, s: Locked, t: nat, options: Options, n: nat, maxSize: int)
    requires IsAt(s, t, options, Calling) && n >= 4 && maxSize >= 1 && Inv(s.inner, maxSize)
    requires s.inner.threads[t] == Missed(options)
    requires KeyOf(options) !in base.pool.items && s.inner.trace == base.trace
    ensures IsConverted(base, Advances(s, n, maxSize), t, options)
  {
    var s1 := LockedStep(s, Advance, maxSize);
    OwnStep(s.inner, Build(t), maxSize);
    FromBuilt(base, s1, t, options, n - 1, maxSize);
  }

  lemma FromReady(s: Locked, t: nat, options: Options, n: nat, maxSize: int)
    requires IsAt(s, t, options, Ready) && n >= 5 && maxSize >= 1 && Inv(s.inner, maxSize)
    requires CanCall(s.inner.threads[t])
    ensures IsConverted(s.inner, Advances(s, n, maxSize), t, options)
  {
    var inner := Step(s.inner, Call(t, options), maxSize);
    OwnStep(s.inner, Call(t, options), maxSize);
    CallEffect(s.inner, t, options, maxSize);
    FromCalling(s.inner, s.(inner := inner, holder := s.holder.(stage := Calling)), t, options, n - 1, maxSize);
  }

  lemma FromCalling(base: State, s: Locked, t: nat, options: Options, n: nat, maxSize: int)
    requires IsAt(s, t, options, Calling) && n >= 4 && maxSize >= 1 && Inv(s.inner, maxSize)
    requires var k := KeyOf(options);
             && s.inner.threads[t] == (if k in base.pool.items then Returned(options, base.pool.items[k]) else Missed(options))
             && s.inner.trace == (if k in base.pool.items then base.trace + [k] else base.trace)
             && s.inner.pool.items == base.pool.items
    ensures IsConverted(base, Advances(s, n, maxSize), t, options)
  {
    if KeyOf(options) in base.pool.items {
      FromReturned(base, s, t, options, n, maxSize);
    } else {
      FromMissed(base, s, t, options, n, maxSize);
    }
  }

  lemma FromEntered(s: Locked, t: nat, options: Options, n: nat, maxSize: int)
    requires IsAt(s, t, options, Entered) && n >= 7 && maxSize >= 1 && Inv(s.inner, maxSize)
    requires CanCall(s.inner.threads[t])
    ensures IsConverted(if s.converted then s.inner else Step(s.inner, Reset, maxSize), Advances(s, n, maxSize), t, options)
  {
    var s1 := LockedStep(s, Advance, maxSize);
    assert Advances(s, n, maxSize) == Advances(s1, n - 1, maxSize);
    if s.converted {
      FromReady(s1, t, options, n - 1, maxSize);
    } else {
      var s2 := LockedStep(s1, Advance, maxSize);
      assert Advances(s1, n - 1, maxSize) == Advances(s2, n - 2, maxSize);
      assert s2.inner == Step(s.inner, Reset, maxSize);
      StepKeepsLru(s.inner, Reset, maxSize);
      StepKeepsThreads(s.inner, Reset, maxSize);
      FromReady(s2, t, options, n - 2, maxSize);
    }
  }

  /** In every run, a thread that enters while nobody holds the lock is given a converter after
      at most seven steps and leaves: the one its key has in the pool, which the first conversion
      of all has emptied before. */
  lemma EveryConversionCompletes(threads: nat, events: seq<LockEvent>, t: nat, options: Options, n: nat, maxSize: int)
    requires maxSize >= 1 && t < threads && n >= 7
    requires LockedRun(threads, events, maxSize).holder.Nobody?
    ensures var s := LockedRun(threads, events, maxSize);
            IsConverted(if s.converted then s.inner else Step(s.inner, Reset, maxSize),
                        Advances(LockedStep(s, Enter(t, options), maxSize), n, maxSize), t, options)
  {
    var s := LockedRun(threads, events, maxSize);
    AlwaysFree(threads, events, maxSize);
    var atomic := LockedRunIsAtomic(threads, events, maxSize);
    RunKeepsInv(threads, atomic, maxSize);
    FromEntered(LockedStep(s, Enter(t, options), maxSize), t, options, n, maxSize);
  }
}
