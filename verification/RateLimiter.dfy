/** The sliding-window rate limiter of the HTTP server, together with the background
    clean-up tasks that run between its requests.

    Timestamps are reals.  The store maps a client to the deque of the times at which
    it was served; every deque operation happens without yielding to the event loop, so
    one request, and one batch of a clean-up task, are atomic steps. */
module RateLimiter {

  type Client = string
  type Store = map<Client, seq<real>>

  datatype Config = Config(window: real, limit: int)

  const CLEANUP_INTERVAL: real := 600.0
  const BATCH: nat := 100

  // ---------------------------------------------------------------- one atomic step

  ghost predicate Sorted(dq: seq<real>) {
    forall i, j :: 0 <= i < j < |dq| ==> dq[i] <= dq[j]
  }

  ghost predicate NoneExpired(dq: seq<real>, now: real, window: real) {
    forall i :: 0 <= i < |dq| ==> now - dq[i] < window
  }

  /** The position of the first timestamp, from `from` on, that has not expired. */
  function FirstFresh(dq: seq<real>, from: nat, now: real, window: real): (r: nat)
    requires from <= |dq|
    ensures from <= r <= |dq|
    ensures forall i :: from <= i < r ==> now - dq[i] >= window
    ensures r < |dq| ==> now - dq[r] < window
    decreases |dq| - from
  {
    if from < |dq| && now - dq[from] >= window then FirstFresh(dq, from + 1, now, window) else from
  }

  /** What popping expired timestamps off the left end leaves. */
  function DropExpired(dq: seq<real>, now: real, window: real): seq<real> {
    dq[FirstFresh(dq, 0, now, window)..]
  }

  function DequeOf(store: Store, client: Client): seq<real> {
    if client in store then store[client] else []
  }

  function Accepts(store: Store, client: Client, now: real, cfg: Config): bool {
    |DropExpired(DequeOf(store, client), now, cfg.window)| < cfg.limit
  }

  function Charge(store: Store, client: Client, now: real, cfg: Config): Store {
    var dq := DropExpired(DequeOf(store, client), now, cfg.window);
    store[client := if |dq| < cfg.limit then dq + [now] else dq]
  }

  function SweepKey(store: Store, client: Client, now: real, window: real): Store {
    if client !in store then store
    else
      var dq := DropExpired(store[client], now, window);
      if dq == [] then store - {client} else store[client := dq]
  }

  function Sweep(store: Store, keys: seq<Client>, now: real, window: real): Store {
    if keys == [] then store
    else SweepKey(Sweep(store, keys[..|keys| - 1], now, window), keys[|keys| - 1], now, window)
  }

  /** A clean-up task yields before key 100, 200, ...; this is where its next batch ends. */
  function BatchEnd(next: nat, total: nat): (stop: nat)
    requires next <= total
    ensures next <= stop <= total && (next < total ==> next < stop)
    ensures forall i :: next < i < stop ==> i % BATCH != 0
    ensures stop < total ==> stop % BATCH == 0
  {
    var stop := (next / BATCH + 1) * BATCH;
    if stop < total then stop else total
  }

  /** The module globals of the server and the two coroutines that update them. */
  class Limiter {
    const cfg: Config
    var data: Store
    var lastCleanup: real
    var clock: real
    var tasks: seq<Task>

    constructor (cfg: Config)
      ensures this.cfg == cfg && Current() == Init()
    {
      this.cfg := cfg;
      data := map[];
      lastCleanup, clock, tasks := 0.0, 0.0, [];
    }

    ghost function Current(): State
      reads this
    {
      State(clock, data, lastCleanup, tasks)
    }

    method PopExpired(client: Client, now: real)
      requires client in data
      modifies this`data
      ensures data == old(data)[client := DropExpired(old(data)[client], now, cfg.window)]
    {
      ghost var dq, popped: nat := data[client], 0;
      while |data[client]| > 0 && now - data[client][0] >= cfg.window
        invariant client in data && popped <= |dq| && data[client] == dq[popped..]
        invariant data == old(data)[client := data[client]]
        invariant forall i :: 0 <= i < popped ==> now - dq[i] >= cfg.window
        decreases |data[client]|
      {
        data := data[client := data[client][1..]];
        popped := popped + 1;
      }
      assert popped == FirstFresh(dq, 0, now, cfg.window);
    }

    method CheckRequest(client: Client, now: real) returns (accepted: bool, spawned: bool)
      modifies this`data, this`lastCleanup
      ensures accepted == old(Accepts(data, client, now, cfg))
      ensures data == old(Charge(data, client, now, cfg))
      ensures spawned <==> now - old(lastCleanup) >= CLEANUP_INTERVAL
      ensures lastCleanup == if spawned then now else old(lastCleanup)
    {
      spawned := now - lastCleanup >= CLEANUP_INTERVAL;
      if spawned {
        lastCleanup := now;
      }
      if client !in data {
        data := data[client := []];
      }
      PopExpired(client, now);
      assert data == old(data)[client := DropExpired(old(DequeOf(data, client)), now, cfg.window)];
      if |data[client]| >= cfg.limit {
        accepted := false;
      } else {
        data := data[client := data[client] + [now]];
        accepted := true;
      }
    }

    /** One uninterrupted stretch of a clean-up task, from key `next` to its next yield. */
    method SweepBatch(keys: seq<Client>, next: nat, now: real) returns (stop: nat)
      requires next <= |keys|
      modifies this`data
      ensures next <= stop == BatchEnd(next, |keys|) <= |keys|
      ensures data == Sweep(old(data), keys[next..stop], now, cfg.window)
    {
      var i := next;
      while i < |keys| && (i == next || i % BATCH != 0)
        invariant next <= i <= BatchEnd(next, |keys|)
        invariant data == Sweep(old(data), keys[next..i], now, cfg.window)
        decreases |keys| - i
      {
        ghost var before := data;
        if keys[i] in data {
          PopExpired(keys[i], now);
          if |data[keys[i]]| == 0 {
            data := data - {keys[i]};
            assert data == before - {keys[i]};
          }
        }
        assert keys[next..i + 1][..i - next] == keys[next..i];
        i := i + 1;
      }
      stop := i;
    }

    /** What the event loop does with one event: a request is checked and may create a task;
        a task takes its snapshot when it first runs, and goes on where it last yielded. */
    method Handle(e: Event)
      modifies this
      ensures Current() == Step(old(Current()), e, cfg)
    {
      match e
      case Tick(to) =>
        if to > clock {
          clock := to;
        }
      case Request(client) =>
        var accepted, spawned := CheckRequest(client, clock);
        if spawned {
          tasks := tasks + [Spawned(clock)];
        }
      case Resume(task, order) =>
        if task < |tasks| {
          match tasks[task]
          case Spawned(now) =>
            if Enumerates(order, data) {
              var stop := SweepBatch(order, 0, now);
              tasks := tasks[task := Sweeping(now, order, stop)];
            }
          case Sweeping(now, keys, next) =>
            if next < |keys| {
              var stop := SweepBatch(keys, next, now);
              tasks := tasks[task := Sweeping(now, keys, stop)];
            }
        }
    }
  }

  // ---------------------------------------------------------------- the transition system

  /** A clean-up task is created with the clock of its request and starts later; `keys` is
      the snapshot taken when it starts, `next` the first key it has not reached yet. */
  datatype Task = Spawned(now: real) | Sweeping(now: real, keys: seq<Client>, next: nat)

  datatype State = State(clock: real, store: Store, lastCleanup: real, tasks: seq<Task>)

  /** Resume runs one batch of a task; `order` is the iteration order of the dictionary
      when that batch is the task's first one. */
  datatype Event =
    | Tick(to: real)
    | Request(client: Client)
    | Resume(task: nat, order: seq<Client>)

  function Init(): State {
    State(0.0, map[], 0.0, [])
  }

  predicate Enumerates(order: seq<Client>, store: Store) {
    && (forall i, j :: 0 <= i < j < |order| ==> order[i] != order[j])
    && (set c | c in order) == store.Keys
  }

  function RunBatch(s: State, task: nat, now: real, keys: seq<Client>, next: nat, cfg: Config): State
    requires task < |s.tasks| && next <= |keys|
  {
    var stop := BatchEnd(next, |keys|);
    s.(store := Sweep(s.store, keys[next..stop], now, cfg.window),
       tasks := s.tasks[task := Sweeping(now, keys, stop)])
  }

  function Step(s: State, e: Event, cfg: Config): State {
    match e
    case Tick(to) => if to > s.clock then s.(clock := to) else s
    case Request(client) =>
      var spawn := s.clock - s.lastCleanup >= CLEANUP_INTERVAL;
      State(s.clock, Charge(s.store, client, s.clock, cfg),
            if spawn then s.clock else s.lastCleanup,
            if spawn then s.tasks + [Spawned(s.clock)] else s.tasks)
    case Resume(task, order) =>
      if task >= |s.tasks| then s
      else match s.tasks[task] {
        case Spawned(now) => if Enumerates(order, s.store) then RunBatch(s, task, now, order, 0, cfg) else s
        case Sweeping(now, keys, next) => if next < |keys| then RunBatch(s, task, now, keys, next, cfg) else s
      }
  }

  function Run(s: State, events: seq<Event>, cfg: Config): State {
    if events == [] then s else Step(Run(s, events[..|events| - 1], cfg), events[|events| - 1], cfg)
  }

  /** The accept/reject answers of a run, in order. */
  function Decisions(s: State, events: seq<Event>, cfg: Config): seq<bool> {
    if events == [] then []
    else
      var before := events[..|events| - 1];
      Decisions(s, before, cfg) +
      match events[|events| - 1] {
        case Request(client) =>
          var t := Run(s, before, cfg);
          [Accepts(t.store, client, t.clock, cfg)]
        case _ => []
      }
  }

  // ---------------------------------------------------------------- the specification

  /** The reference limiter keeps the whole history of served requests, never forgets
      anything and has no clean-up. */
  datatype Served = Served(client: Client, time: real)
  datatype History = History(clock: real, served: seq<Served>)

  function TimesOf(served: seq<Served>, client: Client): seq<real> {
    if served == [] then []
    else
      var last := served[|served| - 1];
      TimesOf(served[..|served| - 1], client) + (if last.client == client then [last.time] else [])
  }

  /** How many of the given times are still inside the window that ends now. */
  function Recent(times: seq<real>, now: real, window: real): nat {
    if times == [] then 0
    else (if now - times[0] < window then 1 else 0) + Recent(times[1..], now, window)
  }

  function Allowed(h: History, client: Client, cfg: Config): bool {
    Recent(TimesOf(h.served, client), h.clock, cfg.window) < cfg.limit
  }

  function SpecStep(h: History, e: Event, cfg: Config): History {
    match e
    case Tick(to) => if to > h.clock then h.(clock := to) else h
    case Request(client) =>
      if Allowed(h, client, cfg) then h.(served := h.served + [Served(client, h.clock)]) else h
    case Resume(_, _) => h
  }

  function SpecRun(events: seq<Event>, cfg: Config): History {
    if events == [] then History(0.0, [])
    else SpecStep(SpecRun(events[..|events| - 1], cfg), events[|events| - 1], cfg)
  }

  function SpecDecisions(events: seq<Event>, cfg: Config): seq<bool> {
    if events == [] then []
    else
      var before := events[..|events| - 1];
      SpecDecisions(before, cfg) +
      match events[|events| - 1] {
        case Request(client) => [Allowed(SpecRun(before, cfg), client, cfg)]
        case _ => []
      }
  }

  // ---------------------------------------------------------------- facts about deques

  lemma {:induction false} AllRecent(dq: seq<real>, now: real, window: real)
    requires forall i :: 0 <= i < |dq| ==> now - dq[i] < window
    ensures Recent(dq, now, window) == |dq|
  {
    if dq != [] {
      AllRecent(dq[1..], now, window);
    }
  }

  lemma {:induction false} RecentOfConcat(a: seq<real>, b: seq<real>, now: real, window: real)
    ensures Recent(a + b, now, window) == Recent(a, now, window) + Recent(b, now, window)
  {
    if a == [] {
      assert a + b == b;
    } else {
      assert (a + b)[1..] == a[1..] + b;
      RecentOfConcat(a[1..], b, now, window);
    }
  }

  lemma {:induction false} NoRecent(dq: seq<real>, now: real, window: real)
    requires forall i :: 0 <= i < |dq| ==> now - dq[i] >= window
    ensures Recent(dq, now, window) == 0
  {
    if dq != [] {
      NoRecent(dq[1..], now, window);
    }
  }

  /** Popping from the left leaves exactly the recent entries of a sorted sequence, even
      one whose expired start has been popped before. */
  lemma CutIsRecent(times: seq<real>, cut: nat, now: real, window: real)
    requires Sorted(times) && cut <= |times|
    requires forall i :: 0 <= i < cut ==> now - times[i] >= window
    requires cut < |times| ==> now - times[cut] < window
    ensures Recent(times, now, window) == |times| - cut
  {
    assert times == times[..cut] + times[cut..];
    RecentOfConcat(times[..cut], times[cut..], now, window);
    NoRecent(times[..cut], now, window);
    AllRecent(times[cut..], now, window);
  }

  // ---------------------------------------------------------------- the simulation

  /** A stored deque is a suffix of the client's history, and what is missing from it has
      expired for good. */
  ghost predicate Tail(dq: seq<real>, times: seq<real>, clock: real, window: real) {
    && |dq| <= |times|
    && dq == times[|times| - |dq|..]
    && (forall i :: 0 <= i < |times| - |dq| ==> clock - times[i] >= window)
  }

  ghost predicate WellTimed(times: seq<real>, clock: real) {
    Sorted(times) && forall i :: 0 <= i < |times| ==> times[i] <= clock
  }

  ghost predicate Tracks(store: Store, h: History, c: Client, cfg: Config) {
    && WellTimed(TimesOf(h.served, c), h.clock)
    && Tail(DequeOf(store, c), TimesOf(h.served, c), h.clock, cfg.window)
  }

  ghost predicate Simulates(s: State, h: History, cfg: Config) {
    && s.clock == h.clock
    && (forall c :: Tracks(s.store, h, c, cfg))
    && (forall k :: 0 <= k < |s.tasks| ==> s.tasks[k].now <= s.clock)
  }

  lemma DropKeepsTail(dq: seq<real>, times: seq<real>, stale: real, clock: real, window: real)
    requires WellTimed(times, clock) && Tail(dq, times, clock, window) && stale <= clock
    ensures Tail(DropExpired(dq, stale, window), times, clock, window)
  {
    var cut, gone := |times| - |dq|, FirstFresh(dq, 0, stale, window);
    assert times[cut..][gone..] == times[cut + gone..];
    forall i | cut <= i < cut + gone ensures clock - times[i] >= window {
      assert times[i] == dq[i - cut];
    }
  }

  /** The recent entries of a stored tail are all the recent entries of the client. */
  lemma RecentOfTail(dq: seq<real>, times: seq<real>, clock: real, window: real)
    requires WellTimed(times, clock) && Tail(dq, times, clock, window)
    ensures |DropExpired(dq, clock, window)| == Recent(times, clock, window)
  {
    DropKeepsTail(dq, times, clock, clock, window);
    var cut, gone := |times| - |dq|, FirstFresh(dq, 0, clock, window);
    assert gone < |dq| ==> times[cut + gone] == dq[gone];
    CutIsRecent(times, cut + gone, clock, window);
  }

  /** A sweep with a stale clock leaves every client a tail of its history. */
  lemma {:induction false} SweepKeepsTail(store: Store, keys: seq<Client>, c: Client, times: seq<real>,
                                          stale: real, clock: real, window: real)
    requires stale <= clock && WellTimed(times, clock) && Tail(DequeOf(store, c), times, clock, window)
    ensures Tail(DequeOf(Sweep(store, keys, stale, window), c), times, clock, window)
  {
    if keys != [] {
      var init, key := keys[..|keys| - 1], keys[|keys| - 1];
      SweepKeepsTail(store, init, c, times, stale, clock, window);
      var mid := Sweep(store, init, stale, window);
      if c == key {
        DropKeepsTail(DequeOf(mid, c), times, stale, clock, window);
      } else {
        assert DequeOf(SweepKey(mid, key, stale, window), c) == DequeOf(mid, c);
      }
    }
  }

  lemma TimesOfSnoc(served: seq<Served>, x: Served, client: Client)
    ensures TimesOf(served + [x], client)
         == TimesOf(served, client) + (if x.client == client then [x.time] else [])
  {
    assert (served + [x])[..|served|] == served;
  }

  lemma TailSnoc(dq: seq<real>, times: seq<real>, clock: real, window: real)
    requires WellTimed(times, clock) && Tail(dq, times, clock, window)
    ensures WellTimed(times + [clock], clock) && Tail(dq + [clock], times + [clock], clock, window)
  {
    var cut := |times| - |dq|;
    assert (times + [clock])[..cut] == times[..cut];
  }

  lemma AcceptsIsAllowed(store: Store, h: History, client: Client, cfg: Config)
    requires Tracks(store, h, client, cfg)
    ensures Accepts(store, client, h.clock, cfg) == Allowed(h, client, cfg)
  {
    RecentOfTail(DequeOf(store, client), TimesOf(h.served, client), h.clock, cfg.window);
  }

  lemma ServedAfter(h: History, client: Client, c: Client, cfg: Config)
    ensures TimesOf(SpecStep(h, Request(client), cfg).served, c)
         == if c == client && Allowed(h, client, cfg) then TimesOf(h.served, c) + [h.clock] else TimesOf(h.served, c)
  {
    TimesOfSnoc(h.served, Served(client, h.clock), c);
    assert TimesOf(h.served, c) + [] == TimesOf(h.served, c);
  }

  lemma ChargedDeque(store: Store, client: Client, c: Client, now: real, cfg: Config)
    ensures var dq := DropExpired(DequeOf(store, client), now, cfg.window);
            DequeOf(Charge(store, client, now, cfg), c) ==
              if c != client then DequeOf(store, c)
              else if Accepts(store, client, now, cfg) then dq + [now] else dq
  {
  }

  lemma OwnTracks(store: Store, h: History, c: Client, cfg: Config)
    requires Tracks(store, h, c, cfg)
    ensures Tracks(Charge(store, c, h.clock, cfg), SpecStep(h, Request(c), cfg), c, cfg)
  {
    var times, dq := TimesOf(h.served, c), DequeOf(store, c);
    ChargedDeque(store, c, c, h.clock, cfg);
    AcceptsIsAllowed(store, h, c, cfg);
    ServedAfter(h, c, c, cfg);
    DropKeepsTail(dq, times, h.clock, h.clock, cfg.window);
    TailSnoc(DropExpired(dq, h.clock, cfg.window), times, h.clock, cfg.window);
  }

  lemma ChargeTracks(store: Store, h: History, client: Client, c: Client, cfg: Config)
    requires Tracks(store, h, client, cfg) && Tracks(store, h, c, cfg)
    ensures Tracks(Charge(store, client, h.clock, cfg), SpecStep(h, Request(client), cfg), c, cfg)
  {
    if c == client {
      OwnTracks(store, h, c, cfg);
    } else {
      ChargedDeque(store, client, c, h.clock, cfg);
      ServedAfter(h, client, c, cfg);
    }
  }

  lemma ChargeTracksAll(store: Store, h: History, client: Client, cfg: Config)
    requires forall c :: Tracks(store, h, c, cfg)
    ensures forall c :: Tracks(Charge(store, client, h.clock, cfg), SpecStep(h, Request(client), cfg), c, cfg)
  {
    forall c ensures Tracks(Charge(store, client, h.clock, cfg), SpecStep(h, Request(client), cfg), c, cfg) {
      ChargeTracks(store, h, client, c, cfg);
    }
  }

  lemma BatchSimulates(s: State, h: History, task: nat, now: real, keys: seq<Client>, next: nat, cfg: Config)
    requires Simulates(s, h, cfg) && task < |s.tasks| && now == s.tasks[task].now && next <= |keys|
    ensures Simulates(RunBatch(s, task, now, keys, next, cfg), h, cfg)
  {
    forall c ensures Tracks(RunBatch(s, task, now, keys, next, cfg).store, h, c, cfg) {
      assert Tracks(s.store, h, c, cfg);
      SweepKeepsTail(s.store, keys[next..BatchEnd(next, |keys|)], c, TimesOf(h.served, c), now, h.clock, cfg.window);
    }
  }

  lemma StepSimulates(s: State, h: History, e: Event, cfg: Config)
    requires Simulates(s, h, cfg)
    ensures Simulates(Step(s, e, cfg), SpecStep(h, e, cfg), cfg)
  {
    match e
    case Tick(to) =>
      forall c ensures Tracks(s.store, SpecStep(h, e, cfg), c, cfg) {
        assert Tracks(s.store, h, c, cfg);
      }
    case Request(client) => ChargeTracksAll(s.store, h, client, cfg);
    case Resume(task, order) =>
      if task < |s.tasks| {
        match s.tasks[task]
        case Spawned(now) => BatchSimulates(s, h, task, now, order, 0, cfg);
        case Sweeping(now, keys, next) =>
          if next < |keys| {
            BatchSimulates(s, h, task, now, keys, next, cfg);
          }
      }
  }

  lemma {:induction false} RunSimulates(events: seq<Event>, cfg: Config)
    ensures Simulates(Run(Init(), events, cfg), SpecRun(events, cfg), cfg)
  {
    if events != [] {
      var before := events[..|events| - 1];
      RunSimulates(before, cfg);
      StepSimulates(Run(Init(), before, cfg), SpecRun(before, cfg), events[|events| - 1], cfg);
    }
  }

  // ---------------------------------------------------------------- main results

  /** In every interleaving of requests, clock ticks and clean-up batches the limiter gives
      exactly the answers of the history-keeping reference limiter. */
  lemma {:induction false} DecisionsMatchHistory(events: seq<Event>, cfg: Config)
    ensures Decisions(Init(), events, cfg) == SpecDecisions(events, cfg)
  {
    if events != [] {
      var before := events[..|events| - 1];
      DecisionsMatchHistory(before, cfg);
      RunSimulates(before, cfg);
      match events[|events| - 1] {
        case Request(client) => AcceptsIsAllowed(Run(Init(), before, cfg).store, SpecRun(before, cfg), client, cfg);
        case _ =>
      }
    }
  }

  function WithoutCleanup(events: seq<Event>): seq<Event> {
    if events == [] then []
    else
      var last := events[|events| - 1];
      WithoutCleanup(events[..|events| - 1]) + (if last.Resume? then [] else [last])
  }

  lemma {:induction false} SpecIgnoresCleanup(events: seq<Event>, cfg: Config)
    ensures SpecRun(WithoutCleanup(events), cfg) == SpecRun(events, cfg)
    ensures SpecDecisions(WithoutCleanup(events), cfg) == SpecDecisions(events, cfg)
  {
    if events != [] {
      var before, last := events[..|events| - 1], events[|events| - 1];
      SpecIgnoresCleanup(before, cfg);
      var w := WithoutCleanup(before);
      if last.Resume? {
        assert WithoutCleanup(events) == w;
      } else {
        assert (w + [last])[..|w|] == w;
      }
    }
  }

  /** Removing every clean-up batch from a run, whatever its snapshot and however stale its
      clock, changes no answer. */
  lemma CleanupIsInvisible(events: seq<Event>, cfg: Config)
    ensures Decisions(Init(), events, cfg) == Decisions(Init(), WithoutCleanup(events), cfg)
  {
    DecisionsMatchHistory(events, cfg);
    DecisionsMatchHistory(WithoutCleanup(events), cfg);
    SpecIgnoresCleanup(events, cfg);
  }

  /** The requests that the limiter itself lets through in a run, with their times. */
  function Log(events: seq<Event>, cfg: Config): seq<Served> {
    if events == [] then []
    else
      var before := events[..|events| - 1];
      Log(before, cfg) +
      match events[|events| - 1] {
        case Request(client) =>
          var s := Run(Init(), before, cfg);
          if Accepts(s.store, client, s.clock, cfg) then [Served(client, s.clock)] else []
        case _ => []
      }
  }

  /** It lets through exactly the requests that the reference limiter serves. */
  lemma {:induction false} LogIsHistory(events: seq<Event>, cfg: Config)
    ensures Log(events, cfg) == SpecRun(events, cfg).served
  {
    if events != [] {
      var before := events[..|events| - 1];
      LogIsHistory(before, cfg);
      RunSimulates(before, cfg);
      match events[|events| - 1] {
        case Request(client) => AcceptsIsAllowed(Run(Init(), before, cfg).store, SpecRun(before, cfg), client, cfg);
        case _ =>
      }
    }
  }

  ghost predicate Spaced(times: seq<real>, cfg: Config) {
    if cfg.limit <= 0 then times == []
    else forall i, j :: 0 <= i && i + cfg.limit == j < |times| ==> times[j] - times[i] >= cfg.window
  }

  /** If the entry `limit` places from the end is recent, so are all later ones. */
  lemma RecentSuffix(times: seq<real>, from: nat, now: real, window: real)
    requires Sorted(times) && from < |times| && now - times[from] < window
    ensures Recent(times, now, window) >= |times| - from
  {
    assert times == times[..from] + times[from..];
    RecentOfConcat(times[..from], times[from..], now, window);
    AllRecent(times[from..], now, window);
  }

  lemma SpacedSnoc(times: seq<real>, now: real, cfg: Config)
    requires WellTimed(times, now) && Spaced(times, cfg) && Recent(times, now, cfg.window) < cfg.limit
    ensures Spaced(times + [now], cfg)
  {
    var first := |times| - cfg.limit;
    if first >= 0 && now - times[first] < cfg.window {
      RecentSuffix(times, first, now, cfg.window);
    }
  }

  lemma SpecStepSpaced(h: History, e: Event, client: Client, cfg: Config)
    requires WellTimed(TimesOf(h.served, client), h.clock) && Spaced(TimesOf(h.served, client), cfg)
    ensures Spaced(TimesOf(SpecStep(h, e, cfg).served, client), cfg)
  {
    if e.Request? {
      ServedAfter(h, e.client, client, cfg);
      if e.client == client && Allowed(h, client, cfg) {
        SpacedSnoc(TimesOf(h.served, client), h.clock, cfg);
      }
    }
  }

  lemma ServedAreTimed(events: seq<Event>, client: Client, cfg: Config)
    ensures WellTimed(TimesOf(SpecRun(events, cfg).served, client), SpecRun(events, cfg).clock)
  {
    RunSimulates(events, cfg);
    assert Tracks(Run(Init(), events, cfg).store, SpecRun(events, cfg), client, cfg);
  }

  lemma {:induction false} HistoryIsSpaced(events: seq<Event>, client: Client, cfg: Config)
    ensures Spaced(TimesOf(SpecRun(events, cfg).served, client), cfg)
  {
    if events != [] {
      var before := events[..|events| - 1];
      HistoryIsSpaced(before, client, cfg);
      ServedAreTimed(before, client, cfg);
      SpecStepSpaced(SpecRun(before, cfg), events[|events| - 1], client, cfg);
    }
  }

  /** Two requests of one client that the limiter lets through `limit` places apart are at
      least one window apart, in every run; with a limit of zero or less it lets none through. */
  lemma ServedAreSpaced(events: seq<Event>, client: Client, cfg: Config)
    ensures Spaced(TimesOf(Log(events, cfg), client), cfg)
  {
    LogIsHistory(events, cfg);
    HistoryIsSpaced(events, client, cfg);
  }

  /** How many of the given times lie in the half-open window [from, from + length). */
  function InWindow(times: seq<real>, from: real, length: real): nat {
    if times == [] then 0
    else (if from <= times[0] < from + length then 1 else 0) + InWindow(times[1..], from, length)
  }

  lemma {:induction false} InWindowOfConcat(a: seq<real>, b: seq<real>, from: real, length: real)
    ensures InWindow(a + b, from, length) == InWindow(a, from, length) + InWindow(b, from, length)
    ensures InWindow(a, from, length) <= |a|
  {
    if a == [] {
      assert a + b == b;
    } else {
      assert (a + b)[1..] == a[1..] + b;
      InWindowOfConcat(a[1..], b, from, length);
    }
  }

  lemma {:induction false} NoneInWindow(times: seq<real>, from: real, length: real)
    requires forall i :: 0 <= i < |times| ==> times[i] >= from + length
    ensures InWindow(times, from, length) == 0
  {
    if times != [] {
      NoneInWindow(times[1..], from, length);
    }
  }

  lemma {:induction false} SpacedFillsNoWindow(times: seq<real>, from: real, cfg: Config)
    requires Sorted(times) && Spaced(times, cfg)
    ensures InWindow(times, from, cfg.window) <= if cfg.limit > 0 then cfg.limit else 0
  {
    if times == [] {
    } else if !(from <= times[0] < from + cfg.window) || |times| <= cfg.limit {
      SpacedFillsNoWindow(times[1..], from, cfg);
      InWindowOfConcat(times, [], from, cfg.window);
      assert times + [] == times;
    } else {
      var n := cfg.limit;
      assert times == times[..n] + times[n..];
      InWindowOfConcat(times[..n], times[n..], from, cfg.window);
      assert times[n] - times[0] >= cfg.window;
      NoneInWindow(times[n..], from, cfg.window);
    }
  }

  /** No half-open window of the configured length ever holds more than `limit` requests of
      one client that the limiter let through; with a limit of zero or less it holds none. */
  lemma NoWindowOverfull(events: seq<Event>, client: Client, from: real, cfg: Config)
    ensures InWindow(TimesOf(Log(events, cfg), client), from, cfg.window) <= if cfg.limit > 0 then cfg.limit else 0
  {
    LogIsHistory(events, cfg);
    HistoryIsSpaced(events, client, cfg);
    ServedAreTimed(events, client, cfg);
    SpacedFillsNoWindow(TimesOf(Log(events, cfg), client), from, cfg);
  }

  // ---------------------------------------------------------------- storage

  ghost predicate StoredWell(store: Store, cfg: Config) {
    forall c :: c in store ==>
      && |store[c]| <= (if cfg.limit > 0 then cfg.limit else 0)
      && (store[c] == [] <==> cfg.limit <= 0)
  }

  lemma {:induction false} SweepStoresWell(store: Store, keys: seq<Client>, now: real, cfg: Config)
    requires StoredWell(store, cfg)
    ensures StoredWell(Sweep(store, keys, now, cfg.window), cfg)
  {
    if keys != [] {
      var key := keys[|keys| - 1];
      SweepStoresWell(store, keys[..|keys| - 1], now, cfg);
      var mid := Sweep(store, keys[..|keys| - 1], now, cfg.window);
    }
  }

  /** Between any two steps every stored deque is sorted and no longer than the limit, and
      an empty deque is kept only by a limiter whose limit admits nobody. */
  lemma {:induction false} StorageInvariant(events: seq<Event>, cfg: Config)
    ensures StoredWell(Run(Init(), events, cfg).store, cfg)
    ensures forall c :: Sorted(DequeOf(Run(Init(), events, cfg).store, c))
  {
    var s := Run(Init(), events, cfg);
    RunSimulates(events, cfg);
    forall c ensures Sorted(DequeOf(s.store, c)) {
      var times := TimesOf(SpecRun(events, cfg).served, c);
      assert Tracks(s.store, SpecRun(events, cfg), c, cfg);
    }
    if events != [] {
      var before := events[..|events| - 1];
      StorageInvariant(before, cfg);
      StepStoresWell(Run(Init(), before, cfg), events[|events| - 1], cfg);
    }
  }

  lemma StepStoresWell(s: State, e: Event, cfg: Config)
    requires StoredWell(s.store, cfg)
    ensures StoredWell(Step(s, e, cfg).store, cfg)
  {
    match e
    case Tick(to) =>
    case Request(client) =>
    case Resume(task, order) =>
      if task < |s.tasks| {
        var now, keys, next := s.tasks[task].now, order, 0;
        if s.tasks[task].Sweeping? {
          keys, next := s.tasks[task].keys, s.tasks[task].next;
        }
        if next <= |keys| {
          SweepStoresWell(s.store, keys[next..BatchEnd(next, |keys|)], now, cfg);
        }
      }
  }

  // ---------------------------------------------------------------- what a clean-up achieves

  /** Every key a task has already visited holds no timestamp that was expired at the
      task's own clock (in particular it may be absent). */
  ghost predicate TaskSwept(store: Store, t: Task, window: real) {
    t.Sweeping? ==>
      forall j :: 0 <= j < t.next && j < |t.keys| ==> NoneExpired(DequeOf(store, t.keys[j]), t.now, window)
  }

  ghost predicate Swept(s: State, cfg: Config) {
    forall k :: 0 <= k < |s.tasks| ==> TaskSwept(s.store, s.tasks[k], cfg.window)
  }

  lemma {:induction false} SweepOnlyDrops(store: Store, keys: seq<Client>, c: Client, now: real, window: real)
    ensures IsSuffix(DequeOf(Sweep(store, keys, now, window), c), DequeOf(store, c))
  {
    if keys != [] {
      var init, key := keys[..|keys| - 1], keys[|keys| - 1];
      SweepOnlyDrops(store, init, c, now, window);
    }
  }

  ghost predicate IsSuffix(a: seq<real>, b: seq<real>) {
    |a| <= |b| && forall i :: |b| - |a| <= i < |b| ==> b[i] == a[i - (|b| - |a|)]
  }

  lemma SuffixStaysFresh(a: seq<real>, b: seq<real>, now: real, window: real)
    requires IsSuffix(a, b)
    ensures NoneExpired(b, now, window) ==> NoneExpired(a, now, window)
    ensures Sorted(b) ==> Sorted(a)
  {
    forall i | 0 <= i < |a| ensures a[i] == b[i + (|b| - |a|)] {
    }
  }

  lemma {:induction false} SweepCleans(store: Store, keys: seq<Client>, c: Client, now: real, window: real)
    requires Sorted(DequeOf(store, c)) && c in keys
    ensures NoneExpired(DequeOf(Sweep(store, keys, now, window), c), now, window)
  {
    var init, key := keys[..|keys| - 1], keys[|keys| - 1];
    var mid := Sweep(store, init, now, window);
    SweepOnlyDrops(store, init, c, now, window);
    SuffixStaysFresh(DequeOf(mid, c), DequeOf(store, c), now, window);
    if c != key {
      SweepCleans(store, init, c, now, window);
    }
  }

  lemma ChargeKeepsSwept(store: Store, client: Client, clock: real, t: Task, cfg: Config)
    requires cfg.window > 0.0 && t.now <= clock && TaskSwept(store, t, cfg.window)
    ensures TaskSwept(Charge(store, client, clock, cfg), t, cfg.window)
  {
    if t.Sweeping? {
      forall j | 0 <= j < t.next && j < |t.keys|
        ensures NoneExpired(DequeOf(Charge(store, client, clock, cfg), t.keys[j]), t.now, cfg.window)
      {
        assert NoneExpired(DequeOf(store, t.keys[j]), t.now, cfg.window);
      }
    }
  }

  lemma SweepKeepsSwept(store: Store, keys: seq<Client>, now: real, t: Task, window: real)
    requires TaskSwept(store, t, window)
    ensures TaskSwept(Sweep(store, keys, now, window), t, window)
  {
    if t.Sweeping? {
      forall j | 0 <= j < t.next && j < |t.keys|
        ensures NoneExpired(DequeOf(Sweep(store, keys, now, window), t.keys[j]), t.now, window)
      {
        SweepOnlyDrops(store, keys, t.keys[j], now, window);
        SuffixStaysFresh(DequeOf(Sweep(store, keys, now, window), t.keys[j]), DequeOf(store, t.keys[j]), t.now, window);
      }
    }
  }

  lemma BatchKeepsSwept(s: State, task: nat, now: real, keys: seq<Client>, next: nat, cfg: Config)
    requires Swept(s, cfg) && task < |s.tasks| && next <= |keys|
    requires s.tasks[task] == Sweeping(now, keys, next) || (s.tasks[task] == Spawned(now) && next == 0)
    requires forall c :: Sorted(DequeOf(s.store, c))
    ensures Swept(RunBatch(s, task, now, keys, next, cfg), cfg)
  {
    var stop := BatchEnd(next, |keys|);
    var batch := keys[next..stop];
    var store := Sweep(s.store, batch, now, cfg.window);
    forall k | 0 <= k < |s.tasks| ensures TaskSwept(store, s.tasks[k], cfg.window) {
      SweepKeepsSwept(s.store, batch, now, s.tasks[k], cfg.window);
    }
    forall j | 0 <= j < stop ensures NoneExpired(DequeOf(store, keys[j]), now, cfg.window) {
      if j >= next {
        assert keys[j] == batch[j - next];
        SweepCleans(s.store, batch, keys[j], now, cfg.window);
      } else {
        assert TaskSwept(store, s.tasks[task], cfg.window);
      }
    }
  }

  lemma StepKeepsSwept(s: State, e: Event, cfg: Config)
    requires Swept(s, cfg) && cfg.window > 0.0
    requires forall c :: Sorted(DequeOf(s.store, c))
    requires forall k :: 0 <= k < |s.tasks| ==> s.tasks[k].now <= s.clock
    ensures Swept(Step(s, e, cfg), cfg)
  {
    match e
    case Tick(to) =>
    case Request(client) =>
      forall k | 0 <= k < |s.tasks| ensures TaskSwept(Charge(s.store, client, s.clock, cfg), s.tasks[k], cfg.window) {
        ChargeKeepsSwept(s.store, client, s.clock, s.tasks[k], cfg);
      }
    case Resume(task, order) =>
      if task < |s.tasks| {
        match s.tasks[task]
        case Spawned(now) => BatchKeepsSwept(s, task, now, order, 0, cfg);
        case Sweeping(now, keys, next) =>
          if next < |keys| {
            BatchKeepsSwept(s, task, now, keys, next, cfg);
          }
      }
  }

  lemma {:induction false} SweptStays(events: seq<Event>, cfg: Config)
    requires cfg.window > 0.0
    ensures Swept(Run(Init(), events, cfg), cfg)
  {
    if events != [] {
      var before := events[..|events| - 1];
      SweptStays(before, cfg);
      StorageInvariant(before, cfg);
      RunSimulates(before, cfg);
      StepKeepsSwept(Run(Init(), before, cfg), events[|events| - 1], cfg);
    }
  }

  lemma RunSnoc(events: seq<Event>, e: Event, cfg: Config)
    ensures Run(Init(), events + [e], cfg) == Step(Run(Init(), events, cfg), e, cfg)
  {
    assert (events + [e])[..|events|] == events;
  }

  /** A run in which, with a window that is not positive, a finished task is followed at
      the same clock by a request of the client it has just removed. */
  lemma StaleAfterSweep(c: Client, cfg: Config)
    requires cfg.window <= 0.0 && cfg.limit > 0
    ensures exists events :: !Swept(Run(Init(), events, cfg), cfg)
  {
    var now := CLEANUP_INTERVAL;
    var before := [] + [Tick(now)] + [Request(c)] + [Resume(0, [c])];
    AfterSweep(c, now, cfg);
    RunSnoc(before, Request(c), cfg);
    var s := Run(Init(), before + [Request(c)], cfg);
    assert DequeOf(s.store, c)[0] == now && s.tasks[0].keys[0] == c;
    assert !NoneExpired(DequeOf(s.store, c), now, cfg.window);
    assert !Swept(s, cfg);
  }

  lemma AfterRequest(c: Client, now: real, cfg: Config)
    requires cfg.limit > 0 && now == CLEANUP_INTERVAL
    ensures Run(Init(), [] + [Tick(now)] + [Request(c)], cfg) == State(now, map[c := [now]], now, [Spawned(now)])
  {
    RunSnoc([], Tick(now), cfg);
    RunSnoc([] + [Tick(now)], Request(c), cfg);
    assert [] + [now] == [now];
  }

  lemma AfterSweep(c: Client, now: real, cfg: Config)
    requires cfg.window <= 0.0 && cfg.limit > 0 && now == CLEANUP_INTERVAL
    ensures Run(Init(), [] + [Tick(now)] + [Request(c)] + [Resume(0, [c])], cfg)
         == State(now, map[], now, [Sweeping(now, [c], 1)])
  {
    AfterRequest(c, now, cfg);
    RunSnoc([] + [Tick(now)] + [Request(c)], Resume(0, [c]), cfg);
    SweepOne(c, now, cfg.window);
    assert (set x | x in [c]) == {c} == map[c := [now]].Keys;
    assert [c][0..1] == [c];
  }

  lemma SweepOne(c: Client, now: real, window: real)
    requires window <= 0.0
    ensures Sweep(map[c := [now]], [c], now, window) == map[]
  {
    var store := map[c := [now]];
    assert [c][..0] == [] && Sweep(store, [], now, window) == store;
    assert FirstFresh([now], 0, now, window) == 1;
  }

  /** A clean-up task's effect survives whatever requests and other tasks run between its
      batches: for every run, the keys it has visited hold nothing expired at its own
      clock.  That is so exactly for a positive window (or a limiter that serves nobody). */
  lemma CleanupEffect(cfg: Config)
    ensures (forall events :: Swept(Run(Init(), events, cfg), cfg)) <==> cfg.window > 0.0 || cfg.limit <= 0
  {
    if cfg.window > 0.0 {
      forall events ensures Swept(Run(Init(), events, cfg), cfg) {
        SweptStays(events, cfg);
      }
    } else if cfg.limit <= 0 {
      forall events ensures Swept(Run(Init(), events, cfg), cfg) {
        forall c ensures DequeOf(Run(Init(), events, cfg).store, c) == [] {
          StorageInvariant(events, cfg);
        }
      }
    } else {
      StaleAfterSweep("", cfg);
    }
  }
}
