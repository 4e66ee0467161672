/** Asking a vision model for a caption: the retry loop with exponential backoff, once with
    blocking and once with asynchronous sleeps. */
module CaptionRetries {
  import opened Text

  /** What one POST leads to.  A status is one for which the response raises; anything else
      that goes wrong, such as a malformed answer, is `OtherError`. */
  datatype Outcome = Success(content: string) | Status(code: int) | NetworkError | OtherError

  datatype Kind = Sync | Async

  type Jitter = j: nat | j < 100

  /** One call; `script` and `jitter` give the outcome and the random part for each attempt. */
  datatype Call = Call(kind: Kind, script: nat -> Outcome, jitter: nat -> Jitter, base: real, maxRetries: int)

  predicate ShouldRetryStatus(code: int) {
    code == 429 || code == 502 || code == 503 || code == 504
  }

  predicate Transient(o: Outcome) {
    o.NetworkError? || (o.Status? && ShouldRetryStatus(o.code))
  }

  function Backoff(call: Call, attempt: nat): real {
    call.base * Pow2(attempt) as real + call.jitter(attempt) as real / 1000.0
  }

  /** A blocking sleep refuses a negative duration; an asynchronous one takes it as zero. */
  predicate CanSleep(call: Call, attempt: nat) {
    call.kind.Async? || Backoff(call, attempt) >= 0.0
  }

  function Max(x: real, y: real): real {
    if x >= y then x else y
  }

  // ---------------------------------------------------------------- the loop

  /** How the body of the `try` ends. */
  datatype End = Returned(content: string) | Raised | FellThrough

  function Caption(end: End): string {
    if end.Returned? then Strip(end.content) else ""
  }

  method PostWithRetries(call: Call) returns (end: End, posts: nat, waited: real)
    ensures posts == Posts(call)
    ensures waited == Waited(call, if posts == 0 then 0 else posts - 1)
    ensures end.FellThrough? <==> call.maxRetries < 0
    ensures Caption(end) == Result(call)
  {
    posts, waited := 0, 0.0;
    while posts <= call.maxRetries
      invariant posts == 0 || posts <= call.maxRetries
      invariant waited == Waited(call, posts)
      invariant call.maxRetries >= 0 ==> LastAttempt(call, posts) == LastAttempt(call, 0)
    {
      var attempt := posts;
      posts := posts + 1;
      match call.script(attempt) {
        case Success(content) =>
          return Returned(content), posts, waited;
        case OtherError =>
          return Raised, posts, waited;
        case Status(code) =>
          if !(attempt < call.maxRetries && ShouldRetryStatus(code)) {
            return Raised, posts, waited;
          }
        case NetworkError =>
          if attempt >= call.maxRetries {
            return Raised, posts, waited;
          }
      }
      if !CanSleep(call, attempt) {
        return Raised, posts, waited;
      }
      waited := waited + Max(0.0, Backoff(call, attempt));
    }
    end := FellThrough;
  }

  // ---------------------------------------------------------------- what it computes

  predicate Continues(call: Call, attempt: nat) {
    Transient(call.script(attempt)) && CanSleep(call, attempt)
  }

  /** The attempt, from `attempt` on, after which there is no other. */
  function LastAttempt(call: Call, attempt: nat): (last: nat)
    ensures attempt <= last && (last <= attempt || last <= call.maxRetries)
    ensures forall i :: attempt <= i < last ==> Continues(call, i)
    ensures last >= call.maxRetries || !Continues(call, last)
    decreases call.maxRetries - attempt
  {
    if attempt < call.maxRetries && Continues(call, attempt) then LastAttempt(call, attempt + 1) else attempt
  }

  function Posts(call: Call): nat {
    if call.maxRetries < 0 then 0 else LastAttempt(call, 0) + 1
  }

  function Result(call: Call): string {
    if call.maxRetries >= 0 && call.script(LastAttempt(call, 0)).Success?
    then Strip(call.script(LastAttempt(call, 0)).content)
    else ""
  }

  /** The time spent in the first `sleeps` sleeps. */
  function Waited(call: Call, sleeps: nat): real {
    if sleeps == 0 then 0.0 else Waited(call, sleeps - 1) + Max(0.0, Backoff(call, sleeps - 1))
  }

  // ---------------------------------------------------------------- main results

  /** What is worth another attempt: no answer, too many requests (section 4 of RFC 6585), or
      the three failures of a gateway or an overloaded server. */
  ghost const TRANSIENT := iset{NetworkError, Status(429), Status(502), Status(503), Status(504)}

  /** `n` is the length of the longest transient prefix of the script, up to `bound`. */
  ghost predicate TransientPrefix(script: nat -> Outcome, n: nat, bound: nat) {
    && n <= bound
    && (forall i :: 0 <= i < n ==> script(i) in TRANSIENT)
    && (n < bound ==> script(n) !in TRANSIENT)
  }

  /** Unless a blocking sleep is refused, there is one post for each transient outcome at the
      front and one more, but never more than `maxRetries + 1`; the caption is the answer to
      the last post. */
  lemma PostsCountTransientPrefix(call: Call, n: nat)
    requires call.maxRetries >= 0
    requires TransientPrefix(call.script, n, call.maxRetries)
    ensures Posts(call) == n + 1 <==> forall i :: 0 <= i < n ==> CanSleep(call, i)
    ensures Posts(call) <= n + 1
    ensures Posts(call) == n + 1 ==>
              Result(call) == if call.script(n).Success? then Strip(call.script(n).content) else ""
  {
    var last := LastAttempt(call, 0);
    assert forall o: Outcome :: o in TRANSIENT <==> Transient(o);
    assert last > n ==> Continues(call, n);
    if last < n {
      assert !Continues(call, last);
    }
    if last == n {
      forall i | 0 <= i < n ensures CanSleep(call, i) {
        assert Continues(call, i);
      }
    }
  }

  /** For given outcomes, the two versions post equally often exactly when no delay before
      the asynchronous version's last post is negative; then they also return the same. */
  lemma TwinsAgreeIff(call: Call)
    ensures var sync, async := call.(kind := Sync), call.(kind := Async);
            && (Posts(sync) == Posts(async) <==> forall i :: 0 <= i < Posts(async) - 1 ==> Backoff(call, i) >= 0.0)
            && (Posts(sync) == Posts(async) ==> Result(sync) == Result(async))
  {
    var sync, async := call.(kind := Sync), call.(kind := Async);
    if call.maxRetries >= 0 {
      var s, a := LastAttempt(sync, 0), LastAttempt(async, 0);
      assert forall i :: Continues(sync, i) ==> Continues(async, i);
      assert forall i :: CanSleep(sync, i) <==> Backoff(call, i) >= 0.0;
      assert s > a ==> Continues(sync, a);
      if s < a {
        assert Continues(async, s) && !Continues(sync, s);
      }
      if s == a {
        forall i | 0 <= i < a ensures Backoff(call, i) >= 0.0 {
          assert Continues(sync, i) && CanSleep(sync, i);
        }
      }
    }
  }

  /** The two versions are interchangeable for a configuration exactly when its base delay is
      not negative or it never retries. */
  lemma TwinsInterchangeableIff(base: real, maxRetries: int)
    ensures (forall script: nat -> Outcome, jitter: nat -> Jitter ::
               Posts(Call(Sync, script, jitter, base, maxRetries)) == Posts(Call(Async, script, jitter, base, maxRetries)))
            <==> base >= 0.0 || maxRetries <= 0
  {
    if base >= 0.0 || maxRetries <= 0 {
      forall script: nat -> Outcome, jitter: nat -> Jitter
        ensures Posts(Call(Sync, script, jitter, base, maxRetries)) == Posts(Call(Async, script, jitter, base, maxRetries))
      {
        var call := Call(Async, script, jitter, base, maxRetries);
        TwinsAgreeIff(call);
        if base >= 0.0 {
          assert forall i :: base * Pow2(i) as real >= 0.0 ==> Backoff(call, i) >= 0.0;
        }
      }
    } else {
      var script, jitter := (n: nat) => NetworkError, (n: nat) => 0 as Jitter;
      var call := Call(Async, script, jitter, base, maxRetries);
      TwinsAgreeIff(call);
      PostsCountTransientPrefix(call, maxRetries);
      assert Pow2(0) == 1 && Backoff(call, 0) < 0.0;
      assert call.(kind := Sync) == Call(Sync, script, jitter, base, maxRetries);
    }
  }

  /** The time bound: k sleeps take at least the exponential series and at most 99 ms more for
      each.  A negative base delay counts as none. */
  lemma WaitedBounds(call: Call, k: nat)
    ensures var series := Max(0.0, call.base) * (Pow2(k) - 1) as real;
            series <= Waited(call, k) <= series + 0.099 * k as real
  {
    SeriesClosed(Max(0.0, call.base), k);
    WaitedNearSeries(call, k);
  }

  /** What the random parts of the first `k` delays come to, in milliseconds. */
  function JitterSum(jitter: nat -> Jitter, k: nat): nat {
    if k == 0 then 0 else JitterSum(jitter, k - 1) + jitter(k - 1)
  }

  /** With a base delay that is not negative, the time is the exponential series and the random
      parts. */
  lemma {:induction false} WaitedExactly(call: Call, k: nat)
    requires call.base >= 0.0
    ensures Waited(call, k) == Series(call.base, k) + JitterSum(call.jitter, k) as real / 1000.0
  {
    if k > 0 {
      WaitedExactly(call, k - 1);
      DelayExactly(call, k - 1);
    }
  }

  lemma DelayExactly(call: Call, i: nat)
    requires call.base >= 0.0
    ensures Max(0.0, Backoff(call, i)) == Step(call.base, i) + call.jitter(i) as real / 1000.0
  {
    assert call.base * Pow2(i) as real >= 0.0;
  }

  /** base + 2 * base + 4 * base + ..., k terms. */
  function Series(base: real, k: nat): real {
    if k == 0 then 0.0 else Series(base, k - 1) + Step(base, k - 1)
  }

  function Step(base: real, i: nat): real {
    base * Pow2(i) as real
  }

  lemma {:induction false} SeriesClosed(base: real, k: nat)
    ensures Series(base, k) == base * (Pow2(k) - 1) as real
  {
    if k > 0 {
      SeriesClosed(base, k - 1);
      SeriesStep(base, Pow2(k - 1));
    }
  }

  lemma SeriesStep(b: real, p: nat)
    ensures b * (p - 1) as real + b * p as real == b * (2 * p - 1) as real
  {
    assert (2 * p - 1) as real == (p - 1) as real + p as real;
  }

  lemma {:induction false} WaitedNearSeries(call: Call, k: nat)
    ensures Series(Max(0.0, call.base), k) <= Waited(call, k) <= Series(Max(0.0, call.base), k) + 0.099 * k as real
  {
    if k > 0 {
      WaitedNearSeries(call, k - 1);
      DelayBounds(call, k - 1);
    }
  }

  lemma DelayBounds(call: Call, i: nat)
    ensures var step := Step(Max(0.0, call.base), i);
            step <= Max(0.0, Backoff(call, i)) <= step + 0.099
  {
    if call.base < 0.0 {
      assert call.base * Pow2(i) as real <= 0.0;
    } else {
      assert call.base * Pow2(i) as real >= 0.0;
    }
  }
}
