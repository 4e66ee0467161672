/** The middleware that limits the size of request bodies: it stands between the application
    and the server, counts what the application receives, and answers 413 in its place. */
module BodyLimit {
  import opened Text

  /** What the server hands over; `body` is the length of a chunk. */
  datatype Incoming = Request(body: nat) | Disconnect

  datatype Message = Start(status: int) | Body(moreBody: bool)

  /** What the application gets back from a call of `receive` or `send`. */
  datatype Reply = Got(message: Incoming) | TooLarge | Sent

  datatype End = Returned | RaisedTooLarge | RaisedOther

  datatype Action = Receive | Send(message: Message) | Finish(end: End)

  /** An application decides on its next action from all replies so far; so it may catch the
      middleware's exception, or let it pass. */
  type App = seq<Reply> -> Action

  /** The state of one exchange: the two variables of the middleware, how many messages were
      taken from the server, what the application saw, and what went out. */
  datatype Session = Session(total: nat, started: bool, taken: nat, replies: seq<Reply>, wire: seq<Message>)

  const OPENING := Session(0, false, 0, [], [])

  // ---------------------------------------------------------------- the wrapped calls

  /** `limit` is None where the application talks to the server directly. */
  function Received(limit: Option<int>, incoming: nat -> Incoming, s: Session): Session {
    var message := incoming(s.taken);
    if limit.None? || message.Disconnect? then
      s.(taken := s.taken + 1, replies := s.replies + [Got(message)])
    else
      var total := s.total + message.body;
      s.(total := total, taken := s.taken + 1,
         replies := s.replies + [if total > limit.value then TooLarge else Got(message)])
  }

  function SentOn(s: Session, message: Message): Session {
    s.(started := s.started || message.Start?, replies := s.replies + [Sent], wire := s.wire + [message])
  }

  /** The session after at most `n` actions of the application, and how it ended, if it did. */
  function Run(app: App, incoming: nat -> Incoming, limit: Option<int>, n: nat): (Session, Option<End>) {
    if n == 0 then (OPENING, None)
    else
      var (s, end) := Run(app, incoming, limit, n - 1);
      if end.Some? then (s, end)
      else match app(s.replies)
        case Receive => (Received(limit, incoming, s), None)
        case Send(message) => (SentOn(s, message), None)
        case Finish(how) => (s, Some(how))
  }

  const REFUSAL := [Start(413), Body(false)]

  /** Everything that reaches the wire in an HTTP exchange that the middleware guards. */
  function Wire(app: App, incoming: nat -> Incoming, header: Option<int>, limit: int, n: nat): seq<Message> {
    if header.Some? && header.value > limit then REFUSAL
    else
      var (s, end) := Run(app, incoming, Some(limit), n);
      if end == Some(RaisedTooLarge) && !s.started then s.wire + REFUSAL else s.wire
  }

  /** An exchange behind the middleware: what the application and the client see of it, and how
      it ends for the server. */
  function Guarded(app: App, incoming: nat -> Incoming, header: Option<int>, limit: int, n: nat): (Session, Option<End>) {
    if header.Some? && header.value > limit then (OPENING.(wire := REFUSAL), Some(Returned))
    else
      var (s, end) := Run(app, incoming, Some(limit), n);
      (s.(wire := Wire(app, incoming, header, limit, n)), if end == Some(RaisedTooLarge) then Some(Returned) else end)
  }

  class Exchange {
    const incoming: nat -> Incoming
    var total: nat
    var started: bool
    var taken: nat
    var replies: seq<Reply>
    var wire: seq<Message>

    ghost function State(): Session
      reads this
    {
      Session(total, started, taken, replies, wire)
    }

    constructor (incoming: nat -> Incoming)
      ensures State() == OPENING && this.incoming == incoming
    {
      this.incoming := incoming;
      total, started, taken, replies, wire := 0, false, 0, [], [];
    }

    method ServerReceive() returns (message: Incoming)
      modifies this`taken
      ensures message == incoming(old(taken)) && taken == old(taken) + 1
    {
      message := incoming(taken);
      taken := taken + 1;
    }

    method WrappedReceive(limit: int)
      modifies this
      ensures State() == Received(Some(limit), incoming, old(State()))
    {
      var message := ServerReceive();
      if message.Request? {
        total := total + message.body;
        if total > limit {
          replies := replies + [TooLarge];
          return;
        }
      }
      replies := replies + [Got(message)];
    }

    method WrappedSend(message: Message)
      modifies this
      ensures State() == SentOn(old(State()), message)
    {
      if message.Start? {
        started := true;
      }
      wire := wire + [message];
      replies := replies + [Sent];
    }

    method DirectReceive()
      modifies this
      ensures State() == Received(None, incoming, old(State()))
    {
      var message := ServerReceive();
      replies := replies + [Got(message)];
    }

    method SendRefusal()
      modifies this`wire
      ensures wire == old(wire) + REFUSAL
    {
      wire := wire + [Start(413)];
      wire := wire + [Body(false)];
    }

    /** `n` bounds the actions of the application that are followed; `header` is the number in
        the Content-Length header, if there is one.  For a scope other than HTTP the wrapped
        application is called as it is. */
    method Call(isHttp: bool, header: Option<int>, limit: int, app: App, n: nat) returns (end: Option<End>)
      requires State() == OPENING
      modifies this
      ensures (State(), end) ==
                if isHttp then Guarded(app, incoming, header, limit, n) else Run(app, incoming, None, n)
    {
      if isHttp && header.Some? && header.value > limit {
        SendRefusal();
        assert wire == REFUSAL;
        return Some(Returned);
      }
      ghost var bound := if isHttp then Some(limit) else None;
      end := None;
      for i := 0 to n
        invariant (State(), end) == Run(app, incoming, bound, i)
      {
        if end.None? {
          match app(replies) {
            case Receive =>
              if isHttp {
                WrappedReceive(limit);
              } else {
                DirectReceive();
              }
            case Send(message) => WrappedSend(message);
            case Finish(how) => end := Some(how);
          }
        }
      }
      if isHttp && end == Some(RaisedTooLarge) {
        if !started {
          SendRefusal();
        }
        end := Some(Returned);
      }
    }
  }

  // ---------------------------------------------------------------- bytes

  /** The body bytes in the first `k` messages. */
  function BytesIn(incoming: nat -> Incoming, k: nat): nat {
    if k == 0 then 0
    else BytesIn(incoming, k - 1) + if incoming(k - 1).Request? then incoming(k - 1).body else 0
  }

  /** What the application is told when it asks for message `k`. */
  function Answer(incoming: nat -> Incoming, limit: int, k: nat): Reply {
    if incoming(k).Request? && BytesIn(incoming, k + 1) > limit then TooLarge else Got(incoming(k))
  }

  function Answers(incoming: nat -> Incoming, limit: int, k: nat): seq<Reply> {
    if k == 0 then [] else Answers(incoming, limit, k - 1) + [Answer(incoming, limit, k - 1)]
  }

  /** The replies to `receive`. */
  function Receipts(replies: seq<Reply>): seq<Reply> {
    if replies == [] then []
    else
      var last := replies[|replies| - 1];
      Receipts(replies[..|replies| - 1]) + if last == Sent then [] else [last]
  }

  function Forwarded(replies: seq<Reply>): nat {
    if replies == [] then 0
    else
      var last := replies[|replies| - 1];
      Forwarded(replies[..|replies| - 1]) + if last.Got? && last.message.Request? then last.message.body else 0
  }

  /** The first message at which the body outgrows the limit, or `k`. */
  function FirstOver(incoming: nat -> Incoming, limit: int, k: nat): (m: nat)
    ensures m <= k
    ensures forall i :: 0 <= i < m ==> Answer(incoming, limit, i) == Got(incoming(i))
    ensures m < k ==> Answer(incoming, limit, m) == TooLarge
  {
    if k == 0 then 0
    else
      var m := FirstOver(incoming, limit, k - 1);
      if m < k - 1 || Answer(incoming, limit, k - 1) == TooLarge then m else k
  }

  lemma SnocLists(replies: seq<Reply>, r: Reply)
    ensures Receipts(replies + [r]) == Receipts(replies) + if r == Sent then [] else [r]
    ensures Forwarded(replies + [r]) == Forwarded(replies) + if r.Got? && r.message.Request? then r.message.body else 0
  {
    assert (replies + [r])[..|replies|] == replies;
  }

  lemma {:induction false} BytesGrow(incoming: nat -> Incoming, i: nat, k: nat)
    requires i <= k
    ensures BytesIn(incoming, i) <= BytesIn(incoming, k)
  {
    if i < k {
      BytesGrow(incoming, i, k - 1);
    }
  }

  ghost predicate Tallies(s: Session, incoming: nat -> Incoming, limit: int) {
    && s.total == BytesIn(incoming, s.taken)
    && Receipts(s.replies) == Answers(incoming, limit, s.taken)
    && Forwarded(s.replies) == BytesIn(incoming, FirstOver(incoming, limit, s.taken))
  }

  lemma ReceivedShape(s: Session, incoming: nat -> Incoming, limit: int)
    requires s.total == BytesIn(incoming, s.taken)
    ensures var s' := Received(Some(limit), incoming, s);
            && s'.taken == s.taken + 1
            && (s'.total == BytesIn(incoming, s'.taken))
            && s'.replies == s.replies + [Answer(incoming, limit, s.taken)]
            && s'.started == s.started && s'.wire == s.wire
  {
  }

  lemma ReceivedTallies(s: Session, incoming: nat -> Incoming, limit: int)
    requires Tallies(s, incoming, limit)
    ensures Tallies(Received(Some(limit), incoming, s), incoming, limit)
  {
    var r := Answer(incoming, limit, s.taken);
    ReceivedShape(s, incoming, limit);
    assert Answers(incoming, limit, s.taken + 1) == Answers(incoming, limit, s.taken) + [r];
    SnocLists(s.replies, r);
    OverStaysOver(incoming, limit, s.taken);
  }

  lemma SentTallies(s: Session, message: Message, incoming: nat -> Incoming, limit: int)
    requires Tallies(s, incoming, limit)
    ensures Tallies(SentOn(s, message), incoming, limit)
  {
    SnocLists(s.replies, Sent);
  }

  lemma {:induction false} RunTallies(app: App, incoming: nat -> Incoming, limit: int, n: nat)
    ensures Tallies(Run(app, incoming, Some(limit), n).0, incoming, limit)
  {
    if n > 0 {
      RunTallies(app, incoming, limit, n - 1);
      var (s, end) := Run(app, incoming, Some(limit), n - 1);
      if end.None? {
        match app(s.replies)
        case Receive => ReceivedTallies(s, incoming, limit);
        case Send(message) => SentTallies(s, message, incoming, limit);
        case Finish(_) =>
      }
    }
  }

  /** Message k is answered by its place in the body alone, whatever the application does in
      between: it is let through if and only if the body up to and including it fits.  The
      bytes let through are those of the messages before the first that does not fit. */
  lemma ReceiptsAreExact(app: App, incoming: nat -> Incoming, limit: int, n: nat, k: nat)
    requires k < Run(app, incoming, Some(limit), n).0.taken
    ensures var s := Run(app, incoming, Some(limit), n).0;
            && |Receipts(s.replies)| == s.taken
            && (Receipts(s.replies)[k] == Got(incoming(k)) <==> incoming(k).Disconnect? || BytesIn(incoming, k + 1) <= limit)
            && (Receipts(s.replies)[k] == TooLarge <==> incoming(k).Request? && BytesIn(incoming, k + 1) > limit)
            && Forwarded(s.replies) == BytesIn(incoming, FirstOver(incoming, limit, s.taken))
  {
    RunTallies(app, incoming, limit, n);
    AnswersAt(incoming, limit, Run(app, incoming, Some(limit), n).0.taken);
  }

  lemma {:induction false} AnswersAt(incoming: nat -> Incoming, limit: int, k: nat)
    ensures |Answers(incoming, limit, k)| == k
    ensures forall i :: 0 <= i < k ==> Answers(incoming, limit, k)[i] == Answer(incoming, limit, i)
  {
    if k > 0 {
      AnswersAt(incoming, limit, k - 1);
    }
  }

  lemma OverStaysOver(incoming: nat -> Incoming, limit: int, k: nat)
    ensures BytesIn(incoming, FirstOver(incoming, limit, k + 1)) ==
              BytesIn(incoming, FirstOver(incoming, limit, k)) +
              (var r := Answer(incoming, limit, k); if r.Got? && r.message.Request? then r.message.body else 0)
  {
    var m := FirstOver(incoming, limit, k);
    if m < k {
      BytesGrow(incoming, m + 1, k + 1);
    }
  }

  /** The application never gets more bytes than the limit. */
  lemma ForwardedWithinLimit(app: App, incoming: nat -> Incoming, limit: int, n: nat)
    ensures Forwarded(Run(app, incoming, Some(limit), n).0.replies) <= if limit > 0 then limit else 0
  {
    var s := Run(app, incoming, Some(limit), n).0;
    RunTallies(app, incoming, limit, n);
    PrefixFits(incoming, limit, FirstOver(incoming, limit, s.taken));
  }

  lemma {:induction false} PrefixFits(incoming: nat -> Incoming, limit: int, m: nat)
    requires forall i :: 0 <= i < m ==> Answer(incoming, limit, i) == Got(incoming(i))
    ensures BytesIn(incoming, m) <= if limit > 0 then limit else 0
  {
    if m > 0 {
      assert Answer(incoming, limit, m - 1) == Got(incoming(m - 1));
      PrefixFits(incoming, limit, m - 1);
    }
  }

  // ---------------------------------------------------------------- transparency

  ghost predicate AllFit(incoming: nat -> Incoming, limit: int, k: nat) {
    forall i :: 0 <= i < k ==> Answer(incoming, limit, i) == Got(incoming(i))
  }

  /** Two exchanges that the application and the client cannot tell apart. */
  ghost predicate Alike(s: Session, t: Session) {
    s.taken == t.taken && s.replies == t.replies && s.wire == t.wire
  }

  /** The first `k` messages, handed over. */
  function Gots(incoming: nat -> Incoming, k: nat): seq<Reply> {
    if k == 0 then [] else Gots(incoming, k - 1) + [Got(incoming(k - 1))]
  }

  lemma {:induction false} AnswersAreGotsIff(incoming: nat -> Incoming, limit: int, k: nat)
    ensures |Answers(incoming, limit, k)| == |Gots(incoming, k)| == k
    ensures Answers(incoming, limit, k) == Gots(incoming, k) <==> AllFit(incoming, limit, k)
  {
    if k > 0 {
      AnswersAreGotsIff(incoming, limit, k - 1);
      var a, g := Answers(incoming, limit, k), Gots(incoming, k);
      assert a[..k - 1] == Answers(incoming, limit, k - 1) && g[..k - 1] == Gots(incoming, k - 1);
      assert a[k - 1] == Answer(incoming, limit, k - 1) && g[k - 1] == Got(incoming(k - 1));
    }
  }

  ghost predicate IsDirect(s: Session, incoming: nat -> Incoming) {
    Receipts(s.replies) == Gots(incoming, s.taken)
  }

  lemma ReceivedIsDirect(s: Session, incoming: nat -> Incoming)
    requires IsDirect(s, incoming)
    ensures IsDirect(Received(None, incoming, s), incoming)
  {
    SnocLists(s.replies, Got(incoming(s.taken)));
  }

  lemma SentIsDirect(s: Session, message: Message, incoming: nat -> Incoming)
    requires IsDirect(s, incoming)
    ensures IsDirect(SentOn(s, message), incoming)
  {
    SnocLists(s.replies, Sent);
  }

  lemma {:induction false} DirectReceipts(app: App, incoming: nat -> Incoming, n: nat)
    ensures IsDirect(Run(app, incoming, None, n).0, incoming)
  {
    if n > 0 {
      DirectReceipts(app, incoming, n - 1);
      var (s, end) := Run(app, incoming, None, n - 1);
      if end.None? {
        match app(s.replies)
        case Receive => ReceivedIsDirect(s, incoming);
        case Send(message) => SentIsDirect(s, message, incoming);
        case Finish(_) =>
      }
    }
  }

  lemma ReceivedAlike(s: Session, bare: Session, incoming: nat -> Incoming, limit: int)
    requires Alike(s, bare) && s.total == BytesIn(incoming, s.taken)
    requires Answer(incoming, limit, s.taken) == Got(incoming(s.taken))
    ensures Alike(Received(Some(limit), incoming, s), Received(None, incoming, bare))
  {
    ReceivedShape(s, incoming, limit);
  }

  lemma {:induction false} FittingIsTransparent(app: App, incoming: nat -> Incoming, limit: int, n: nat)
    requires AllFit(incoming, limit, Run(app, incoming, None, n).0.taken)
    ensures Alike(Run(app, incoming, Some(limit), n).0, Run(app, incoming, None, n).0)
    ensures Run(app, incoming, Some(limit), n).1 == Run(app, incoming, None, n).1
  {
    if n > 0 {
      FittingIsTransparent(app, incoming, limit, n - 1);
      var (s, end) := Run(app, incoming, Some(limit), n - 1);
      var bare := Run(app, incoming, None, n - 1).0;
      RunTallies(app, incoming, limit, n - 1);
      if end.None? && app(s.replies).Receive? {
        assert Run(app, incoming, None, n).0.taken == bare.taken + 1;
        ReceivedAlike(s, bare, incoming, limit);
      }
    }
  }

  /** The application is answered as without the middleware exactly when every message that it
      would take from the server fits; it then does the same, too. */
  lemma RunTransparentIff(app: App, incoming: nat -> Incoming, limit: int, n: nat)
    ensures var (s, end), (bare, bareEnd) := Run(app, incoming, Some(limit), n), Run(app, incoming, None, n);
            && (s.taken == bare.taken && s.replies == bare.replies <==> AllFit(incoming, limit, bare.taken))
            && (AllFit(incoming, limit, bare.taken) ==> Alike(s, bare) && end == bareEnd)
  {
    var s, bare := Run(app, incoming, Some(limit), n).0, Run(app, incoming, None, n).0;
    RunTallies(app, incoming, limit, n);
    DirectReceipts(app, incoming, n);
    AnswersAreGotsIff(incoming, limit, bare.taken);
    if AllFit(incoming, limit, bare.taken) {
      FittingIsTransparent(app, incoming, limit, n);
    }
  }

  // ---------------------------------------------------------------- response starts

  function Starts(wire: seq<Message>): nat {
    if wire == [] then 0 else Starts(wire[..|wire| - 1]) + if wire[|wire| - 1].Start? then 1 else 0
  }

  lemma StartsSnoc(wire: seq<Message>, m: Message)
    ensures Starts(wire + [m]) == Starts(wire) + if m.Start? then 1 else 0
  {
    assert (wire + [m])[..|wire|] == wire;
  }

  lemma StartsRefused(wire: seq<Message>)
    ensures Starts(wire + REFUSAL) == Starts(wire) + 1
  {
    StartsSnoc(wire, Start(413));
    StartsSnoc(wire + [Start(413)], Body(false));
    assert wire + REFUSAL == wire + [Start(413)] + [Body(false)];
  }

  lemma {:induction false} StartedMeansStarted(app: App, incoming: nat -> Incoming, limit: int, n: nat)
    ensures var s := Run(app, incoming, Some(limit), n).0; s.started <==> Starts(s.wire) > 0
  {
    if n > 0 {
      StartedMeansStarted(app, incoming, limit, n - 1);
      var (s, end) := Run(app, incoming, Some(limit), n - 1);
      if end.None? && app(s.replies).Send? {
        StartsSnoc(s.wire, app(s.replies).message);
      }
    }
  }

  /** The middleware adds a response start only where the application sent none; so there is
      at most one on the wire exactly when the application sends at most one. */
  lemma OneResponseStartIff(app: App, incoming: nat -> Incoming, header: Option<int>, limit: int, n: nat)
    ensures var wire, (s, end) := Wire(app, incoming, header, limit, n), Run(app, incoming, Some(limit), n);
            if header.Some? && header.value > limit then wire == REFUSAL && Starts(wire) == 1
            else
              && s.wire <= wire
              && (Starts(wire) <= 1 <==> Starts(s.wire) <= 1)
              && (Starts(wire) != Starts(s.wire) <==> end == Some(RaisedTooLarge) && Starts(s.wire) == 0)
  {
    var s := Run(app, incoming, Some(limit), n).0;
    StartedMeansStarted(app, incoming, limit, n);
    StartsRefused(s.wire);
    StartsRefused([]);
    assert [] + REFUSAL == REFUSAL;
  }

  // ---------------------------------------------------------------- what the application says

  /** The messages that the application chooses to send, each at the replies it has then. */
  function Said(app: App, replies: seq<Reply>): seq<Message> {
    if replies == [] then []
    else
      var before := replies[..|replies| - 1];
      Said(app, before) + match app(before) { case Send(message) => [message] case _ => [] }
  }

  lemma SaidSnoc(app: App, replies: seq<Reply>, r: Reply)
    ensures Said(app, replies + [r]) == Said(app, replies) + match app(replies) { case Send(message) => [message] case _ => [] }
  {
    assert (replies + [r])[..|replies|] == replies;
  }

  ghost predicate SaysWire(app: App, s: Session) {
    s.wire == Said(app, s.replies)
  }

  lemma ReceivedSays(app: App, s: Session, incoming: nat -> Incoming, limit: Option<int>)
    requires SaysWire(app, s) && app(s.replies) == Receive
    ensures SaysWire(app, Received(limit, incoming, s))
  {
    var s' := Received(limit, incoming, s);
    assert s'.replies == s.replies + [s'.replies[|s.replies|]];
    SaidSnoc(app, s.replies, s'.replies[|s.replies|]);
  }

  lemma SentSays(app: App, s: Session, message: Message)
    requires SaysWire(app, s) && app(s.replies) == Send(message)
    ensures SaysWire(app, SentOn(s, message))
  {
    SaidSnoc(app, s.replies, Sent);
  }

  /** With a limit or without, the session's wire carries exactly these messages, in order. */
  lemma {:induction false} WireIsSaid(app: App, incoming: nat -> Incoming, limit: Option<int>, n: nat)
    ensures SaysWire(app, Run(app, incoming, limit, n).0)
  {
    if n > 0 {
      WireIsSaid(app, incoming, limit, n - 1);
      var (s, end) := Run(app, incoming, limit, n - 1);
      if end.None? {
        match app(s.replies)
        case Receive => ReceivedSays(app, s, incoming, limit);
        case Send(message) => SentSays(app, s, message);
        case Finish(_) =>
      }
    }
  }

  /** What goes out is what the application says; the refusal follows it exactly when the
      exception comes out before any response start, and stands alone when the
      Content-Length header is over the limit. */
  lemma WireIsSaidOrRefused(app: App, incoming: nat -> Incoming, header: Option<int>, limit: int, n: nat)
    ensures var wire, (s, end) := Wire(app, incoming, header, limit, n), Run(app, incoming, Some(limit), n);
            var said, refusal := Said(app, s.replies), [Start(413), Body(false)];
            wire == if header.Some? && header.value > limit then refusal
                    else if end == Some(RaisedTooLarge) && Starts(said) == 0 then said + refusal
                    else said
  {
    WireIsSaid(app, incoming, Some(limit), n);
    StartedMeansStarted(app, incoming, limit, n);
  }

  /** Each reply answers the application's own choice, and the run goes on until the
      application finishes, in the way it chooses. */
  lemma {:induction false} RunFollowsApp(app: App, incoming: nat -> Incoming, limit: Option<int>, n: nat)
    ensures var (s, end) := Run(app, incoming, limit, n);
            && (forall k :: 0 <= k < |s.replies| ==> if s.replies[k] == Sent then app(s.replies[..k]).Send? else app(s.replies[..k]).Receive?)
            && (if end.Some? then app(s.replies) == Finish(end.value) && |s.replies| < n else |s.replies| == n)
  {
    if n > 0 {
      RunFollowsApp(app, incoming, limit, n - 1);
      var (s, end) := Run(app, incoming, limit, n - 1);
      var s' := Run(app, incoming, limit, n).0;
      if s'.replies != s.replies {
        assert s'.replies[..|s.replies|] == s.replies;
        forall k | 0 <= k < |s.replies| ensures s'.replies[..k] == s.replies[..k] && s'.replies[k] == s.replies[k] {
        }
      }
    }
  }

  // ---------------------------------------------------------------- the whole exchange

  lemma {:induction false} WireIsAnswered(app: App, incoming: nat -> Incoming, n: nat)
    ensures |Run(app, incoming, None, n).0.wire| <= |Run(app, incoming, None, n).0.replies|
  {
    if n > 0 {
      WireIsAnswered(app, incoming, n - 1);
    }
  }

  /** The application and the client see the same as without the middleware exactly when the
      Content-Length header, if there is one, is within the limit, all that the application
      would take fits, and it does not raise the middleware's exception of its own accord
      before it has begun to answer.  For the server the exchange ends in the same way, too,
      exactly when it does not raise that exception at all. */
  lemma TransparentIff(app: App, incoming: nat -> Incoming, header: Option<int>, limit: int, n: nat)
    ensures var (s, end), (bare, bareEnd) := Guarded(app, incoming, header, limit, n), Run(app, incoming, None, n);
            var fits := (header.Some? ==> header.value <= limit) && AllFit(incoming, limit, bare.taken);
            && (Alike(s, bare) <==> fits && !(bareEnd == Some(RaisedTooLarge) && Starts(bare.wire) == 0))
            && (Alike(s, bare) && end == bareEnd <==> fits && bareEnd != Some(RaisedTooLarge))
  {
    RunTransparentIff(app, incoming, limit, n);
    StartedMeansStarted(app, incoming, limit, n);
    WireIsAnswered(app, incoming, n);
    var s := Run(app, incoming, Some(limit), n).0;
    assert |s.wire + REFUSAL| == |s.wire| + 2;
  }

  // ---------------------------------------------------------------- applications that do not catch

  /** An application that lets the exception pass as soon as it gets it, and raises none itself. */
  ghost predicate Propagates(app: App) {
    forall replies :: app(replies) == Finish(RaisedTooLarge) <==> WasRefused(replies)
  }

  predicate WasRefused(replies: seq<Reply>) {
    replies != [] && replies[|replies| - 1] == TooLarge
  }

  predicate OnlyLastRefused(replies: seq<Reply>) {
    forall i :: 0 <= i < |replies| - 1 ==> replies[i] != TooLarge
  }

  lemma {:induction false} PropagatorStops(app: App, incoming: nat -> Incoming, limit: int, n: nat)
    requires Propagates(app)
    ensures var (s, end) := Run(app, incoming, Some(limit), n);
            && OnlyLastRefused(s.replies)
            && (end.Some? ==> (end.value == RaisedTooLarge <==> WasRefused(s.replies)))
  {
    if n > 0 {
      PropagatorStops(app, incoming, limit, n - 1);
      var (s, end) := Run(app, incoming, Some(limit), n - 1);
      if end.None? && app(s.replies) != Finish(RaisedTooLarge) {
        assert !WasRefused(s.replies);
        forall r ensures OnlyLastRefused(s.replies + [r]) {
        }
      }
    }
  }

  /** For such an application that has run to its end: exactly one refusal is appended if its
      body outgrew the limit before it began to answer, and otherwise nothing is. */
  lemma RefusedIffOver(app: App, incoming: nat -> Incoming, header: Option<int>, limit: int, n: nat)
    requires Propagates(app)
    requires header.Some? ==> header.value <= limit
    requires Run(app, incoming, Some(limit), n).1.Some?
    ensures var s, wire := Run(app, incoming, Some(limit), n).0, Wire(app, incoming, header, limit, n);
            && (!AllFit(incoming, limit, s.taken) && Starts(s.wire) == 0 <==> wire == s.wire + REFUSAL)
            && (AllFit(incoming, limit, s.taken) || Starts(s.wire) > 0 <==> wire == s.wire)
            && (wire == s.wire + REFUSAL ==> Starts(wire) == 1)
  {
    var (s, end) := Run(app, incoming, Some(limit), n);
    PropagatorStops(app, incoming, limit, n);
    StartedMeansStarted(app, incoming, limit, n);
    StartsRefused(s.wire);
    AllFitIffNoRefusal(app, incoming, limit, n);
    assert |s.wire + REFUSAL| == |s.wire| + 2;
    assert forall i :: 0 <= i < |s.replies| - 1 ==> s.replies[i] != TooLarge;
    assert TooLarge in s.replies <==> WasRefused(s.replies);
  }

  lemma AllFitIffNoRefusal(app: App, incoming: nat -> Incoming, limit: int, n: nat)
    ensures var s := Run(app, incoming, Some(limit), n).0;
            AllFit(incoming, limit, s.taken) <==> TooLarge !in s.replies
  {
    var s := Run(app, incoming, Some(limit), n).0;
    RunTallies(app, incoming, limit, n);
    AnswersAt(incoming, limit, s.taken);
    RefusalShows(s.replies);
    assert forall i :: 0 <= i < s.taken ==> Answers(incoming, limit, s.taken)[i] == Answer(incoming, limit, i);
  }

  lemma {:induction false} RefusalShows(replies: seq<Reply>)
    ensures TooLarge in Receipts(replies) <==> TooLarge in replies
  {
    if replies != [] {
      RefusalShows(replies[..|replies| - 1]);
      assert replies == replies[..|replies| - 1] + [replies[|replies| - 1]];
    }
  }
}
