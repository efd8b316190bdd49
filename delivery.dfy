/**
  `send_telegram_messages`: the messages go out one at a time, each to the Bot API's
  sendMessage. A request that fails in transport (no connection, a timeout, an HTTP error
  status) is retried after an exponential back-off, three attempts in all. Any other failure,
  including a reply whose `ok` is false, ends the delivery at once. After each delivered
  message but the last, the sender pauses for a second.

  The replies the API would give are a parameter: `replies(k)` is the reply to the `k`-th
  request of the run, so a run threads a request cursor through its deliveries.
*/
module Delivery {
  import opened Wrappers
  import Seqs

  const MaxRetries: nat := 3
  const BaseDelay: nat := 1
  const MaxDelay: nat := 10

  /** What one sendMessage request comes to. */
  datatype Reply =
    | Delivered         // HTTP success and `ok: true`
    | TransportFailure  // a `requests` exception: connection, timeout, HTTP error status
    | Rejected          // `ok` missing or false
    | Unexpected        // any other exception

  /** What the sender does, in order: requests and the two kinds of sleep. */
  datatype Event = Request(index: nat, text: string, reply: Reply) | Backoff(seconds: nat) | Pace

  datatype DeliveryError =
    | RetriesExhausted(index: nat)             // "Failed to send message after 3 retries"
    | Aborted(index: nat, reply: Reply)        // "Unexpected error sending Telegram message"

  /** The outcome of sending: the error that stopped it, if any, what happened, and the next cursor. */
  datatype Delivery = Delivery(error: Option<DeliveryError>, trace: seq<Event>, cursor: nat)

  function Pow2(k: nat): (p: nat)
    ensures p >= 1
  {
    if k == 0 then 1 else 2 * Pow2(k - 1)
  }

  /** `min(BASE_DELAY * (2 ** retry_count), MAX_DELAY)`. */
  function BackoffDelay(retries: nat): nat {
    var d := BaseDelay * Pow2(retries);
    if d < MaxDelay then d else MaxDelay
  }

  /** `trace` in front of what `d` did. */
  function Extend(trace: seq<Event>, d: Delivery): Delivery {
    Delivery(d.error, trace + d.trace, d.cursor)
  }

  /** The retry loop for message `i` after `retries` failed attempts. */
  function Attempts(messages: seq<string>, replies: nat -> Reply, i: nat, cursor: nat, retries: nat): Delivery
    requires i < |messages| && retries < MaxRetries
    decreases MaxRetries - retries
  {
    var reply := replies(cursor);
    var request := [Request(i, messages[i], reply)];
    match reply
    case Delivered =>
      Delivery(None, request + (if i < |messages| - 1 then [Pace] else []), cursor + 1)
    case TransportFailure =>
      if retries + 1 >= MaxRetries then Delivery(Some(RetriesExhausted(i)), request, cursor + 1)
      else Extend(request + [Backoff(BackoffDelay(retries + 1))], Attempts(messages, replies, i, cursor + 1, retries + 1))
    case _ =>
      Delivery(Some(Aborted(i, reply)), request, cursor + 1)
  }

  /** Sending messages `i` onwards, starting at request `cursor`: stop at the first message that fails. */
  function DeliverFrom(messages: seq<string>, replies: nat -> Reply, i: nat, cursor: nat): Delivery
    decreases |messages| - i
  {
    if i >= |messages| then Delivery(None, [], cursor)
    else
      var a := Attempts(messages, replies, i, cursor, 0);
      if a.error.Some? then a else Extend(a.trace, DeliverFrom(messages, replies, i + 1, a.cursor))
  }

  function Deliver(messages: seq<string>, replies: nat -> Reply, cursor: nat): Delivery {
    DeliverFrom(messages, replies, 0, cursor)
  }

  lemma ExtendExtend(t: seq<Event>, u: seq<Event>, d: Delivery)
    ensures Extend(t, Extend(u, d)) == Extend(t + u, d)
  {
    assert t + (u + d.trace) == (t + u) + d.trace;
  }

  /** The retry loop of `send_telegram_messages` for message `i`, from request `cursor`. */
  method SendWithRetry(messages: seq<string>, i: nat, replies: nat -> Reply, cursor: nat) returns (a: Delivery)
    requires i < |messages|
    ensures a == Attempts(messages, replies, i, cursor, 0)
  {
    ghost var spec := Attempts(messages, replies, i, cursor, 0);
    var trace: seq<Event> := [];
    var next := cursor;
    assert spec.trace == [] + spec.trace;
    var retryCount := 0;
    while retryCount < MaxRetries
      invariant retryCount < MaxRetries
      invariant spec == Extend(trace, Attempts(messages, replies, i, next, retryCount))
    {
      var reply := replies(next);
      var request := [Request(i, messages[i], reply)];
      if reply.Delivered? {
        var pace := if i < |messages| - 1 then [Pace] else [];
        DeliveredStep(spec, trace, messages, replies, i, next, retryCount, request, pace);
        return Extend(trace, Delivery(None, request + pace, next + 1));
      } else if reply.TransportFailure? {
        FailedStep(spec, trace, messages, replies, i, next, retryCount, request);
        next := next + 1;
        retryCount := retryCount + 1;
        if retryCount >= MaxRetries {
          return Extend(trace, Delivery(Some(RetriesExhausted(i)), request, next));
        }
        var backoff := [Backoff(BackoffDelay(retryCount))];
        trace := trace + (request + backoff);
      } else {
        AbortedStep(spec, trace, messages, replies, i, next, retryCount, request);
        return Extend(trace, Delivery(Some(Aborted(i, reply)), request, next + 1));
      }
    }
    assert false;
  }

  /** The first attempt of `Attempts`, by the reply it gets. */
  lemma AttemptsCases(messages: seq<string>, replies: nat -> Reply, i: nat, cursor: nat, retries: nat)
    requires i < |messages| && retries < MaxRetries
    ensures var reply := replies(cursor);
      var request := [Request(i, messages[i], reply)];
      var a := Attempts(messages, replies, i, cursor, retries);
      && (reply.Delivered? ==> a == Delivery(None, request + (if i < |messages| - 1 then [Pace] else []), cursor + 1))
      && (reply.TransportFailure? && retries + 1 >= MaxRetries ==> a == Delivery(Some(RetriesExhausted(i)), request, cursor + 1))
      && (reply.TransportFailure? && retries + 1 < MaxRetries ==>
            a == Extend(request + [Backoff(BackoffDelay(retries + 1))], Attempts(messages, replies, i, cursor + 1, retries + 1)))
      && (!reply.Delivered? && !reply.TransportFailure? ==> a == Delivery(Some(Aborted(i, reply)), request, cursor + 1))
  { }

  /** A turn of the retry loop whose request is delivered ends it, pausing unless the message is the last. */
  lemma DeliveredStep(spec: Delivery, trace: seq<Event>, messages: seq<string>, replies: nat -> Reply, i: nat, cursor: nat, retries: nat,
                      request: seq<Event>, pace: seq<Event>)
    requires i < |messages| && retries < MaxRetries && spec == Extend(trace, Attempts(messages, replies, i, cursor, retries))
    requires replies(cursor).Delivered? && request == [Request(i, messages[i], replies(cursor))]
    requires pace == if i < |messages| - 1 then [Pace] else []
    ensures spec == Extend(trace, Delivery(None, request + pace, cursor + 1))
  {
    AttemptsCases(messages, replies, i, cursor, retries);
  }

  /** A turn of the retry loop whose request fails in transport: the last one allowed ends it, any other backs off. */
  lemma FailedStep(spec: Delivery, trace: seq<Event>, messages: seq<string>, replies: nat -> Reply, i: nat, cursor: nat, retries: nat,
                   request: seq<Event>)
    requires i < |messages| && retries < MaxRetries && spec == Extend(trace, Attempts(messages, replies, i, cursor, retries))
    requires replies(cursor).TransportFailure? && request == [Request(i, messages[i], replies(cursor))]
    ensures retries + 1 >= MaxRetries ==> spec == Extend(trace, Delivery(Some(RetriesExhausted(i)), request, cursor + 1))
    ensures retries + 1 < MaxRetries ==>
      spec == Extend(trace + (request + [Backoff(BackoffDelay(retries + 1))]), Attempts(messages, replies, i, cursor + 1, retries + 1))
  {
    AttemptsCases(messages, replies, i, cursor, retries);
    if retries + 1 < MaxRetries {
      ExtendExtend(trace, request + [Backoff(BackoffDelay(retries + 1))], Attempts(messages, replies, i, cursor + 1, retries + 1));
    }
  }

  /** A turn of the retry loop whose request is refused, or fails other than in transport, ends it with that reply. */
  lemma AbortedStep(spec: Delivery, trace: seq<Event>, messages: seq<string>, replies: nat -> Reply, i: nat, cursor: nat, retries: nat,
                    request: seq<Event>)
    requires i < |messages| && retries < MaxRetries && spec == Extend(trace, Attempts(messages, replies, i, cursor, retries))
    requires !replies(cursor).Delivered? && !replies(cursor).TransportFailure? && request == [Request(i, messages[i], replies(cursor))]
    ensures spec == Extend(trace, Delivery(Some(Aborted(i, replies(cursor))), request, cursor + 1))
  {
    AttemptsCases(messages, replies, i, cursor, retries);
  }

  /** `send_telegram_messages`. */
  method SendMessages(messages: seq<string>, replies: nat -> Reply, cursor: nat) returns (d: Delivery)
    ensures d == Deliver(messages, replies, cursor)
  {
    ghost var spec := Deliver(messages, replies, cursor);
    var trace: seq<Event> := [];
    var next := cursor;
    var i := 0;
    while i < |messages|
      invariant i <= |messages|
      invariant spec == Extend(trace, DeliverFrom(messages, replies, i, next))
    {
      var a := SendWithRetry(messages, i, replies, next);
      if a.error.Some? {
        return Extend(trace, a);
      }
      ExtendExtend(trace, a.trace, DeliverFrom(messages, replies, i + 1, a.cursor));
      trace := trace + a.trace;
      next := a.cursor;
      i := i + 1;
    }
    assert trace + [] == trace;
    d := Delivery(None, trace, next);
  }

  // What a delivery trace contains.

  /** The number of requests. */
  function Requests(trace: seq<Event>): nat {
    if trace == [] then 0 else (if trace[0].Request? then 1 else 0) + Requests(trace[1..])
  }

  /** The number of requests for message `j`. */
  function RequestsFor(trace: seq<Event>, j: nat): nat {
    if trace == [] then 0
    else (if trace[0].Request? && trace[0].index == j then 1 else 0) + RequestsFor(trace[1..], j)
  }

  /** The texts of the requests that were delivered, in order. */
  function Sent(trace: seq<Event>): seq<string> {
    if trace == [] then []
    else (if trace[0].Request? && trace[0].reply.Delivered? then [trace[0].text] else []) + Sent(trace[1..])
  }

  /** The replies the requests got, in order. */
  function Replies(trace: seq<Event>): seq<Reply> {
    if trace == [] then [] else (if trace[0].Request? then [trace[0].reply] else []) + Replies(trace[1..])
  }

  /** The `k`-th of `rs` is `replies(cursor + k)`: `rs` is the script read from `cursor` on. */
  ghost predicate ReadFrom(rs: seq<Reply>, replies: nat -> Reply, cursor: nat) {
    forall k :: 0 <= k < |rs| ==> rs[k] == replies(cursor + k)
  }

  /** The `k`-th request of the trace got `replies(cursor + k)`. */
  ghost predicate Scripted(trace: seq<Event>, replies: nat -> Reply, cursor: nat) {
    ReadFrom(Replies(trace), replies, cursor)
  }

  /** The number of one-second pauses. */
  function Paces(trace: seq<Event>): nat {
    if trace == [] then 0 else (if trace[0].Pace? then 1 else 0) + Paces(trace[1..])
  }

  predicate RequestWithin(e: Event, messages: seq<string>, lo: nat, hi: nat) {
    e.Request? ==> lo <= e.index < hi && e.index < |messages| && e.text == messages[e.index]
  }

  /** Every request in the trace sends message `index` of `messages`, with `lo <= index < hi`. */
  predicate RequestsWithin(trace: seq<Event>, messages: seq<string>, lo: nat, hi: nat) {
    forall k :: 0 <= k < |trace| ==> RequestWithin(trace[k], messages, lo, hi)
  }

  predicate BackoffScheduled(e: Event) {
    e.Backoff? ==> e.seconds == BackoffDelay(1) || e.seconds == BackoffDelay(2)
  }

  /** Every back-off of the trace waits `BackoffDelay(r)` for a retry count `0 < r < MaxRetries`. */
  predicate BackoffsScheduled(trace: seq<Event>) {
    forall k :: 0 <= k < |trace| ==> BackoffScheduled(trace[k])
  }

  lemma {:induction false} CountsAppend(a: seq<Event>, b: seq<Event>, j: nat)
    ensures Requests(a + b) == Requests(a) + Requests(b)
    ensures RequestsFor(a + b, j) == RequestsFor(a, j) + RequestsFor(b, j)
    ensures Sent(a + b) == Sent(a) + Sent(b)
    ensures Paces(a + b) == Paces(a) + Paces(b)
  {
    if a != [] {
      assert (a + b)[1..] == a[1..] + b;
      CountsAppend(a[1..], b, j);
    } else {
      assert a + b == b;
    }
  }

  lemma {:induction false} RepliesAppend(a: seq<Event>, b: seq<Event>)
    ensures Replies(a + b) == Replies(a) + Replies(b)
  {
    if a != [] {
      assert (a + b)[1..] == a[1..] + b;
      RepliesAppend(a[1..], b);
    } else {
      assert a + b == b;
    }
  }

  /** One reply per request. */
  lemma {:induction false} RepliesCount(trace: seq<Event>)
    ensures |Replies(trace)| == Requests(trace)
  {
    if trace != [] {
      RepliesCount(trace[1..]);
    }
  }

  /** A scripted trace followed by one scripted from where it left off is scripted. */
  lemma ScriptedAppend(a: seq<Event>, b: seq<Event>, replies: nat -> Reply, cursor: nat)
    requires Scripted(a, replies, cursor) && Scripted(b, replies, cursor + |Replies(a)|)
    ensures Scripted(a + b, replies, cursor)
  {
    RepliesAppend(a, b);
    ReadFromAppend(Replies(a), Replies(b), replies, cursor);
  }

  lemma ReadFromAppend(ra: seq<Reply>, rb: seq<Reply>, replies: nat -> Reply, cursor: nat)
    requires ReadFrom(ra, replies, cursor) && ReadFrom(rb, replies, cursor + |ra|)
    ensures ReadFrom(ra + rb, replies, cursor)
  {
    forall k | 0 <= k < |ra + rb|
      ensures (ra + rb)[k] == replies(cursor + k)
    {
      if k >= |ra| {
        assert (ra + rb)[k] == rb[k - |ra|];
        assert cursor + |ra| + (k - |ra|) == cursor + k;
      }
    }
  }

  lemma PredicatesAppend(a: seq<Event>, b: seq<Event>, messages: seq<string>, lo: nat, hi: nat)
    ensures RequestsWithin(a + b, messages, lo, hi) <==>
      RequestsWithin(a, messages, lo, hi) && RequestsWithin(b, messages, lo, hi)
    ensures BackoffsScheduled(a + b) <==> BackoffsScheduled(a) && BackoffsScheduled(b)
  {
    assert forall k :: 0 <= k < |a| ==> (a + b)[k] == a[k];
    assert forall k :: |a| <= k < |a + b| ==> (a + b)[k] == b[k - |a|];
    assert forall k :: 0 <= k < |b| ==> (a + b)[|a| + k] == b[k];
  }

  lemma RequestsWithinWiden(trace: seq<Event>, messages: seq<string>, lo: nat, hi: nat, lo': nat, hi': nat)
    requires RequestsWithin(trace, messages, lo, hi) && lo' <= lo && hi <= hi'
    ensures RequestsWithin(trace, messages, lo', hi')
  {
    assert forall k :: 0 <= k < |trace| ==> RequestWithin(trace[k], messages, lo, hi);
  }

  /** No request for message `j` in a trace whose requests lie outside `j`. */
  lemma {:induction false} NoRequestsFor(trace: seq<Event>, messages: seq<string>, lo: nat, hi: nat, j: nat)
    requires RequestsWithin(trace, messages, lo, hi) && (j < lo || hi <= j)
    ensures RequestsFor(trace, j) == 0
  {
    if trace != [] {
      assert RequestWithin(trace[0], messages, lo, hi);
      assert RequestsWithin(trace[1..], messages, lo, hi) by {
        assert forall k :: 0 <= k < |trace| - 1 ==> trace[1..][k] == trace[k + 1];
      }
      NoRequestsFor(trace[1..], messages, lo, hi, j);
    }
  }

  /** The error a delivery stopped at names message `index`, and why. */
  predicate StoppedAt(e: DeliveryError, index: nat) {
    e.index == index && (e.Aborted? ==> e.reply == Rejected || e.reply == Unexpected)
  }

  /** The counts of a one-event trace. */
  lemma Single(e: Event, j: nat)
    ensures Requests([e]) == (if e.Request? then 1 else 0)
    ensures RequestsFor([e], j) == (if e.Request? && e.index == j then 1 else 0)
    ensures Sent([e]) == (if e.Request? && e.reply.Delivered? then [e.text] else [])
    ensures Paces([e]) == (if e.Pace? then 1 else 0)
  {
    assert [e][1..] == [];
  }

  /** The counts of a two-event trace. */
  lemma Pair(e: Event, f: Event, j: nat)
    ensures Requests([e, f]) == Requests([e]) + Requests([f])
    ensures RequestsFor([e, f], j) == RequestsFor([e], j) + RequestsFor([f], j)
    ensures Sent([e, f]) == Sent([e]) + Sent([f])
    ensures Paces([e, f]) == Paces([e]) + Paces([f])
  {
    CountsAppend([e], [f], j);
    assert [e] + [f] == [e, f];
  }

  /** A failed transport attempt that leaves retries: the request, a back-off, then the next attempt. */
  lemma RetryStep(messages: seq<string>, replies: nat -> Reply, i: nat, cursor: nat, retries: nat)
    requires i < |messages| && retries + 1 < MaxRetries && replies(cursor).TransportFailure?
    ensures Attempts(messages, replies, i, cursor, retries) ==
      Extend([Request(i, messages[i], TransportFailure), Backoff(BackoffDelay(retries + 1))],
             Attempts(messages, replies, i, cursor + 1, retries + 1))
  {
    var request := [Request(i, messages[i], TransportFailure)];
    assert request + [Backoff(BackoffDelay(retries + 1))] ==
      [Request(i, messages[i], TransportFailure), Backoff(BackoffDelay(retries + 1))];
  }

  /** The attempts advanced the cursor by their requests, and left at most `MaxRetries - retries` for message `i`. */
  ghost predicate Counted(a: Delivery, i: nat, cursor: nat, retries: nat) {
    a.cursor == cursor + Requests(a.trace) && RequestsFor(a.trace, i) <= MaxRetries - retries
  }

  /** The attempts sent only message `i` and waited only the scheduled back-offs. */
  ghost predicate Confined(a: Delivery, messages: seq<string>, i: nat) {
    RequestsWithin(a.trace, messages, i, i + 1) && BackoffsScheduled(a.trace)
  }

  /**
    On success message `i` was delivered once, followed by a pause unless it is the last; on
    failure nothing was delivered and the error names message `i` and a cause that is not a
    transport failure, or the exhausted retries.
  */
  ghost predicate Outcome(a: Delivery, messages: seq<string>, i: nat)
    requires i < |messages|
  {
    && (a.error.None? ==> Sent(a.trace) == [messages[i]] && Paces(a.trace) == (if i < |messages| - 1 then 1 else 0))
    && (a.error.Some? ==> Sent(a.trace) == [] && StoppedAt(a.error.value, i))
  }

  lemma CountedRetry(prefix: seq<Event>, rest: Delivery, i: nat, text: string, s: nat, cursor: nat, retries: nat)
    requires prefix == [Request(i, text, TransportFailure), Backoff(s)] && retries + 1 < MaxRetries
    requires Counted(rest, i, cursor + 1, retries + 1)
    ensures Counted(Extend(prefix, rest), i, cursor, retries)
  {
    Pair(prefix[0], prefix[1], i);
    Single(prefix[0], i);
    Single(prefix[1], i);
    CountsAppend(prefix, rest.trace, i);
  }

  lemma ConfinedRetry(prefix: seq<Event>, rest: Delivery, messages: seq<string>, i: nat, retries: nat)
    requires i < |messages| && retries + 1 < MaxRetries
    requires prefix == [Request(i, messages[i], TransportFailure), Backoff(BackoffDelay(retries + 1))]
    requires Confined(rest, messages, i)
    ensures Confined(Extend(prefix, rest), messages, i)
  {
    assert RequestWithin(prefix[0], messages, i, i + 1);
    assert BackoffScheduled(prefix[1]);
    PredicatesAppend(prefix, rest.trace, messages, i, i + 1);
  }

  lemma OutcomeRetry(prefix: seq<Event>, rest: Delivery, messages: seq<string>, i: nat, s: nat)
    requires i < |messages| && prefix == [Request(i, messages[i], TransportFailure), Backoff(s)]
    requires Outcome(rest, messages, i)
    ensures Outcome(Extend(prefix, rest), messages, i)
  {
    Pair(prefix[0], prefix[1], i);
    Single(prefix[0], i);
    Single(prefix[1], i);
    CountsAppend(prefix, rest.trace, i);
    assert [] + Sent(rest.trace) == Sent(rest.trace);
  }

  /** The last attempt: delivered, rejected, failed unexpectedly, or the third transport failure. */
  lemma FinalAttempt(messages: seq<string>, replies: nat -> Reply, i: nat, cursor: nat, retries: nat)
    requires i < |messages| && retries < MaxRetries
    requires !(replies(cursor).TransportFailure? && retries + 1 < MaxRetries)
    ensures var a := Attempts(messages, replies, i, cursor, retries);
      Counted(a, i, cursor, retries) && Confined(a, messages, i) && Outcome(a, messages, i)
  {
    var reply := replies(cursor);
    var e := Request(i, messages[i], reply);
    Single(e, i);
    assert RequestWithin(e, messages, i, i + 1);
    if reply.Delivered? && i < |messages| - 1 {
      Pair(e, Pace, i);
      Single(Pace, i);
      assert [e] + [Pace] == [e, Pace];
      PredicatesAppend([e], [Pace], messages, i, i + 1);
    } else if reply.Delivered? {
      assert [e] + [] == [e];
    }
  }

  // The shape of a delivery trace.

  /** How the attempts at one message went: some transport failures, then the reply that ended them. */
  datatype Try = Try(failures: nat, final: Reply)

  /**
    `n` failed attempts at message `i` after `from` earlier ones: each request failed in
    transport and is followed by its back-off, the `k`-th of `BackoffDelay(from + k)`.
  */
  function Failures(i: nat, text: string, from: nat, n: nat): seq<Event>
    decreases n
  {
    if n == 0 then []
    else [Request(i, text, TransportFailure), Backoff(BackoffDelay(from + 1))] + Failures(i, text, from + 1, n - 1)
  }

  /**
    The events of the attempts at message `i`: the failed attempts, the request that got the
    final reply, and a pause after it when it delivered a message that is not the last.
  */
  function Segment(messages: seq<string>, i: nat, from: nat, t: Try): seq<Event>
    requires i < |messages|
  {
    Failures(i, messages[i], from, t.failures) + [Request(i, messages[i], t.final)]
    + (if t.final.Delivered? && i < |messages| - 1 then [Pace] else [])
  }

  /** The error the final reply to message `i` raises: none when delivered, otherwise why it stopped. */
  function ErrorOf(i: nat, final: Reply): Option<DeliveryError> {
    if final.Delivered? then None
    else if final.TransportFailure? then Some(RetriesExhausted(i))
    else Some(Aborted(i, final))
  }

  /**
    A try open to a message with `retries` failed attempts behind it: fewer attempts than
    `MaxRetries` in all, and a transport failure ends it only when it is the last attempt left.
  */
  predicate Allowed(t: Try, retries: nat) {
    t.failures + retries < MaxRetries && (t.final.TransportFailure? ==> t.failures + retries + 1 == MaxRetries)
  }

  /**
    The attempts `a` at message `i` from request `cursor` made try `t`: the replies to its first
    requests were transport failures and the next one is its final reply; `a` raised the error of
    that reply, recorded exactly the segment of `t`, and advanced the cursor by its requests.
  */
  ghost predicate Made(a: Delivery, messages: seq<string>, replies: nat -> Reply, i: nat, cursor: nat, retries: nat, t: Try)
    requires i < |messages|
  {
    && Allowed(t, retries)
    && (forall k :: cursor <= k < cursor + t.failures ==> replies(k).TransportFailure?)
    && replies(cursor + t.failures) == t.final
    && a == Delivery(ErrorOf(i, t.final), Segment(messages, i, retries, t), cursor + t.failures + 1)
  }

  /** The attempts at a message make a try, as `Made` describes it. */
  lemma {:induction false} AttemptsMade(messages: seq<string>, replies: nat -> Reply, i: nat, cursor: nat, retries: nat)
    requires i < |messages| && retries < MaxRetries
    ensures exists t :: Made(Attempts(messages, replies, i, cursor, retries), messages, replies, i, cursor, retries, t)
    decreases MaxRetries - retries
  {
    var reply := replies(cursor);
    var a := Attempts(messages, replies, i, cursor, retries);
    AttemptsCases(messages, replies, i, cursor, retries);
    if reply.TransportFailure? && retries + 1 < MaxRetries {
      var rest := Attempts(messages, replies, i, cursor + 1, retries + 1);
      AttemptsMade(messages, replies, i, cursor + 1, retries + 1);
      var t :| Made(rest, messages, replies, i, cursor + 1, retries + 1, t);
      MadeRetry(messages, replies, i, cursor, retries, rest, t);
      assert Made(a, messages, replies, i, cursor, retries, Try(t.failures + 1, t.final));
    } else {
      var t := Try(0, reply);
      assert Failures(i, messages[i], retries, 0) == [];
      assert Made(a, messages, replies, i, cursor, retries, t);
    }
  }

  /** A transport failure with attempts left puts one failed attempt in front of the try that follows. */
  lemma MadeRetry(messages: seq<string>, replies: nat -> Reply, i: nat, cursor: nat, retries: nat, rest: Delivery, t: Try)
    requires i < |messages| && retries + 1 < MaxRetries && replies(cursor).TransportFailure?
    requires Made(rest, messages, replies, i, cursor + 1, retries + 1, t)
    ensures Made(Extend([Request(i, messages[i], TransportFailure), Backoff(BackoffDelay(retries + 1))], rest),
                 messages, replies, i, cursor, retries, Try(t.failures + 1, t.final))
  {
    var pair := [Request(i, messages[i], TransportFailure), Backoff(BackoffDelay(retries + 1))];
    var later := Failures(i, messages[i], retries + 1, t.failures);
    var last := [Request(i, messages[i], t.final)] + (if t.final.Delivered? && i < |messages| - 1 then [Pace] else []);
    assert Failures(i, messages[i], retries, t.failures + 1) == pair + later;
    assert Segment(messages, i, retries + 1, t) == later + last;
    assert Segment(messages, i, retries, Try(t.failures + 1, t.final)) == (pair + later) + last;
    assert pair + (later + last) == (pair + later) + last;
  }

  /** The failed attempts got `n` transport failures. */
  lemma {:induction false} FailuresReplies(i: nat, text: string, from: nat, n: nat)
    ensures |Replies(Failures(i, text, from, n))| == n
    ensures forall k :: 0 <= k < n ==> Replies(Failures(i, text, from, n))[k] == TransportFailure
    decreases n
  {
    if n > 0 {
      var pair := [Request(i, text, TransportFailure), Backoff(BackoffDelay(from + 1))];
      FailuresReplies(i, text, from + 1, n - 1);
      RepliesAppend(pair, Failures(i, text, from + 1, n - 1));
      assert Replies(pair) == [TransportFailure] by {
        assert pair[1..] == [Backoff(BackoffDelay(from + 1))];
        assert pair[1..][1..] == [];
      }
    }
  }

  /** The replies of a try's segment: its transport failures, then its final reply. */
  lemma SegmentReplies(messages: seq<string>, i: nat, from: nat, t: Try)
    requires i < |messages|
    ensures var r := Replies(Segment(messages, i, from, t));
      |r| == t.failures + 1 && r[t.failures] == t.final &&
      forall k :: 0 <= k < t.failures ==> r[k] == TransportFailure
  {
    var f := Failures(i, messages[i], from, t.failures);
    var last := [Request(i, messages[i], t.final)];
    var pace: seq<Event> := if t.final.Delivered? && i < |messages| - 1 then [Pace] else [];
    FailuresReplies(i, messages[i], from, t.failures);
    RepliesAppend(f, last);
    RepliesAppend(f + last, pace);
    assert Replies(pace) == [] by {
      if pace != [] {
        assert pace[1..] == [];
      }
    }
    assert Replies(last) == [t.final] by {
      assert last[1..] == [];
    }
  }

  /** The attempts that made a try got the script's replies and advanced the cursor by one per request. */
  lemma MadeScripted(a: Delivery, messages: seq<string>, replies: nat -> Reply, i: nat, cursor: nat, retries: nat, t: Try)
    requires i < |messages| && Made(a, messages, replies, i, cursor, retries, t)
    ensures Scripted(a.trace, replies, cursor) && a.cursor == cursor + |Replies(a.trace)|
  {
    SegmentReplies(messages, i, retries, t);
  }

  /** The attempts at a message got the script's replies and advanced the cursor by one per request. */
  lemma AttemptsScripted(messages: seq<string>, replies: nat -> Reply, i: nat, cursor: nat)
    requires i < |messages|
    ensures var a := Attempts(messages, replies, i, cursor, 0);
      Scripted(a.trace, replies, cursor) && a.cursor == cursor + |Replies(a.trace)|
  {
    var a := Attempts(messages, replies, i, cursor, 0);
    AttemptsMade(messages, replies, i, cursor, 0);
    var t :| Made(a, messages, replies, i, cursor, 0, t);
    MadeScripted(a, messages, replies, i, cursor, 0, t);
  }

  /** Every event of the failed attempts, by position: a failed request, then its back-off. */
  lemma {:induction false} FailuresAt(i: nat, text: string, from: nat, n: nat)
    ensures |Failures(i, text, from, n)| == 2 * n
    ensures forall p :: 0 <= p < |Failures(i, text, from, n)| ==>
      Failures(i, text, from, n)[p] ==
        if p % 2 == 0 then Request(i, text, TransportFailure) else Backoff(BackoffDelay(from + p / 2 + 1))
    decreases n
  {
    if n > 0 {
      FailuresAt(i, text, from + 1, n - 1);
      var f := Failures(i, text, from, n);
      var g := Failures(i, text, from + 1, n - 1);
      forall p | 2 <= p < |f|
        ensures f[p] == if p % 2 == 0 then Request(i, text, TransportFailure) else Backoff(BackoffDelay(from + p / 2 + 1))
      {
        assert f[p] == g[p - 2];
        assert (p - 2) % 2 == p % 2 && from + 1 + (p - 2) / 2 + 1 == from + p / 2 + 1;
      }
    }
  }

  /**
    The segment of a try ends with its final request, unless that delivered a message that is
    not the last, which is followed by the pause.
  */
  lemma SegmentEnd(messages: seq<string>, i: nat, from: nat, t: Try)
    requires i < |messages|
    ensures var s := Segment(messages, i, from, t);
      && (t.final.Delivered? && i < |messages| - 1 ==> |s| >= 2 && s[|s| - 1] == Pace && s[|s| - 2] == Request(i, messages[i], t.final))
      && (!t.final.Delivered? || i == |messages| - 1 ==> s[|s| - 1] == Request(i, messages[i], t.final))
  {
  }

  /** The events of tries `ts` at messages `i`, `i + 1`, ..., one segment after another. */
  function Segments(messages: seq<string>, i: nat, ts: seq<Try>): seq<Event>
    requires i + |ts| <= |messages|
    decreases |ts|
  {
    if ts == [] then [] else Segment(messages, i, 0, ts[0]) + Segments(messages, i + 1, ts[1..])
  }

  /**
    Delivering messages `i` onwards from request `cursor` made tries `ts`, one per message
    attempted, in order: the trace is their segments; its requests got the script's replies from
    `cursor` on, one each; every try is allowed; every try but the last delivered its message.
    The delivery succeeded exactly when every message from `i` on was tried and delivered;
    otherwise the last try did not deliver and the delivery raised its error.
  */
  ghost predicate Tried(d: Delivery, messages: seq<string>, replies: nat -> Reply, i: nat, cursor: nat, ts: seq<Try>) {
    && i + |ts| <= |messages|
    && d.trace == Segments(messages, i, ts)
    && Scripted(d.trace, replies, cursor) && d.cursor == cursor + |Replies(d.trace)|
    && (forall k :: 0 <= k < |ts| ==> Allowed(ts[k], 0))
    && (forall k :: 0 <= k < |ts| - 1 ==> ts[k].final.Delivered?)
    && (d.error.None? <==> i + |ts| == |messages| && (ts == [] || ts[|ts| - 1].final.Delivered?))
    && (d.error.Some? ==> ts != [] && d.error == ErrorOf(i + |ts| - 1, ts[|ts| - 1].final))
  }

  /** Delivering messages `i` onwards is a sequence of tries, as `Tried` describes it. */
  lemma {:induction false} DeliverFromTried(messages: seq<string>, replies: nat -> Reply, i: nat, cursor: nat)
    requires i <= |messages|
    ensures exists ts :: Tried(DeliverFrom(messages, replies, i, cursor), messages, replies, i, cursor, ts)
    decreases |messages| - i
  {
    var d := DeliverFrom(messages, replies, i, cursor);
    if i == |messages| {
      assert Tried(d, messages, replies, i, cursor, []);
    } else {
      var a := Attempts(messages, replies, i, cursor, 0);
      AttemptsMade(messages, replies, i, cursor, 0);
      var t :| Made(a, messages, replies, i, cursor, 0, t);
      MadeScripted(a, messages, replies, i, cursor, 0, t);
      if a.error.Some? {
        assert d == a;
        StopTried(messages, replies, a, i, cursor, t);
      } else {
        var rest := DeliverFrom(messages, replies, i + 1, a.cursor);
        DeliverFromTried(messages, replies, i + 1, a.cursor);
        var ts :| Tried(rest, messages, replies, i + 1, a.cursor, ts);
        assert d == Extend(a.trace, rest);
        ContinueTried(messages, replies, a, rest, i, cursor, t, ts);
      }
    }
  }

  /** A delivery that stopped ends with the request of its last try, the one that raised its error. */
  lemma TriedEndsAtError(d: Delivery, messages: seq<string>, replies: nat -> Reply, i: nat, cursor: nat, ts: seq<Try>)
    requires Tried(d, messages, replies, i, cursor, ts) && d.error.Some?
    ensures i + |ts| - 1 < |messages| && d.error.value.index == i + |ts| - 1
    ensures d.trace != [] && d.trace[|d.trace| - 1] == Request(i + |ts| - 1, messages[i + |ts| - 1], ts[|ts| - 1].final)
  {
    SegmentsLast(messages, i, ts);
    SegmentEnd(messages, i + |ts| - 1, 0, ts[|ts| - 1]);
  }

  /** The segments of some tries end as the segment of the last try does. */
  lemma {:induction false} SegmentsLast(messages: seq<string>, i: nat, ts: seq<Try>)
    requires ts != [] && i + |ts| <= |messages|
    ensures var s, last := Segments(messages, i, ts), Segment(messages, i + |ts| - 1, 0, ts[|ts| - 1]);
      s != [] && last != [] && s[|s| - 1] == last[|last| - 1]
    decreases |ts|
  {
    var head := Segment(messages, i, 0, ts[0]);
    var rest := Segments(messages, i + 1, ts[1..]);
    assert Segments(messages, i, ts) == head + rest;
    if |ts| > 1 {
      SegmentsLast(messages, i + 1, ts[1..]);
      assert ts[1..][|ts| - 2] == ts[|ts| - 1];
    } else {
      assert rest == [];
    }
  }

  lemma StopTried(messages: seq<string>, replies: nat -> Reply, a: Delivery, i: nat, cursor: nat, t: Try)
    requires i < |messages| && Allowed(t, 0) && a.error.Some?
    requires a.trace == Segment(messages, i, 0, t) && a.error == ErrorOf(i, t.final)
    requires Scripted(a.trace, replies, cursor) && a.cursor == cursor + |Replies(a.trace)|
    ensures Tried(a, messages, replies, i, cursor, [t])
  {
    assert Segments(messages, i, [t]) == Segment(messages, i, 0, t) + Segments(messages, i + 1, []);
  }

  lemma ContinueTried(messages: seq<string>, replies: nat -> Reply, a: Delivery, rest: Delivery, i: nat, cursor: nat, t: Try, ts: seq<Try>)
    requires i < |messages| && Allowed(t, 0) && a.error.None?
    requires a.trace == Segment(messages, i, 0, t) && a.error == ErrorOf(i, t.final)
    requires Scripted(a.trace, replies, cursor) && a.cursor == cursor + |Replies(a.trace)|
    requires Tried(rest, messages, replies, i + 1, a.cursor, ts)
    ensures Tried(Extend(a.trace, rest), messages, replies, i, cursor, [t] + ts)
  {
    ScriptedAppend(a.trace, rest.trace, replies, cursor);
    RepliesAppend(a.trace, rest.trace);
    var all := [t] + ts;
    assert all[0] == t && all[1..] == ts;
    assert forall k :: 1 <= k < |all| ==> all[k] == ts[k - 1];
  }

  /**
    The attempts at message `i`: they advance the cursor by their requests, at most as many as
    attempts are left; they send only message `i` and wait only the scheduled back-offs; and
    they end in the outcome `Outcome` describes; and they make a try, as `Made` describes it.
  */
  lemma {:induction false} AttemptsSpec(messages: seq<string>, replies: nat -> Reply, i: nat, cursor: nat, retries: nat)
    requires i < |messages| && retries < MaxRetries
    ensures var a := Attempts(messages, replies, i, cursor, retries);
      && Counted(a, i, cursor, retries) && Confined(a, messages, i) && Outcome(a, messages, i)
      && (exists t :: Made(a, messages, replies, i, cursor, retries, t))
    decreases MaxRetries - retries
  {
    AttemptsMade(messages, replies, i, cursor, retries);
    if replies(cursor).TransportFailure? && retries + 1 < MaxRetries {
      AttemptsSpec(messages, replies, i, cursor + 1, retries + 1);
      RetryStep(messages, replies, i, cursor, retries);
      var prefix := [Request(i, messages[i], TransportFailure), Backoff(BackoffDelay(retries + 1))];
      var rest := Attempts(messages, replies, i, cursor + 1, retries + 1);
      CountedRetry(prefix, rest, i, messages[i], BackoffDelay(retries + 1), cursor, retries);
      ConfinedRetry(prefix, rest, messages, i, retries);
      OutcomeRetry(prefix, rest, messages, i, BackoffDelay(retries + 1));
    } else {
      FinalAttempt(messages, replies, i, cursor, retries);
    }
  }

  /**
    The bookkeeping of delivering messages `i` onwards: the cursor advances by the number of
    requests, and the requests got the script's replies from `cursor` on; every request sends one of those messages, with its own text; each message is
    attempted at most `MaxRetries` times; every back-off is one of the scheduled delays.
  */
  ghost predicate Accounted(d: Delivery, messages: seq<string>, replies: nat -> Reply, i: nat, cursor: nat) {
    && d.cursor == cursor + Requests(d.trace)
    && Scripted(d.trace, replies, cursor)
    && RequestsWithin(d.trace, messages, i, |messages|)
    && (forall j :: RequestsFor(d.trace, j) <= MaxRetries)
    && BackoffsScheduled(d.trace)
  }

  /**
    What delivering messages `i` onwards achieved: on success every message was delivered once,
    in order, with one pause fewer than messages; on an error at message `j`, exactly the
    messages before `j` were delivered and nothing after `j` was attempted.
  */
  ghost predicate Finished(d: Delivery, messages: seq<string>, i: nat)
    requires i <= |messages|
  {
    && (d.error.None? ==>
          Sent(d.trace) == messages[i..] && Paces(d.trace) == (if i < |messages| then |messages| - i - 1 else 0))
    && (d.error.Some? ==>
          var j := d.error.value.index;
          i <= j < |messages| && StoppedAt(d.error.value, j) && Sent(d.trace) == messages[i..j] &&
          RequestsWithin(d.trace, messages, i, j + 1))
  }

  /** Delivering messages `i` onwards keeps the books and ends as `Finished` says. */
  lemma {:induction false} DeliverFromSpec(messages: seq<string>, replies: nat -> Reply, i: nat, cursor: nat)
    requires i <= |messages|
    ensures var d := DeliverFrom(messages, replies, i, cursor);
      Accounted(d, messages, replies, i, cursor) && Finished(d, messages, i)
    decreases |messages| - i
  {
    if i == |messages| {
      assert messages[i..] == [];
    } else {
      var a := Attempts(messages, replies, i, cursor, 0);
      AttemptsSpec(messages, replies, i, cursor, 0);
      AttemptsScripted(messages, replies, i, cursor);
      if a.error.None? {
        var rest := DeliverFrom(messages, replies, i + 1, a.cursor);
        DeliverFromSpec(messages, replies, i + 1, a.cursor);
        assert DeliverFrom(messages, replies, i, cursor) == Extend(a.trace, rest);
        ContinueAccounted(messages, replies, i, cursor, a, rest);
        ContinueFinished(messages, i, a, rest);
      } else {
        assert DeliverFrom(messages, replies, i, cursor) == a;
        StopAccounted(messages, replies, i, cursor, a);
        StopFinished(messages, i, a);
      }
    }
  }

  lemma ContinueAccounted(messages: seq<string>, replies: nat -> Reply, i: nat, cursor: nat, a: Delivery, rest: Delivery)
    requires i < |messages| && Counted(a, i, cursor, 0) && Confined(a, messages, i)
    requires Scripted(a.trace, replies, cursor) && a.cursor == cursor + |Replies(a.trace)|
    requires Accounted(rest, messages, replies, i + 1, a.cursor)
    ensures Accounted(Extend(a.trace, rest), messages, replies, i, cursor)
  {
    ScriptedAppend(a.trace, rest.trace, replies, cursor);
    ContinuedSpec(messages, a.trace, rest.trace, i);
    CountsAppend(a.trace, rest.trace, 0);
    PredicatesAppend(a.trace, rest.trace, messages, i, |messages|);
    RequestsWithinWiden(a.trace, messages, i, i + 1, i, |messages|);
    RequestsWithinWiden(rest.trace, messages, i + 1, |messages|, i, |messages|);
  }

  lemma ContinueFinished(messages: seq<string>, i: nat, a: Delivery, rest: Delivery)
    requires i < |messages| && a.error.None? && Confined(a, messages, i) && Outcome(a, messages, i)
    requires Finished(rest, messages, i + 1)
    ensures Finished(Extend(a.trace, rest), messages, i)
  {
    CountsAppend(a.trace, rest.trace, 0);
    if rest.error.None? {
      Seqs.AppendThrough([], messages[i], messages[i + 1..], messages[i..], [messages[i]], Sent(a.trace + rest.trace));
    } else {
      var j := rest.error.value.index;
      Seqs.AppendThrough([], messages[i], messages[i + 1..j], messages[i..j], [messages[i]], Sent(a.trace + rest.trace));
      PredicatesAppend(a.trace, rest.trace, messages, i, j + 1);
      RequestsWithinWiden(a.trace, messages, i, i + 1, i, j + 1);
      RequestsWithinWiden(rest.trace, messages, i + 1, j + 1, i, j + 1);
    }
  }

  lemma StopAccounted(messages: seq<string>, replies: nat -> Reply, i: nat, cursor: nat, a: Delivery)
    requires i < |messages| && Counted(a, i, cursor, 0) && Confined(a, messages, i) && Scripted(a.trace, replies, cursor)
    ensures Accounted(a, messages, replies, i, cursor)
  {
    forall j
      ensures RequestsFor(a.trace, j) <= MaxRetries
    {
      if j != i {
        NoRequestsFor(a.trace, messages, i, i + 1, j);
      }
    }
    RequestsWithinWiden(a.trace, messages, i, i + 1, i, |messages|);
  }

  lemma StopFinished(messages: seq<string>, i: nat, a: Delivery)
    requires i < |messages| && a.error.Some? && Confined(a, messages, i) && Outcome(a, messages, i)
    ensures Finished(a, messages, i)
  {
    assert messages[i..i] == [];
  }

  /** The per-message request bound survives appending the later messages' requests. */
  lemma ContinuedSpec(messages: seq<string>, a: seq<Event>, rest: seq<Event>, i: nat)
    requires RequestsFor(a, i) <= MaxRetries && RequestsWithin(a, messages, i, i + 1)
    requires RequestsWithin(rest, messages, i + 1, |messages|) && (forall j :: RequestsFor(rest, j) <= MaxRetries)
    ensures forall j :: RequestsFor(a + rest, j) <= MaxRetries
  {
    forall j
      ensures RequestsFor(a + rest, j) <= MaxRetries
    {
      CountsAppend(a, rest, j);
      if j == i {
        NoRequestsFor(rest, messages, i + 1, |messages|, j);
      } else {
        NoRequestsFor(a, messages, i, i + 1, j);
      }
    }
  }

  /**
    `send_telegram_messages` returns normally exactly when every message was delivered, once
    and in order, with one-second pauses between them; when it raises at message `j`, the
    messages before `j` went out and no later one was attempted, and the last request is the one
    whose reply raised the error. Its trace is one segment per
    message attempted: the failed attempts, each with its back-off, the final request, and the
    pause after every delivered message but the last.
  */
  lemma DeliverSpec(messages: seq<string>, replies: nat -> Reply, cursor: nat)
    ensures var d := Deliver(messages, replies, cursor);
      && d.cursor == cursor + Requests(d.trace)
      && RequestsWithin(d.trace, messages, 0, |messages|)
      && (forall j :: RequestsFor(d.trace, j) <= MaxRetries)
      && BackoffsScheduled(d.trace)
      && (d.error.None? <==> Sent(d.trace) == messages)
      && (d.error.None? && messages != [] ==> Paces(d.trace) == |messages| - 1)
      && (d.error.Some? ==>
            var j := d.error.value.index;
            j < |messages| && StoppedAt(d.error.value, j) && Sent(d.trace) == messages[..j] &&
            RequestsWithin(d.trace, messages, 0, j + 1) &&
            d.trace != [] &&
            d.trace[|d.trace| - 1] ==
              Request(j, messages[j], if d.error.value.Aborted? then d.error.value.reply else TransportFailure))
      && Scripted(d.trace, replies, cursor) && |Replies(d.trace)| == Requests(d.trace)
      && (exists ts :: Tried(d, messages, replies, 0, cursor, ts))
  {
    DeliverFromSpec(messages, replies, 0, cursor);
    DeliverFromTried(messages, replies, 0, cursor);
    assert messages[0..] == messages;
    var d := Deliver(messages, replies, cursor);
    RepliesCount(d.trace);
    var ts :| Tried(d, messages, replies, 0, cursor, ts);
    if d.error.Some? {
      TriedEndsAtError(d, messages, replies, 0, cursor, ts);
      var j := d.error.value.index;
      assert messages[0..j] == messages[..j];
      assert |messages[..j]| < |messages|;
    }
  }

  /** The back-off schedule: 2 seconds after the first failed attempt, 4 after the second. */
  lemma BackoffSchedule()
    ensures BackoffDelay(1) == 2 && BackoffDelay(2) == 4
    ensures forall r :: BackoffDelay(r) <= MaxDelay
  {
  }

  /** A transport failure followed by a success: the message goes out on the second attempt. */
  lemma RetryThenDeliver(message: string, replies: nat -> Reply, cursor: nat)
    requires replies(cursor) == TransportFailure && replies(cursor + 1) == Delivered
    ensures Deliver([message], replies, cursor) ==
      Delivery(None, [Request(0, message, TransportFailure), Backoff(2), Request(0, message, Delivered)], cursor + 2)
  {
    BackoffSchedule();
    var messages := [message];
    var second := Attempts(messages, replies, 0, cursor + 1, 1);
    assert second == Delivery(None, [Request(0, message, Delivered)], cursor + 2);
    var first := Attempts(messages, replies, 0, cursor, 0);
    assert first == Extend([Request(0, message, TransportFailure), Backoff(2)], second);
    assert DeliverFrom(messages, replies, 1, cursor + 2) == Delivery(None, [], cursor + 2);
    assert first.trace + [] == first.trace;
  }

  /** A rejection is not retried: the delivery stops after the one request that got it. */
  lemma RejectionAborts(messages: seq<string>, replies: nat -> Reply, cursor: nat)
    requires messages != [] && replies(cursor) == Rejected
    ensures Deliver(messages, replies, cursor) ==
      Delivery(Some(Aborted(0, Rejected)), [Request(0, messages[0], Rejected)], cursor + 1)
  {
    AttemptsCases(messages, replies, 0, cursor, 0);
  }

  /** Three transport failures in a row exhaust the retries of the first message. */
  lemma ThreeFailuresExhaust(messages: seq<string>, replies: nat -> Reply, cursor: nat)
    requires messages != []
    requires forall k :: cursor <= k < cursor + 3 ==> replies(k) == TransportFailure
    ensures Deliver(messages, replies, cursor) ==
      Delivery(Some(RetriesExhausted(0)),
               [Request(0, messages[0], TransportFailure), Backoff(2), Request(0, messages[0], TransportFailure),
                Backoff(4), Request(0, messages[0], TransportFailure)],
               cursor + 3)
  {
    assert replies(cursor) == TransportFailure && replies(cursor + 1) == TransportFailure;
    assert replies(cursor + 2) == TransportFailure;
    var third := Attempts(messages, replies, 0, cursor + 2, 2);
    assert third == Delivery(Some(RetriesExhausted(0)), [Request(0, messages[0], TransportFailure)], cursor + 3);
    BackoffSchedule();
    var second := Attempts(messages, replies, 0, cursor + 1, 1);
    assert second == Extend([Request(0, messages[0], TransportFailure), Backoff(4)], third);
    var first := Attempts(messages, replies, 0, cursor, 0);
    assert first == Extend([Request(0, messages[0], TransportFailure), Backoff(2)], second);
  }
}
