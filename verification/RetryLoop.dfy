/**
 `sdk/go/retry.go`: which requests are sent again, how often, and after how long. Durations are Go int64
 nanosecond counts, so products that do not fit wrap.
 */
module RetryLoop {
  import opened Common

  const TWO63 := 0x8000_0000_0000_0000
  const TWO62 := 0x4000_0000_0000_0000
  const SECOND := 1_000_000_000
  const DEFAULT_BASE_DELAY := 200_000_000

  function Wrap64(x: int): (w: int)
    ensures -TWO63 <= w < TWO63
    ensures -TWO63 <= x < TWO63 ==> w == x
  {
    (x + TWO63) % (2 * TWO63) - TWO63
  }

  /** int64 arithmetic: the one value in range that differs by a multiple of 2^64. */
  lemma WrapIs(x: int)
    ensures -0x8000_0000_0000_0000 <= Wrap64(x) < 0x8000_0000_0000_0000
    ensures (x - Wrap64(x)) % 0x1_0000_0000_0000_0000 == 0
  {
  }

  datatype RetryAfter = Absent | Seconds(secs: int) | Date(wait: int)

  /** What one attempt comes back with; `ended` is a cancellation or deadline of the caller's context. */
  datatype Reply = NetError(ended: bool) | Response(status: int, retryAfter: RetryAfter)

  datatype Policy = Policy(
    maxRetries: int, baseDelay: int, maxDelay: int, statuses: Option<seq<int>>, respectRetryAfter: bool)

  // ----- what is retried -----

  datatype Verb = Get | Head | Options | Put | Delete | Post | Other(name: string)

  /** The methods whose requests may be re-issued after a network error. */
  predicate IsIdempotent(verb: Verb) {
    !verb.Post? && !verb.Other?
  }

  predicate Backpressure(status: int) {
    status == 429 || status == 503
  }

  predicate RetryableStatus(p: Policy, status: int) {
    status in p.statuses.GetOr([429, 500, 502, 503, 504])
  }

  method RetryableStatusLoop(p: Policy, status: int) returns (r: bool)
    ensures r == RetryableStatus(p, status)
  {
    var statuses := p.statuses.GetOr([429, 500, 502, 503, 504]);
    for i := 0 to |statuses|
      invariant status !in statuses[..i]
    {
      if statuses[i] == status {
        return true;
      }
    }
    return false;
  }

  predicate Retryable(p: Policy, idempotent: bool, r: Reply) {
    match r
    case NetError(ended) => !ended && idempotent
    case Response(status, _) => RetryableStatus(p, status) && (idempotent || Backpressure(status))
  }

  // ----- backoff -----

  function EffectiveBase(p: Policy): int {
    if p.baseDelay <= 0 then DEFAULT_BASE_DELAY else p.baseDelay
  }

  /** The loop of `backoff` with n doublings to go. */
  function Doubled(d: int, n: nat, maxDelay: int): int
    decreases n
  {
    if n == 0 then (if maxDelay > 0 && d > maxDelay then maxDelay else d)
    else
      var e := Wrap64(d * 2);
      if maxDelay > 0 && e >= maxDelay then maxDelay else Doubled(e, n - 1, maxDelay)
  }

  method Backoff(p: Policy, attempt: nat) returns (delay: int)
    ensures delay == Doubled(EffectiveBase(p), attempt, p.maxDelay)
  {
    var base := p.baseDelay;
    if base <= 0 {
      base := DEFAULT_BASE_DELAY;
    }
    var d := base;
    for i := 0 to attempt
      invariant Doubled(d, attempt - i, p.maxDelay) == Doubled(base, attempt, p.maxDelay)
    {
      d := Wrap64(d * 2);
      if p.maxDelay > 0 && d >= p.maxDelay {
        return p.maxDelay;
      }
    }
    if p.maxDelay > 0 && d > p.maxDelay {
      return p.maxDelay;
    }
    return d;
  }

  function Pow2(n: nat): nat {
    if n == 0 then 1 else 2 * Pow2(n - 1)
  }

  lemma {:induction false} DoublingIsPow2(d: int, n: nat)
    requires n > 0
    ensures d * Pow2(n) == d * 2 * Pow2(n - 1)
    ensures d > 0 ==> d * Pow2(n) >= d * 2
  {
    Pow2Positive(n - 1);
    assert d * Pow2(n) == d * (2 * Pow2(n - 1)) == d * 2 * Pow2(n - 1);
    if d > 0 {
      MulMonotone(d * 2, 1, Pow2(n - 1));
    }
  }

  lemma {:induction false} Pow2Positive(n: nat)
    ensures Pow2(n) >= 1
  {
    if n == 0 {
    } else {
      Pow2Positive(n - 1);
    }
  }

  lemma MulMonotone(x: int, a: int, b: int)
    requires x >= 0 && a <= b
    ensures x * a <= x * b
  {
  }

  /** Every field of a policy is an int64 nanosecond count. */
  predicate Int64Policy(p: Policy) {
    -TWO63 <= p.baseDelay < TWO63 && -TWO63 <= p.maxDelay < TWO63
  }

  /** The last value before the cap still has room to double: none of base, 2 * base, ... lies in [2^62, MaxDelay). */
  ghost predicate RoomToDouble(base: int, maxDelay: int) {
    base < TWO62 && forall k: nat :: !(TWO62 <= base * Pow2(k) < maxDelay)
  }

  lemma OneDoubling(d: int, maxDelay: int)
    requires RoomToDouble(d, maxDelay) && d * 2 < maxDelay
    ensures d * 2 < TWO62
  {
    assert d * Pow2(1) == d * 2;
  }

  lemma {:induction false} DoubledIsCapped(d: int, n: nat, maxDelay: int)
    requires 0 < d && 0 < maxDelay < TWO63 && RoomToDouble(d, maxDelay)
    ensures Doubled(d, n, maxDelay) == Min(d * Pow2(n), maxDelay)
    decreases n
  {
    if n == 0 {
    } else {
      DoublingIsPow2(d, n);
      if d * 2 < maxDelay {
        OneDoubling(d, maxDelay);
        forall k: nat ensures !(TWO62 <= d * 2 * Pow2(k) < maxDelay) {
          DoublingIsPow2(d, k + 1);
          assert !(TWO62 <= d * Pow2(k + 1) < maxDelay);
        }
        DoubledIsCapped(d * 2, n - 1, maxDelay);
      }
    }
  }

  /** As long as the doublings stay below the cap and in range they are taken one by one. */
  lemma {:induction false} DoubledReaches(d: int, k: nat, maxDelay: int)
    requires 0 < d && d * Pow2(k) < maxDelay < TWO63
    ensures Doubled(d, k + 1, maxDelay) == Doubled(d * Pow2(k), 1, maxDelay)
    decreases k
  {
    if k == 0 {
      assert d * Pow2(0) == d;
    } else {
      DoublingIsPow2(d, k);
      assert Wrap64(d * 2) == d * 2 < maxDelay;
      DoubledReaches(d * 2, k - 1, maxDelay);
    }
  }

  lemma WrapsNegative(d: int, maxDelay: int)
    requires TWO62 <= d < TWO63 && 0 < maxDelay
    ensures Doubled(d, 1, maxDelay) < 0
  {
    assert Wrap64(d * 2) == d * 2 - 2 * TWO63;
    assert Doubled(d * 2 - 2 * TWO63, 0, maxDelay) == d * 2 - 2 * TWO63;
  }

  /**
   The documented schedule, base * 2^attempt capped at MaxDelay, holds for every attempt exactly when no value
   short of the cap is out of room; from one that is, the next doubling wraps to a negative delay. A base
   below 2^62 ns with a cap of at most 2^62 ns always has room.
   */
  lemma BackoffIsCappedExponentialIff(p: Policy)
    requires Int64Policy(p) && p.maxDelay > 0
    ensures (forall n: nat :: Doubled(EffectiveBase(p), n, p.maxDelay) == Min(EffectiveBase(p) * Pow2(n), p.maxDelay))
            <==> RoomToDouble(EffectiveBase(p), p.maxDelay)
    ensures EffectiveBase(p) < TWO62 && p.maxDelay <= TWO62 ==> RoomToDouble(EffectiveBase(p), p.maxDelay)
  {
    var base := EffectiveBase(p);
    if RoomToDouble(base, p.maxDelay) {
      forall n: nat ensures Doubled(base, n, p.maxDelay) == Min(base * Pow2(n), p.maxDelay) {
        DoubledIsCapped(base, n, p.maxDelay);
      }
    } else {
      var k: nat := 0;
      if base < TWO62 {
        k :| TWO62 <= base * Pow2(k) < p.maxDelay;
        DoubledReaches(base, k, p.maxDelay);
      }
      assert base * Pow2(0) == base;
      WrapsNegative(base * Pow2(k), p.maxDelay);
      Pow2Positive(k + 1);
      MulMonotone(base, 0, Pow2(k + 1));
      assert Doubled(base, k + 1, p.maxDelay) < 0 <= Min(base * Pow2(k + 1), p.maxDelay);
    }
  }

  lemma {:induction false} DoubledUncapped(d: int, n: nat, maxDelay: int)
    requires 0 < d < TWO63 && maxDelay <= 0
    ensures -TWO63 <= Doubled(d, n, maxDelay) < TWO63
    ensures d * Pow2(n) < TWO63 ==> Doubled(d, n, maxDelay) == d * Pow2(n)
    decreases n
  {
    DoubledInRange(d, n, maxDelay);
    if n == 0 || d * Pow2(n) >= TWO63 {
    } else {
      DoublingIsPow2(d, n);
      DoubledUncapped(d * 2, n - 1, maxDelay);
    }
  }

  /** Wrapped or not, a delay is an int64. */
  lemma {:induction false} DoubledInRange(d: int, n: nat, maxDelay: int)
    requires -TWO63 <= d < TWO63 && maxDelay < TWO63
    ensures -TWO63 <= Doubled(d, n, maxDelay) < TWO63
    decreases n
  {
    if n == 0 {
    } else {
      DoubledInRange(Wrap64(d * 2), n - 1, maxDelay);
    }
  }

  /** Without a cap the delay is base * 2^attempt exactly as long as that fits an int64. */
  lemma UncappedBackoffIff(p: Policy, n: nat)
    requires Int64Policy(p) && p.maxDelay <= 0
    ensures Doubled(EffectiveBase(p), n, p.maxDelay) == EffectiveBase(p) * Pow2(n) <==> EffectiveBase(p) * Pow2(n) < TWO63
  {
    DoubledUncapped(EffectiveBase(p), n, p.maxDelay);
  }

  /** Later retries never wait less, as long as nothing wraps: with a cap, or without one while the product fits. */
  lemma BackoffIsMonotone(p: Policy, m: nat, n: nat)
    requires Int64Policy(p) && m <= n
    requires if p.maxDelay > 0 then RoomToDouble(EffectiveBase(p), p.maxDelay) else EffectiveBase(p) * Pow2(n) < TWO63
    ensures 0 < Doubled(EffectiveBase(p), m, p.maxDelay) <= Doubled(EffectiveBase(p), n, p.maxDelay)
    ensures p.maxDelay > 0 ==> Doubled(EffectiveBase(p), n, p.maxDelay) <= p.maxDelay
  {
    var base := EffectiveBase(p);
    Pow2Positive(m);
    Pow2Monotone(m, n);
    MulMonotone(base, 1, Pow2(m));
    MulMonotone(base, Pow2(m), Pow2(n));
    if p.maxDelay > 0 {
      DoubledIsCapped(base, m, p.maxDelay);
      DoubledIsCapped(base, n, p.maxDelay);
    } else {
      DoubledUncapped(base, m, p.maxDelay);
      DoubledUncapped(base, n, p.maxDelay);
    }
  }

  lemma {:induction false} Pow2Monotone(m: nat, n: nat)
    requires m <= n
    ensures Pow2(m) <= Pow2(n)
    decreases n
  {
    if m == n {
    } else {
      Pow2Monotone(m, n - 1);
    }
  }

  // ----- Retry-After -----

  /** parseRetryAfter: a number no int64 holds and a date in the past count as no header. */
  function ParsedRetryAfter(h: RetryAfter): Option<int> {
    match h
    case Absent => None
    case Seconds(secs) => if -TWO63 <= secs < TWO63 then Some(Wrap64(secs * SECOND)) else None
    case Date(wait) => if wait > 0 then Some(wait) else None
  }

  function Delay(p: Policy, attempt: nat, r: Reply): int {
    var backoff := Doubled(EffectiveBase(p), attempt, p.maxDelay);
    if r.Response? && p.respectRetryAfter && ParsedRetryAfter(r.retryAfter).Some? then
      Max(backoff, ParsedRetryAfter(r.retryAfter).value)
    else backoff
  }

  /**
   A wait requested in seconds is granted exactly when that many nanoseconds fit an int64, about 292 years;
   a longer request wraps, or is not read at all, and the wait comes out shorter than asked. The status plays
   no part.
   */
  lemma RetryAfterGrantedIff(p: Policy, attempt: nat, status: int, secs: nat)
    requires p.respectRetryAfter && Int64Policy(p)
    ensures Delay(p, attempt, Response(status, Seconds(secs))) >= secs * SECOND <==> secs * SECOND < TWO63
    ensures secs * SECOND < TWO63 ==>
              Delay(p, attempt, Response(status, Seconds(secs)))
              == Max(Doubled(EffectiveBase(p), attempt, p.maxDelay), secs * SECOND)
  {
    DoubledInRange(EffectiveBase(p), attempt, p.maxDelay);
    assert -TWO63 <= Wrap64(secs * SECOND) < TWO63;
  }

  // ----- the loop -----

  datatype Ending = Replied | BodyError | ContextEnded

  /** `sent` are the replies to the attempts made, in order; `waits` the pauses between them. */
  datatype Outcome = Outcome(sent: seq<Reply>, waits: seq<int>, ending: Ending)

  /** The transport, the caller's context and the request body, attempt by attempt. */
  datatype World = World(reply: nat -> Reply, doneWhileWaiting: nat -> bool, bodyFails: nat -> bool)

  function Loop(p: Policy, idempotent: bool, w: World, attempt: nat): Outcome
    decreases p.maxRetries - attempt
  {
    if w.bodyFails(attempt) then Outcome([], [], BodyError) else
      var r := w.reply(attempt);
      if !Retryable(p, idempotent, r) || attempt >= p.maxRetries then Outcome([r], [], Replied)
      else
        var delay := Delay(p, attempt, r);
        if w.doneWhileWaiting(attempt) then Outcome([r], [delay], ContextEnded)
        else
          var rest := Loop(p, idempotent, w, attempt + 1);
          Outcome([r] + rest.sent, [delay] + rest.waits, rest.ending)
  }

  method RoundTrip(p: Policy, verb: Verb, w: World) returns (out: Outcome)
    ensures out == Loop(p, IsIdempotent(verb), w, 0)
  {
    ghost var idempotent := IsIdempotent(verb);
    var sent: seq<Reply>, waits: seq<int> := [], [];
    var attempt := 0;
    while true
      invariant 0 <= attempt
      invariant Onto(sent, waits, Loop(p, idempotent, w, attempt)) == Loop(p, idempotent, w, 0)
      decreases p.maxRetries - attempt
    {
      if w.bodyFails(attempt) {
        return Outcome(sent, waits, BodyError);
      }
      var r := w.reply(attempt);
      var retryable := false;
      if r.NetError? {
        if r.ended {
          return Outcome(sent + [r], waits, Replied);
        }
        retryable := IsIdempotent(verb);
      } else {
        var listed := RetryableStatusLoop(p, r.status);
        if listed {
          retryable := IsIdempotent(verb) || Backpressure(r.status);
        }
      }
      assert retryable == Retryable(p, idempotent, r);
      if !retryable || attempt >= p.maxRetries {
        return Outcome(sent + [r], waits, Replied);
      }
      var delay := Backoff(p, attempt);
      if r.Response? && p.respectRetryAfter {
        var ra := ParsedRetryAfter(r.retryAfter);
        if ra.Some? && ra.value > delay {
          delay := ra.value;
        }
      }
      assert delay == Delay(p, attempt, r);
      if w.doneWhileWaiting(attempt) {
        return Outcome(sent + [r], waits + [delay], ContextEnded);
      }
      OntoOne(sent, waits, r, delay, Loop(p, idempotent, w, attempt + 1));
      sent, waits, attempt := sent + [r], waits + [delay], attempt + 1;
    }
  }

  function Onto(sent: seq<Reply>, waits: seq<int>, o: Outcome): Outcome {
    Outcome(sent + o.sent, waits + o.waits, o.ending)
  }

  lemma OntoOne(sent: seq<Reply>, waits: seq<int>, r: Reply, delay: int, o: Outcome)
    ensures Onto(sent, waits, Outcome([r] + o.sent, [delay] + o.waits, o.ending)) == Onto(sent + [r], waits + [delay], o)
  {
  }

  /** At most MaxRetries retries after the first attempt, and none at all when MaxRetries is negative. */
  lemma {:induction false} AttemptsAreBounded(p: Policy, idempotent: bool, w: World, attempt: nat)
    requires attempt <= Max(0, p.maxRetries)
    ensures attempt + |Loop(p, idempotent, w, attempt).sent| <= Max(0, p.maxRetries) + 1
    decreases p.maxRetries - attempt
  {
    if !Retryable(p, idempotent, w.reply(attempt)) || attempt >= p.maxRetries {
    } else {
      AttemptsAreBounded(p, idempotent, w, attempt + 1);
    }
  }

  /** Every attempt but the last was worth retrying, its pause ran to the end, and it is the reply of its own attempt. */
  lemma {:induction false} OnlyRetryableIsRetried(p: Policy, idempotent: bool, w: World, attempt: nat, i: nat)
    requires i < |Loop(p, idempotent, w, attempt).sent|
    ensures var o := Loop(p, idempotent, w, attempt);
            && o.sent[i] == w.reply(attempt + i) && !w.bodyFails(attempt + i)
            && |o.waits| == (if o.ending.Replied? then |o.sent| - 1 else |o.sent|)
            && (i < |o.waits| ==> o.waits[i] == Delay(p, attempt + i, o.sent[i]))
            && (i < |o.sent| - 1 ==> Retryable(p, idempotent, o.sent[i]) && !w.doneWhileWaiting(attempt + i))
    decreases p.maxRetries - attempt
  {
    var r := w.reply(attempt);
    if !Retryable(p, idempotent, r) || attempt >= p.maxRetries || w.doneWhileWaiting(attempt) {
    } else {
      WaitsMatch(p, idempotent, w, attempt + 1);
      if i > 0 {
        OnlyRetryableIsRetried(p, idempotent, w, attempt + 1, i - 1);
      }
    }
  }

  lemma {:induction false} WaitsMatch(p: Policy, idempotent: bool, w: World, attempt: nat)
    ensures var o := Loop(p, idempotent, w, attempt);
            |o.waits| == (if o.ending.Replied? then |o.sent| - 1 else |o.sent|)
    decreases p.maxRetries - attempt
  {
    if !Retryable(p, idempotent, w.reply(attempt)) || attempt >= p.maxRetries {
    } else {
      WaitsMatch(p, idempotent, w, attempt + 1);
    }
  }

  /** Retry-After lengthens the pause after any retried response, whatever its status. */
  lemma RetryAfterOnAnyStatus(p: Policy, idempotent: bool, w: World, i: nat, secs: nat)
    requires p.respectRetryAfter && Int64Policy(p) && secs * SECOND < TWO63
    requires var o := Loop(p, idempotent, w, 0);
             i < |o.waits| && i < |o.sent| && o.sent[i].Response? && o.sent[i].retryAfter == Seconds(secs)
    ensures Loop(p, idempotent, w, 0).waits[i] >= secs * SECOND
  {
    OnlyRetryableIsRetried(p, idempotent, w, 0, i);
    var r := Loop(p, idempotent, w, 0).sent[i];
    RetryAfterGrantedIff(p, i, r.status, secs);
  }

  /** For instance after a 500, which the documentation does not list. */
  lemma ServerErrorIsHonoured(secs: nat)
    requires 5 <= secs && secs * SECOND < TWO63
    ensures var p := Policy(3, 200_000_000, 5 * SECOND, None, true);
            var w := World(k => if k == 0 then Response(500, Seconds(secs)) else Response(200, Absent), _ => false, _ => false);
            Loop(p, IsIdempotent(Get), w, 0).waits == [secs * SECOND]
  {
    var p := Policy(3, 200_000_000, 5 * SECOND, None, true);
    var w := World(k => if k == 0 then Response(500, Seconds(secs)) else Response(200, Absent), _ => false, _ => false);
    assert Delay(p, 0, w.reply(0)) == secs * SECOND;
    assert Loop(p, true, w, 1) == Outcome([w.reply(1)], [], Replied);
  }

  // ----- the promises in plain terms -----

  /** Why an attempt is worth another one, verb by verb and status by status. */
  lemma RetryableMeans(p: Policy, verb: Verb, r: Reply)
    ensures Retryable(p, IsIdempotent(verb), r) <==>
              (match r
               case NetError(ended) =>
                 !ended && (verb == Get || verb == Head || verb == Options || verb == Put || verb == Delete)
               case Response(status, _) =>
                 && (match p.statuses
                     case Some(list) => status in list
                     case None => status == 429 || status == 500 || status == 502 || status == 503 || status == 504)
                 && (verb == Get || verb == Head || verb == Options || verb == Put || verb == Delete
                     || status == 429 || status == 503))
  {
  }

  /**
   Attempt i is followed by another one exactly when: a network error came back that is not the end of the
   caller's context, and the verb is GET, HEAD, OPTIONS, PUT or DELETE; or a status came back that is in the
   policy's list (429, 500, 502, 503, 504 when there is none), and the verb is one of those or the status
   is 429 or 503; and there are retries left, the context outlives the pause and the body can be rewound.
   */
  lemma RetriedIff(p: Policy, verb: Verb, w: World, i: nat)
    requires i < |Loop(p, IsIdempotent(verb), w, 0).sent|
    ensures i + 1 < |Loop(p, IsIdempotent(verb), w, 0).sent| <==>
              && i < p.maxRetries && !w.doneWhileWaiting(i) && !w.bodyFails(i + 1)
              && (match w.reply(i)
                  case NetError(ended) =>
                    !ended && (verb == Get || verb == Head || verb == Options || verb == Put || verb == Delete)
                  case Response(status, _) =>
                    && (match p.statuses
                        case Some(list) => status in list
                        case None => status == 429 || status == 500 || status == 502 || status == 503 || status == 504)
                    && (verb == Get || verb == Head || verb == Options || verb == Put || verb == Delete
                        || status == 429 || status == 503))
  {
    FollowedIff(p, IsIdempotent(verb), w, 0, i);
    RetryableMeans(p, verb, w.reply(i));
  }

  lemma {:induction false} FollowedIff(p: Policy, idempotent: bool, w: World, attempt: nat, i: nat)
    requires i < |Loop(p, idempotent, w, attempt).sent|
    ensures i + 1 < |Loop(p, idempotent, w, attempt).sent| <==>
              Retryable(p, idempotent, w.reply(attempt + i)) && attempt + i < p.maxRetries
              && !w.doneWhileWaiting(attempt + i) && !w.bodyFails(attempt + i + 1)
    decreases p.maxRetries - attempt
  {
    if !Retryable(p, idempotent, w.reply(attempt)) || attempt >= p.maxRetries || w.doneWhileWaiting(attempt) {
    } else if i > 0 {
      FollowedIff(p, idempotent, w, attempt + 1, i - 1);
    } else {
      assert |Loop(p, idempotent, w, attempt + 1).sent| > 0 <==> !w.bodyFails(attempt + 1);
    }
  }

  /**
   At most once: 429 and 503 say the server declined the request, anything else may mean it acted on it. Of all the
   attempts of a POST only the one whose reply is returned can be of the second kind.
   */
  lemma PostActsAtMostOnce(p: Policy, w: World, i: nat)
    requires i < |Loop(p, IsIdempotent(Post), w, 0).sent|
    requires var r := Loop(p, IsIdempotent(Post), w, 0).sent[i]; !(r.Response? && (r.status == 429 || r.status == 503))
    ensures var o := Loop(p, IsIdempotent(Post), w, 0);
            i == |o.sent| - 1 && o.ending.Replied?
  {
    OnlyRetryableIsRetried(p, IsIdempotent(Post), w, 0, i);
    RetryableMeans(p, Post, w.reply(i));
    FollowedIff(p, IsIdempotent(Post), w, 0, i);
    EndingIs(p, IsIdempotent(Post), w, 0);
  }

  /** How a request ends: the body could not be rewound, the context ended in the last pause, or the last reply is returned. */
  lemma {:induction false} EndingIs(p: Policy, idempotent: bool, w: World, attempt: nat)
    ensures var o := Loop(p, idempotent, w, attempt);
            var n := attempt + |o.sent|;
            && (o.ending.BodyError? <==> w.bodyFails(n) && (|o.sent| > 0 ==> FurtherTry(p, idempotent, w, n - 1)))
            && (o.ending.ContextEnded? <==>
                  |o.sent| > 0 && w.doneWhileWaiting(n - 1) && n - 1 < p.maxRetries && Retryable(p, idempotent, w.reply(n - 1)))
    decreases p.maxRetries - attempt
  {
    if w.bodyFails(attempt) || !FurtherTry(p, idempotent, w, attempt) {
    } else {
      EndingIs(p, idempotent, w, attempt + 1);
    }
  }

  predicate FurtherTry(p: Policy, idempotent: bool, w: World, attempt: nat) {
    Retryable(p, idempotent, w.reply(attempt)) && attempt < p.maxRetries && !w.doneWhileWaiting(attempt)
  }

  /**
   The pause after attempt i: the exponential from the base (200 ms when none is set), capped when there is a cap, and
   the Retry-After of a response when that is asked for and longer: its seconds, or the time left until its date.
   */
  lemma {:induction false} PauseIs(p: Policy, verb: Verb, w: World, i: nat)
    requires Int64Policy(p)
    requires var base := if p.baseDelay <= 0 then 200_000_000 else p.baseDelay;
             if p.maxDelay > 0 then RoomToDouble(base, p.maxDelay) else base * Pow2(i) < 0x8000_0000_0000_0000
    requires var o := Loop(p, IsIdempotent(verb), w, 0); i < |o.waits| && i < |o.sent|
    ensures var wait := Loop(p, IsIdempotent(verb), w, 0).waits[i];
            var doubled := (if p.baseDelay <= 0 then 200_000_000 else p.baseDelay) * Pow2(i);
            var backoff := if p.maxDelay > 0 then Min(doubled, p.maxDelay) else doubled;
            match w.reply(i)
            case NetError(_) => wait == backoff
            case Response(_, header) =>
              if !p.respectRetryAfter then wait == backoff
              else match header
                case Absent => wait == backoff
                case Seconds(secs) =>
                  -0x8000_0000_0000_0000 <= secs * 1_000_000_000 < 0x8000_0000_0000_0000 ==>
                    wait == Max(backoff, secs * 1_000_000_000)
                case Date(left) => wait == Max(backoff, left)
  {
    OnlyRetryableIsRetried(p, IsIdempotent(verb), w, 0, i);
    BackoffIs(p, i);
    DelayIs(p, i, w.reply(i), Doubled(EffectiveBase(p), i, p.maxDelay));
  }

  lemma {:induction false} BackoffIs(p: Policy, i: nat)
    requires Int64Policy(p)
    requires var base := if p.baseDelay <= 0 then 200_000_000 else p.baseDelay;
             if p.maxDelay > 0 then RoomToDouble(base, p.maxDelay) else base * Pow2(i) < 0x8000_0000_0000_0000
    ensures var doubled := (if p.baseDelay <= 0 then 200_000_000 else p.baseDelay) * Pow2(i);
            0 < Doubled(EffectiveBase(p), i, p.maxDelay) == if p.maxDelay > 0 then Min(doubled, p.maxDelay) else doubled
  {
    Pow2Positive(i);
    MulMonotone(EffectiveBase(p), 1, Pow2(i));
    if p.maxDelay > 0 {
      DoubledIsCapped(EffectiveBase(p), i, p.maxDelay);
    } else {
      DoubledUncapped(EffectiveBase(p), i, p.maxDelay);
    }
  }

  lemma DelayIs(p: Policy, i: nat, r: Reply, backoff: int)
    requires backoff == Doubled(EffectiveBase(p), i, p.maxDelay) > 0
    ensures match r
            case NetError(_) => Delay(p, i, r) == backoff
            case Response(_, header) =>
              if !p.respectRetryAfter then Delay(p, i, r) == backoff
              else match header
                case Absent => Delay(p, i, r) == backoff
                case Seconds(secs) =>
                  -0x8000_0000_0000_0000 <= secs * 1_000_000_000 < 0x8000_0000_0000_0000 ==>
                    Delay(p, i, r) == Max(backoff, secs * 1_000_000_000)
                case Date(left) => Delay(p, i, r) == Max(backoff, left)
  {
  }

  /** The loop gives up on a reply only when it must: it is not retryable, or the retries are used up. */
  lemma {:induction false} RepliesOnlyWhenDone(p: Policy, idempotent: bool, w: World, attempt: nat)
    requires Loop(p, idempotent, w, attempt).ending.Replied?
    ensures var sent := Loop(p, idempotent, w, attempt).sent;
            sent != [] && (Retryable(p, idempotent, sent[|sent| - 1]) ==> attempt + |sent| - 1 >= p.maxRetries)
    decreases p.maxRetries - attempt
  {
    if !Retryable(p, idempotent, w.reply(attempt)) || attempt >= p.maxRetries {
    } else {
      RepliesOnlyWhenDone(p, idempotent, w, attempt + 1);
    }
  }
}
