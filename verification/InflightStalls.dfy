/**
 The stall reaper over whole runs: a sender that stops is cut off in time, a sender that keeps moving
 never is, and a chunked body is priced at what had arrived by the last tick.
 */
module InflightStalls {
  import opened Common
  import opened InflightLedger
  import opened InflightRuns

  // ----- what can end or disarm one request -----

  predicate Reaps(slot: Slot, bytesRead: int, complete: bool, now: int) {
    slot.armed && !complete && bytesRead == slot.last && now - slot.progress >= STALL_TIMEOUT_MS
  }

  /** An event for another request leaves this one's closure state alone. */
  lemma OthersUntouched(cfg: Config, s: State, e: Event, i: nat)
    requires i < |s.slots|
    requires !e.Arrive? ==> e.i != i
    ensures i < |Step(cfg, s, e).slots| && Step(cfg, s, e).slots[i] == s.slots[i]
  {
  }

  /**
   A timer tick destroys a request exactly when it releases it, and that is only for a stall, or for a chunked
   body that, at what has arrived by now, no longer fits the budget or its client's share.
   */
  lemma TickEndsOnlyFor(cfg: Config, s: State, i: nat, bytesRead: int, complete: bool, now: int)
    requires Inv(cfg, s) && i < |s.slots| && !s.slots[i].released
    ensures var slot := s.slots[i];
            var actual := Max(Max(1, Min(1_048_576, cfg.budget)), bytesRead - slot.start);
            && (Poll(cfg, s, i, bytesRead, complete, now).slots[i].released <==> Cuts(cfg, s, i, bytesRead, complete, now))
            && (Cuts(cfg, s, i, bytesRead, complete, now) <==>
                  || (slot.armed && !complete && bytesRead == slot.last && now - slot.progress >= 15_000)
                  || (slot.armed && !complete && bytesRead != slot.last && slot.declared.None?
                      && (s.total - slot.reserved + actual > cfg.budget
                          || Held(s.slots, Some(slot.client)) - slot.reserved + actual > cfg.ClientCap())))
  {
  }

  // ----- pricing follows the wire -----

  predicate Priced(cfg: Config, slot: Slot) {
    slot.armed && slot.declared.None? ==> slot.reserved == Actual(cfg, slot, slot.last)
  }

  lemma PollPrices(cfg: Config, s: State, i: nat, bytesRead: int, complete: bool, now: int)
    requires i < |s.slots| && Priced(cfg, s.slots[i])
    ensures Priced(cfg, Poll(cfg, s, i, bytesRead, complete, now).slots[i])
  {
  }

  // ----- from admission to the end of the body -----

  /** The body of request i does not end in here: no 'end' event, no complete message, fewer bytes than declared. */
  predicate Unfinished(declared: Option<nat>, start: int, events: seq<Event>, i: nat) {
    forall e :: e in events ==>
      && e != EndOfBody(i)
      && (e.Tick? && e.i == i ==> !e.complete && (declared.Some? ==> e.bytesRead - start < declared.value))
  }

  predicate Watching(cfg: Config, rq: Request, at0: int, latest: int, slot: Slot) {
    && slot.declared == rq.declared && slot.start == at0 && slot.client == rq.client
    && (slot.armed <==> !slot.released)
    && (slot.armed ==> slot.progress <= latest && Priced(cfg, slot))
  }

  /** A tick on a watched, unfinished body: it is released, or the tick is noted and nothing else changes. */
  lemma WatchTick(cfg: Config, slot: Slot, s: State, i: nat, bytesRead: int, now: int)
    requires i < |s.slots| && slot == s.slots[i] && slot.armed && !slot.released
    requires slot.declared.Some? ==> bytesRead - slot.start < slot.declared.value
    ensures var v := Poll(cfg, s, i, bytesRead, false, now).slots[i];
            && v.declared == slot.declared && v.start == slot.start && v.client == slot.client
            && (v.armed <==> !v.released)
            && (v.armed ==> v.last == bytesRead && v.progress <= Max(slot.progress, now))
  {
  }

  lemma {:induction false} WatchStep(cfg: Config, rq: Request, at0: int, latest: int, s: State, e: Event, i: nat)
    requires Inv(cfg, s) && i < |s.slots| && Watching(cfg, rq, at0, latest, s.slots[i])
    requires Unfinished(rq.declared, at0, [e], i) && (e.Tick? && e.i == i ==> e.now <= latest)
    ensures i < |Step(cfg, s, e).slots| && Watching(cfg, rq, at0, latest, Step(cfg, s, e).slots[i])
    ensures e.Tick? && e.i == i && Step(cfg, s, e).slots[i].armed ==> Step(cfg, s, e).slots[i].last == e.bytesRead
  {
    assert e in [e];
    if e.Arrive? || e.i != i {
      OthersUntouched(cfg, s, e, i);
    } else if e.Tick? {
      PollPrices(cfg, s, i, e.bytesRead, e.complete, e.now);
      if s.slots[i].armed {
        WatchTick(cfg, s.slots[i], s, i, e.bytesRead, e.now);
      }
    }
  }

  lemma {:induction false} WatchedToTheEnd(
      cfg: Config, rq: Request, at0: int, latest: int, s: State, events: seq<Event>, i: nat)
    requires Inv(cfg, s) && i < |s.slots| && Watching(cfg, rq, at0, latest, s.slots[i])
    requires Unfinished(rq.declared, at0, events, i)
    requires forall e :: e in events && e.Tick? && e.i == i ==> e.now <= latest
    ensures i < |Run(cfg, s, events).slots| && Watching(cfg, rq, at0, latest, Run(cfg, s, events).slots[i])
    decreases |events|
  {
    if events == [] {
    } else {
      assert events[0] in events;
      WatchStep(cfg, rq, at0, latest, s, events[0], i);
      StepKeeps(cfg, s, events[0]);
      assert forall e :: e in events[1..] ==> e in events;
      WatchedToTheEnd(cfg, rq, at0, latest, Step(cfg, s, events[0]), events[1..], i);
    }
  }

  /** Arriving with a body: a declared length above 0, or chunked encoding. */
  predicate LetIn(cfg: Config, before: seq<Event>, rq: Request, at0: int, now0: int) {
    var s := Run(cfg, EMPTY, before);
    |Step(cfg, s, Arrive(rq, at0, now0)).slots| > |s.slots|
  }

  /** Every body let in is watched from then on, until it is released or has ended. */
  lemma {:induction false} BodiesAreWatched(
      cfg: Config, before: seq<Event>, rq: Request, at0: int, now0: int, during: seq<Event>, latest: int)
    requires LetIn(cfg, before, rq, at0, now0)
    requires (rq.declared.Some? && rq.declared.value > 0) || (rq.declared.None? && rq.chunked)
    requires var i := |Run(cfg, EMPTY, before).slots|;
             Unfinished(rq.declared, at0, during, i)
             && now0 <= latest && forall e :: e in during && e.Tick? && e.i == i ==> e.now <= latest
    ensures var i := |Run(cfg, EMPTY, before).slots|;
            var t := Run(cfg, EMPTY, before + [Arrive(rq, at0, now0)] + during);
            && t == Run(cfg, Step(cfg, Run(cfg, EMPTY, before), Arrive(rq, at0, now0)), during)
            && Inv(cfg, t) && i < |t.slots| && Watching(cfg, rq, at0, latest, t.slots[i])
  {
    var s := Run(cfg, EMPTY, before);
    var e := Arrive(rq, at0, now0);
    AdmissionIs(cfg, before, rq, at0, now0);
    RunKeeps(cfg, EMPTY, before);
    StepKeeps(cfg, s, e);
    RunKeeps(cfg, Step(cfg, s, e), during);
    WatchedToTheEnd(cfg, rq, at0, latest, Step(cfg, s, e), during, |s.slots|);
    RunConcat(cfg, EMPTY, before + [e], during);
    RunConcat(cfg, EMPTY, before, [e]);
    assert [e][1..] == [] && Run(cfg, s, [e]) == Step(cfg, s, e);
  }

  /**
   A chunked body still arriving is booked, after each of its ticks, at the bytes that have come in since it was let
   in, and never below its opening weight; unless it has been released.
   */
  lemma ChunkedBodiesAreRepriced(
      cfg: Config, before: seq<Event>, rq: Request, at0: int, now0: int, during: seq<Event>, seen: int, now: int)
    requires LetIn(cfg, before, rq, at0, now0) && rq.declared.None? && rq.chunked
    requires Unfinished(rq.declared, at0, during, |Run(cfg, EMPTY, before).slots|)
    ensures var i := |Run(cfg, EMPTY, before).slots|;
            var t := Run(cfg, EMPTY, before + [Arrive(rq, at0, now0)] + (during + [Tick(i, seen, false, now)]));
            && i < |t.slots|
            && (t.slots[i].released || t.slots[i].reserved == Max(Max(1, Min(1_048_576, cfg.budget)), seen - at0))
  {
    var i := |Run(cfg, EMPTY, before).slots|;
    var tick := Tick(i, seen, false, now);
    var latest := LatestOf(during + [tick], now0);
    LatestBounds(during + [tick], now0);
    var s := Step(cfg, Run(cfg, EMPTY, before), Arrive(rq, at0, now0));
    assert forall e :: e in during ==> e in during + [tick];
    assert forall e :: e in during + [tick] ==> e in during || e == tick;
    BodiesAreWatched(cfg, before, rq, at0, now0, during, latest);
    BodiesAreWatched(cfg, before, rq, at0, now0, during + [tick], latest);
    var u := Run(cfg, s, during);
    RunConcat(cfg, s, during, [tick]);
    assert [tick][1..] == [] && Run(cfg, u, [tick]) == Step(cfg, u, tick);
    assert tick in during + [tick];
    WatchStep(cfg, rq, at0, latest, u, tick, i);
  }

  function LatestOf(events: seq<Event>, t: int): int {
    if events == [] then t else LatestOf(events[1..], if events[0].Tick? then Max(t, events[0].now) else t)
  }

  lemma {:induction false} LatestBounds(events: seq<Event>, t: int)
    ensures t <= LatestOf(events, t)
    ensures forall e :: e in events && e.Tick? ==> e.now <= LatestOf(events, t)
  {
    if events == [] {
    } else {
      LatestBounds(events[1..], if events[0].Tick? then Max(t, events[0].now) else t);
      assert forall e :: e in events ==> e == events[0] || e in events[1..];
    }
  }

  // ----- a body that has arrived is left alone -----

  /** A watched request with a declared length has seen less than that. */
  predicate Behind(slot: Slot) {
    slot.armed && slot.declared.Some? ==> slot.last - slot.start < slot.declared.value
  }

  lemma StepBehind(cfg: Config, s: State, e: Event, i: nat)
    requires i < |Step(cfg, s, e).slots| && forall j :: 0 <= j < |s.slots| ==> Behind(s.slots[j])
    ensures Behind(Step(cfg, s, e).slots[i])
  {
    if i < |s.slots| && (e.Arrive? || e.i != i) {
      OthersUntouched(cfg, s, e, i);
    }
  }

  lemma {:induction false} RunBehind(cfg: Config, s: State, events: seq<Event>)
    requires forall j :: 0 <= j < |s.slots| ==> Behind(s.slots[j])
    ensures forall j :: 0 <= j < |Run(cfg, s, events).slots| ==> Behind(Run(cfg, s, events).slots[j])
    decreases |events|
  {
    if events == [] {
    } else {
      var t := Step(cfg, s, events[0]);
      forall j | 0 <= j < |t.slots| ensures Behind(t.slots[j]) {
        StepBehind(cfg, s, events[0], j);
      }
      RunBehind(cfg, t, events[1..]);
    }
  }

  lemma {:induction false} DisarmedStays(cfg: Config, s: State, events: seq<Event>, i: nat)
    requires i < |s.slots| && !s.slots[i].armed && Terminal(i) !in events
    ensures i < |Run(cfg, s, events).slots| && !Run(cfg, s, events).slots[i].armed
    ensures Run(cfg, s, events).slots[i].released == s.slots[i].released
    ensures Run(cfg, s, events).slots[i].reserved == s.slots[i].reserved
    decreases |events|
  {
    if events == [] {
    } else {
      var e := events[0];
      assert e in events;
      if e.Arrive? || e.i != i {
        OthersUntouched(cfg, s, e, i);
      }
      DisarmedStays(cfg, Step(cfg, s, e), events[1..], i);
    }
  }

  /**
   A slow handler is never cut off: once the body is in (its end was seen, or the message is complete, or all
   declared bytes have come), nothing but a terminal event ends the request, and it keeps its reservation till then.
   */
  lemma FinishedBodyIsLeftAlone(cfg: Config, before: seq<Event>, e: Event, later: seq<Event>, i: nat)
    requires i < |Run(cfg, EMPTY, before).slots| && !Run(cfg, EMPTY, before).slots[i].released && Terminal(i) !in later
    requires var slot := Run(cfg, EMPTY, before).slots[i];
             || e == EndOfBody(i)
             || (e.Tick? && e.i == i && e.complete)
             || (e.Tick? && e.i == i && slot.declared.Some? && e.bytesRead - slot.start >= slot.declared.value)
    ensures var slot := Run(cfg, EMPTY, before).slots[i];
            var t := Run(cfg, EMPTY, before + [e] + later);
            i < |t.slots| && !t.slots[i].released && t.slots[i].reserved == slot.reserved
  {
    var s := Run(cfg, EMPTY, before);
    RunBehind(cfg, EMPTY, before);
    assert Behind(s.slots[i]);
    RunConcat(cfg, EMPTY, before + [e], later);
    RunConcat(cfg, EMPTY, before, [e]);
    assert [e][1..] == [] && Run(cfg, s, [e]) == Step(cfg, s, e);
    DisarmedStays(cfg, Step(cfg, s, e), later, i);
  }

  // ----- upper bound: a silent sender is released -----

  /** From here on the body of request i neither completes nor moves past `frozen`. */
  predicate SilentFrom(slot: Slot, events: seq<Event>, i: nat, frozen: int) {
    && (slot.declared.Some? ==> frozen - slot.start < slot.declared.value)
    && (forall e :: e in events ==>
          && e != EndOfBody(i)
          && (e.Tick? && e.i == i ==> e.bytesRead == frozen && !e.complete))
  }

  predicate TickAt(events: seq<Event>, i: nat, at: int) {
    exists e :: e in events && e.Tick? && e.i == i && e.now >= at
  }

  /** Once the counter has been seen at `frozen`, a tick STALL_TIMEOUT_MS later releases the request. */
  lemma {:induction false} StandingStillIsReaped(cfg: Config, s: State, events: seq<Event>, i: nat, at: int)
    requires i < |s.slots| && (s.slots[i].armed || s.slots[i].released)
    requires s.slots[i].armed ==> !s.slots[i].released
    requires SilentFrom(s.slots[i], events, i, s.slots[i].last)
    requires at >= s.slots[i].progress + STALL_TIMEOUT_MS && TickAt(events, i, at)
    ensures i < |Run(cfg, s, events).slots| && Run(cfg, s, events).slots[i].released
    decreases |events|
  {
    if s.slots[i].released {
      ReleasedForGood(cfg, s, events, i);
    } else {
      var e, rest := events[0], events[1..];
      var t := Step(cfg, s, e);
      if e.Arrive? || e.i != i {
        OthersUntouched(cfg, s, e, i);
      }
      assert forall x :: x in rest ==> x in events;
      if t.slots[i].released {
        ReleasedForGood(cfg, t, rest, i);
      } else {
        assert t.slots[i] == s.slots[i];
        var due :| due in events && due.Tick? && due.i == i && due.now >= at;
        assert due in rest;
        StandingStillIsReaped(cfg, t, rest, i, at);
      }
    }
  }

  /** One event of a silent stretch: the request is released, or still armed; its own tick sees the frozen counter. */
  lemma {:induction false} SilentStep(cfg: Config, s: State, e: Event, i: nat, frozen: int)
    requires Inv(cfg, s) && i < |s.slots| && s.slots[i].armed
    requires SilentFrom(s.slots[i], [e], i, frozen)
    ensures i < |Step(cfg, s, e).slots|
    ensures var was, v := s.slots[i], Step(cfg, s, e).slots[i];
            && v.start == was.start && v.declared == was.declared
            && (if v.released then !v.armed
                else v.armed && (if e.Tick? && e.i == i
                                 then v.last == frozen && v.progress <= Max(was.progress, e.now)
                                 else v == was))
  {
    assert e in [e];
    if e.Arrive? || e.i != i {
      OthersUntouched(cfg, s, e, i);
    }
  }

  /** A silent stretch, from a state in which the request is watched, that ends with its third tick after the first one. */
  lemma {:induction false} SilentStretchIsReleased(cfg: Config, s: State, events: seq<Event>, i: nat, frozen: int, lastByteAt: int, tick: nat)
    requires Inv(cfg, s) && i < |s.slots| && s.slots[i].armed
    requires SilentFrom(s.slots[i], events, i, frozen)
    requires tick + 1 < |events| && events[tick].Tick? && events[tick].i == i
    requires forall e :: e in events[..tick] ==> !(e.Tick? && e.i == i)
    requires s.slots[i].progress <= events[tick].now <= lastByteAt + STALL_POLL_MS
    requires events[|events| - 1] == Tick(i, frozen, false, events[tick].now + 3 * STALL_POLL_MS)
    ensures i < |Run(cfg, s, events).slots| && Run(cfg, s, events).slots[i].released
    ensures events[|events| - 1].now <= lastByteAt + STALL_TIMEOUT_MS + STALL_POLL_MS
    decreases tick
  {
    var e, rest := events[0], events[1..];
    var t := Step(cfg, s, e);
    StepKeeps(cfg, s, e);
    assert forall x :: x in rest ==> x in events;
    SilentStep(cfg, s, e, i, frozen);
    if t.slots[i].released {
      ReleasedForGood(cfg, t, rest, i);
    } else if tick == 0 {
      assert events[|events| - 1] in rest;
      StandingStillIsReaped(cfg, t, rest, i, e.now + STALL_TIMEOUT_MS);
    } else {
      assert e in events[..tick];
      assert forall x :: x in rest[..tick - 1] ==> x in events[..tick];
      SilentStretchIsReleased(cfg, t, rest, i, frozen, lastByteAt, tick - 1);
    }
  }

  /**
   Stall bound, upper side, from admission on. A request is let in with a body, which goes on arriving during `during`
   and falls silent in `silent`, where `tick` is its first timer tick, at most 5 s after the last byte, and the last
   event its third tick after that. Whatever else the server does meanwhile, the request is then released, at most
   20 s after its last byte.
   */
  lemma SilentSenderIsReleased(
      cfg: Config, before: seq<Event>, rq: Request, at0: int, now0: int, during: seq<Event>, silent: seq<Event>,
      frozen: int, lastByteAt: int, tick: nat)
    requires LetIn(cfg, before, rq, at0, now0)
    requires (rq.declared.Some? && rq.declared.value > 0) || (rq.declared.None? && rq.chunked)
    requires var i := |Run(cfg, EMPTY, before).slots|;
             && Unfinished(rq.declared, at0, during, i) && Unfinished(rq.declared, at0, silent, i)
             && (forall e :: e in silent && e.Tick? && e.i == i ==> e.bytesRead == frozen)
             && tick + 1 < |silent| && silent[tick].Tick? && silent[tick].i == i
             && (forall e :: e in silent[..tick] ==> !(e.Tick? && e.i == i))
             && now0 <= silent[tick].now <= lastByteAt + 5_000
             && (forall e :: e in during && e.Tick? && e.i == i ==> e.now <= silent[tick].now)
             && silent[|silent| - 1] == Tick(i, frozen, false, silent[tick].now + 15_000)
    ensures var i := |Run(cfg, EMPTY, before).slots|;
            var t := Run(cfg, EMPTY, before + [Arrive(rq, at0, now0)] + during + silent);
            i < |t.slots| && t.slots[i].released && silent[|silent| - 1].now <= lastByteAt + 20_000
  {
    var i := |Run(cfg, EMPTY, before).slots|;
    BodiesAreWatched(cfg, before, rq, at0, now0, during, silent[tick].now);
    RunConcat(cfg, EMPTY, before + [Arrive(rq, at0, now0)] + during, silent);
    var s := Run(cfg, EMPTY, before + [Arrive(rq, at0, now0)] + during);
    if s.slots[i].released {
      ReleasedForGood(cfg, s, silent, i);
    } else {
      assert silent[tick] in silent;
      assert SilentFrom(s.slots[i], silent, i, frozen);
      SilentStretchIsReleased(cfg, s, silent, i, frozen, lastByteAt, tick);
    }
  }

  // ----- lower bound: a moving sender survives -----

  /** Wire(i, t) is the socket byte counter of request i at time t. */
  type Wire = (nat, int) -> int

  /** The run reads the true counters, at times that never go back. */
  ghost predicate Faithful(cfg: Config, s: State, clock: int, events: seq<Event>, wire: Wire)
    decreases |events|
  {
    events == [] ||
    (var e := events[0];
     && (e.Arrive? ==> clock <= e.now && e.bytesRead == wire(|s.slots|, e.now))
     && (e.Tick? ==> clock <= e.now && e.bytesRead == wire(e.i, e.now))
     && Faithful(cfg, Step(cfg, s, e), Clock(clock, e), events[1..], wire))
  }

  function Clock(clock: int, e: Event): int {
    if e.Arrive? || e.Tick? then e.now else clock
  }

  predicate Watched(slot: Slot, i: nat, clock: int, wire: Wire) {
    slot.armed ==> slot.progress <= clock && slot.last == wire(i, slot.progress)
  }

  ghost predicate AllWatched(s: State, clock: int, wire: Wire) {
    forall i: nat :: i < |s.slots| ==> Watched(s.slots[i], i, clock, wire)
  }

  lemma StepWatches(cfg: Config, s: State, clock: int, events: seq<Event>, wire: Wire)
    requires events != [] && AllWatched(s, clock, wire) && Faithful(cfg, s, clock, events, wire)
    ensures AllWatched(Step(cfg, s, events[0]), Clock(clock, events[0]), wire)
  {
    var e := events[0];
    var t := Step(cfg, s, e);
    forall i: nat | i < |t.slots| ensures Watched(t.slots[i], i, Clock(clock, e), wire) {
      if i < |s.slots| && (e.Arrive? || e.i != i) {
        OthersUntouched(cfg, s, e, i);
        assert Watched(s.slots[i], i, clock, wire);
      } else if i < |s.slots| {
        assert Watched(s.slots[i], i, clock, wire);
      }
    }
  }

  lemma {:induction false} ReapedStoodStill(
      cfg: Config, s: State, clock: int, events: seq<Event>, wire: Wire, e: Event)
    requires AllWatched(s, clock, wire)
    requires Faithful(cfg, s, clock, events + [e], wire)
    requires forall i: nat, t: int, u: int :: t <= u ==> wire(i, t) <= wire(i, u)
    requires var at := Run(cfg, s, events);
             e.Tick? && e.i < |at.slots| && Reaps(at.slots[e.i], e.bytesRead, e.complete, e.now)
    ensures forall t :: e.now - STALL_TIMEOUT_MS <= t <= e.now ==> wire(e.i, t) == wire(e.i, e.now)
    decreases |events|
  {
    if events == [] {
      assert (events + [e])[0] == e;
      var slot := s.slots[e.i];
      assert Watched(slot, e.i, clock, wire);
      forall t | e.now - STALL_TIMEOUT_MS <= t <= e.now ensures wire(e.i, t) == wire(e.i, e.now) {
        assert wire(e.i, slot.progress) <= wire(e.i, t) <= wire(e.i, e.now);
      }
    } else {
      assert (events + [e])[0] == events[0] && (events + [e])[1..] == events[1..] + [e];
      StepWatches(cfg, s, clock, events + [e], wire);
      ReapedStoodStill(cfg, Step(cfg, s, events[0]), Clock(clock, events[0]), events[1..], wire, e);
    }
  }

  /**
   Stall bound, lower side: if a tick ends a request whose bytes still fit the budget and its client's share, then its
   true byte counter had not moved once in the 15 s before. So a sender that moves a byte in every such window
   is never cut off for stalling.
   */
  lemma OnlyStillSendersAreReaped(cfg: Config, clock: int, events: seq<Event>, wire: Wire, e: Event)
    requires Faithful(cfg, EMPTY, clock, events + [e], wire)
    requires forall i: nat, t: int, u: int :: t <= u ==> wire(i, t) <= wire(i, u)
    requires var s := Run(cfg, EMPTY, events);
             e.Tick? && e.i < |s.slots| && !s.slots[e.i].released && Step(cfg, s, e).slots[e.i].released
    requires var s := Run(cfg, EMPTY, events);
             var slot := s.slots[e.i];
             var weight := Max(Max(1, Min(1_048_576, cfg.budget)), e.bytesRead - slot.start);
             slot.declared.Some? || (s.total - slot.reserved + weight <= cfg.budget
                                     && Held(s.slots, Some(slot.client)) - slot.reserved + weight <= cfg.ClientCap())
    ensures forall t :: e.now - 15_000 <= t <= e.now ==> wire(e.i, t) == wire(e.i, e.now)
  {
    RunKeeps(cfg, EMPTY, events);
    TickEndsOnlyFor(cfg, Run(cfg, EMPTY, events), e.i, e.bytesRead, e.complete, e.now);
    ReapedStoodStill(cfg, EMPTY, clock, events, wire, e);
  }
}
