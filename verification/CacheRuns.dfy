/**
 The replay queue against a reference that has none: the reference just remembers which writes were
 made since the cache was last idle, and applies them to whatever page lands.
 */
module CacheRuns {
  import opened Common
  import opened CacheLedger

  // ----- the reference -----

  datatype Ref<!D> = Ref(data: Option<D>, busy: bool, since: seq<D -> D>)

  function ApplyAll<D>(writes: seq<D -> D>, data: D): D {
    if writes == [] then data else ApplyAll(writes[1..], writes[0](data))
  }

  /**
   `kept` says the landed page was stored as the very value that was there: the page equals the cache
   and already shows every write.
   */
  ghost predicate Kept<D>(r: Ref<D>, page: D, keep: bool) {
    keep && r.data == Some(page)
  }

  ghost function RefStep<D>(r: Ref<D>, e: Event<D>): Ref<D> {
    match e
    case Wrote(apply, _) =>
      if r.data.None? then r
      else Ref(Some(apply(r.data.value)), r.busy, if r.busy then r.since + [apply] else [])
    case FetchStarts => r.(busy := true)
    case FetchPauses => r
    case FetchResumes => r
    case FetchLands(page, keep, _) =>
      if !r.busy then r
      else if Kept(r, page, keep) then Ref(Some(page), false, [])
      else Ref(Some(ApplyAll(r.since, page)), false, [])
    case FetchFails => Ref(r.data, false, [])
    case Removed => Ref(None, false, [])
    case HookSeesIdle(_) => if r.busy then r.(since := []) else r   // a stale effect: see StaleHookLoses
  }

  ghost function RefRun<D>(r: Ref<D>, events: seq<Event<D>>): Ref<D>
    decreases |events|
  {
    if events == [] then r else RefRun(RefStep(r, events[0]), events[1..])
  }

  // ----- refinement -----

  function Applies<D>(queue: seq<Pending<D>>): seq<D -> D> {
    if queue == [] then [] else [queue[0].apply] + Applies(queue[1..])
  }

  ghost predicate Agrees<D>(s: Slot<D>, r: Ref<D>, next: nat) {
    && (s.cell.Some? <==> r.data.Some?)
    && (s.cell.Some? ==> s.cell.value.data == r.data.value && s.cell.value.ref < next)
    && (r.busy <==> !s.status.Idle?)
    && Applies(s.queue) == r.since
    && (s.queue != [] ==> s.subscribed && s.cell.Some? && s.queue[|s.queue| - 1].wrote == s.cell.value.ref)
    && (s.status.Idle? ==> s.queue == [] && !s.subscribed)
  }

  lemma {:induction false} AppliesAppend<D>(queue: seq<Pending<D>>, p: Pending<D>)
    ensures Applies(queue + [p]) == Applies(queue) + [p.apply]
  {
    if queue == [] {
      assert queue + [p] == [p];
      assert Applies([p][1..]) == [];
    } else {
      AppliesAppend(queue[1..], p);
      assert (queue + [p])[1..] == queue[1..] + [p];
    }
  }

  lemma {:induction false} ReplayIsApplyAll<D>(queue: seq<Pending<D>>, data: D)
    ensures Replay(queue, data) == ApplyAll(Applies(queue), data)
  {
    if queue == [] {
    } else {
      ReplayIsApplyAll(queue[1..], queue[0].apply(data));
      assert Applies(queue)[1..] == Applies(queue[1..]);
    }
  }

  lemma WriteAgrees<D>(s: Slot<D>, r: Ref<D>, apply: D -> D, keep: bool, next: nat)
    requires Agrees(s, r, next)
    ensures Agrees(Write(s, apply, keep, next), RefStep(r, Wrote(apply, keep)), next + 2)
  {
    if s.cell.Some? {
      AppliesAppend(s.queue, Pending(apply, Put(s.cell, apply(s.cell.value.data), keep, next).ref));
    }
  }

  lemma LandingAgrees<D>(s: Slot<D>, r: Ref<D>, page: D, keep: bool, keepReplay: bool, next: nat)
    requires Agrees(s, r, next)
    ensures Agrees(Step(s, FetchLands(page, keep, keepReplay), next), RefStep(r, FetchLands(page, keep, keepReplay)), next + 2)
  {
    ReplayIsApplyAll(s.queue, page);
  }

  lemma {:induction false} StepAgrees<D>(s: Slot<D>, r: Ref<D>, e: Event<D>, next: nat)
    requires Agrees(s, r, next)
    ensures Agrees(Step(s, e, next), RefStep(r, e), next + 2)
  {
    match e {
      case Wrote(apply, keep) => WriteAgrees(s, r, apply, keep, next);
      case FetchLands(page, keep, keepReplay) => LandingAgrees(s, r, page, keep, keepReplay, next);
      case _ =>
    }
  }

  /** Over every interleaving the cache shows what the reference shows, and a non-empty queue has its subscription. */
  lemma {:induction false} RunAgrees<D>(s: Slot<D>, r: Ref<D>, events: seq<Event<D>>, next: nat)
    requires Agrees(s, r, next)
    ensures Agrees(Run(s, events, next), RefRun(r, events), next + 2 * |events|)
    decreases |events|
  {
    if events == [] {
    } else {
      StepAgrees(s, r, events[0], next);
      RunAgrees(Step(s, events[0], next), RefStep(r, events[0]), events[1..], next + 2);
    }
  }

  // ----- the promise, window by window -----

  /** Nothing in here settles the fetch; the fetch may pause, resume or be replaced by a new one. */
  predicate InFlight<D>(e: Event<D>) {
    e.Wrote? || e.FetchStarts? || e.FetchPauses? || e.FetchResumes?
  }

  function Writes<D>(events: seq<Event<D>>): seq<D -> D> {
    if events == [] then []
    else if events[0].Wrote? then [events[0].apply] + Writes(events[1..])
    else Writes(events[1..])
  }

  lemma {:induction false} InFlightRef<D>(r: Ref<D>, events: seq<Event<D>>)
    requires r.busy && r.data.Some?
    requires forall e :: e in events ==> InFlight(e)
    ensures RefRun(r, events) == Ref(Some(ApplyAll(Writes(events), r.data.value)), true, r.since + Writes(events))
    decreases |events|
  {
    if events == [] {
      assert r.since + Writes(events) == r.since;
    } else {
      var e, rest := events[0], events[1..];
      assert InFlight(e);
      var after := RefStep(r, e);
      InFlightRef(after, rest);
      if e.Wrote? {
        assert Writes(events) == [e.apply] + Writes(rest);
        assert Writes(events)[1..] == Writes(rest);
        SinceGrows(r.since, e.apply, Writes(rest));
      }
    }
  }

  lemma SinceGrows<D>(since: seq<D -> D>, apply: D -> D, rest: seq<D -> D>)
    ensures since + ([apply] + rest) == (since + [apply]) + rest
  {
  }

  lemma {:induction false} RefRunLast<D>(r: Ref<D>, events: seq<Event<D>>, last: Event<D>)
    ensures RefRun(r, events + [last]) == RefStep(RefRun(r, events), last)
    decreases |events|
  {
    if events == [] {
      assert events + [last] == [last];
      assert RefRun(RefStep(r, last), [last][1..]) == RefStep(r, last);
    } else {
      assert (events + [last])[0] == events[0] && (events + [last])[1..] == events[1..] + [last];
      RefRunLast(RefStep(r, events[0]), events[1..], last);
    }
  }

  ghost predicate Settled<D>(s: Slot<D>) {
    s.status.Idle? && s.queue == [] && !s.subscribed && s.cell.Some?
  }

  /** A fetch that fails loses nothing and repeats nothing: every write is in the cache exactly once. */
  lemma FailedFetchAppliesEachWriteOnce<D>(s: Slot<D>, mid: seq<Event<D>>, next: nat)
    requires Settled(s) && s.cell.value.ref < next
    requires forall e :: e in mid ==> InFlight(e)
    ensures var t := Run(s, [FetchStarts] + mid + [FetchFails], next);
            Settled(t) && t.cell.value.data == ApplyAll(Writes(mid), s.cell.value.data)
  {
    WindowAgrees(s, mid, FetchFails, next);
  }

  /**
   A fetch that lands keeps every write made since it started, in order, on top of the landed page:
   the only exception is a page equal to the cache and stored as the same object, which already shows them.
   */
  lemma LandedFetchKeepsEveryWrite<D>(s: Slot<D>, mid: seq<Event<D>>, page: D, keep: bool, keepReplay: bool, next: nat)
    requires Settled(s) && s.cell.value.ref < next
    requires forall e :: e in mid ==> InFlight(e)
    ensures var t := Run(s, [FetchStarts] + mid + [FetchLands(page, keep, keepReplay)], next);
            && Settled(t)
            && (t.cell.value.data == ApplyAll(Writes(mid), page)
                || (keep && t.cell.value.data == page == ApplyAll(Writes(mid), s.cell.value.data)))
  {
    WindowAgrees(s, mid, FetchLands(page, keep, keepReplay), next);
  }

  lemma WindowAgrees<D>(s: Slot<D>, mid: seq<Event<D>>, last: Event<D>, next: nat)
    requires Settled(s) && s.cell.value.ref < next
    requires forall e :: e in mid ==> InFlight(e)
    ensures var d := s.cell.value.data;
            var events := [FetchStarts] + mid + [last];
            Agrees(Run(s, events, next), RefStep(Ref(Some(ApplyAll(Writes(mid), d)), true, Writes(mid)), last), next + 2 * |events|)
  {
    var d := s.cell.value.data;
    var events := [FetchStarts] + mid + [last];
    RunAgrees(s, Ref(Some(d), false, []), events, next);
    var busy := Ref(Some(d), true, []);
    InFlightRef(busy, mid);
    assert busy.since + Writes(mid) == Writes(mid);
    RefRunLast(busy, mid, last);
    assert events[0] == FetchStarts && events[1..] == mid + [last];
  }

  // ----- outside any fetch -----

  /** While nothing is being fetched a write is applied at once, once, and nothing is queued. */
  lemma {:induction false} IdleWritesApply<D>(s: Slot<D>, writes: seq<Event<D>>, next: nat)
    requires Settled(s) && forall e :: e in writes ==> e.Wrote?
    ensures var t := Run(s, writes, next);
            Settled(t) && t.cell.value.data == ApplyAll(Writes(writes), s.cell.value.data)
    decreases |writes|
  {
    if writes == [] {
    } else {
      assert writes[0] in writes;
      IdleWritesApply(Step(s, writes[0], next), writes[1..], next + 2);
    }
  }

  /** A key that holds nothing is never seeded: only a landing page puts something there, and the page as it came. */
  lemma {:induction false} NeverSeeded<D>(s: Slot<D>, events: seq<Event<D>>, next: nat)
    requires s.cell.None? && s.queue == [] && forall e :: e in events ==> !e.FetchLands?
    ensures Run(s, events, next).cell.None? && Run(s, events, next).queue == []
    decreases |events|
  {
    if events == [] {
    } else {
      assert events[0] in events;
      NeverSeeded(Step(s, events[0], next), events[1..], next + 2);
    }
  }

  lemma {:induction false} RunLast<D>(s: Slot<D>, events: seq<Event<D>>, e: Event<D>, next: nat)
    ensures Run(s, events + [e], next) == Step(Run(s, events, next), e, next + 2 * |events|)
    decreases |events|
  {
    if events == [] {
      assert events + [e] == [e] && [e][1..] == [];
      assert Run(Step(s, e, next), [e][1..], next + 2) == Step(s, e, next);
    } else {
      assert (events + [e])[0] == events[0] && (events + [e])[1..] == events[1..] + [e];
      RunLast(Step(s, events[0], next), events[1..], e, next + 2);
    }
  }

  /** The first page of a chat lands as it came, whatever was written to the empty key before. */
  lemma FirstPageLandsAsItCame<D>(events: seq<Event<D>>, page: D, keep: bool, keepReplay: bool, next: nat)
    requires forall e :: e in events ==> InFlight(e)
    ensures var t := Run(Fresh<D>(), [FetchStarts] + events + [FetchLands(page, keep, keepReplay)], next);
            Settled(t) && t.cell.value.data == page
  {
    var all := [FetchStarts] + events;
    var r: Ref<D> := Ref(None, false, []);
    var last: Event<D> := FetchLands(page, keep, keepReplay);
    RunAgrees(Fresh<D>(), r, all + [last], next);
    assert all[0] == FetchStarts && all[1..] == events && (all + [last])[0] == FetchStarts && (all + [last])[1..] == events + [last];
    RefRunLast(Ref(None, true, []), events, last);
    NothingToRemember(events);
  }

  lemma {:induction false} NothingToRemember<D>(events: seq<Event<D>>)
    requires forall e :: e in events ==> InFlight(e)
    ensures RefRun(Ref<D>.Ref(None, true, []), events) == Ref(None, true, [])
    decreases |events|
  {
    if events == [] {
    } else {
      assert InFlight(events[0]);
      NothingToRemember(events[1..]);
    }
  }

  /** A query that is removed takes its queue along: the next page lands as it came. */
  lemma RemovalForgets<D>(s: Slot<D>, mid: seq<Event<D>>, page: D, keep: bool, keepReplay: bool, next: nat)
    requires Settled(s) && s.cell.value.ref < next
    requires forall e :: e in mid ==> InFlight(e)
    ensures var t := Run(s, [FetchStarts] + mid + [Removed] + [FetchStarts] + [FetchLands(page, keep, keepReplay)], next);
            Settled(t) && t.cell.value.data == page
  {
    var d := s.cell.value.data;
    var gone := [FetchStarts] + mid + [Removed];
    WindowAgrees(s, mid, Removed, next);
    var u := Run(s, gone, next);
    var restart: Event<D> := FetchStarts;
    var last: Event<D> := FetchLands(page, keep, keepReplay);
    RunLast(s, gone, restart, next);
    RunLast(s, gone + [restart], last, next);
    assert u.cell.None? && u.queue == [];
  }

  // ----- the hook's effect, when it comes too late -----

  lemma {:induction false} ApplyAllConcat<D>(a: seq<D -> D>, b: seq<D -> D>, data: D)
    ensures ApplyAll(a + b, data) == ApplyAll(b, ApplyAll(a, data))
  {
    if a == [] {
      assert a + b == b;
    } else {
      assert (a + b)[1..] == a[1..] + b;
      ApplyAllConcat(a[1..], b, a[0](data));
    }
  }

  /** What a landing may leave: the page with the writes on it, or the cached value, kept because it equals the page. */
  ghost predicate Landed<D>(writes: seq<D -> D>, page: D, shown: D, keep: bool, result: D) {
    result == ApplyAll(writes, page) || (keep && result == page == shown)
  }

  function StaleHookRun<D>(mid: seq<Event<D>>, page: D, keep: bool, keepReplay: bool): seq<Event<D>> {
    [HookSeesIdle(keepReplay)] + mid + [FetchLands(page, keep, keepReplay)]
  }

  /**
   The hook's effect runs after the render that saw 'idle'. If a fetch has started by then, the effect empties the
   queue early. Whatever is written and however the fetch goes on before the page lands, exactly the writes
   queued before the effect are missing from the result.
   */
  lemma StaleHookLoses<D>(s: Slot<D>, r: Ref<D>, mid: seq<Event<D>>, page: D, keep: bool, keepReplay: bool, next: nat)
    requires Agrees(s, r, next) && r.busy && r.data.Some?
    requires forall e :: e in mid ==> InFlight(e)
    ensures var t := Run(s, StaleHookRun(mid, page, keep, keepReplay), next);
            Settled(t) && Landed(Writes(mid), page, ApplyAll(Writes(mid), r.data.value), keep, t.cell.value.data)
  {
    RunAgrees(s, r, StaleHookRun(mid, page, keep, keepReplay), next);
    StaleHookRef(r, mid, page, keep, keepReplay);
  }

  lemma StaleHookRef<D>(r: Ref<D>, mid: seq<Event<D>>, page: D, keep: bool, keepReplay: bool)
    requires r.busy && r.data.Some?
    requires forall e :: e in mid ==> InFlight(e)
    ensures RefRun(r, StaleHookRun(mid, page, keep, keepReplay))
            == RefStep(Ref(Some(ApplyAll(Writes(mid), r.data.value)), true, Writes(mid)), FetchLands(page, keep, keepReplay))
  {
    var events := StaleHookRun(mid, page, keep, keepReplay);
    var last: Event<D> := FetchLands(page, keep, keepReplay);
    var emptied := r.(since := []);
    assert events[0] == HookSeesIdle(keepReplay) && events[1..] == mid + [last];
    InFlightRef(emptied, mid);
    RefRunLast(emptied, mid, last);
    assert emptied.since + Writes(mid) == Writes(mid);
  }

  /** What the queue promises, of one stretch after the effect and one landing. */
  ghost predicate KeepsPromise<D>(
      s: Slot<D>, r: Ref<D>, next: nat, mid: seq<Event<D>>, page: D, keep: bool, keepReplay: bool)
    requires r.data.Some?
  {
    (forall e :: e in mid ==> InFlight(e)) ==>
      var t := Run(s, StaleHookRun(mid, page, keep, keepReplay), next);
      var shown := ApplyAll(Writes(mid), r.data.value);
      t.cell.Some? && Landed(r.since + Writes(mid), page, shown, keep, t.cell.value.data)
  }

  ghost predicate AlwaysKeepsPromise<D(!new)>(s: Slot<D>, r: Ref<D>, next: nat)
    requires r.data.Some?
  {
    forall mid: seq<Event<D>>, page: D, keep: bool, keepReplay: bool ::
      KeepsPromise(s, r, next, mid, page, keep, keepReplay)
  }

  ghost predicate ChangesNothing<D(!new)>(writes: seq<D -> D>) {
    forall page: D :: ApplyAll(writes, page) == page
  }

  /**
   So a stale effect keeps the promise, for every stretch of events, every page and either kind of storing, exactly
   when the writes queued before it change no page at all.
   */
  lemma HookSafeIff<D(!new)>(s: Slot<D>, r: Ref<D>, next: nat)
    requires Agrees(s, r, next) && r.busy && r.data.Some?
    ensures AlwaysKeepsPromise(s, r, next) <==> ChangesNothing(r.since)
  {
    if ChangesNothing(r.since) {
      forall mid: seq<Event<D>>, page: D, keep: bool, keepReplay: bool
        ensures KeepsPromise(s, r, next, mid, page, keep, keepReplay)
      {
        if forall e :: e in mid ==> InFlight(e) {
          StaleHookLoses(s, r, mid, page, keep, keepReplay, next);
          ApplyAllConcat(r.since, Writes(mid), page);
        }
      }
    } else {
      var page :| ApplyAll(r.since, page) != page;
      var none: seq<Event<D>> := [];
      StaleHookLoses(s, r, none, page, false, false, next);
      assert r.since + Writes(none) == r.since;
      assert !KeepsPromise(s, r, next, none, page, false, false);
    }
  }
}
