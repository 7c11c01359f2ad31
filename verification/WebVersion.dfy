/**
 `wa-web-version.ts`: picking a settled build from the registry, and the resolver around the fetch with its
 success cache, its single flight and its failure backoff.
 */
module WebVersion {
  import opened Common

  const FAILURE_BACKOFF_MS := 60_000
  const WEB_VERSION_SETTLE_MS := 12 * 60 * 60 * 1000

  // ----- pickSettledWebVersion -----

  /** One registry entry; a field is None when it is absent, of the wrong type or unparseable. */
  datatype Entry =
    | Junk
    | Entry(version: Option<string>, beta: bool, released: Option<int>, expire: Option<int>)

  predicate DigitLed(v: string) {
    v != "" && '0' <= v[0] <= '9'
  }

  predicate Qualifies(e: Entry, now: int) {
    && e.Entry?
    && e.version.Some? && DigitLed(e.version.value)
    && !e.beta
    && e.released.Some? && e.released.value <= now - WEB_VERSION_SETTLE_MS
    && (e.expire.Some? ==> now < e.expire.value)
  }

  /** Entry i is the build to pin: it qualifies, none qualifying is newer, and it is the first of the newest. */
  predicate IsNewestSettled(entries: seq<Entry>, now: int, i: int) {
    && 0 <= i < |entries| && Qualifies(entries[i], now)
    && (forall j :: 0 <= j < |entries| && Qualifies(entries[j], now) ==> entries[j].released.value <= entries[i].released.value)
    && (forall j :: 0 <= j < i && Qualifies(entries[j], now) ==> entries[j].released.value < entries[i].released.value)
  }

  /** The build to answer with: the newest settled one, or the registry's current version when none qualifies. */
  ghost predicate IsPick(versions: Option<seq<Entry>>, now: int, currentVersion: Option<string>, picked: Option<string>) {
    if versions.Some? && exists e :: e in versions.value && Qualifies(e, now) then
      exists i :: IsNewestSettled(versions.value, now, i) && picked == versions.value[i].version
    else
      picked == currentVersion
  }

  method PickSettledWebVersion(versions: Option<seq<Entry>>, now: int, currentVersion: Option<string>)
    returns (picked: Option<string>)
    ensures IsPick(versions, now, currentVersion, picked)
  {
    if versions.None? {
      return currentVersion;
    }
    var entries := versions.value;
    var settledCutoff := now - WEB_VERSION_SETTLE_MS;
    var best: Option<(string, int)> := None;
    ghost var at := -1;
    var i := 0;
    while i < |entries|
      invariant 0 <= i <= |entries|
      invariant best.None? ==> forall j :: 0 <= j < i ==> !Qualifies(entries[j], now)
      invariant best.Some? ==> IsNewestSettled(entries[..i], now, at)
                               && entries[at].version == Some(best.value.0) && entries[at].released == Some(best.value.1)
    {
      var e := entries[i];
      i := i + 1;
      assert entries[..i] == entries[..i - 1] + [e];
      if e.Junk? { continue; }
      if e.version.None? || !DigitLed(e.version.value) { continue; }
      if e.beta { continue; }
      if e.released.None? || e.released.value > settledCutoff { continue; }
      if e.expire.Some? && e.expire.value <= now { continue; }
      assert Qualifies(e, now);
      if best.None? || best.value.1 < e.released.value {
        best := Some((e.version.value, e.released.value));
        at := i - 1;
      }
    }
    assert entries[..i] == entries;
    picked := if best.Some? then Some(best.value.0) else currentVersion;
  }

  /** The choice leaves no freedom: the first of the newest is one entry. */
  lemma PickIsUnique(versions: Option<seq<Entry>>, now: int, currentVersion: Option<string>, a: Option<string>, b: Option<string>)
    requires IsPick(versions, now, currentVersion, a) && IsPick(versions, now, currentVersion, b)
    ensures a == b
  {
    if versions.Some? && exists e :: e in versions.value && Qualifies(e, now) {
      var i :| IsNewestSettled(versions.value, now, i) && a == versions.value[i].version;
      var j :| IsNewestSettled(versions.value, now, j) && b == versions.value[j].version;
      assert i == j;
    }
  }

  /**
   In plain terms: the build of entry i is the answer when i is no beta, released at least 12 hours ago, not expired and
   digit-led, nothing else of that kind is newer, and nothing before it is as new; with nothing of that kind the
   answer is the current version.
   */
  lemma PickMeans(versions: seq<Entry>, now: int, currentVersion: Option<string>, picked: Option<string>, i: int)
    requires IsPick(Some(versions), now, currentVersion, picked)
    ensures var settled := (e: Entry) =>
              && e.Entry? && !e.beta
              && e.version.Some? && e.version.value != "" && '0' <= e.version.value[0] <= '9'
              && e.released.Some? && now - e.released.value >= 43_200_000
              && !(e.expire.Some? && e.expire.value <= now);
            && ((forall e :: e in versions ==> !settled(e)) ==> picked == currentVersion)
            && (0 <= i < |versions| && settled(versions[i])
                && (forall j :: 0 <= j < |versions| && settled(versions[j]) ==>
                      versions[j].released.value <= versions[i].released.value)
                && (forall j :: 0 <= j < i && settled(versions[j]) ==>
                      versions[j].released.value < versions[i].released.value)
                ==> picked == versions[i].version)
  {
    forall e ensures Qualifies(e, now) <==>
                       && e.Entry? && !e.beta
                       && e.version.Some? && e.version.value != "" && '0' <= e.version.value[0] <= '9'
                       && e.released.Some? && now - e.released.value >= 43_200_000
                       && !(e.expire.Some? && e.expire.value <= now) {
    }
    if IsNewestSettled(versions, now, i) {
      assert versions[i] in versions;
      PickIsUnique(Some(versions), now, currentVersion, picked, versions[i].version);
    }
  }

  // ----- resolveCurrentWebVersion -----

  /**
   The module variables, and for the record when each fetch was started and what each flight settled to.
   Flight f is the f-th fetch; `lastFailureAt` is 0 until something fails.
   */
  datatype State = State(
    cached: Option<string>,
    inFlight: Option<nat>,
    lastFailureAt: int,
    fetches: seq<int>,
    outcomes: map<nat, Option<string>>
  )

  /** What the fetch comes back with: an error, an HTTP failure or unreadable JSON; or the registry. */
  datatype Response =
    | NoAnswer
    | Registry(currentVersion: Option<string>, versions: Option<seq<Entry>>)

  function Version(v: Option<string>): Option<string> {
    if v.Some? && DigitLed(v.value) then v else None
  }

  /** What a caller gets: a value at once, or the promise of a flight. */
  datatype Answer = At(value: Option<string>) | Joins(flight: nat)

  datatype Event =
    | Call(now: int)
    | CallThrowing(now: int)                        // the fetcher throws before returning a promise
    | Settles(now: int, result: Option<string>)     // the flight outstanding picks a build, or fails

  const START := State(None, None, 0, [], map[])

  predicate BacksOff(s: State, now: int) {
    s.lastFailureAt != 0 && now - s.lastFailureAt < FAILURE_BACKOFF_MS
  }

  predicate Starts(s: State, now: int) {
    s.cached.None? && s.inFlight.None? && !BacksOff(s, now)
  }

  function Reply(s: State, now: int): Answer {
    if s.cached.Some? then At(s.cached)
    else if s.inFlight.Some? then Joins(s.inFlight.value)
    else if BacksOff(s, now) then At(None)
    else Joins(|s.fetches|)
  }

  function Step(s: State, e: Event): State {
    match e
    case Call(now) =>
      if Starts(s, now) then s.(inFlight := Some(|s.fetches|), fetches := s.fetches + [now]) else s
    case CallThrowing(now) =>
      if Starts(s, now) then
        s.(inFlight := Some(|s.fetches|), fetches := s.fetches + [now],
           lastFailureAt := now, outcomes := s.outcomes[|s.fetches| := None])
      else s
    case Settles(now, result) =>
      if s.inFlight.None? || s.inFlight.value in s.outcomes then s
      else
        s.(cached := if result.Some? then result else s.cached,
           lastFailureAt := if result.Some? then s.lastFailureAt else now,
           inFlight := None,
           outcomes := s.outcomes[s.inFlight.value := result])
  }

  function Run(s: State, events: seq<Event>): State
    decreases |events|
  {
    if events == [] then s else Run(Step(s, events[0]), events[1..])
  }

  class Resolver {
    var cachedCurrentVersion: Option<string>
    var inFlight: Option<nat>
    var lastFailureAt: int
    ghost var fetches: seq<int>
    ghost var outcomes: map<nat, Option<string>>
    var started: nat

    constructor ()
      ensures Valid() && View() == START
    {
      cachedCurrentVersion, inFlight, lastFailureAt, fetches, outcomes, started := None, None, 0, [], map[], 0;
    }

    ghost predicate Valid()
      reads this
    {
      started == |fetches|
    }

    ghost function View(): State
      reads this
    {
      State(cachedCurrentVersion, inFlight, lastFailureAt, fetches, outcomes)
    }

    method ResolveCurrentWebVersion(now: int, fetcherThrows: bool) returns (answer: Answer)
      requires Valid()
      modifies this
      ensures Valid()
      ensures answer == Reply(old(View()), now)
      ensures View() == Step(old(View()), if fetcherThrows then CallThrowing(now) else Call(now))
    {
      if cachedCurrentVersion.Some? {
        return At(cachedCurrentVersion);
      }
      if inFlight.Some? {
        return Joins(inFlight.value);
      }
      if lastFailureAt != 0 && now - lastFailureAt < FAILURE_BACKOFF_MS {
        return At(None);
      }
      var flight := started;
      started, fetches := started + 1, fetches + [now];
      if fetcherThrows {
        // the whole async body, its `finally` included, runs before the assignment below
        lastFailureAt, inFlight := now, None;
        outcomes := outcomes[flight := None];
      }
      inFlight := Some(flight);
      answer := Joins(flight);
    }

    /**
     The rest of the async body, once the fetch has answered. A success is the registry's settled build or,
     when none qualifies, its current version if that is a version; anything else is a failure.
     */
    method FlightSettles(now: int, response: Response) returns (result: Option<string>)
      requires Valid() && inFlight.Some? && inFlight.value !in outcomes
      modifies this
      ensures Valid() && View() == Step(old(View()), Settles(now, result))
      ensures if response.NoAnswer? then result.None?
              else
                var named := response.currentVersion;
                var current := if named.Some? && named.value != "" && '0' <= named.value[0] <= '9' then named else None;
                IsPick(response.versions, now, current, result)
      ensures result.Some? ==> DigitLed(result.value)
    {
      result := None;
      if response.Registry? {
        result := PickSettledWebVersion(response.versions, now, Version(response.currentVersion));
      }
      if result.Some? {
        cachedCurrentVersion := result;
      } else {
        lastFailureAt := now;
      }
      outcomes := outcomes[inFlight.value := result];
      inFlight := None;
    }
  }

  // ----- every run with a clock that does not go back and a fetcher that returns a promise -----

  predicate Ordinary(events: seq<Event>, clock: int)
    decreases |events|
  {
    events == [] || (!events[0].CallThrowing? && clock <= events[0].now && Ordinary(events[1..], events[0].now))
  }

  function LastTime(events: seq<Event>, clock: int): int {
    if events == [] then clock else LastTime(events[1..], events[0].now)
  }

  predicate Spaced(fetches: seq<int>) {
    forall i :: 0 < i < |fetches| ==> fetches[i] - fetches[i - 1] >= FAILURE_BACKOFF_MS
  }

  ghost predicate Inv(s: State, clock: int) {
    && 0 < clock && Spaced(s.fetches)
    && (s.fetches != [] ==> s.fetches[|s.fetches| - 1] <= clock)
    && (s.inFlight.Some? ==> s.inFlight.value == |s.fetches| - 1 && s.cached.None?)
    && (forall f: nat :: f in s.outcomes <==> f < |s.fetches| && s.inFlight != Some(f))
    && (s.cached.None? && s.inFlight.None? && s.fetches != [] ==>
          s.fetches[|s.fetches| - 1] <= s.lastFailureAt <= clock && s.lastFailureAt != 0)
    && (s.cached.None? ==> forall f :: f in s.outcomes ==> s.outcomes[f] == None)
    && (s.fetches == [] ==> s.lastFailureAt == 0 && s.cached.None?)
    && (s.cached.Some? ==> s.fetches != [] && s.outcomes[|s.fetches| - 1] == s.cached)
    && (s.fetches != [] ==> 0 < s.fetches[0])
    && s.lastFailureAt >= 0
  }

  lemma StepKeeps(s: State, e: Event, clock: int)
    requires Inv(s, clock) && clock <= e.now && !e.CallThrowing?
    ensures Inv(Step(s, e), e.now)
  {
  }

  lemma {:induction false} RunKeeps(s: State, events: seq<Event>, clock: int)
    requires Inv(s, clock) && Ordinary(events, clock)
    ensures Inv(Run(s, events), LastTime(events, clock))
    decreases |events|
  {
    if events == [] {
    } else {
      StepKeeps(s, events[0], clock);
      RunKeeps(Step(s, events[0]), events[1..], events[0].now);
    }
  }

  /** Single flight: at any point at most one fetch has not settled, and it is the last one started. */
  lemma AtMostOneOutstanding(events: seq<Event>, f: nat, g: nat)
    requires Ordinary(events, 1)
    requires var s := Run(START, events);
             f < |s.fetches| && g < |s.fetches| && f !in s.outcomes && g !in s.outcomes
    ensures f == g == |Run(START, events).fetches| - 1
  {
    RunKeeps(START, events, 1);
  }

  lemma {:induction false} SpacedSpan(fetches: seq<int>)
    requires Spaced(fetches) && fetches != []
    ensures (|fetches| - 1) * FAILURE_BACKOFF_MS <= fetches[|fetches| - 1] - fetches[0]
  {
    var n := |fetches| - 1;
    if n == 0 {
    } else {
      SpacedSpan(fetches[..n]);
    }
  }

  /** Backoff: n fetches take at least n - 1 backoff periods. */
  lemma FetchesAreRateLimited(events: seq<Event>)
    requires Ordinary(events, 1) && Run(START, events).fetches != []
    ensures var fetches := Run(START, events).fetches;
            && (forall i :: 0 < i < |fetches| ==> fetches[i] - fetches[i - 1] >= 60_000)
            && (|fetches| - 1) * 60_000 <= fetches[|fetches| - 1] - fetches[0]
  {
    RunKeeps(START, events, 1);
    SpacedSpan(Run(START, events).fetches);
  }

  /** A success is final: every later call gets it at once and nothing is fetched again, whatever happens. */
  lemma {:induction false} SuccessIsForever(s: State, events: seq<Event>, now: int)
    requires s.cached.Some? && s.inFlight.None?
    ensures Run(s, events) == s && Reply(Run(s, events), now) == At(s.cached)
    decreases |events|
  {
    if events == [] {
    } else {
      assert Step(s, events[0]) == s;
      SuccessIsForever(s, events[1..], now);
    }
  }

  /** All callers of one flight see one value: what a flight settled to never changes. */
  lemma {:induction false} FlightsSettleOnce(s: State, events: seq<Event>, f: nat)
    requires f in s.outcomes && f < |s.fetches|
    ensures f in Run(s, events).outcomes && Run(s, events).outcomes[f] == s.outcomes[f]
    decreases |events|
  {
    if events == [] {
    } else {
      FlightsSettleOnce(Step(s, events[0]), events[1..], f);
    }
  }

  /** A successful flight hands its callers the build every later call gets. */
  lemma JoinedCallersGetTheCachedBuild(events: seq<Event>, now: int)
    requires Ordinary(events, 1) && Run(START, events).cached.Some?
    ensures var s := Run(START, events);
            && s.fetches != [] && |s.fetches| - 1 in s.outcomes
            && At(s.outcomes[|s.fetches| - 1]) == Reply(s, now)
            && s.inFlight.None?
  {
    RunKeeps(START, events, 1);
  }

  // ----- what each caller gets -----

  lemma {:induction false} RunConcat(s: State, a: seq<Event>, b: seq<Event>)
    ensures Run(s, a + b) == Run(Run(s, a), b)
    decreases |a|
  {
    if a == [] {
      assert a + b == b;
    } else {
      assert (a + b)[0] == a[0] && (a + b)[1..] == a[1..] + b;
      RunConcat(Step(s, a[0]), a[1..], b);
    }
  }

  lemma {:induction false} OnlyCallsChangeNothing(s: State, calls: seq<Event>)
    requires forall e :: e in calls ==> e.Call? && !Starts(s, e.now)
    ensures Run(s, calls) == s
    decreases |calls|
  {
    if calls == [] {
    } else {
      assert calls[0] in calls;
      OnlyCallsChangeNothing(s, calls[1..]);
    }
  }

  /** A call that starts a fetch gets that fetch's flight, and so does every call until the flight settles; none fetches again. */
  lemma CallersJoinTheFlight(before: seq<Event>, now: int, calls: seq<Event>, later: int)
    requires Ordinary(before, 1)
    requires |Run(START, before + [Call(now)]).fetches| > |Run(START, before).fetches|
    requires forall e :: e in calls ==> e.Call?
    ensures var f := |Run(START, before).fetches|;
            var t := Run(START, before + [Call(now)] + calls);
            && Reply(Run(START, before), now) == Joins(f)
            && |t.fetches| == f + 1 && t.fetches[f] == now && f !in t.outcomes
            && Reply(t, later) == Joins(f)
  {
    var s := Run(START, before);
    RunKeeps(START, before, 1);
    RunConcat(START, before + [Call(now)], calls);
    RunConcat(START, before, [Call(now)]);
    assert [Call(now)][1..] == [] && Run(s, [Call(now)]) == Step(s, Call(now));
    OnlyCallsChangeNothing(Step(s, Call(now)), calls);
  }

  /** Once that flight settles, its outcome is what all of them get; a build is then every later caller's at once. */
  lemma JoinedCallersGetTheOutcome(
      before: seq<Event>, now: int, calls: seq<Event>, at: int, result: Option<string>, rest: seq<Event>, later: int)
    requires Ordinary(before, 1)
    requires |Run(START, before + [Call(now)]).fetches| > |Run(START, before).fetches|
    requires forall e :: e in calls ==> e.Call?
    ensures var f := |Run(START, before).fetches|;
            var t := Run(START, before + [Call(now)] + calls + [Settles(at, result)] + rest);
            && f in t.outcomes && t.outcomes[f] == result
            && (result.Some? ==> Reply(t, later) == At(result))
  {
    var f := |Run(START, before).fetches|;
    var joined := before + [Call(now)] + calls;
    var u := Run(START, joined);
    var settles := Settles(at, result);
    var v := Step(u, settles);
    CallersJoinTheFlight(before, now, calls, now);
    assert u.cached.None? && u.inFlight == Some(f);
    RunConcat(START, joined + [settles], rest);
    RunConcat(START, joined, [settles]);
    assert [settles][1..] == [] && Run(u, [settles]) == v;
    FlightsSettleOnce(v, rest, f);
    if result.Some? {
      SuccessIsForever(v, rest, later);
    }
  }

  /** For 60 s after a failure callers get null at once and nothing is fetched; the first call after that fetches anew. */
  lemma CallersBackOff(before: seq<Event>, now: int, calls: seq<Event>, at: int, waiting: seq<Event>, later: int)
    requires Ordinary(before + [Call(now)] + calls + [Settles(at, None)], 1)
    requires |Run(START, before + [Call(now)]).fetches| > |Run(START, before).fetches|
    requires forall e :: e in calls ==> e.Call?
    requires forall e :: e in waiting ==> e.Call? && at <= e.now < at + 60_000
    ensures var f := |Run(START, before).fetches|;
            var t := Run(START, before + [Call(now)] + calls + [Settles(at, None)] + waiting);
            && |t.fetches| == f + 1
            && (at <= later < at + 60_000 ==> Reply(t, later) == At(None) && Step(t, Call(later)) == t)
            && (later >= at + 60_000 ==> Reply(t, later) == Joins(f + 1) && Step(t, Call(later)).fetches == t.fetches + [later])
  {
    var joined := before + [Call(now)] + calls;
    var u := Run(START, joined);
    var settles := Settles(at, None);
    var v := Step(u, settles);
    var rest := [Call(now)] + calls + [settles];
    assert joined + [settles] == before + rest;
    OrdinaryPrefix(before, rest, 1);
    OrdinaryTimes(joined + [settles], 1, settles);
    CallersJoinTheFlight(before, now, calls, now);
    RunConcat(START, joined + [settles], waiting);
    RunConcat(START, joined, [settles]);
    assert [settles][1..] == [] && Run(u, [settles]) == v;
    assert v.lastFailureAt == at > 0;
    OnlyCallsChangeNothing(v, waiting);
  }

  lemma {:induction false} OrdinaryPrefix(a: seq<Event>, b: seq<Event>, clock: int)
    requires Ordinary(a + b, clock)
    ensures Ordinary(a, clock)
    decreases |a|
  {
    if a == [] {
    } else {
      assert (a + b)[0] == a[0] && (a + b)[1..] == a[1..] + b;
      OrdinaryPrefix(a[1..], b, a[0].now);
    }
  }

  lemma {:induction false} OrdinaryTimes(events: seq<Event>, clock: int, e: Event)
    requires Ordinary(events, clock) && e in events
    ensures clock <= e.now
    decreases |events|
  {
    if e == events[0] {
    } else {
      OrdinaryTimes(events[1..], events[0].now, e);
    }
  }

  /** The very first call fetches, and gets that flight. */
  lemma FirstCallJoinsTheFirstFlight(now: int)
    ensures Reply(START, now) == Joins(0) && Step(START, Call(now)).fetches == [now]
  {
  }

  // ----- and a fetcher that throws -----

  /** A flight already settled when it was stored is never cleared: no call fetches again, and all get null. */
  lemma {:induction false} ThrowingFetcherSticks(s: State, events: seq<Event>, now: int)
    requires s.cached.None? && s.inFlight.Some? && s.inFlight.value in s.outcomes && s.outcomes[s.inFlight.value].None?
    ensures Run(s, events) == s && Reply(s, now) == Joins(s.inFlight.value)
    decreases |events|
  {
    if events == [] {
    } else {
      assert Step(s, events[0]) == s;
      ThrowingFetcherSticks(s, events[1..], now);
    }
  }

  /** So a call that starts a fetch is ever followed by another one exactly when its fetcher did not throw synchronously. */
  lemma RetriesIffNotThrown(s: State, e: Event, clock: int)
    requires Inv(s, clock) && clock <= e.now && (e.Call? || e.CallThrowing?) && Starts(s, e.now)
    ensures (exists events :: |Run(Step(s, e), events).fetches| > |Step(s, e).fetches|) <==> e.Call?
  {
    var t := Step(s, e);
    if e.CallThrowing? {
      forall events ensures Run(t, events) == t {
        ThrowingFetcherSticks(t, events, e.now);
      }
    } else {
      var fails, again := Settles(e.now, None), Call(e.now + FAILURE_BACKOFF_MS);
      var u := Step(t, fails);
      var v := Step(u, again);
      assert [fails, again][1..] == [again] && [again][1..] == [];
      assert Run(u, [again]) == v && Run(t, [fails, again]) == v;
      assert |Run(t, [fails, again]).fetches| > |t.fetches|;
    }
  }
}
