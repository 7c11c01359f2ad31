/**
 What every run of the in-flight budget keeps: the fast counters agree with the plain sums over the
 live requests, and no bound is ever exceeded between two events.
 */
module InflightRuns {
  import opened Common
  import opened InflightLedger

  // ----- the simple sums -----

  /** What a slot holds of the aggregate (`who` is None) or of one client's share. */
  function Weight(slot: Slot, who: Option<string>): int {
    if slot.released || (who.Some? && who.value != slot.client) then 0 else slot.reserved
  }

  function Held(slots: seq<Slot>, who: Option<string>): int {
    if slots == [] then 0
    else Held(slots[..|slots| - 1], who) + Weight(slots[|slots| - 1], who)
  }

  lemma {:induction false} HeldUpdate(slots: seq<Slot>, i: nat, v: Slot, who: Option<string>)
    requires i < |slots|
    ensures Held(slots[i := v], who) == Held(slots, who) - Weight(slots[i], who) + Weight(v, who)
  {
    var n := |slots| - 1;
    if i == n {
      assert slots[i := v][..n] == slots[..n];
    } else {
      HeldUpdate(slots[..n], i, v, who);
      assert slots[i := v][..n] == slots[..n][i := v];
    }
  }

  lemma HeldAppend(slots: seq<Slot>, v: Slot, who: Option<string>)
    ensures Held(slots + [v], who) == Held(slots, who) + Weight(v, who)
  {
  }

  lemma {:induction false} HeldAtLeast(slots: seq<Slot>, i: nat, who: Option<string>)
    requires i < |slots|
    requires forall j :: 0 <= j < |slots| ==> slots[j].reserved >= 0
    ensures Held(slots, who) >= Weight(slots[i], who)
    ensures Held(slots[..|slots| - 1], who) >= 0
  {
    var n := |slots| - 1;
    if n == 0 {
    } else {
      HeldAtLeast(slots[..n], if i < n then i else 0, who);
    }
  }

  // ----- the invariant -----

  predicate SlotOk(cfg: Config, slot: Slot) {
    && slot.tracked
    && slot.reserved >= 0
    && (slot.declared.Some? ==> slot.reserved == slot.declared.value)
    && (slot.declared.None? && slot.reserved > 0 ==> slot.reserved >= cfg.UndeclaredReservation())
    && (slot.armed ==> !slot.released && slot.reserved > 0)
  }

  predicate Live(s: State, i: int, k: string) {
    0 <= i < |s.slots| && !s.slots[i].released && s.slots[i].client == k
  }

  /** The counters are the sums, and the map names only clients with a live request. */
  ghost predicate Books(cfg: Config, s: State) {
    && (forall i :: 0 <= i < |s.slots| ==> SlotOk(cfg, s.slots[i]))
    && s.total == Held(s.slots, None)
    && (forall k :: Get(s.clients, k, 0) == Held(s.slots, Some(k)))
    && (forall k :: k in s.clients ==> exists i :: Live(s, i, k))
  }

  ghost predicate Bounds(cfg: Config, s: State) {
    && s.total <= cfg.budget
    && (forall k :: Get(s.clients, k, 0) <= cfg.ClientCap())
    && |s.clients| <= MAX_TRACKED_CLIENTS
  }

  ghost predicate Inv(cfg: Config, s: State) {
    Books(cfg, s) && Bounds(cfg, s)
  }

  // ----- admission -----

  lemma {:induction false} AdmitKeeps(cfg: Config, s: State, rq: Request, bytesRead: int, now: int)
    requires Inv(cfg, s)
    ensures Inv(cfg, Admit(cfg, s, rq, bytesRead, now))
  {
    if Judge(cfg, s, rq) == Next {
      var t := Admit(cfg, s, rq, bytesRead, now);
      var slot := t.slots[|s.slots|];
      HeldAppend(s.slots, slot, None);
      forall k ensures Get(t.clients, k, 0) == Held(t.slots, Some(k)) {
        HeldAppend(s.slots, slot, Some(k));
      }
      forall k | k in t.clients ensures exists i :: Live(t, i, k) {
        if k == rq.client {
          assert Live(t, |s.slots|, k);
        } else {
          var i :| Live(s, i, k);
          assert Live(t, i, k);
        }
      }
    }
  }

  // ----- release -----

  lemma ReleaseShare(cfg: Config, s: State, i: nat, k: string)
    requires Books(cfg, s) && i < |s.slots|
    ensures 0 <= Get(Release(s, i).clients, k, 0) == Held(Release(s, i).slots, Some(k)) <= Get(s.clients, k, 0)
  {
    var slot := s.slots[i];
    HeldAtLeast(s.slots, i, Some(k));
    HeldAtLeast(s.slots, i, Some(slot.client));
    HeldUpdate(s.slots, i, slot.(released := true, armed := false), Some(k));
    HeldAtLeast(Release(s, i).slots, i, Some(k));
  }

  lemma ReleaseKeys(cfg: Config, s: State, i: nat)
    requires Books(cfg, s) && i < |s.slots|
    ensures Release(s, i).clients.Keys <= s.clients.Keys
    ensures |Release(s, i).clients| <= |s.clients|
  {
  }

  lemma SubsetSize<T>(a: set<T>, b: set<T>)
    requires a <= b
    ensures |a| <= |b|
  {
    assert |b| == |a| + |b - a| by {
      assert b == a + (b - a);
    }
  }

  lemma ReleaseBooks(cfg: Config, s: State, i: nat)
    requires Books(cfg, s) && i < |s.slots|
    ensures Books(cfg, Release(s, i))
  {
    var slot := s.slots[i];
    if !slot.released {
      var t := Release(s, i);
      HeldUpdate(s.slots, i, slot.(released := true, armed := false), None);
      forall k ensures Get(t.clients, k, 0) == Held(t.slots, Some(k)) {
        ReleaseShare(cfg, s, i, k);
      }
      ReleaseKeys(cfg, s, i);
      forall k | k in t.clients ensures exists j :: Live(t, j, k) {
        ReleaseLive(cfg, s, i, k);
      }
    }
  }

  lemma ReleaseLive(cfg: Config, s: State, i: nat, k: string)
    requires Books(cfg, s) && i < |s.slots| && !s.slots[i].released
    requires k in Release(s, i).clients && k in s.clients
    ensures exists j :: Live(Release(s, i), j, k)
  {
    var t := Release(s, i);
    if k == s.slots[i].client {
      ReleaseShare(cfg, s, i, k);
      PositiveIsLive(t, k);
    } else {
      var j :| Live(s, j, k);
      assert Live(t, j, k);
    }
  }

  lemma PositiveIsLive(s: State, k: string)
    requires Held(s.slots, Some(k)) > 0
    ensures exists i :: Live(s, i, k)
    decreases |s.slots|
  {
    var n := |s.slots| - 1;
    if Weight(s.slots[n], Some(k)) > 0 {
      assert Live(s, n, k);
    } else {
      var shorter := s.(slots := s.slots[..n]);
      PositiveIsLive(shorter, k);
      var i :| Live(shorter, i, k);
      assert Live(s, i, k);
    }
  }

  /** A released request holds nothing: repeating a terminal event changes nothing. */
  lemma ReleaseOnce(s: State, i: nat)
    requires i < |s.slots|
    ensures Release(Release(s, i), i) == Release(s, i)
  {
  }

  /** Which of two requests ends first does not matter, even when they share a client. */
  lemma {:induction false} ReleasesCommute(cfg: Config, s: State, i: nat, j: nat)
    requires Books(cfg, s) && i < |s.slots| && j < |s.slots|
    ensures Release(Release(s, i), j) == Release(Release(s, j), i)
  {
    if i != j && !s.slots[i].released && !s.slots[j].released {
      HeldAtLeast(s.slots, i, Some(s.slots[i].client));
      HeldAtLeast(s.slots, j, Some(s.slots[j].client));
      HeldAtLeastBoth(s.slots, i, j, s.slots[i].client);
      ReleasesCommuteAt(s, i, j);
    }
  }

  lemma ReleasesCommuteAt(s: State, i: nat, j: nat)
    requires i < |s.slots| && j < |s.slots| && i != j
    requires var a, b := s.slots[i], s.slots[j];
             && !a.released && !b.released && a.tracked && b.tracked && a.reserved >= 0 && b.reserved >= 0
             && Get(s.clients, a.client, 0) >= a.reserved && Get(s.clients, b.client, 0) >= b.reserved
             && (a.client == b.client ==> Get(s.clients, a.client, 0) >= a.reserved + b.reserved)
    ensures Release(Release(s, i), j) == Release(Release(s, j), i)
  {
    var ab, ba := Release(Release(s, i), j), Release(Release(s, j), i);
    assert ab.slots == ba.slots;
    assert ab.clients == ba.clients;
  }

  lemma {:induction false} HeldAtLeastBoth(slots: seq<Slot>, i: nat, j: nat, k: string)
    requires i < |slots| && j < |slots| && i != j
    requires forall l :: 0 <= l < |slots| ==> slots[l].reserved >= 0
    ensures Held(slots, Some(k)) >= Weight(slots[i], Some(k)) + Weight(slots[j], Some(k))
  {
    var gone := slots[i].(released := true);
    HeldUpdate(slots, i, gone, Some(k));
    HeldAtLeast(slots[i := gone], j, Some(k));
  }

  // ----- mid-stream re-pricing -----

  /** Re-pricing an armed request touches a key that is already in the map. */
  lemma RepricingInsertsNoKey(cfg: Config, s: State, i: nat, bytesRead: int)
    requires Books(cfg, s) && i < |s.slots| && s.slots[i].armed
    ensures Repriced(cfg, s, i, bytesRead).clients.Keys == s.clients.Keys
  {
    HeldAtLeast(s.slots, i, Some(s.slots[i].client));
  }

  lemma RepricedBooks(cfg: Config, s: State, i: nat, bytesRead: int)
    requires Books(cfg, s) && i < |s.slots| && s.slots[i].armed && s.slots[i].declared.None?
    ensures Books(cfg, Repriced(cfg, s, i, bytesRead))
  {
    var slot := s.slots[i];
    var t := Repriced(cfg, s, i, bytesRead);
    var v := t.slots[i];
    HeldUpdate(s.slots, i, v, None);
    forall k ensures Get(t.clients, k, 0) == Held(t.slots, Some(k)) {
      HeldUpdate(s.slots, i, v, Some(k));
    }
    RepricingInsertsNoKey(cfg, s, i, bytesRead);
    forall k | k in t.clients ensures exists j :: Live(t, j, k) {
      var j :| Live(s, j, k);
      assert Live(t, j, k);
    }
  }

  lemma {:induction false} ReconcileKeeps(cfg: Config, s: State, i: nat, bytesRead: int)
    requires Inv(cfg, s) && i < |s.slots| && s.slots[i].armed && s.slots[i].declared.None?
    ensures Inv(cfg, Reconcile(cfg, s, i, bytesRead))
  {
    var priced := Repriced(cfg, s, i, bytesRead);
    RepricedBooks(cfg, s, i, bytesRead);
    RepricingInsertsNoKey(cfg, s, i, bytesRead);
    SubsetSize(priced.clients.Keys, s.clients.Keys);
    if OverBudget(cfg, priced, i) {
      ReleaseBooks(cfg, priced, i);
      ReleaseKeys(cfg, priced, i);
      forall k ensures Get(Release(priced, i).clients, k, 0) <= cfg.ClientCap() {
        AbortRestores(cfg, s, i, bytesRead, k);
      }
      assert s.slots[i].reserved >= 0;
    } else {
      forall k ensures Get(priced.clients, k, 0) <= cfg.ClientCap() {
        assert k == s.slots[i].client || Get(priced.clients, k, 0) == Get(s.clients, k, 0);
      }
    }
  }

  /** Aborting a re-priced request gives back the re-priced amount, not the placeholder. */
  lemma AbortRestores(cfg: Config, s: State, i: nat, bytesRead: int, k: string)
    requires Books(cfg, s) && i < |s.slots| && s.slots[i].armed && s.slots[i].declared.None?
    ensures var after := Release(Repriced(cfg, s, i, bytesRead), i);
            && after.total == s.total - s.slots[i].reserved
            && Get(after.clients, k, 0) == Get(s.clients, k, 0) - Weight(s.slots[i], Some(k)) <= Get(s.clients, k, 0)
  {
    var priced := Repriced(cfg, s, i, bytesRead);
    RepricedBooks(cfg, s, i, bytesRead);
    ReleaseShare(cfg, priced, i, k);
    HeldUpdate(s.slots, i, priced.slots[i], Some(k));
    HeldUpdate(priced.slots, i, priced.slots[i].(released := true, armed := false), Some(k));
  }

  lemma {:induction false} ReleaseKeeps(cfg: Config, s: State, i: nat)
    requires Inv(cfg, s) && i < |s.slots|
    ensures Inv(cfg, Release(s, i))
  {
    ReleaseBooks(cfg, s, i);
    ReleaseKeys(cfg, s, i);
    forall k ensures Get(Release(s, i).clients, k, 0) <= cfg.ClientCap() {
      ReleaseShare(cfg, s, i, k);
    }
  }

  lemma RelabelKeeps(cfg: Config, s: State, i: nat, v: Slot)
    requires Inv(cfg, s) && i < |s.slots| && SlotOk(cfg, v)
    requires v.client == s.slots[i].client && v.reserved == s.slots[i].reserved && v.released == s.slots[i].released
    ensures Inv(cfg, s.(slots := s.slots[i := v]))
  {
    var t := s.(slots := s.slots[i := v]);
    HeldUpdate(s.slots, i, v, None);
    forall k ensures Get(t.clients, k, 0) == Held(t.slots, Some(k)) {
      HeldUpdate(s.slots, i, v, Some(k));
    }
    forall k | k in t.clients ensures exists j :: Live(t, j, k) {
      var j :| Live(s, j, k);
      assert Live(t, j, k);
    }
  }

  lemma {:induction false} PollKeeps(cfg: Config, s: State, i: nat, bytesRead: int, complete: bool, now: int)
    requires Inv(cfg, s) && i < |s.slots|
    ensures Inv(cfg, Poll(cfg, s, i, bytesRead, complete, now))
  {
    var slot := s.slots[i];
    if slot.armed {
      if complete {
        RelabelKeeps(cfg, s, i, slot.(armed := false));
      } else if bytesRead != slot.last {
        var priced := if slot.declared.None? then Reconcile(cfg, s, i, bytesRead) else s;
        if slot.declared.None? {
          ReconcileKeeps(cfg, s, i, bytesRead);
        }
        var v := priced.slots[i].(last := bytesRead, progress := now);
        RelabelKeeps(cfg, priced, i, v);
        var moved := priced.(slots := priced.slots[i := v]);
        RelabelKeeps(cfg, moved, i, v.(armed := false));
      } else {
        ReleaseKeeps(cfg, s, i);
      }
    }
  }

  // ----- runs -----

  lemma {:induction false} StepKeeps(cfg: Config, s: State, e: Event)
    requires Inv(cfg, s)
    ensures Inv(cfg, Step(cfg, s, e))
  {
    match e
    case Arrive(rq, bytesRead, now) => AdmitKeeps(cfg, s, rq, bytesRead, now);
    case Terminal(i) => if i < |s.slots| { ReleaseKeeps(cfg, s, i); }
    case EndOfBody(i) => if i < |s.slots| { RelabelKeeps(cfg, s, i, s.slots[i].(armed := false)); }
    case Tick(i, bytesRead, complete, now) => if i < |s.slots| { PollKeeps(cfg, s, i, bytesRead, complete, now); }
  }

  lemma {:induction false} RunKeeps(cfg: Config, s: State, events: seq<Event>)
    requires Inv(cfg, s)
    ensures Inv(cfg, Run(cfg, s, events))
    decreases |events|
  {
    if events == [] {
    } else {
      StepKeeps(cfg, s, events[0]);
      RunKeeps(cfg, Step(cfg, s, events[0]), events[1..]);
    }
  }

  /**
   Conservation and boundedness over every run from start-up, whatever order the requests, the timer
   ticks and the (possibly repeated) terminal events come in.
   */
  lemma {:induction false} EveryRunBalances(cfg: Config, events: seq<Event>, k: string)
    ensures var s := Run(cfg, EMPTY, events);
            && s.total == Held(s.slots, None) <= cfg.budget
            && Get(s.clients, k, 0) == Held(s.slots, Some(k)) <= cfg.ClientCap()
            && |s.clients| <= MAX_TRACKED_CLIENTS
            && (forall i :: 0 <= i < |s.slots| ==> s.slots[i].tracked && s.slots[i].reserved >= 0)
  {
    RunKeeps(cfg, EMPTY, events);
  }

  /**
   Admission, in terms of what live requests hold. A body weighs its declared length; a chunked one of unknown length
   1 MiB, or the whole budget if that is less, but at least 1; anything else 0. A compressed body is answered 415;
   one that would take the total past the budget, its client past the share, or the map past 10,000 clients,
   503; and neither changes anything. Any other is let in, and watched exactly when it weighs something.
   */
  lemma AdmissionIs(cfg: Config, events: seq<Event>, rq: Request, bytesRead: int, now: int)
    ensures var s := Run(cfg, EMPTY, events);
            var weight: int := match rq.declared
              case Some(n) => n
              case None => if rq.chunked then Max(1, Min(1_048_576, cfg.budget)) else 0;
            var compressed := (rq.chunked || rq.lengthIsNumber) && rq.encoded;
            var fits :=
              && Held(s.slots, None) + weight <= cfg.budget
              && Held(s.slots, Some(rq.client)) + weight <= cfg.ClientCap()
              && (|s.clients| < 10_000 || rq.client in s.clients);
            var watched := (rq.declared.Some? && rq.declared.value > 0) || (rq.declared.None? && rq.chunked);
            && Judge(cfg, s, rq) == (if compressed then Compressed415 else if fits then Next else Busy503)
            && Step(cfg, s, Arrive(rq, bytesRead, now)).slots
               == (if compressed || !fits then s.slots
                   else s.slots + [Slot(rq.client, rq.declared, true, bytesRead, weight, false, watched, bytesRead, now)])
            && (compressed || !fits ==> Step(cfg, s, Arrive(rq, bytesRead, now)) == s)
  {
    RunKeeps(cfg, EMPTY, events);
    var s := Run(cfg, EMPTY, events);
    assert Get(s.clients, rq.client, 0) == Held(s.slots, Some(rq.client));
  }

  /** The share: half the budget by default, otherwise the fraction asked for, never nothing and never more than all. */
  lemma ShareIs(cfg: Config)
    ensures cfg.perClientShare.None? ==> cfg.ClientCap() == Max(1, cfg.budget / 2)
    ensures cfg.perClientShare.Some? && 1.0 / 4503599627370496.0 <= cfg.perClientShare.value <= 1.0 ==>
              cfg.ClientCap() == Max(1, (cfg.budget as real * cfg.perClientShare.value).Floor)
    ensures cfg.perClientShare.Some? && cfg.perClientShare.value > 1.0 ==> cfg.ClientCap() == Max(1, cfg.budget)
    ensures cfg.perClientShare.Some? && cfg.perClientShare.value < 1.0 / 4503599627370496.0 ==>
              cfg.ClientCap() == Max(1, (cfg.budget as real * (1.0 / 4503599627370496.0)).Floor)
  {
    if cfg.perClientShare.None? {
      assert (cfg.budget as real * 0.5).Floor == cfg.budget / 2;
    }
    assert (cfg.budget as real * 1.0).Floor == cfg.budget;
  }

  lemma {:induction false} RunConcat(cfg: Config, s: State, a: seq<Event>, b: seq<Event>)
    ensures Run(cfg, s, a + b) == Run(cfg, Run(cfg, s, a), b)
    decreases |a|
  {
    if a == [] {
      assert a + b == b;
    } else {
      assert (a + b)[0] == a[0] && (a + b)[1..] == a[1..] + b;
      RunConcat(cfg, Step(cfg, s, a[0]), a[1..], b);
    }
  }

  lemma {:induction false} ReleasedForGood(cfg: Config, s: State, events: seq<Event>, i: nat)
    requires i < |s.slots| && s.slots[i].released && !s.slots[i].armed
    ensures i < |Run(cfg, s, events).slots| && Run(cfg, s, events).slots[i].released
    decreases |events|
  {
    if events == [] {
    } else {
      ReleasedForGood(cfg, Step(cfg, s, events[0]), events[1..], i);
    }
  }

  /** A terminal event ends its request, for good. */
  lemma TerminalEnds(cfg: Config, before: seq<Event>, i: nat, after: seq<Event>)
    requires i < |Run(cfg, EMPTY, before).slots|
    ensures var t := Run(cfg, EMPTY, before + [Terminal(i)] + after);
            i < |t.slots| && t.slots[i].released
  {
    var s := Run(cfg, EMPTY, before);
    RunKeeps(cfg, EMPTY, before);
    RunConcat(cfg, EMPTY, before + [Terminal(i)], after);
    RunConcat(cfg, EMPTY, before, [Terminal(i)]);
    assert [Terminal(i)][1..] == [];
    assert Run(cfg, s, [Terminal(i)]) == Step(cfg, s, Terminal(i));
    ReleasedForGood(cfg, Step(cfg, s, Terminal(i)), after, i);
  }

  predicate Ended(cfg: Config, events: seq<Event>, i: nat) {
    exists j :: 0 <= j < |events| && events[j] == Terminal(i) && i < |Run(cfg, EMPTY, events[..j]).slots|
  }

  /** Nothing leaks: when each admitted request has had a terminal event, the counter is 0 and the map is empty. */
  lemma EndedRunIsEmpty(cfg: Config, events: seq<Event>)
    requires forall i: nat :: i < |Run(cfg, EMPTY, events).slots| ==> Ended(cfg, events, i)
    ensures Run(cfg, EMPTY, events).total == 0 && Run(cfg, EMPTY, events).clients == map[]
  {
    var t := Run(cfg, EMPTY, events);
    forall i: nat | i < |t.slots| ensures t.slots[i].released {
      assert Ended(cfg, events, i);
      var j :| 0 <= j < |events| && events[j] == Terminal(i) && i < |Run(cfg, EMPTY, events[..j]).slots|;
      assert events == events[..j] + [Terminal(i)] + events[j + 1..];
      TerminalEnds(cfg, events[..j], i, events[j + 1..]);
    }
    DrainedRunIsEmpty(cfg, events);
  }

  lemma DrainedRunIsEmpty(cfg: Config, events: seq<Event>)
    requires forall slot :: slot in Run(cfg, EMPTY, events).slots ==> slot.released
    ensures Run(cfg, EMPTY, events).total == 0
    ensures Run(cfg, EMPTY, events).clients == map[]
  {
    RunKeeps(cfg, EMPTY, events);
    var s := Run(cfg, EMPTY, events);
    NothingHeld(s.slots, None);
    assert forall i, k :: !Live(s, i, k);
  }

  lemma {:induction false} NothingHeld(slots: seq<Slot>, who: Option<string>)
    requires forall slot :: slot in slots ==> slot.released
    ensures Held(slots, who) == 0
  {
    if slots == [] {
    } else {
      NothingHeld(slots[..|slots| - 1], who);
    }
  }

  // ----- isolation between clients -----

  lemma {:induction false} OnlyOneClient(slots: seq<Slot>, busy: string)
    requires forall slot :: slot in slots && !slot.released ==> slot.client == busy
    ensures Held(slots, None) == Held(slots, Some(busy))
    ensures forall k :: k != busy ==> Held(slots, Some(k)) == 0
  {
    if slots == [] {
    } else {
      OnlyOneClient(slots[..|slots| - 1], busy);
    }
  }

  /**
   One client cannot crowd out the rest: with the default share and a budget of at least 2, while
   only `busy` has live requests, any other client's uncompressed request up to the share is admitted.
   */
  lemma {:induction false} OtherClientsGetIn(cfg: Config, events: seq<Event>, busy: string, rq: Request)
    requires cfg.perClientShare.None? && cfg.budget >= 2
    requires forall slot :: slot in Run(cfg, EMPTY, events).slots && !slot.released ==> slot.client == busy
    requires rq.client != busy && !rq.encoded
    ensures Judge(cfg, Run(cfg, EMPTY, events), rq) == Next <==>
              (match rq.declared
               case Some(n) => n
               case None => if rq.chunked then Max(1, Min(1_048_576, cfg.budget)) else 0) <= cfg.budget / 2
  {
    RunKeeps(cfg, EMPTY, events);
    var s := Run(cfg, EMPTY, events);
    OnlyOneClient(s.slots, busy);
    assert |s.clients| <= 1 by {
      assert s.clients.Keys <= {busy};
      SubsetSize(s.clients.Keys, {busy});
    }
    assert Get(s.clients, rq.client, 0) == 0;
    assert s.total == Get(s.clients, busy, 0) <= cfg.ClientCap();
    ShareIs(cfg);
  }

  /** With a budget of 1 the two minimal shares no longer fit side by side. */
  lemma BudgetOfOneIsShared()
    ensures var cfg := Config(1, None);
            var byte := c => Request(c, Some(1), true, false, false);
            var s := Admit(cfg, EMPTY, byte("a"), 0, 0);
            Judge(cfg, EMPTY, byte("a")) == Next && Judge(cfg, s, byte("b")) == Busy503
  {
  }

  /**
   Sizing: with the default budget of four body limits and the default share, a client that is alone
   may hold two full-limit bodies, and a third is refused.
   */
  lemma TwoFullBodiesButNotThree(limit: nat, client: string)
    requires limit > 0
    ensures var cfg := Config(4 * limit, None);
            var full := Request(client, Some(limit), true, false, false);
            var one := Admit(cfg, EMPTY, full, 0, 0);
            var two := Admit(cfg, one, full, 0, 0);
            && Judge(cfg, EMPTY, full) == Next
            && Judge(cfg, one, full) == Next
            && Judge(cfg, two, full) == Busy503
  {
  }
}
