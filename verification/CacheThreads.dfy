/** The replay queue and the real writes together: a fetch that a newer fetch replaces. */
module CacheThreads {
  import opened Common
  import opened CacheLedger
  import opened CacheRuns
  import opened ThreadWrites

  /** The cache holds closures; `q` says which write each one performs. */
  ghost predicate Performs(closures: seq<Thread -> Thread>, q: seq<Write>) {
    |closures| == |q| && forall i :: 0 <= i < |q| ==> forall t :: closures[i](t) == Apply(q[i], t)
  }

  lemma {:induction false} PerformsQueue(closures: seq<Thread -> Thread>, q: seq<Write>, t: Thread)
    requires Performs(closures, q)
    ensures ApplyAll(closures, t) == ApplyQueue(q, t)
  {
    if q == [] {
    } else {
      assert Performs(closures[1..], q[1..]);
      PerformsQueue(closures[1..], q[1..], Apply(q[0], t));
    }
  }

  lemma {:induction false} WritesConcat<D>(a: seq<CacheLedger.Event<D>>, b: seq<CacheLedger.Event<D>>)
    ensures Writes(a + b) == Writes(a) + Writes(b)
  {
    if a == [] {
      assert a + b == b;
    } else {
      assert (a + b)[0] == a[0] && (a + b)[1..] == a[1..] + b;
      WritesConcat(a[1..], b);
    }
  }

  /**
   A page fetch is replaced half way: the new one snapshots a thread that already shows the earlier
   writes, so `page` is `base` (what the server alone would have given) with those writes on it. When it
   lands, the whole queue is replayed over it, and still every write counts once.
   */
  lemma ReplacedFetchAppliesEachWriteOnce(
      s: Slot<Thread>, a: seq<CacheLedger.Event<Thread>>, b: seq<CacheLedger.Event<Thread>>,
      before: seq<Write>, after: seq<Write>, base: Thread, keep: bool, keepReplay: bool, next: nat)
    requires Settled(s) && s.cell.value.ref < next
    requires forall e :: e in a ==> InFlight(e)
    requires forall e :: e in b ==> InFlight(e)
    requires Performs(Writes(a), before) && Performs(Writes(b), after)
    requires forall id :: ReplaySafe(before, base, id)
    requires forall id :: ReplaySafe(before + after, s.cell.value.data, id)
    ensures var page := ApplyQueue(before, base);
            var t := Run(s, [FetchStarts] + (a + [FetchStarts] + b) + [FetchLands(page, keep, keepReplay)], next);
            Settled(t) && t.cell.value.data == ApplyQueue(before + after, base)
  {
    var page := ApplyQueue(before, base);
    WritesAround(a, b);
    RestartInFlight(a, b);
    LandedFetchKeepsEveryWrite(s, a + [FetchStarts] + b, page, keep, keepReplay, next);
    PerformsConcat(Writes(a), Writes(b), before, after);
    QueueOverPage(Writes(a) + Writes(b), before, after, base, s.cell.value.data);
  }

  lemma RestartInFlight<D>(a: seq<CacheLedger.Event<D>>, b: seq<CacheLedger.Event<D>>)
    requires forall e :: e in a || e in b ==> InFlight(e)
    ensures forall e :: e in a + [FetchStarts] + b ==> InFlight(e)
  {
  }

  lemma PerformsConcat(a: seq<Thread -> Thread>, b: seq<Thread -> Thread>, p: seq<Write>, q: seq<Write>)
    requires Performs(a, p) && Performs(b, q)
    ensures Performs(a + b, p + q)
  {
  }

  lemma WritesAround<D>(a: seq<CacheLedger.Event<D>>, b: seq<CacheLedger.Event<D>>)
    ensures Writes(a + [FetchStarts] + b) == Writes(a) + Writes(b)
  {
    WritesConcat(a + [FetchStarts], b);
    WritesConcat(a, [FetchStarts]);
    var restart: seq<CacheLedger.Event<D>> := [FetchStarts];
    assert restart[1..] == [];
    assert Writes(a) + [] == Writes(a);
  }

  /** Both ways a landing can leave the thread give every write applied once to `base`. */
  lemma QueueOverPage(closures: seq<Thread -> Thread>, before: seq<Write>, after: seq<Write>, base: Thread, shown: Thread)
    requires Performs(closures, before + after)
    requires forall id :: ReplaySafe(before, base, id)
    requires forall id :: ReplaySafe(before + after, shown, id)
    ensures var page := ApplyQueue(before, base);
            && ApplyAll(closures, page) == ApplyQueue(before + after, base)
            && (page == ApplyAll(closures, shown) ==> page == ApplyQueue(before + after, base))
  {
    var all := before + after;
    var page := ApplyQueue(before, base);
    PerformsQueue(closures, all, page);
    PerformsQueue(closures, all, shown);
    PrefixReplayIsHarmless(before, after, base);
    if page == ApplyAll(closures, shown) {
      PrefixReplayIsHarmless(all, [], shown);
      assert all + [] == all;
    }
  }

  // ----- what the page's handlers queue -----

  /**
   The same for the handlers' own queues, each edit made to a message the thread showed then: the new fetch
   takes over every message that was shown, as fetching an older page does.
   */
  lemma HandlerWritesCountOnce(
      s: Slot<Thread>, a: seq<CacheLedger.Event<Thread>>, b: seq<CacheLedger.Event<Thread>>,
      before: seq<Write>, after: seq<Write>, base: Thread, keep: bool, keepReplay: bool, next: nat)
    requires Settled(s) && s.cell.value.ref < next
    requires forall e :: e in a ==> InFlight(e)
    requires forall e :: e in b ==> InFlight(e)
    requires Performs(Writes(a), before) && Performs(Writes(b), after)
    requires Gated(before + after, s.cell.value.data) && s.cell.value.data.Keys <= base.Keys
    ensures var page := ApplyQueue(before, base);
            var t := Run(s, [FetchStarts] + (a + [FetchStarts] + b) + [FetchLands(page, keep, keepReplay)], next);
            Settled(t) && t.cell.value.data == ApplyQueue(before + after, base)
  {
    var shown := s.cell.value.data;
    GatedOverMore(before + after, |before|, shown, base);
    assert (before + after)[..|before|] == before;
    forall id ensures ReplaySafe(before, base, id) && ReplaySafe(before + after, shown, id) {
      GatedIsReplaySafe(before, base, id);
      GatedIsReplaySafe(before + after, shown, id);
    }
    ReplacedFetchAppliesEachWriteOnce(s, a, b, before, after, base, keep, keepReplay, next);
  }

  // ----- what a replayed queue does to a delivery status -----

  /** After any window that lands, a message of the page carries the page's status with the whole queue run over it. */
  lemma LandedStatus(
      s: Slot<Thread>, mid: seq<CacheLedger.Event<Thread>>, q: seq<Write>, id: string,
      page: Thread, keep: bool, keepReplay: bool, next: nat)
    requires Settled(s) && s.cell.value.ref < next && id in s.cell.value.data && id in page
    requires forall e :: e in mid ==> InFlight(e)
    requires Performs(Writes(mid), q) && !ClearedBy(q, id)
    ensures var t := Run(s, [FetchStarts] + mid + [FetchLands(page, keep, keepReplay)], next);
            t.cell.Some? && id in t.cell.value.data && t.cell.value.data[id].status == DeliveryAfter(q, id, page[id].status)
  {
    var shown := s.cell.value.data;
    LandedFetchKeepsEveryWrite(s, mid, page, keep, keepReplay, next);
    PerformsQueue(Writes(mid), q, page);
    PerformsQueue(Writes(mid), q, shown);
    EffectsAreTheQueue(q, page, id);
    EffectsAreTheQueue(q, shown, id);
    PresentStaysPresent(q, id, page[id]);
    PresentStaysPresent(q, id, shown[id]);
    StatusTwice(q, id, shown[id].status);
  }

  /**
   Delivery over a landing page: acknowledgements are queued as fixed statuses, merged with what was shown when
   they came in. The page's own status is not set back exactly when the queue holds no such set, or the
   last one, advanced by the echoes queued after it, can be reached from it.
   */
  lemma {:induction false} QueuedStatusHoldsIff(
      s: Slot<Thread>, mid: seq<CacheLedger.Event<Thread>>, q: seq<Write>, id: string,
      page: Thread, keep: bool, keepReplay: bool, next: nat)
    requires Settled(s) && s.cell.value.ref < next && id in s.cell.value.data && id in page
    requires forall e :: e in mid ==> InFlight(e)
    requires Performs(Writes(mid), q) && !ClearedBy(q, id)
    ensures var t := Run(s, [FetchStarts] + mid + [FetchLands(page, keep, keepReplay)], next);
            var k := LastSet(q, id);
            && t.cell.Some? && id in t.cell.value.data
            && (Reaches(page[id].status, t.cell.value.data[id].status)
                <==> k == 0 || Reaches(page[id].status, DeliveryAfter(q[k..], id, q[k - 1].edit.status)))
  {
    LandedStatus(s, mid, q, id, page, keep, keepReplay, next);
    var k := LastSet(q, id);
    if k == 0 {
      ClimbIsReached(q, id, page[id].status);
    } else {
      StatusAfterSet(q, k - 1, id, page[id].status);
    }
  }

  function OneMessage(status: Delivery): Thread {
    map["m" := Message("hi", map[], None, Some(status))]
  }

  /** For instance: shown as sent, acknowledged as delivered while a page is on its way that says read. */
  lemma LateAckSetsBack(s: Slot<Thread>, ack: Thread -> Thread, keep: bool, keepReplay: bool, next: nat)
    requires Settled(s) && s.cell.value.ref < next && s.cell.value.data == OneMessage(Sent)
    requires forall t :: ack(t) == Apply(Patch("m", NOTHING.(status := Advance(Some(Sent), Some(Delivered)))), t)
    ensures var page := OneMessage(Read);
            var t := Run(s, [FetchStarts] + [Wrote(ack, keep)] + [FetchLands(page, keep, keepReplay)], next);
            t.cell.Some? && "m" in t.cell.value.data && t.cell.value.data["m"].status == Some(Delivered)
            && !Reaches(page["m"].status, Some(Delivered))
  {
    var wrote: CacheLedger.Event<Thread> := Wrote(ack, keep);
    var w := Patch("m", NOTHING.(status := Some(Delivered)));
    assert [wrote][1..] == [] && Writes([wrote]) == [ack];
    assert Performs([ack], [w]);
    assert !ClearedBy([w], "m");
    LandedStatus(s, [wrote], [w], "m", OneMessage(Read), keep, keepReplay, next);
    StatusAfterSet([w], 0, "m", Some(Read));
    assert [w][1..] == [];
  }
}
