/**
 `writeMessagesCache`, `scheduleReplayOnSettle` and `replayWritesLostToFetch` over the query cache and the
 two module-level maps they share, as they are written. Each method does to its key exactly what
 CacheLedger says and nothing to any other key.
 */
module ChatCache {
  import opened Common
  import opened CacheLedger

  class Cache<!D(==)> {
    var cells: map<string, Cell<D>>
    var fetchStatus: map<string, Status>             // absent: idle
    var writesLostToFetch: map<string, seq<Pending<D>>>
    var settleSubscriptions: set<string>
    var next: nat                                    // references handed out so far

    constructor ()
      ensures forall key :: View(key) == Fresh()
    {
      cells, fetchStatus, writesLostToFetch, settleSubscriptions, next := map[], map[], map[], {}, 0;
    }

    function StatusOf(key: string): Status
      reads this
    {
      if key in fetchStatus then fetchStatus[key] else Idle
    }

    function Queue(key: string): seq<Pending<D>>
      reads this
    {
      if key in writesLostToFetch then writesLostToFetch[key] else []
    }

    ghost function View(key: string): Slot<D>
      reads this
    {
      Slot(if key in cells then Some(cells[key]) else None, StatusOf(key), Queue(key), key in settleSubscriptions)
    }

    /** setQueryData; `keep` is whether an equal value keeps its reference. */
    method SetQueryData(key: string, data: D, keep: bool)
      modifies this`cells, this`next
      ensures next == old(next) + 1
      ensures cells == old(cells)[key := Put(old(View(key)).cell, data, keep, old(next))]
    {
      if !(keep && key in cells && cells[key].data == data) {
        cells := cells[key := Cell(next, data)];
      }
      next := next + 1;
    }

    method ReplayWritesLostToFetch(key: string, keep: bool)
      modifies this`cells, this`writesLostToFetch, this`next
      ensures View(key) == ReplayLost(old(View(key)), keep, old(next))
      ensures old(next) <= next <= old(next) + 1
      ensures forall other :: other != key ==> View(other) == old(View(other))
    {
      var queue := Queue(key);
      if queue == [] {
        return;
      }
      writesLostToFetch := writesLostToFetch - {key};
      if key !in cells || queue[|queue| - 1].wrote == cells[key].ref {
        return;
      }
      var data := cells[key].data;
      var i := 0;
      while i < |queue|
        invariant 0 <= i <= |queue|
        invariant Replay(queue[i..], data) == Replay(queue, cells[key].data)
      {
        assert queue[i..][1..] == queue[i + 1..];
        data := queue[i].apply(data);
        i := i + 1;
      }
      SetQueryData(key, data, keep);
    }

    method ScheduleReplayOnSettle(key: string)
      modifies this`settleSubscriptions
      ensures settleSubscriptions == old(settleSubscriptions) + {key}
    {
      if key in settleSubscriptions {
        return;
      }
      settleSubscriptions := settleSubscriptions + {key};
    }

    method WriteMessagesCache(key: string, apply: D -> D, keep: bool)
      modifies this`cells, this`writesLostToFetch, this`settleSubscriptions, this`next
      ensures View(key) == Step(old(View(key)), Wrote(apply, keep), old(next))
      ensures old(next) <= next <= old(next) + 2
      ensures forall other :: other != key ==> View(other) == old(View(other))
    {
      if key !in cells {
        return;
      }
      SetQueryData(key, apply(cells[key].data), keep);
      if StatusOf(key).Idle? {
        return;
      }
      var queued := Queue(key);
      var wrote := cells[key].ref;
      writesLostToFetch := writesLostToFetch[key := queued + [Pending(apply, wrote)]];
      if queued == [] {
        ScheduleReplayOnSettle(key);
      }
    }

    /** The listener scheduleReplayOnSettle installs, on an event that does not remove the query. */
    method OnQueryEvent(key: string, keep: bool)
      modifies this`cells, this`writesLostToFetch, this`settleSubscriptions, this`next
      ensures View(key) == Notify(old(View(key)), keep, old(next))
      ensures old(next) <= next <= old(next) + 1
      ensures forall other :: other != key ==> View(other) == old(View(other))
    {
      if key !in settleSubscriptions || !StatusOf(key).Idle? {
        return;
      }
      settleSubscriptions := settleSubscriptions - {key};
      ReplayWritesLostToFetch(key, keep);
    }

    /** The cache's own reaction to a page that arrives: store it, become idle, notify. */
    method PageLands(key: string, page: D, keep: bool, keepReplay: bool)
      requires !StatusOf(key).Idle?
      modifies this`cells, this`fetchStatus, this`writesLostToFetch, this`settleSubscriptions, this`next
      ensures View(key) == Step(old(View(key)), FetchLands(page, keep, keepReplay), old(next))
      ensures old(next) <= next <= old(next) + 2
      ensures forall other :: other != key ==> View(other) == old(View(other))
    {
      SetQueryData(key, page, keep);
      fetchStatus := fetchStatus[key := Idle];
      OnQueryEvent(key, keepReplay);
    }

    method FetchEnds(key: string)
      requires !StatusOf(key).Idle?
      modifies this`cells, this`fetchStatus, this`writesLostToFetch, this`settleSubscriptions, this`next
      ensures View(key) == Step(old(View(key)), FetchFails, old(next))
      ensures old(next) <= next <= old(next) + 2
      ensures forall other :: other != key ==> View(other) == old(View(other))
    {
      fetchStatus := fetchStatus[key := Idle];
      OnQueryEvent(key, false);
    }

    method QueryRemoved(key: string)
      modifies this`cells, this`fetchStatus, this`writesLostToFetch, this`settleSubscriptions
      ensures View(key) == Step(old(View(key)), Removed, old(next))
      ensures forall other :: other != key ==> View(other) == old(View(other))
    {
      cells, fetchStatus := cells - {key}, fetchStatus - {key};
      if key in settleSubscriptions {
        settleSubscriptions := settleSubscriptions - {key};
        writesLostToFetch := writesLostToFetch - {key};
      }
    }
  }
}
