/**
 One key of the paged message cache on values: what a write, a page fetch and the settle subscription
 do to it. References are numbered, so that "the same value object" and "an equal value" are two
 different questions, as they are for the identity test in `replayWritesLostToFetch`.
 */
module CacheLedger {
  import opened Common

  datatype Status = Idle | Fetching | Paused

  datatype Cell<D> = Cell(ref: nat, data: D)

  datatype Pending<!D> = Pending(apply: D -> D, wrote: nat)

  datatype Slot<!D> = Slot(cell: Option<Cell<D>>, status: Status, queue: seq<Pending<D>>, subscribed: bool)

  function Fresh<D>(): Slot<D> {
    Slot(None, Idle, [], false)
  }

  /**
   Store a value. The cache may keep the old reference when the new value equals the old one
   (structural sharing, or an updater returning its argument); otherwise the reference is new.
   */
  ghost function Put<D>(was: Option<Cell<D>>, data: D, keep: bool, next: nat): Cell<D> {
    if keep && was.Some? && was.value.data == data then was.value else Cell(next, data)
  }

  function Replay<D>(queue: seq<Pending<D>>, data: D): D {
    if queue == [] then data else Replay(queue[1..], queue[0].apply(data))
  }

  // ----- writeMessagesCache -----

  ghost function Write<D>(s: Slot<D>, apply: D -> D, keep: bool, next: nat): Slot<D> {
    if s.cell.None? then s else
      var cell := Put(s.cell, apply(s.cell.value.data), keep, next);
      if s.status.Idle? then s.(cell := Some(cell)) else
        s.(cell := Some(cell),
           queue := s.queue + [Pending(apply, cell.ref)],
           subscribed := s.subscribed || s.queue == [])
  }

  // ----- replayWritesLostToFetch -----

  ghost function ReplayLost<D>(s: Slot<D>, keep: bool, next: nat): Slot<D> {
    if s.queue == [] then s
    else if s.cell.None? || s.queue[|s.queue| - 1].wrote == s.cell.value.ref then s.(queue := [])
    else s.(queue := [], cell := Some(Put(s.cell, Replay(s.queue, s.cell.value.data), keep, next)))
  }

  // ----- the settle subscription -----

  ghost function Notify<D>(s: Slot<D>, keep: bool, next: nat): Slot<D> {
    if s.subscribed && s.status.Idle? then ReplayLost(s.(subscribed := false), keep, next) else s
  }

  // ----- what can happen to the key -----

  datatype Event<!D> =
    | Wrote(apply: D -> D, keep: bool)
    | FetchStarts               // from idle, or a new fetch replacing the running one
    | FetchPauses
    | FetchResumes
    | FetchLands(page: D, keep: bool, keepReplay: bool)
    | FetchFails
    | Removed
    | HookSeesIdle(keep: bool)  // the hook's effect, after a render that saw 'idle'

  /** Each event may create up to two values; `next` and `next + 1` name them. */
  ghost function Step<D>(s: Slot<D>, e: Event<D>, next: nat): Slot<D> {
    match e
    case Wrote(apply, keep) => Write(s, apply, keep, next)
    case FetchStarts => s.(status := Fetching)
    case FetchPauses => if s.status.Fetching? then s.(status := Paused) else s
    case FetchResumes => if s.status.Paused? then s.(status := Fetching) else s
    case FetchLands(page, keep, keepReplay) =>
      if s.status.Idle? then s
      else Notify(s.(cell := Some(Put(s.cell, page, keep, next)), status := Idle), keepReplay, next + 1)
    case FetchFails => if s.status.Idle? then s else Notify(s.(status := Idle), false, next)
    case Removed => if s.subscribed then Fresh() else Slot(None, Idle, s.queue, false)
    case HookSeesIdle(keep) => ReplayLost(s, keep, next)
  }

  ghost function Run<D>(s: Slot<D>, events: seq<Event<D>>, next: nat): Slot<D>
    decreases |events|
  {
    if events == [] then s else Run(Step(s, events[0], next), events[1..], next + 2)
  }
}
