/**
 The bookkeeping of `createInflightBodyBudget` on values: what one admission, one timer tick and one
 terminal event do to the aggregate counter, the per-client map and the reservations of the admitted
 requests. The class in InflightBudget.dfy is proved against these functions; the properties of whole
 runs are proved in InflightRuns.dfy and InflightStalls.dfy.
 */
module InflightLedger {
  import opened Common

  const STALL_TIMEOUT_MS := 15_000
  const STALL_POLL_MS := 5_000
  const UNDECLARED_OPENING_RESERVATION_BYTES := 1024 * 1024
  const MAX_TRACKED_CLIENTS := 10_000
  const NUMBER_EPSILON: real := 1.0 / 4503599627370496.0

  datatype Config = Config(budget: nat, perClientShare: Option<real>) {
    function Share(): real {
      var wanted := perClientShare.GetOr(0.5);
      var floored := if wanted < NUMBER_EPSILON then NUMBER_EPSILON else wanted;
      if floored > 1.0 then 1.0 else floored
    }

    function ClientCap(): nat {
      Max(1, (budget as real * Share()).Floor)
    }

    function UndeclaredReservation(): nat {
      Max(1, Min(UNDECLARED_OPENING_RESERVATION_BYTES, budget))
    }
  }

  /** What the middleware reads off the request line and headers. */
  datatype Request = Request(
    client: string,
    declared: Option<nat>,      // parseDeclaredLength of Content-Length
    lengthIsNumber: bool,       // Number(Content-Length) is not NaN
    chunked: bool,              // Transfer-Encoding present
    encoded: bool               // Content-Encoding present and not 'identity'
  )

  /** The closure state of one admitted request. */
  datatype Slot = Slot(
    client: string,
    declared: Option<nat>,
    tracked: bool,              // not mapAtCapacity
    start: int,
    reserved: int,
    released: bool,
    armed: bool,                // stallTimer !== undefined
    last: int,
    progress: int
  )

  datatype State = State(total: int, clients: map<string, int>, slots: seq<Slot>)

  datatype Verdict = Next | Busy503 | Compressed415

  const EMPTY := State(0, map[], [])

  function Get(m: map<string, int>, k: string, default: int): int {
    if k in m then m[k] else default
  }

  function OpeningReservation(cfg: Config, rq: Request): nat {
    match rq.declared
    case Some(n) => n
    case None => if rq.chunked then cfg.UndeclaredReservation() else 0
  }

  function Judge(cfg: Config, s: State, rq: Request): Verdict {
    var reserved := OpeningReservation(cfg, rq);
    if (rq.chunked || rq.lengthIsNumber) && rq.encoded then Compressed415
    else if || s.total + reserved > cfg.budget
            || Get(s.clients, rq.client, 0) + reserved > cfg.ClientCap()
            || (|s.clients| >= MAX_TRACKED_CLIENTS && rq.client !in s.clients) then Busy503
    else Next
  }

  function Admit(cfg: Config, s: State, rq: Request, bytesRead: int, now: int): State {
    if Judge(cfg, s, rq) != Next then s else
      var reserved := OpeningReservation(cfg, rq);
      var atCapacity := |s.clients| >= MAX_TRACKED_CLIENTS && rq.client !in s.clients;
      var slot := Slot(rq.client, rq.declared, !atCapacity, bytesRead, reserved, false, reserved > 0, bytesRead, now);
      State(
        s.total + reserved,
        if atCapacity then s.clients else s.clients[rq.client := Get(s.clients, rq.client, 0) + reserved],
        s.slots + [slot])
  }

  function Release(s: State, i: nat): State
    requires i < |s.slots|
  {
    var slot := s.slots[i];
    if slot.released then s else
      var busy := Get(s.clients, slot.client, slot.reserved) - slot.reserved;
      State(
        s.total - slot.reserved,
        if !slot.tracked then s.clients
        else if busy > 0 then s.clients[slot.client := busy]
        else s.clients - {slot.client},
        s.slots[i := slot.(released := true, armed := false)])
  }

  function Disarm(s: State, i: nat): State
    requires i < |s.slots|
  {
    s.(slots := s.slots[i := s.slots[i].(armed := false)])
  }

  function Actual(cfg: Config, slot: Slot, bytesRead: int): int {
    Max(cfg.UndeclaredReservation(), bytesRead - slot.start)
  }

  /** The state after re-pricing slot i, before the bounds are looked at again. */
  function Repriced(cfg: Config, s: State, i: nat, bytesRead: int): State
    requires i < |s.slots|
  {
    var slot := s.slots[i];
    var actual := Actual(cfg, slot, bytesRead);
    var delta := actual - slot.reserved;
    State(
      s.total + delta,
      if slot.tracked then s.clients[slot.client := Get(s.clients, slot.client, 0) + delta] else s.clients,
      s.slots[i := slot.(reserved := actual)])
  }

  predicate OverBudget(cfg: Config, s: State, i: nat)
    requires i < |s.slots|
  {
    || (s.slots[i].tracked && Get(s.clients, s.slots[i].client, 0) > cfg.ClientCap())
    || s.total > cfg.budget
  }

  function Reconcile(cfg: Config, s: State, i: nat, bytesRead: int): State
    requires i < |s.slots|
  {
    if Actual(cfg, s.slots[i], bytesRead) == s.slots[i].reserved then s else
      var priced := Repriced(cfg, s, i, bytesRead);
      if OverBudget(cfg, priced, i) then Release(priced, i) else priced
  }

  function Poll(cfg: Config, s: State, i: nat, bytesRead: int, complete: bool, now: int): State
    requires i < |s.slots|
  {
    var slot := s.slots[i];
    if !slot.armed then s
    else if complete then Disarm(s, i)
    else if bytesRead != slot.last then
      var priced := if slot.declared.None? then Reconcile(cfg, s, i, bytesRead) else s;
      var moved := priced.(slots := priced.slots[i := priced.slots[i].(last := bytesRead, progress := now)]);
      if slot.declared.Some? && bytesRead - slot.start >= slot.declared.value then Disarm(moved, i) else moved
    else if now - slot.progress >= STALL_TIMEOUT_MS then Release(s, i)
    else s
  }

  /** Whether this tick cuts the sender off: it stood still too long, or its chunked body outgrew a bound. */
  predicate Cuts(cfg: Config, s: State, i: nat, bytesRead: int, complete: bool, now: int)
    requires i < |s.slots|
  {
    var slot := s.slots[i];
    slot.armed && !complete &&
    if bytesRead != slot.last then
      slot.declared.None? && Actual(cfg, slot, bytesRead) != slot.reserved && OverBudget(cfg, Repriced(cfg, s, i, bytesRead), i)
    else now - slot.progress >= STALL_TIMEOUT_MS
  }

  /** One thing the server can observe; the five terminal events share one handler. */
  datatype Event =
    | Arrive(rq: Request, bytesRead: int, now: int)
    | Terminal(i: nat)
    | EndOfBody(i: nat)
    | Tick(i: nat, bytesRead: int, complete: bool, now: int)

  function Step(cfg: Config, s: State, e: Event): State {
    match e
    case Arrive(rq, bytesRead, now) => Admit(cfg, s, rq, bytesRead, now)
    case Terminal(i) => if i < |s.slots| then Release(s, i) else s
    case EndOfBody(i) => if i < |s.slots| then Disarm(s, i) else s
    case Tick(i, bytesRead, complete, now) =>
      if i < |s.slots| then Poll(cfg, s, i, bytesRead, complete, now) else s
  }

  function Run(cfg: Config, s: State, events: seq<Event>): State
    decreases |events|
  {
    if events == [] then s else Run(cfg, Step(cfg, s, events[0]), events[1..])
  }
}
