/**
 `createInflightBodyBudget` as it is written: two shared counters and, per admitted request, closure
 variables that the handlers update in place. Every method is proved to do exactly what the functions
 of InflightLedger say, so the run theorems hold of it.
 */
module InflightBudget {
  import opened Common
  import opened InflightLedger

  /** The variables one admitted request's closures share. */
  class Admission {
    ghost const id: nat
    const client: string
    const declared: Option<nat>
    const mapAtCapacity: bool
    const startBytes: int
    var reserved: int
    var released: bool
    var armed: bool
    var lastBytes: int
    var lastProgress: int

    constructor (ghost id: nat, client: string, declared: Option<nat>, mapAtCapacity: bool, reserved: int, bytesRead: int, now: int)
      ensures this.id == id
      ensures View() == Slot(client, declared, !mapAtCapacity, bytesRead, reserved, false, reserved > 0, bytesRead, now)
    {
      this.id, this.client, this.declared, this.mapAtCapacity := id, client, declared, mapAtCapacity;
      this.reserved, this.released, this.armed := reserved, false, reserved > 0;
      this.startBytes, this.lastBytes, this.lastProgress := bytesRead, bytesRead, now;
    }

    function View(): Slot
      reads this
    {
      Slot(client, declared, !mapAtCapacity, startBytes, reserved, released, armed, lastBytes, lastProgress)
    }
  }

  class Budget {
    const cfg: Config
    var inFlightBytes: int
    var clientInFlight: map<string, int>
    ghost var admitted: seq<Admission>

    constructor (cfg: Config)
      ensures this.cfg == cfg && Valid() && View() == EMPTY
    {
      this.cfg := cfg;
      inFlightBytes, clientInFlight, admitted := 0, map[], [];
    }

    ghost predicate Valid()
      reads this, admitted
    {
      && (forall i :: 0 <= i < |admitted| ==> admitted[i].id == i)
    }

    ghost function View(): State
      reads this, admitted
    {
      State(inFlightBytes, clientInFlight, seq(|admitted|, i requires 0 <= i < |admitted| reads this, admitted => admitted[i].View()))
    }

    ghost predicate Owns(a: Admission)
      reads this
    {
      a in admitted && a.id < |admitted| && admitted[a.id] == a
    }

    method Middleware(rq: Request, bytesRead: int, now: int) returns (verdict: Verdict, a: Admission?)
      requires Valid()
      modifies this
      ensures Valid()
      ensures verdict == Judge(cfg, old(View()), rq)
      ensures View() == Admit(cfg, old(View()), rq, bytesRead, now)
      ensures verdict == Next <==> a != null
      ensures a != null ==> fresh(a) && admitted == old(admitted) + [a] && Owns(a)
      ensures a == null ==> admitted == old(admitted)
    {
      a := null;
      var reserved: int := match rq.declared
        case Some(n) => n
        case None => if rq.chunked then cfg.UndeclaredReservation() else 0;
      var bodyIndicated := rq.chunked || rq.lengthIsNumber;
      if bodyIndicated && rq.encoded {
        return Compressed415, null;
      }
      var clientBusy := Get(clientInFlight, rq.client, 0);
      var mapAtCapacity := |clientInFlight| >= MAX_TRACKED_CLIENTS && rq.client !in clientInFlight;
      if inFlightBytes + reserved > cfg.budget || clientBusy + reserved > cfg.ClientCap() || mapAtCapacity {
        return Busy503, null;
      }
      inFlightBytes := inFlightBytes + reserved;
      if !mapAtCapacity {
        clientInFlight := clientInFlight[rq.client := clientBusy + reserved];
      }
      a := new Admission(|admitted|, rq.client, rq.declared, mapAtCapacity, reserved, bytesRead, now);
      admitted := admitted + [a];
      verdict := Next;
    }

    /** The handler of res 'finish', 'close', 'error' and req 'close', 'error'. */
    method Release(a: Admission)
      requires Valid() && Owns(a)
      modifies this`inFlightBytes, this`clientInFlight, a
      ensures Valid() && View() == InflightLedger.Release(old(View()), a.id)
    {
      if a.released {
        return;
      }
      a.released := true;
      a.armed := false;
      inFlightBytes := inFlightBytes - a.reserved;
      if !a.mapAtCapacity {
        var busy := Get(clientInFlight, a.client, a.reserved) - a.reserved;
        if busy > 0 {
          clientInFlight := clientInFlight[a.client := busy];
        } else {
          clientInFlight := clientInFlight - {a.client};
        }
      }
      assert View().slots == old(View()).slots[a.id := a.View()];
    }

    /** `destroyed` is the req.destroy() that goes with an early release. */
    method ReconcileUndeclared(a: Admission, readNow: int) returns (destroyed: bool)
      requires Valid() && Owns(a)
      modifies this`inFlightBytes, this`clientInFlight, a
      ensures Valid() && View() == Reconcile(cfg, old(View()), a.id, readNow)
      ensures destroyed <==> Actual(cfg, old(a.View()), readNow) != old(a.reserved)
                             && OverBudget(cfg, Repriced(cfg, old(View()), a.id, readNow), a.id)
    {
      destroyed := false;
      var actual := Max(cfg.UndeclaredReservation(), readNow - a.startBytes);
      if actual == a.reserved {
        return;
      }
      var delta := actual - a.reserved;
      inFlightBytes := inFlightBytes + delta;
      a.reserved := actual;
      assert View().slots == old(View()).slots[a.id := a.View()];
      if !a.mapAtCapacity {
        var busy := Get(clientInFlight, a.client, 0) + delta;
        clientInFlight := clientInFlight[a.client := busy];
        if busy > cfg.ClientCap() {
          assert View() == Repriced(cfg, old(View()), a.id, readNow);
          Release(a);
          return true;
        }
      }
      assert View() == Repriced(cfg, old(View()), a.id, readNow);
      if inFlightBytes > cfg.budget {
        Release(a);
        destroyed := true;
      }
    }

    /** The req 'end' handler. */
    method DisarmStallReaper(a: Admission)
      requires Valid() && Owns(a)
      modifies a
      ensures Valid() && View() == Disarm(old(View()), a.id)
    {
      a.armed := false;
      assert View().slots == old(View()).slots[a.id := a.View()];
    }

    /** The interval callback; it fires only while the timer is armed. */
    method StallTick(a: Admission, readNow: int, complete: bool, now: int) returns (destroyed: bool)
      requires Valid() && Owns(a) && a.armed
      modifies this`inFlightBytes, this`clientInFlight, a
      ensures Valid() && View() == Poll(cfg, old(View()), a.id, readNow, complete, now)
      ensures destroyed <==> Cuts(cfg, old(View()), a.id, readNow, complete, now)
    {
      destroyed := false;
      if complete {
        DisarmStallReaper(a);
        return;
      }
      if readNow != a.lastBytes {
        if a.declared.None? {
          destroyed := ReconcileUndeclared(a, readNow);
        }
        ghost var priced := View();
        a.lastBytes := readNow;
        a.lastProgress := now;
        assert View().slots == priced.slots[a.id := a.View()];
        if a.declared.Some? && readNow - a.startBytes >= a.declared.value {
          DisarmStallReaper(a);
        }
        return;
      }
      if now - a.lastProgress >= STALL_TIMEOUT_MS {
        Release(a);
        destroyed := true;
      }
    }
  }
}
