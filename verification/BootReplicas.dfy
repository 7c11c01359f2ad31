/**
 Any number of processes booting against one PostgreSQL database, each running the control flow of
 BootControl, with calls failing and processes dying anywhere. The lock is the session-level advisory
 lock of section 13.3.5 of the PostgreSQL documentation: one session holds it until it unlocks or ends.
 What the server does and what the client hears are separate events, so a request can take effect although
 its call rejects. Replicas may be of different versions: replica p knows the first `size` migrations of one
 chain.
 */
module BootReplicas {
  import opened Common
  import opened BootControl

  datatype Mode = AllInOne | EachInItsOwn | NoTransaction   // migrationsTransactionMode

  datatype Replica = Replica(
    pc: Pc,
    size: nat,
    todo: Option<seq<nat>>,   // what runMigrations found missing from the ledger, once it has read it
    staged: bool,             // NoTransaction only: executed but not yet recorded
    crashed: bool,
    asked: bool,              // the server has a lock request of this session waiting
    granted: bool,            // the server gave this session the lock at some point
    gone: bool,               // the server has ended this session
    lockFailed: bool,         // the lock query rejected, whatever became of the request
    unlockFailed: bool,       // the unlock query rejected without effect
    endFailed: bool           // end() rejected without effect
  )

  /** `effects` is every migration body that durably took effect, in order. */
  datatype System = System(mode: Mode, replicas: seq<Replica>, holder: Option<nat>, ledger: seq<nat>, effects: seq<nat>)

  datatype Event =
    | Answer(p: nat, failure: Option<string>, took: bool)   // any call but runMigrations; `took`: effect although rejected
    | Grant(p: nat)                                         // the server gives p's waiting request the lock
    | ReadLedger(p: nat)
    | Work(p: nat)                                          // one durable step of runMigrations
    | MigrateEnds(p: nat, failure: Option<string>)
    | Crash(p: nat)
    | Reap(p: nat)                                          // the server notices a dead or abandoned session
    | LoseSession(p: nat)                                   // the server drops the session of a live replica

  function Boot(size: nat): Replica {
    Replica(START, size, None, false, false, false, false, false, false, false, false)
  }

  function Init(mode: Mode, sizes: seq<nat>): System {
    System(mode, seq(|sizes|, i requires 0 <= i < |sizes| => Boot(sizes[i])), None, [], [])
  }

  predicate At(r: Replica, c: Call) {
    !r.crashed && r.pc.Calling? && r.pc.call == c
  }

  predicate Done(r: Replica) {
    !r.pc.Calling? || r.pc.call.Destroy?
  }

  function Freed(s: System, p: nat): Option<nat> {
    if s.holder == Some(p) then None else s.holder
  }

  /** TypeORM's pending list: the known migrations whose name is not in the ledger, in chain order. */
  function Pending(size: nat, ledger: seq<nat>): seq<nat> {
    if size == 0 then []
    else Pending(size - 1, ledger) + if size - 1 in ledger then [] else [size - 1]
  }

  function Answered(r: Replica, failure: Option<string>, took: bool): Replica
    requires r.pc.Calling?
  {
    var effect := failure.None? || took;
    r.(pc := Next(r.pc, failure),
       asked := if r.pc.call.Connect? then failure.None? else r.asked && effect,
       gone := r.gone || (r.pc.call.End? && effect),
       lockFailed := r.lockFailed || (r.pc.call.Lock? && failure.Some?),
       unlockFailed := r.unlockFailed || (r.pc.call.Unlock? && !effect),
       endFailed := r.endFailed || (r.pc.call.End? && !effect))
  }

  function StepAnswer(s: System, p: nat, failure: Option<string>, took: bool): System
    requires p < |s.replicas|
  {
    var r := s.replicas[p];
    if r.crashed || !r.pc.Calling? || r.pc.call.Migrate? then s
    else if r.pc.call.Lock? && failure.None? && !r.granted then s    // nothing to hear yet
    else
      var frees := (r.pc.call.Unlock? || r.pc.call.End?) && (failure.None? || took);
      s.(replicas := s.replicas[p := Answered(r, failure, took)], holder := if frees then Freed(s, p) else s.holder)
  }

  /** A session exists from Connect's success to the end() that closes it. */
  predicate Connected(r: Replica) {
    At(r, Lock) || At(r, Migrate) || At(r, Unlock) || At(r, End)
  }

  function StepWork(s: System, p: nat): System
    requires p < |s.replicas|
  {
    var r := s.replicas[p];
    if !At(r, Migrate) || r.todo.None? || r.todo.value == [] then s else
      var head, rest := r.todo.value[0], r.todo.value[1..];
      match s.mode
      case AllInOne =>
        s.(ledger := s.ledger + r.todo.value, effects := s.effects + r.todo.value,
           replicas := s.replicas[p := r.(todo := Some([]))])
      case EachInItsOwn =>
        s.(ledger := s.ledger + [head], effects := s.effects + [head],
           replicas := s.replicas[p := r.(todo := Some(rest))])
      case NoTransaction =>
        if !r.staged then
          s.(effects := s.effects + [head], replicas := s.replicas[p := r.(staged := true)])
        else
          s.(ledger := s.ledger + [head], replicas := s.replicas[p := r.(staged := false, todo := Some(rest))])
  }

  function Step(s: System, e: Event): System {
    if e.p >= |s.replicas| then s else
      var r := s.replicas[e.p];
      match e
      case Answer(p, failure, took) => StepAnswer(s, p, failure, took)
      case Grant(p) =>
        if r.asked && !r.gone && s.holder.None? then
          s.(holder := Some(p), replicas := s.replicas[p := r.(asked := false, granted := true)])
        else s
      case ReadLedger(p) =>
        if At(r, Migrate) && r.todo.None? then
          s.(replicas := s.replicas[p := r.(todo := Some(Pending(r.size, s.ledger)))])
        else s
      case Work(p) => StepWork(s, p)
      case MigrateEnds(p, failure) =>
        if At(r, Migrate) && (failure.Some? || r.todo == Some([])) then
          s.(replicas := s.replicas[p := r.(pc := Next(r.pc, failure))])
        else s
      case Crash(p) => s.(replicas := s.replicas[p := r.(crashed := true)])
      case Reap(p) =>
        if r.crashed || Done(r) then s.(holder := Freed(s, p), replicas := s.replicas[p := r.(gone := true)]) else s
      case LoseSession(p) =>
        if Connected(r) then s.(holder := Freed(s, p), replicas := s.replicas[p := r.(gone := true)]) else s
  }

  function Run(s: System, events: seq<Event>): System
    decreases |events|
  {
    if events == [] then s else Run(Step(s, events[0]), events[1..])
  }

  // ----- the invariant -----

  function Chain(n: nat): seq<nat> {
    seq(n, i => i)
  }

  predicate Early(r: Replica) {
    At(r, Initialize) || At(r, AssertUtc) || At(r, MakeClient) || At(r, Connect) || At(r, Lock)
  }

  predicate Migrated(r: Replica) {
    r.pc.Returned? || (r.pc.Calling? && (r.pc.call.Unlock? || r.pc.call.End?) && r.pc.error.None?)
  }

  /** Inside runMigrations, or on its way there with the reply to its lock query. */
  predicate Trusts(r: Replica) {
    At(r, Migrate) || (At(r, Lock) && r.granted)
  }

  predicate PastUnlock(r: Replica) {
    Done(r) || r.pc.call.End?
  }

  /** Past its unlocking, with a lock that nothing has given back: the unlock failed or was never tried. */
  predicate Abandoned(r: Replica) {
    PastUnlock(r) && r.granted && (r.lockFailed || r.unlockFailed) && (Done(r) ==> r.endFailed)
  }

  predicate Owning(r: Replica) {
    r.crashed || (At(r, Lock) && r.granted) || At(r, Migrate) || At(r, Unlock) || Abandoned(r)
  }

  predicate ReplicaOk(s: System, p: nat)
    requires p < |s.replicas|
  {
    var r := s.replicas[p];
    && (Trusts(r) ==> !r.gone)
    && (s.holder == Some(p) ==> !r.gone && r.granted && Owning(r))
    && (Owning(r) && !r.crashed && !r.gone ==> s.holder == Some(p))
    && (r.asked ==> !r.granted && (r.crashed || At(r, Lock) || (PastUnlock(r) && r.lockFailed)))
    && (Done(r) && r.lockFailed ==> r.gone || r.endFailed)
    && (Early(r) && !At(r, Lock) ==> !r.asked && !r.granted)
    && (r.lockFailed || r.unlockFailed ==> PastUnlock(r))
    && (r.endFailed ==> Done(r))
    && (Early(r) ==> r.todo.None? && !r.staged)
    && (At(r, Migrate) && r.todo.Some? ==> r.todo.value == Pending(r.size, s.ledger))
    && (At(r, Migrate) && r.staged ==>
          s.mode.NoTransaction? && r.todo.Some? && r.todo.value != [] && r.todo.value[0] in s.effects)
    && (Migrated(r) ==> r.size <= |s.ledger|)
  }

  ghost predicate Inv(s: System) {
    && s.ledger == Chain(|s.ledger|)
    && (!s.mode.NoTransaction? ==> s.effects == s.ledger)
    && (forall m :: m in s.ledger ==> m in s.effects)
    && (s.holder.Some? ==> s.holder.value < |s.replicas|)
    && (forall p: nat :: p < |s.replicas| ==> ReplicaOk(s, p))
  }

  lemma {:induction false} PendingOfChain(size: nat, n: nat)
    ensures Pending(size, Chain(n)) == seq(Max(0, size - n), i => n + i)
  {
    if size == 0 {
    } else {
      PendingOfChain(size - 1, n);
      assert size - 1 in Chain(n) <==> size - 1 < n by {
        if size - 1 < n { assert Chain(n)[size - 1] == size - 1; }
      }
    }
  }

  // ----- every step keeps it -----

  /** A step of replica p that touches the ledger only as lock holder leaves every other replica in order. */
  lemma OthersKeep(s: System, t: System, p: nat, q: nat)
    requires Inv(s) && p < |s.replicas| && q < |s.replicas| && q != p
    requires t.mode == s.mode && |t.replicas| == |s.replicas| && t.replicas[q] == s.replicas[q]
    requires (t.ledger == s.ledger && t.effects == s.effects) || (s.holder == Some(p) && |s.ledger| <= |t.ledger|)
    requires t.holder == s.holder || (s.holder.None? && t.holder == Some(p)) || (s.holder == Some(p) && t.holder.None?)
    ensures ReplicaOk(t, q)
  {
    assert ReplicaOk(s, q);
  }

  lemma AnswerOwn(s: System, p: nat, failure: Option<string>, took: bool)
    requires Inv(s) && p < |s.replicas|
    ensures ReplicaOk(StepAnswer(s, p, failure, took), p)
  {
    assert ReplicaOk(s, p);
  }

  lemma AnswerKeeps(s: System, p: nat, failure: Option<string>, took: bool)
    requires Inv(s) && p < |s.replicas|
    ensures Inv(StepAnswer(s, p, failure, took))
  {
    var t := StepAnswer(s, p, failure, took);
    AnswerOwn(s, p, failure, took);
    if t != s {
      forall q: nat | q < |t.replicas| ensures ReplicaOk(t, q) {
        if q != p { OthersKeep(s, t, p, q); }
      }
    }
  }

  lemma ChainGrows(n: nat)
    ensures Chain(n) + [n] == Chain(n + 1)
  {
  }

  lemma WorkKeeps(s: System, p: nat)
    requires Inv(s) && p < |s.replicas|
    ensures Inv(StepWork(s, p))
  {
    var t := StepWork(s, p);
    var r := s.replicas[p];
    assert ReplicaOk(s, p);
    if t != s {
      var n := |s.ledger|;
      PendingOfChain(r.size, n);
      assert r.todo.value == seq(Max(0, r.size - n), i => n + i);
      assert r.todo.value[0] == n;
      if s.mode.AllInOne? {
        assert t.ledger == Chain(Max(n, r.size));
        PendingOfChain(r.size, |t.ledger|);
        assert t.replicas[p].todo.value == Pending(r.size, t.ledger);
      } else if s.mode.EachInItsOwn? || r.staged {
        ChainGrows(n);
        PendingOfChain(r.size, n + 1);
        assert t.replicas[p].todo.value == Pending(r.size, t.ledger);
      }
      assert ReplicaOk(t, p);
      forall q: nat | q < |t.replicas| ensures ReplicaOk(t, q) {
        if q != p { OthersKeep(s, t, p, q); }
      }
    }
  }

  /** The server drops a session it has given the lock before its replica has left runMigrations, or even heard of the grant. */
  predicate Interrupts(s: System, e: Event) {
    e.LoseSession? && e.p < |s.replicas| && Trusts(s.replicas[e.p])
  }

  /** The remaining events of replica p itself: a grant, reading the ledger, the end of the migration, death, a lost session. */
  lemma OwnEvent(s: System, e: Event)
    requires Inv(s) && e.p < |s.replicas| && !e.Answer? && !e.Work? && !Interrupts(s, e)
    ensures ReplicaOk(Step(s, e), e.p)
  {
    assert ReplicaOk(s, e.p);
    if e.MigrateEnds? {
      PendingOfChain(s.replicas[e.p].size, |s.ledger|);
    }
  }

  lemma StepKeeps(s: System, e: Event)
    requires Inv(s) && !Interrupts(s, e)
    ensures Inv(Step(s, e))
  {
    if e.p >= |s.replicas| {
    } else if e.Answer? {
      AnswerKeeps(s, e.p, e.failure, e.took);
    } else if e.Work? {
      WorkKeeps(s, e.p);
    } else {
      var t := Step(s, e);
      OwnEvent(s, e);
      forall q: nat | q < |t.replicas| ensures ReplicaOk(t, q) {
        if q != e.p { OthersKeep(s, t, e.p, q); }
      }
    }
  }

  /** No session is lost between its grant and the end of its migration; any other may be. */
  predicate Uninterrupted(s: System, events: seq<Event>)
    decreases |events|
  {
    events == [] || (!Interrupts(s, events[0]) && Uninterrupted(Step(s, events[0]), events[1..]))
  }

  lemma {:induction false} RunKeeps(s: System, events: seq<Event>)
    requires Inv(s) && Uninterrupted(s, events)
    ensures Inv(Run(s, events))
    decreases |events|
  {
    if events == [] {
    } else {
      StepKeeps(s, events[0]);
      RunKeeps(Step(s, events[0]), events[1..]);
    }
  }

  // ----- the promises, over every run -----

  ghost predicate Exclusive(s: System) {
    forall p: nat, q: nat ::
      p < |s.replicas| && q < |s.replicas| && At(s.replicas[p], Migrate) && At(s.replicas[q], Migrate) ==> p == q
  }

  lemma {:induction false} InvIsExclusive(s: System)
    requires Inv(s)
    ensures Exclusive(s)
  {
    forall p: nat | p < |s.replicas| ensures At(s.replicas[p], Migrate) ==> s.holder == Some(p) {
      assert ReplicaOk(s, p);
    }
  }

  /** At most one live replica is inside runMigrations, whoever crashes and whatever fails. */
  lemma {:induction false} OneMigratesAtATime(mode: Mode, sizes: seq<nat>, events: seq<Event>, p: nat, q: nat)
    requires Uninterrupted(Init(mode, sizes), events)
    requires var s := Run(Init(mode, sizes), events);
             p < |s.replicas| && q < |s.replicas| && At(s.replicas[p], Migrate) && At(s.replicas[q], Migrate)
    ensures p == q
  {
    RunKeeps(Init(mode, sizes), events);
    InvIsExclusive(Run(Init(mode, sizes), events));
  }

  /** The ledger is always a prefix of the chain, and in a transactional mode each of its migrations took effect once, in order. */
  lemma {:induction false} EachMigrationOnceInOrder(mode: Mode, sizes: seq<nat>, events: seq<Event>)
    requires Uninterrupted(Init(mode, sizes), events)
    ensures var s := Run(Init(mode, sizes), events);
            && s.ledger == Chain(|s.ledger|)
            && (!mode.NoTransaction? ==> s.effects == s.ledger)
            && (forall m :: m in s.ledger ==> m in s.effects)
  {
    RunKeeps(Init(mode, sizes), events);
    ModeStays(Init(mode, sizes), events);
  }

  lemma {:induction false} ModeStays(s: System, events: seq<Event>)
    ensures Run(s, events).mode == s.mode
    decreases |events|
  {
    if events == [] {
    } else {
      ModeStays(Step(s, events[0]), events[1..]);
    }
  }

  /** A replica that hands out its DataSource finds every migration it knows in the ledger. */
  lemma {:induction false} ReturnedSeesFullLedger(mode: Mode, sizes: seq<nat>, events: seq<Event>, p: nat, m: nat)
    requires Uninterrupted(Init(mode, sizes), events)
    requires var s := Run(Init(mode, sizes), events);
             p < |s.replicas| && s.replicas[p].pc.Returned? && m < s.replicas[p].size
    ensures m in Run(Init(mode, sizes), events).ledger
  {
    RunKeeps(Init(mode, sizes), events);
    var s := Run(Init(mode, sizes), events);
    assert ReplicaOk(s, p);
    assert s.ledger[m] == m;
  }

  /**
   A live replica that is done holds the lock exactly when the server granted it, nothing unlocked it (the
   unlock failed, or was never tried because the lock query itself rejected), end() failed too, and the
   server has not yet noticed that the session is dead.
   */
  lemma {:induction false} DoneHoldsLockIff(mode: Mode, sizes: seq<nat>, events: seq<Event>, p: nat)
    requires Uninterrupted(Init(mode, sizes), events)
    requires var s := Run(Init(mode, sizes), events);
             p < |s.replicas| && !s.replicas[p].crashed && Done(s.replicas[p])
    ensures var s := Run(Init(mode, sizes), events);
            var r := s.replicas[p];
            s.holder == Some(p) <==> r.granted && (r.lockFailed || r.unlockFailed) && r.endFailed && !r.gone
  {
    RunKeeps(Init(mode, sizes), events);
    assert ReplicaOk(Run(Init(mode, sizes), events), p);
  }

  // ----- runs in pieces -----

  lemma {:induction false} RunConcat(s: System, a: seq<Event>, b: seq<Event>)
    ensures Run(s, a + b) == Run(Run(s, a), b)
    decreases |a|
  {
    if a == [] {
      assert a + b == b;
    } else {
      assert (a + b)[0] == a[0] && (a + b)[1..] == a[1..] + b;
      RunConcat(Step(s, a[0]), a[1..], b);
    }
  }

  lemma OneStep(s: System, e: Event)
    ensures Run(s, [e]) == Step(s, e)
  {
    assert [e][1..] == [];
  }

  lemma TwoSteps(s: System, a: Event, b: Event)
    ensures Run(s, [a, b]) == Step(Step(s, a), b)
  {
    assert [a, b][1..] == [b];
    OneStep(Step(s, a), b);
  }
}
