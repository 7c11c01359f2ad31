/** Progress of the boot migrations: a replica that is left in peace gets everything done and gives the lock back. */
module BootProgress {
  import opened Common
  import opened BootControl
  import opened BootReplicas

  function Ok(p: nat): Event {
    Answer(p, None, false)
  }

  /** Replica p boots undisturbed up to runMigrations. */
  function Up(p: nat): seq<Event> {
    [Ok(p), Ok(p)] + [Ok(p), Ok(p)] + [Grant(p), Ok(p)]
  }

  function Migrating(size: nat): Replica {
    Boot(size).(pc := Calling(Migrate, None), granted := true)
  }

  lemma BootsToMigrate(s: System, p: nat)
    requires p < |s.replicas| && s.replicas[p] == Boot(s.replicas[p].size) && s.holder.None?
    ensures Run(s, Up(p)) == s.(holder := Some(p), replicas := s.replicas[p := Migrating(s.replicas[p].size)])
  {
    var e := Ok(p);
    var size := s.replicas[p].size;
    var a := Run(s, [e, e]);
    TwoSteps(s, e, e);
    assert a == s.(replicas := s.replicas[p := Boot(size).(pc := Calling(MakeClient, None))]);
    var b := Run(a, [e, e]);
    TwoSteps(a, e, e);
    assert b == s.(replicas := s.replicas[p := Boot(size).(pc := Calling(Lock, None), asked := true)]);
    TwoSteps(b, Grant(p), e);
    assert Run(b, [Grant(p), e]) == s.(holder := Some(p), replicas := s.replicas[p := Migrating(size)]);
    RunConcat(s, [e, e], [e, e]);
    RunConcat(s, [e, e] + [e, e], [Grant(p), e]);
  }

  /** The durable steps of runMigrations that are left: one, one per migration, or two per migration. */
  function Steps(mode: Mode, p: nat, left: nat): seq<Event> {
    if left == 0 then []
    else match mode
      case AllInOne => [Work(p)]
      case EachInItsOwn => [Work(p)] + Steps(mode, p, left - 1)
      case NoTransaction => [Work(p), Work(p)] + Steps(mode, p, left - 1)
  }

  predicate AtWork(s: System, p: nat, n: nat) {
    && p < |s.replicas| && s.ledger == Chain(n) && At(s.replicas[p], Migrate) && !s.replicas[p].staged
    && s.replicas[p].todo == Some(Pending(s.replicas[p].size, s.ledger))
  }

  /** The numbers from lo up to hi. */
  function Range(lo: nat, hi: nat): seq<nat> {
    seq(Max(0, hi - lo), i => lo + i)
  }

  lemma RangeHead(lo: nat, hi: nat)
    requires lo < hi
    ensures Range(lo, hi) == [lo] + Range(lo + 1, hi)
  {
  }

  lemma ChainRange(n: nat, size: nat)
    ensures Chain(n) + Range(n, size) == Chain(Max(n, size))
  {
  }

  lemma PendingHead(size: nat, n: nat)
    requires n < size
    ensures var todo := Pending(size, Chain(n));
            todo != [] && todo[0] == n && todo[1..] == Pending(size, Chain(n + 1)) && Chain(n) + todo == Chain(size)
  {
    PendingOfChain(size, n);
    PendingOfChain(size, n + 1);
    assert Pending(size, Chain(n)) == Range(n, size) && Pending(size, Chain(n + 1)) == Range(n + 1, size);
    RangeHead(n, size);
    ChainRange(n, size);
  }

  lemma NothingPending(size: nat, n: nat)
    requires size <= n
    ensures Pending(size, Chain(n)) == []
  {
    PendingOfChain(size, n);
  }

  /** The state in which p has worked its list off: each pending migration took effect once and is in the ledger. */
  function Worked(s: System, p: nat): System
    requires p < |s.replicas|
  {
    var todo := Pending(s.replicas[p].size, s.ledger);
    s.(ledger := s.ledger + todo, effects := s.effects + todo, replicas := s.replicas[p := s.replicas[p].(todo := Some([]))])
  }

  lemma {:induction false} WorksOne(s: System, p: nat, n: nat)
    requires AtWork(s, p, n) && n < s.replicas[p].size && !s.mode.AllInOne?
    ensures var events := if s.mode.EachInItsOwn? then [Work(p)] else [Work(p), Work(p)];
            var t := Run(s, events);
            && AtWork(t, p, n + 1)
            && t == s.(ledger := Chain(n + 1), effects := s.effects + [n],
                       replicas := s.replicas[p := s.replicas[p].(todo := Some(Pending(s.replicas[p].size, Chain(n + 1))))])
  {
    PendingHead(s.replicas[p].size, n);
    ChainGrows(n);
    if s.mode.EachInItsOwn? {
      OneStep(s, Work(p));
    } else {
      TwoSteps(s, Work(p), Work(p));
      var a := Step(s, Work(p));
      assert a.replicas == s.replicas[p := s.replicas[p].(staged := true)];
      assert Step(a, Work(p)).replicas
             == s.replicas[p := s.replicas[p].(todo := Some(Pending(s.replicas[p].size, Chain(n + 1))))];
    }
  }

  lemma {:induction false} WorksItOff(s: System, p: nat, n: nat)
    requires AtWork(s, p, n)
    ensures Run(s, Steps(s.mode, p, Max(0, s.replicas[p].size - n))) == Worked(s, p)
    decreases s.replicas[p].size - n
  {
    var size := s.replicas[p].size;
    var todo := Pending(size, s.ledger);
    if size <= n {
      NothingPending(size, n);
      assert s.ledger + todo == s.ledger && s.effects + todo == s.effects;
      assert s.replicas[p := s.replicas[p].(todo := Some([]))] == s.replicas;
    } else if s.mode.AllInOne? {
      PendingHead(size, n);
      OneStep(s, Work(p));
    } else {
      PendingHead(size, n);
      var one := if s.mode.EachInItsOwn? then [Work(p)] else [Work(p), Work(p)];
      var t := Run(s, one);
      WorksOne(s, p, n);
      RunConcat(s, one, Steps(s.mode, p, size - n - 1));
      assert one + Steps(s.mode, p, size - n - 1) == Steps(s.mode, p, size - n);
      WorksItOff(t, p, n + 1);
      WorkedAgain(s, t, p, n);
    }
  }

  lemma WorkedAgain(s: System, t: System, p: nat, n: nat)
    requires AtWork(s, p, n) && AtWork(t, p, n + 1) && n < s.replicas[p].size
    requires t == s.(ledger := Chain(n + 1), effects := s.effects + [n],
                     replicas := s.replicas[p := s.replicas[p].(todo := Some(Pending(s.replicas[p].size, Chain(n + 1))))])
    ensures Worked(t, p) == Worked(s, p)
  {
    var size := s.replicas[p].size;
    PendingHead(size, n);
    var todo, rest := Pending(size, Chain(n)), Pending(size, Chain(n + 1));
    assert todo == [n] + rest;
    ChainGrows(n);
    assert Chain(n) + todo == Chain(n + 1) + rest;
    assert s.effects + todo == s.effects + [n] + rest;
    assert t.replicas[p := t.replicas[p].(todo := Some([]))] == s.replicas[p := s.replicas[p].(todo := Some([]))];
  }

  /** A whole boot: up, reading the ledger, the work, and down again. */
  function WholeBoot(mode: Mode, p: nat, left: nat): seq<Event> {
    Up(p) + [ReadLedger(p)] + Steps(mode, p, left) + [MigrateEnds(p, None)] + [Ok(p), Ok(p)]
  }

  lemma BootsDown(s: System, p: nat)
    requires p < |s.replicas| && At(s.replicas[p], Migrate) && s.replicas[p].todo == Some([]) && s.holder == Some(p)
    requires s.replicas[p].pc == Calling(Migrate, None)
    ensures var t := Run(s, [MigrateEnds(p, None)] + [Ok(p), Ok(p)]);
            && t.ledger == s.ledger && t.effects == s.effects && t.holder.None? && |t.replicas| == |s.replicas|
            && t.replicas[p].pc.Returned? && forall q :: 0 <= q < |s.replicas| && q != p ==> t.replicas[q] == s.replicas[q]
  {
    RunConcat(s, [MigrateEnds(p, None)], [Ok(p), Ok(p)]);
    OneStep(s, MigrateEnds(p, None));
    TwoSteps(Step(s, MigrateEnds(p, None)), Ok(p), Ok(p));
  }

  /**
   Progress: whatever has happened before, once the lock is free a fresh replica that is left in peace applies
   exactly the migrations missing from the ledger, in order and once, in every mode; it returns, the lock is
   free again, and nobody else is touched.
   */
  lemma {:induction false} UndisturbedBootCompletes(mode: Mode, sizes: seq<nat>, events: seq<Event>, p: nat)
    requires Uninterrupted(Init(mode, sizes), events)
    requires var s := Run(Init(mode, sizes), events);
             s.holder.None? && p < |s.replicas| && s.replicas[p] == Boot(s.replicas[p].size)
    ensures var s := Run(Init(mode, sizes), events);
            var size := s.replicas[p].size;
            var n := |s.ledger|;
            var t := Run(s, WholeBoot(mode, p, Max(0, size - n)));
            && t.ledger == Chain(Max(n, size))
            && t.effects == s.effects + seq(Max(0, size - n), i => n + i)
            && t.holder.None? && |t.replicas| == |s.replicas| && t.replicas[p].pc.Returned?
            && forall q :: 0 <= q < |s.replicas| && q != p ==> t.replicas[q] == s.replicas[q]
  {
    var s := Run(Init(mode, sizes), events);
    RunKeeps(Init(mode, sizes), events);
    ModeStays(Init(mode, sizes), events);
    PeacefulBoot(s, p);
  }

  /** The four stretches of a boot, joined. */
  lemma BootRuns(s: System, p: nat, left: nat)
    ensures Run(s, WholeBoot(s.mode, p, left))
            == Run(Run(Run(Run(s, Up(p)), [ReadLedger(p)]), Steps(s.mode, p, left)), [MigrateEnds(p, None)] + [Ok(p), Ok(p)])
  {
    var work := Steps(s.mode, p, left);
    var down := [MigrateEnds(p, None)] + [Ok(p), Ok(p)];
    RunConcat(s, Up(p), [ReadLedger(p)]);
    RunConcat(s, Up(p) + [ReadLedger(p)], work);
    RunConcat(s, Up(p) + [ReadLedger(p)] + work, down);
    assert Up(p) + [ReadLedger(p)] + work + down == WholeBoot(s.mode, p, left);
  }

  lemma BootsToWork(s: System, p: nat)
    requires s.ledger == Chain(|s.ledger|) && s.holder.None? && p < |s.replicas| && s.replicas[p] == Boot(s.replicas[p].size)
    ensures var b := Run(Run(s, Up(p)), [ReadLedger(p)]);
            && AtWork(b, p, |s.ledger|) && b.replicas[p].pc == Calling(Migrate, None)
            && b == s.(holder := Some(p), replicas := s.replicas[p := b.replicas[p]]) && b.replicas[p].size == s.replicas[p].size
  {
    var a := Run(s, Up(p));
    BootsToMigrate(s, p);
    OneStep(a, ReadLedger(p));
  }

  lemma PeacefulBoot(s: System, p: nat)
    requires s.ledger == Chain(|s.ledger|) && s.holder.None? && p < |s.replicas| && s.replicas[p] == Boot(s.replicas[p].size)
    ensures var size := s.replicas[p].size;
            var n := |s.ledger|;
            var t := Run(s, WholeBoot(s.mode, p, Max(0, size - n)));
            && t.ledger == Chain(Max(n, size))
            && t.effects == s.effects + seq(Max(0, size - n), i => n + i)
            && t.holder.None? && |t.replicas| == |s.replicas| && t.replicas[p].pc.Returned?
            && forall q :: 0 <= q < |s.replicas| && q != p ==> t.replicas[q] == s.replicas[q]
  {
    var size, n := s.replicas[p].size, |s.ledger|;
    var left := Max(0, size - n);
    var b := Run(Run(s, Up(p)), [ReadLedger(p)]);
    BootsToWork(s, p);
    WorksItOff(b, p, n);
    BootsDown(Worked(b, p), p);
    BootRuns(s, p, left);
    PendingOfChain(size, n);
    assert Pending(size, s.ledger) == Range(n, size);
    ChainRange(n, size);
  }
}
