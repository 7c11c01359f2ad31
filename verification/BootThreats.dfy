/** Where the promises of the boot migrations stop: lost lock sessions, and migrations without a transaction. */
module BootThreats {
  import opened Common
  import opened BootControl
  import opened BootReplicas
  import opened BootProgress

  lemma {:induction false} NoLossNoInterruption(s: System, events: seq<Event>)
    requires forall e :: e in events ==> !e.LoseSession?
    ensures Uninterrupted(s, events)
    decreases |events|
  {
    if events == [] {
    } else {
      assert events[0] in events;
      NoLossNoInterruption(Step(s, events[0]), events[1..]);
    }
  }

  /** Dropping the session of the migrating replica lets any fresh one migrate beside it. */
  lemma LostSessionLetsTwoMigrate(s: System, p: nat, q: nat)
    requires p < |s.replicas| && At(s.replicas[p], Migrate) && s.holder == Some(p)
    requires q < |s.replicas| && q != p && s.replicas[q] == Boot(s.replicas[q].size)
    ensures var t := Run(Step(s, LoseSession(p)), Up(q));
            |t.replicas| == |s.replicas| && At(t.replicas[p], Migrate) && At(t.replicas[q], Migrate)
  {
    BootsToMigrate(Step(s, LoseSession(p)), q);
  }

  /** So does dropping it between the grant and the reply: the replica reads the reply it has been sent. */
  lemma LostGrantLetsTwoMigrate(s: System, p: nat, q: nat)
    requires p < |s.replicas| && At(s.replicas[p], Lock) && s.replicas[p].granted && s.holder == Some(p)
    requires q < |s.replicas| && q != p && s.replicas[q] == Boot(s.replicas[q].size)
    ensures var t := Run(Step(s, LoseSession(p)), [Ok(p)] + Up(q));
            |t.replicas| == |s.replicas| && At(t.replicas[p], Migrate) && At(t.replicas[q], Migrate)
  {
    var lost := Step(s, LoseSession(p));
    OneStep(lost, Ok(p));
    RunConcat(lost, [Ok(p)], Up(q));
    BootsToMigrate(Step(lost, Ok(p)), q);
  }

  lemma {:induction false} HarmlessEventKeepsExclusion(s: System, e: Event, later: seq<Event>)
    requires Inv(s) && !Interrupts(s, e) && Uninterrupted(Step(s, e), later)
    ensures Exclusive(Run(Step(s, e), later))
  {
    StepKeeps(s, e);
    RunKeeps(Step(s, e), later);
    InvIsExclusive(Run(Step(s, e), later));
  }

  function Overlap(s: System, e: Event, q: nat): seq<Event>
    requires e.p < |s.replicas|
  {
    if At(s.replicas[e.p], Migrate) then Up(q) else [Ok(e.p)] + Up(q)
  }

  lemma {:induction false} InterruptionBreaksExclusion(s: System, e: Event, q: nat)
    requires Inv(s) && Interrupts(s, e) && q < |s.replicas| && q != e.p && s.replicas[q] == Boot(s.replicas[q].size)
    ensures Uninterrupted(Step(s, e), Overlap(s, e, q)) && !Exclusive(Run(Step(s, e), Overlap(s, e, q)))
  {
    assert ReplicaOk(s, e.p);
    if At(s.replicas[e.p], Migrate) {
      LostSessionLetsTwoMigrate(s, e.p, q);
    } else {
      LostGrantLetsTwoMigrate(s, e.p, q);
    }
    NoLossNoInterruption(Step(s, e), Overlap(s, e, q));
  }

  /**
   Mutual exclusion rests on exactly one thing. After any run so far, with a replica q still to boot, an event
   leaves every later run exclusive if and only if it does not take the session away from a replica that
   has been granted the lock and has not finished migrating.
   */
  lemma {:induction false} LossIsTheOnlyThreatIff(mode: Mode, sizes: seq<nat>, events: seq<Event>, e: Event, q: nat)
    requires Uninterrupted(Init(mode, sizes), events)
    requires var s := Run(Init(mode, sizes), events);
             q < |s.replicas| && q != e.p && s.replicas[q] == Boot(s.replicas[q].size)
    ensures var s := Run(Init(mode, sizes), events);
            (forall later :: Uninterrupted(Step(s, e), later) ==> Exclusive(Run(Step(s, e), later))) <==> !Interrupts(s, e)
  {
    RunKeeps(Init(mode, sizes), events);
    ThreatIff(Run(Init(mode, sizes), events), e, q);
  }

  lemma {:induction false} ThreatIff(s: System, e: Event, q: nat)
    requires Inv(s) && q < |s.replicas| && q != e.p && s.replicas[q] == Boot(s.replicas[q].size)
    ensures (forall later :: Uninterrupted(Step(s, e), later) ==> Exclusive(Run(Step(s, e), later))) <==> !Interrupts(s, e)
  {
    if Interrupts(s, e) {
      InterruptionBreaksExclusion(s, e, q);
    } else {
      forall later | Uninterrupted(Step(s, e), later) ensures Exclusive(Run(Step(s, e), later)) {
        HarmlessEventKeepsExclusion(s, e, later);
      }
    }
  }

  ghost predicate NothingTwice(effects: seq<nat>) {
    forall i, j :: 0 <= i < j < |effects| ==> effects[i] != effects[j]
  }

  /** One unrecorded execution: the body has run, the ledger row is not there yet. */
  lemma RunsUnrecorded(s: System, p: nat)
    requires p < |s.replicas| && s.mode.NoTransaction? && s.ledger == []
    requires var r := s.replicas[p]; At(r, Migrate) && r.todo.None? && !r.staged && r.size == 1
    ensures var t := Run(s, [ReadLedger(p), Work(p)]);
            t == s.(effects := s.effects + [0],
                    replicas := s.replicas[p := s.replicas[p].(todo := Some([0]), staged := true)])
  {
    TwoSteps(s, ReadLedger(p), Work(p));
    assert Pending(1, []) == [0];
    var a := Step(s, ReadLedger(p));
    assert a == s.(replicas := s.replicas[p := s.replicas[p].(todo := Some([0]))]);
    assert Step(a, Work(p)).replicas == s.replicas[p := s.replicas[p].(todo := Some([0]), staged := true)];
  }

  function RunThenDie(p: nat): seq<Event> {
    Up(p) + [ReadLedger(p), Work(p)] + [Crash(p), Reap(p)]
  }

  lemma DiesUnrecorded(s: System, p: nat)
    requires p < |s.replicas| && s.mode.NoTransaction? && s.ledger == [] && s.holder.None? && s.replicas[p] == Boot(1)
    ensures var t := Run(s, RunThenDie(p));
            && t.mode == s.mode && t.ledger == [] && t.holder.None? && t.effects == s.effects + [0]
            && |t.replicas| == |s.replicas| && forall q :: 0 <= q < |s.replicas| && q != p ==> t.replicas[q] == s.replicas[q]
  {
    var a := Run(s, Up(p));
    BootsToMigrate(s, p);
    RunsUnrecorded(a, p);
    var b := Run(a, [ReadLedger(p), Work(p)]);
    TwoSteps(b, Crash(p), Reap(p));
    RunConcat(s, Up(p), [ReadLedger(p), Work(p)]);
    RunConcat(s, Up(p) + [ReadLedger(p), Work(p)], [Crash(p), Reap(p)]);
  }

  /** Without a transaction, a replica that dies between a migration and its ledger row makes the next one rerun it. */
  lemma CrashRerunsUnrecordedMigration()
    ensures Run(Init(NoTransaction, [1, 1]), RunThenDie(0) + RunThenDie(1)).effects == [0, 0]
  {
    var s := Init(NoTransaction, [1, 1]);
    assert s.replicas[0] == s.replicas[1] == Boot(1);
    DiesUnrecorded(s, 0);
    var t := Run(s, RunThenDie(0));
    assert t.replicas[1] == Boot(1) && t.effects == [0];
    DiesUnrecorded(t, 1);
    RunConcat(s, RunThenDie(0), RunThenDie(1));
  }

  /** So, as long as no migration loses its lock session, "exactly once" is promised exactly in the transactional modes. */
  lemma ExactlyOnceIffTransactional(mode: Mode)
    ensures (forall sizes: seq<nat>, events: seq<Event> ::
               Uninterrupted(Init(mode, sizes), events) ==> NothingTwice(Run(Init(mode, sizes), events).effects))
            <==> !mode.NoTransaction?
  {
    if mode.NoTransaction? {
      CrashRerunsUnrecordedMigration();
      var effects := Run(Init(mode, [1, 1]), RunThenDie(0) + RunThenDie(1)).effects;
      assert effects[0] == effects[1];
      NoLossNoInterruption(Init(mode, [1, 1]), RunThenDie(0) + RunThenDie(1));
    } else {
      forall sizes: seq<nat>, events: seq<Event> | Uninterrupted(Init(mode, sizes), events)
        ensures NothingTwice(Run(Init(mode, sizes), events).effects)
      {
        EachMigrationOnceInOrder(mode, sizes, events);
      }
    }
  }
}
