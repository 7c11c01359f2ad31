/**
 The control flow of `createBootDataSource`: which call comes next when the current one succeeds or
 fails. The method below is the nested try / finally / catch as written; BootReplicas.dfy runs the same
 transitions in many processes at once.
 */
module BootControl {
  import opened Common

  datatype Call = Initialize | AssertUtc | MakeClient | Connect | Lock | Migrate | Unlock | End | Destroy

  datatype Pc =
    | Calling(call: Call, error: Option<string>)   // error: what the cleanup will rethrow
    | Returned
    | Rejected(reason: string)

  const START := Calling(Initialize, None)

  function Next(pc: Pc, failure: Option<string>): Pc
    requires pc.Calling?
  {
    match pc.call
    case Initialize => if failure.Some? then Calling(Destroy, failure) else Calling(AssertUtc, None)
    case AssertUtc => if failure.Some? then Calling(Destroy, failure) else Calling(MakeClient, None)
    case MakeClient => if failure.Some? then Calling(Destroy, failure) else Calling(Connect, None)
    case Connect => if failure.Some? then Calling(End, failure) else Calling(Lock, None)
    case Lock => if failure.Some? then Calling(End, failure) else Calling(Migrate, None)
    case Migrate => Calling(Unlock, failure)
    case Unlock => Calling(End, pc.error)
    case End => if pc.error.Some? then Calling(Destroy, pc.error) else Returned
    case Destroy => Rejected(pc.error.GetOr(""))
  }

  function Rank(c: Call): nat {
    match c
    case Initialize => 9 case AssertUtc => 8 case MakeClient => 7 case Connect => 6 case Lock => 5
    case Migrate => 4 case Unlock => 3 case End => 2 case Destroy => 1
  }

  function Remaining(pc: Pc): nat {
    if pc.Calling? then Rank(pc.call) else 0
  }

  /** `fails(c)` is the error call c rejects with, if it does. */
  function Outcome(pc: Pc, fails: Call -> Option<string>): Pc
    decreases Remaining(pc)
  {
    if pc.Calling? then Outcome(Next(pc, fails(pc.call)), fails) else pc
  }

  function Trace(pc: Pc, fails: Call -> Option<string>): seq<Call>
    decreases Remaining(pc)
  {
    if pc.Calling? then [pc.call] + Trace(Next(pc, fails(pc.call)), fails) else []
  }

  method CreateBootDataSource(fails: Call -> Option<string>) returns (calls: seq<Call>, result: Pc)
    ensures calls == Trace(START, fails)
    ensures result == Outcome(START, fails)
  {
    calls := [Initialize];
    var error := fails(Initialize);
    if error.None? {
      calls := calls + [AssertUtc];
      error := fails(AssertUtc);
      if error.None? {
        calls := calls + [MakeClient];     // createLockClient, still outside the inner try
        error := fails(MakeClient);
        if error.None? {
          calls := calls + [Connect];
          error := fails(Connect);
          if error.None? {
            calls := calls + [Lock];
            error := fails(Lock);
            if error.None? {
              calls := calls + [Migrate];
              error := fails(Migrate);
              calls := calls + [Unlock];   // inner finally; its own failure is swallowed
            }
          }
          calls := calls + [End];          // outer finally, likewise
        }
      }
    }
    if error.Some? {
      calls := calls + [Destroy];          // catch, likewise
      result := Rejected(error.value);
    } else {
      result := Returned;
    }
    Unfold(START, fails);
  }

  /** The calls on each of the seven ways through. */
  function Calls(fails: Call -> Option<string>): seq<Call> {
    if fails(Initialize).Some? then [Initialize, Destroy]
    else if fails(AssertUtc).Some? then [Initialize, AssertUtc, Destroy]
    else if fails(MakeClient).Some? then [Initialize, AssertUtc, MakeClient, Destroy]
    else if fails(Connect).Some? then [Initialize, AssertUtc, MakeClient, Connect, End, Destroy]
    else if fails(Lock).Some? then [Initialize, AssertUtc, MakeClient, Connect, Lock, End, Destroy]
    else if fails(Migrate).Some? then [Initialize, AssertUtc, MakeClient, Connect, Lock, Migrate, Unlock, End, Destroy]
    else [Initialize, AssertUtc, MakeClient, Connect, Lock, Migrate, Unlock, End]
  }

  function FirstError(fails: Call -> Option<string>): Option<string> {
    if fails(Initialize).Some? then fails(Initialize)
    else if fails(AssertUtc).Some? then fails(AssertUtc)
    else if fails(MakeClient).Some? then fails(MakeClient)
    else if fails(Connect).Some? then fails(Connect)
    else if fails(Lock).Some? then fails(Lock)
    else fails(Migrate)
  }

  lemma Unfold(pc: Pc, fails: Call -> Option<string>)
    requires pc == START
    ensures Trace(pc, fails) == Calls(fails)
    ensures Outcome(pc, fails) == if FirstError(fails).Some? then Rejected(FirstError(fails).value) else Returned
  {
    OneCall(pc, fails);
    if fails(Initialize).Some? {
      UnfoldTail(Calling(Destroy, fails(Initialize)), fails);
    } else {
      OneCall(Calling(AssertUtc, None), fails);
      if fails(AssertUtc).Some? {
        UnfoldTail(Calling(Destroy, fails(AssertUtc)), fails);
      } else {
        UnfoldClient(fails);
      }
    }
  }

  lemma UnfoldClient(fails: Call -> Option<string>)
    requires fails(Initialize).None? && fails(AssertUtc).None?
    ensures var pc := Calling(MakeClient, None);
            && [Initialize] + ([AssertUtc] + Trace(pc, fails)) == Calls(fails)
            && Outcome(pc, fails) == if FirstError(fails).Some? then Rejected(FirstError(fails).value) else Returned
  {
    OneCall(Calling(MakeClient, None), fails);
    if fails(MakeClient).Some? {
      UnfoldTail(Calling(Destroy, fails(MakeClient)), fails);
    } else {
      UnfoldSession(fails);
    }
  }

  lemma UnfoldSession(fails: Call -> Option<string>)
    ensures var pc := Calling(Connect, None);
            var error := if fails(Connect).Some? then fails(Connect) else if fails(Lock).Some? then fails(Lock) else fails(Migrate);
            && Outcome(pc, fails) == (if error.Some? then Rejected(error.value) else Returned)
            && Trace(pc, fails) == (if fails(Connect).Some? then [Connect] else if fails(Lock).Some? then [Connect, Lock]
                                    else [Connect, Lock, Migrate, Unlock])
                                   + [End] + (if error.Some? then [Destroy] else [])
  {
    OneCall(Calling(Connect, None), fails);
    if fails(Connect).Some? {
      UnfoldTail(Calling(End, fails(Connect)), fails);
    } else {
      OneCall(Calling(Lock, None), fails);
      if fails(Lock).Some? {
        UnfoldTail(Calling(End, fails(Lock)), fails);
      } else {
        OneCall(Calling(Migrate, None), fails);
        UnfoldTail(Calling(Unlock, fails(Migrate)), fails);
      }
    }
  }

  lemma OneCall(pc: Pc, fails: Call -> Option<string>)
    requires pc.Calling?
    ensures Outcome(pc, fails) == Outcome(Next(pc, fails(pc.call)), fails)
    ensures Trace(pc, fails) == [pc.call] + Trace(Next(pc, fails(pc.call)), fails)
  {
  }

  lemma UnfoldTail(pc: Pc, fails: Call -> Option<string>)
    requires pc.Calling? && (pc.call.Unlock? || pc.call.End? || (pc.call.Destroy? && pc.error.Some?))
    ensures Outcome(pc, fails) == if pc.error.Some? then Rejected(pc.error.value) else Returned
    ensures Trace(pc, fails) == (if pc.call.Unlock? then [Unlock, End] else if pc.call.End? then [End] else [])
                                + (if pc.error.Some? then [Destroy] else [])
  {
    var end, destroy := Calling(End, pc.error), Calling(Destroy, pc.error);
    assert Outcome(destroy, fails) == Next(destroy, fails(Destroy));
    assert Trace(destroy, fails) == [Destroy];
    assert Outcome(end, fails) == Outcome(Next(end, fails(End)), fails);
    assert Trace(end, fails) == [End] + Trace(Next(end, fails(End)), fails);
  }

  /**
   Cleanup on every path: the lock session is ended exactly when it was opened, unlocking is tried
   exactly when the lock was obtained, and the DataSource is destroyed exactly when the boot is refused.
   */
  lemma {:induction false} EveryPathCleansUp(fails: Call -> Option<string>)
    ensures var calls, result := Trace(START, fails), Outcome(START, fails);
            && (End in calls <==> Connect in calls)
            && (Unlock in calls <==> Lock in calls && fails(Lock).None?)
            && (Migrate in calls <==> Unlock in calls)
            && (Destroy in calls <==> result.Rejected?)
            && (result.Returned? || result.Rejected?)
  {
    Unfold(START, fails);
    CallsReach(fails, Connect);
    CallsReach(fails, Lock);
    CallsReach(fails, Migrate);
    CallsReach(fails, Unlock);
    CallsReach(fails, End);
    CallsReach(fails, Destroy);
  }

  predicate Reached(fails: Call -> Option<string>, c: Call)
    decreases 9 - Rank(c)
  {
    match c
    case Initialize => true
    case AssertUtc => fails(Initialize).None?
    case MakeClient => fails(Initialize).None? && fails(AssertUtc).None?
    case Connect => Reached(fails, MakeClient) && fails(MakeClient).None?
    case Lock => Reached(fails, Connect) && fails(Connect).None?
    case Migrate => Reached(fails, Lock) && fails(Lock).None?
    case Unlock => Reached(fails, Migrate)
    case End => Reached(fails, Connect)
    case Destroy => FirstError(fails).Some?
  }

  lemma CallsReach(fails: Call -> Option<string>, c: Call)
    ensures c in Calls(fails) <==> Reached(fails, c)
  {
    if fails(Initialize).Some? {
      assert Calls(fails) == [Initialize, Destroy];
    } else if fails(AssertUtc).Some? {
      assert Calls(fails) == [Initialize, AssertUtc, Destroy];
    } else if fails(MakeClient).Some? {
      assert Calls(fails) == [Initialize, AssertUtc, MakeClient, Destroy];
    } else if fails(Connect).Some? {
      assert Calls(fails) == [Initialize, AssertUtc, MakeClient, Connect, End, Destroy];
    } else if fails(Lock).Some? {
      assert Calls(fails) == [Initialize, AssertUtc, MakeClient, Connect, Lock, End, Destroy];
    } else if fails(Migrate).Some? {
      assert Calls(fails) == [Initialize, AssertUtc, MakeClient, Connect, Lock, Migrate, Unlock, End, Destroy];
    } else {
      assert Calls(fails) == [Initialize, AssertUtc, MakeClient, Connect, Lock, Migrate, Unlock, End];
    }
  }

  predicate Essential(c: Call) {
    c != Unlock && c != End && c != Destroy
  }

  /** The boot succeeds exactly when the six essential calls do; otherwise it rethrows the first of their errors. */
  lemma OriginalErrorSurvives(fails: Call -> Option<string>)
    ensures var calls, result := Trace(START, fails), Outcome(START, fails);
            && (result.Returned? <==> forall c :: Essential(c) ==> fails(c).None?)
            && (result.Rejected? ==> exists c :: FirstFailure(calls, fails, c) && fails(c) == Some(result.reason))
  {
    Unfold(START, fails);
    if FirstError(fails).Some? {
      var c := FirstFailing(fails);
      FirstFailingIsFirst(fails);
      assert FirstFailure(Trace(START, fails), fails, c);
    } else {
      assert forall c :: Essential(c) ==> fails(c).None?;
    }
  }

  function FirstFailing(fails: Call -> Option<string>): Call {
    if fails(Initialize).Some? then Initialize
    else if fails(AssertUtc).Some? then AssertUtc
    else if fails(MakeClient).Some? then MakeClient
    else if fails(Connect).Some? then Connect
    else if fails(Lock).Some? then Lock
    else Migrate
  }

  lemma FirstFailingIsFirst(fails: Call -> Option<string>)
    requires FirstError(fails).Some?
    ensures var c := FirstFailing(fails);
            FirstFailure(Calls(fails), fails, c) && fails(c) == FirstError(fails)
  {
    CallsReach(fails, FirstFailing(fails));
  }

  predicate FirstFailure(calls: seq<Call>, fails: Call -> Option<string>, c: Call) {
    Essential(c) && c in calls && fails(c).Some? && forall d :: d in calls && Rank(d) > Rank(c) ==> fails(d).None?
  }

  /** Every path, call by call. */
  lemma PathsAre(fails: Call -> Option<string>)
    ensures Trace(START, fails) ==
              if fails(Initialize).Some? then [Initialize, Destroy]
              else if fails(AssertUtc).Some? then [Initialize, AssertUtc, Destroy]
              else if fails(MakeClient).Some? then [Initialize, AssertUtc, MakeClient, Destroy]
              else if fails(Connect).Some? then [Initialize, AssertUtc, MakeClient, Connect, End, Destroy]
              else if fails(Lock).Some? then [Initialize, AssertUtc, MakeClient, Connect, Lock, End, Destroy]
              else if fails(Migrate).Some? then [Initialize, AssertUtc, MakeClient, Connect, Lock, Migrate, Unlock, End, Destroy]
              else [Initialize, AssertUtc, MakeClient, Connect, Lock, Migrate, Unlock, End]
    ensures Outcome(START, fails) ==
              if fails(Initialize).Some? then Rejected(fails(Initialize).value)
              else if fails(AssertUtc).Some? then Rejected(fails(AssertUtc).value)
              else if fails(MakeClient).Some? then Rejected(fails(MakeClient).value)
              else if fails(Connect).Some? then Rejected(fails(Connect).value)
              else if fails(Lock).Some? then Rejected(fails(Lock).value)
              else if fails(Migrate).Some? then Rejected(fails(Migrate).value)
              else Returned
  {
    Unfold(START, fails);
  }

  /** No call is made twice, and they come in one fixed order. */
  lemma {:induction false} CallsDescend(pc: Pc, fails: Call -> Option<string>)
    ensures forall i :: 0 <= i < |Trace(pc, fails)| ==> Rank(Trace(pc, fails)[i]) <= Remaining(pc)
    ensures forall i, j :: 0 <= i < j < |Trace(pc, fails)| ==> Rank(Trace(pc, fails)[i]) > Rank(Trace(pc, fails)[j])
    decreases Remaining(pc)
  {
    if !pc.Calling? {
    } else {
      CallsDescend(Next(pc, fails(pc.call)), fails);
    }
  }
}
