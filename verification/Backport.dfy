/**
 `patch-wwebjs-201832.js`: a diff over several files, applied in file order by an external program that
 can stop anywhere, with a self-disable check keyed on one of the files.
 */
module Backport {
  import opened Common

  /** Whether a file of the diff shows its normalization site. */
  datatype FileState = Pristine | Landed

  /** What applying the diff does to one pristine file. */
  datatype Fit = Lands | LandsPartly | Rejects | Lost   // LandsPartly also leaves a .rej; Lost leaves nothing

  /** The diff: its files in order, the one the self-disable check reads, the checked ones, the tolerated rejects. */
  datatype Diff = Diff(size: nat, message: nat, required: set<nat>, expectedRejects: set<nat>)

  datatype Tree = Tree(hasBase: bool, hasMessage: bool, files: seq<FileState>, rejects: set<nat>)

  datatype PatchOutcome = PatchFinished | PatchMissing | PatchBroke(after: nat)

  /** git stops with a fatal error after that many files; `looksRefused` is the script's guess from its message. */
  datatype GitOutcome = GitFinished | GitDied(after: nat, looksRefused: bool)

  /** No git either: never executed, so nothing is written. */
  const GIT_MISSING := GitDied(0, true)

  datatype Env = Env(fit: nat -> Fit, patch: PatchOutcome, git: GitOutcome)

  datatype Outcome = StoodDown | Backported | Failed(leftPartialTree: bool)

  predicate DiffOk(d: Diff) {
    d.message < d.size && d.message in d.required && forall i :: i in d.required ==> i < d.size
  }

  predicate TreeOk(d: Diff, t: Tree) {
    |t.files| == d.size
  }

  // ----- one run on values -----

  /** An already-applied file has its hunks rejected (`-f -N`, `--reject`). */
  function ApplyFile(t: Tree, fit: Fit, i: nat): Tree
    requires i < |t.files|
  {
    if t.files[i].Landed? then t.(rejects := t.rejects + {i})
    else match fit
      case Lands => t.(files := t.files[i := Landed])
      case LandsPartly => t.(files := t.files[i := Landed], rejects := t.rejects + {i})
      case Rejects => t.(rejects := t.rejects + {i})
      case Lost => t
  }

  /** The tree after the applier has dealt with the first k files. */
  function ApplyUpTo(t: Tree, fit: nat -> Fit, k: nat): Tree
    requires k <= |t.files|
    ensures |ApplyUpTo(t, fit, k).files| == |t.files|
  {
    if k == 0 then t else ApplyFile(ApplyUpTo(t, fit, k - 1), fit(k - 1), k - 1)
  }

  predicate AllLanded(d: Diff, t: Tree)
    requires DiffOk(d) && TreeOk(d, t)
  {
    forall i :: i in d.required ==> t.files[i].Landed?
  }

  function Checked(d: Diff, t: Tree): (Tree, Outcome)
    requires DiffOk(d) && TreeOk(d, t)
  {
    if t.rejects - d.expectedRejects != {} || !AllLanded(d, t) then (t, Failed(true))
    else (t.(rejects := {}), Backported)
  }

  function Stop(d: Diff, after: nat): nat {
    Min(after, d.size)
  }

  function Run(d: Diff, t: Tree, env: Env): (Tree, Outcome)
    requires DiffOk(d) && TreeOk(d, t)
  {
    if !t.hasBase || !t.hasMessage then (t, Failed(false))
    else if t.files[d.message].Landed? then
      (t, if AllLanded(d, t) then StoodDown else Failed(true))
    else match env.patch
      case PatchFinished => Checked(d, ApplyUpTo(t, env.fit, d.size))
      case PatchBroke(after) => (ApplyUpTo(t, env.fit, Stop(d, after)), Failed(true))
      case PatchMissing =>
        match env.git
        case GitFinished => Checked(d, ApplyUpTo(t, env.fit, d.size))
        case GitDied(after, looksRefused) => (ApplyUpTo(t, env.fit, Stop(d, after)), Failed(!looksRefused))
  }

  function ExitCode(o: Outcome, bestEffort: bool): int {
    if o.Failed? && (!bestEffort || o.leftPartialTree) then 1 else 0
  }

  // ----- the script -----

  class Installation {
    const diff: Diff
    var tree: Tree

    constructor (diff: Diff, tree: Tree)
      requires DiffOk(diff) && TreeOk(diff, tree)
      ensures this.diff == diff && this.tree == tree
    {
      this.diff, this.tree := diff, tree;
    }

    /** The external applier, up to the point where it stops. */
    method RunApplier(fit: nat -> Fit, k: nat)
      requires k <= |tree.files|
      modifies this
      ensures tree == ApplyUpTo(old(tree), fit, k)
    {
      var i := 0;
      while i < k
        invariant 0 <= i <= k && |tree.files| == |old(tree).files|
        invariant tree == ApplyUpTo(old(tree), fit, i)
      {
        tree := ApplyFile(tree, fit(i), i);
        i := i + 1;
      }
    }

    /** REQUIRED_SITES, one file at a time. */
    method EverySiteLanded() returns (ok: bool)
      requires DiffOk(diff) && TreeOk(diff, tree)
      ensures ok == AllLanded(diff, tree)
    {
      var i := 0;
      while i < diff.size
        invariant 0 <= i <= diff.size
        invariant forall j :: 0 <= j < i && j in diff.required ==> tree.files[j].Landed?
      {
        if i in diff.required && !tree.files[i].Landed? {
          return false;
        }
        i := i + 1;
      }
      ok := true;
    }

    method ApplyBackport(env: Env) returns (outcome: Outcome)
      requires DiffOk(diff) && TreeOk(diff, tree)
      modifies this
      ensures TreeOk(diff, tree)
      ensures (tree, outcome) == Run(diff, old(tree), env)
    {
      if !tree.hasBase || !tree.hasMessage {
        return Failed(false);
      }
      if tree.files[diff.message].Landed? {
        var whole := EverySiteLanded();
        return if whole then StoodDown else Failed(true);
      }
      if env.patch.PatchMissing? {
        if env.git.GitDied? {
          RunApplier(env.fit, Stop(diff, env.git.after));
          return Failed(!env.git.looksRefused);
        }
      } else if env.patch.PatchBroke? {
        RunApplier(env.fit, Stop(diff, env.patch.after));
        return Failed(true);
      }
      RunApplier(env.fit, diff.size);
      if tree.rejects - diff.expectedRejects != {} {
        return Failed(true);
      }
      var landed := EverySiteLanded();
      if !landed {
        return Failed(true);
      }
      tree := tree.(rejects := {});
      outcome := Backported;
    }

    method Main201832(env: Env, bestEffort: bool) returns (code: int)
      requires DiffOk(diff) && TreeOk(diff, tree)
      modifies this
      ensures TreeOk(diff, tree) && tree == Run(diff, old(tree), env).0
      ensures code == ExitCode(Run(diff, old(tree), env).1, bestEffort)
    {
      var outcome := ApplyBackport(env);
      if outcome.Failed? && (!bestEffort || outcome.leftPartialTree) {
        return 1;
      }
      code := 0;
    }
  }

  // ----- histories: runs, some of them killed -----

  datatype Attempt = Attempt(env: Env, killedAfter: Option<nat>)   // killed once that many files were written

  function After(d: Diff, t: Tree, a: Attempt): Tree
    requires DiffOk(d) && TreeOk(d, t)
  {
    match a.killedAfter
    case None => Run(d, t, a.env).0
    case Some(k) =>
      if t.hasBase && t.hasMessage && t.files[d.message].Pristine? then ApplyUpTo(t, a.env.fit, Stop(d, k)) else t
  }

  function History(d: Diff, t: Tree, attempts: seq<Attempt>): (r: Tree)
    requires DiffOk(d) && TreeOk(d, t)
    ensures TreeOk(d, r)
    decreases |attempts|
  {
    if attempts == [] then t else History(d, After(d, t, attempts[0]), attempts[1..])
  }

  function Untouched(d: Diff): Tree {
    Tree(true, true, seq(d.size, _ => Pristine), {})
  }

  predicate SomeLanded(t: Tree) {
    exists i :: 0 <= i < |t.files| && t.files[i].Landed?
  }

  /** Neither `patch` nor git is taken to have written anything. */
  predicate TakenForRefused(env: Env) {
    env.patch.PatchMissing? && env.git.GitDied? && env.git.looksRefused
  }

  /** What the applier does to file i, and whether it leaves a reject for it, seen on its own. */
  lemma {:induction false} ApplyAt(t: Tree, fit: nat -> Fit, k: nat, i: nat)
    requires k <= |t.files| && i < |t.files|
    ensures var out := ApplyUpTo(t, fit, k);
            && (out.files[i].Landed? <==> t.files[i].Landed? || (i < k && (fit(i).Lands? || fit(i).LandsPartly?)))
            && (i in out.rejects <==>
                  i in t.rejects || (i < k && (t.files[i].Landed? || fit(i).LandsPartly? || fit(i).Rejects?)))
  {
    if k == 0 {
    } else {
      ApplyAt(t, fit, k - 1, i);
    }
  }

  lemma {:induction false} ApplyKeepsShape(t: Tree, fit: nat -> Fit, k: nat)
    requires k <= |t.files|
    ensures ApplyUpTo(t, fit, k).hasBase == t.hasBase && ApplyUpTo(t, fit, k).hasMessage == t.hasMessage
  {
    if k == 0 {
    } else {
      ApplyKeepsShape(t, fit, k - 1);
    }
  }

  lemma ApplyKeepsLanded(t: Tree, fit: nat -> Fit, k: nat)
    requires k <= |t.files|
    ensures var out := ApplyUpTo(t, fit, k);
            && out.hasBase == t.hasBase && out.hasMessage == t.hasMessage
            && (forall i: nat :: i < |t.files| ==>
                  (out.files[i].Landed? <==> t.files[i].Landed? || (i < k && (fit(i).Lands? || fit(i).LandsPartly?))))
            && (forall i: nat :: i < |t.files| ==>
                  (i in out.rejects <==>
                     i in t.rejects || (i < k && (t.files[i].Landed? || fit(i).LandsPartly? || fit(i).Rejects?))))
  {
    ApplyKeepsShape(t, fit, k);
    forall i: nat | i < |t.files|
      ensures var out := ApplyUpTo(t, fit, k);
              && (out.files[i].Landed? <==> t.files[i].Landed? || (i < k && (fit(i).Lands? || fit(i).LandsPartly?)))
              && (i in out.rejects <==>
                    i in t.rejects || (i < k && (t.files[i].Landed? || fit(i).LandsPartly? || fit(i).Rejects?)))
    {
      ApplyAt(t, fit, k, i);
    }
  }

  // ----- what a fresh install ends with -----

  /** `patch` did its work, or git did in its absence. */
  predicate Applied(env: Env) {
    env.patch.PatchFinished? || (env.patch.PatchMissing? && env.git.GitFinished?)
  }

  /**
   An applier that runs to its end over a fresh install succeeds exactly when every required file takes its patch and
   only tolerated files leave a reject; anything else fails loudly, best effort or not.
   */
  lemma FreshInstallSucceedsIff(d: Diff, env: Env)
    requires DiffOk(d) && Applied(env)
    ensures var (after, outcome) := Run(d, Untouched(d), env);
            var fits :=
              && (forall i :: i in d.required ==> env.fit(i).Lands? || env.fit(i).LandsPartly?)
              && (forall i: nat :: i < d.size && (env.fit(i).LandsPartly? || env.fit(i).Rejects?) ==> i in d.expectedRejects);
            && outcome == (if fits then Backported else Failed(true))
            && ExitCode(outcome, true) == ExitCode(outcome, false) == (if fits then 0 else 1)
            && (fits ==> after.rejects == {})
            && TreeOk(d, after)
            && (forall i: nat :: i < d.size ==> (after.files[i].Landed? <==> env.fit(i).Lands? || env.fit(i).LandsPartly?))
  {
    var t := Untouched(d);
    ApplyKeepsLanded(t, env.fit, d.size);
    RejectsInRange(t, env.fit, d.size);
    var out := ApplyUpTo(t, env.fit, d.size);
    assert out.rejects - d.expectedRejects != {} <==> exists i :: i in out.rejects && i !in d.expectedRejects by {
      if out.rejects - d.expectedRejects != {} {
        var i :| i in out.rejects - d.expectedRejects;
      }
      if i :| i in out.rejects && i !in d.expectedRejects {
        assert i in out.rejects - d.expectedRejects;
      }
    }
  }

  lemma {:induction false} RejectsInRange(t: Tree, fit: nat -> Fit, k: nat)
    requires k <= |t.files| && forall i :: i in t.rejects ==> i < |t.files|
    ensures forall i :: i in ApplyUpTo(t, fit, k).rejects ==> i < |t.files|
  {
    if k == 0 {
    } else {
      RejectsInRange(t, fit, k - 1);
    }
  }

  /** The ordinary install: the whole diff lands, the tolerated reject is cleaned up, and the next run stands down. */
  lemma OrdinaryInstallSucceeds(d: Diff, env: Env, next: Env)
    requires DiffOk(d) && Applied(env) && FitsBut(d, env.fit)
    ensures var (after, outcome) := Run(d, Untouched(d), env);
            && outcome == Backported && EveryFileLanded(after) && after.rejects == {}
            && ExitCode(outcome, true) == ExitCode(outcome, false) == 0
            && TreeOk(d, after) && Run(d, after, next) == (after, StoodDown)
            && ExitCode(StoodDown, true) == ExitCode(StoodDown, false) == 0
  {
    FreshInstallSucceedsIff(d, env);
    ApplyKeepsShape(Untouched(d), env.fit, d.size);
  }

  /** The shipped diff: every file lands and Contact.js (7) leaves the one reject that is expected of it. */
  lemma ShippedInstallSucceeds(env: Env)
    requires Applied(env) && forall i: nat :: env.fit(i) == if i == 7 then LandsPartly else Lands
    ensures var (after, outcome) := Run(WWEBJS_201832, Untouched(WWEBJS_201832), env);
            && outcome == Backported && EveryFileLanded(after) && after.rejects == {}
            && ExitCode(outcome, true) == ExitCode(outcome, false) == 0
  {
    OrdinaryInstallSucceeds(WWEBJS_201832, env, env);
  }

  /** An applier that stops half way fails loudly; one that never started, or a missing library, fails only without best effort. */
  lemma FailureIsLoudIff(d: Diff, t: Tree, env: Env)
    requires DiffOk(d) && TreeOk(d, t)
    requires !t.hasBase || !t.hasMessage || (t.files[d.message].Pristine? && !Applied(env))
    ensures var (after, outcome) := Run(d, t, env);
            var degrades := !t.hasBase || !t.hasMessage
                            || (env.patch.PatchMissing? && env.git.GitDied? && env.git.looksRefused);
            outcome == Failed(!degrades) && ExitCode(outcome, false) == 1 && ExitCode(outcome, true) == if degrades then 0 else 1
  {
  }

  // ----- what exit 0 says of any tree -----

  /** The failures that do not count as leaving a partial tree; best effort passes over them. */
  predicate WavedThrough(d: Diff, t: Tree, env: Env)
    requires DiffOk(d) && TreeOk(d, t)
  {
    !t.hasBase || !t.hasMessage || (t.files[d.message].Pristine? && TakenForRefused(env))
  }

  /** What such a run has written: nothing, unless git died with a misleading message. */
  function Written(d: Diff, t: Tree, env: Env): (k: nat)
    ensures k <= d.size
  {
    if t.hasBase && t.hasMessage && env.git.GitDied? then Stop(d, env.git.after) else 0
  }

  /** A run that exits 0 leaves every required site landed, or best effort waved it through as it stood. */
  lemma ExitZeroMeansWholeOrWaved(d: Diff, t: Tree, env: Env, bestEffort: bool)
    requires DiffOk(d) && TreeOk(d, t) && ExitCode(Run(d, t, env).1, bestEffort) == 0
    ensures var after := Run(d, t, env).0;
            && TreeOk(d, after)
            && (AllLanded(d, after)
                || (bestEffort && WavedThrough(d, t, env) && after == ApplyUpTo(t, env.fit, Written(d, t, env))))
  {
  }

  /**
   The exact gap: a run exits 0 over a tree that is neither clear of the backport nor whole precisely when it is
   waved through under best effort, and either the tree was half patched already or this run half-patched it
   before git died.
   */
  lemma ExitZeroOverHalfPatchedIff(d: Diff, t: Tree, env: Env, bestEffort: bool)
    requires DiffOk(d) && TreeOk(d, t)
    ensures var (after, outcome) := Run(d, t, env);
            var k := Written(d, t, env);
            TreeOk(d, after) &&
            ((ExitCode(outcome, bestEffort) == 0 && SomeLanded(after) && !AllLanded(d, after))
             <==> bestEffort && WavedThrough(d, t, env)
                  && (SomeLanded(t) || exists i: nat :: i < k && Patches(env.fit, i))
                  && exists i :: i in d.required && t.files[i].Pristine? && !(i < k && Patches(env.fit, i)))
  {
    var k := Written(d, t, env);
    ApplyKeepsLanded(t, env.fit, k);
    var out := ApplyUpTo(t, env.fit, k);
    if exists i: nat :: i < k && Patches(env.fit, i) {
      var i: nat :| i < k && Patches(env.fit, i);
      assert out.files[i].Landed?;
    }
    if SomeLanded(t) {
      var i :| 0 <= i < |t.files| && t.files[i].Landed?;
      assert out.files[i].Landed?;
    }
    assert !AllLanded(d, out) <==> exists i :: i in d.required && t.files[i].Pristine? && !(i < k && Patches(env.fit, i));
    if SomeLanded(out) {
      var i: nat :| i < |out.files| && out.files[i].Landed?;
      assert t.files[i].Landed? || (i < k && Patches(env.fit, i));
    }
  }

  predicate Patches(fit: nat -> Fit, i: nat) {
    fit(i).Lands? || fit(i).LandsPartly?
  }

  /**
   On a fresh install the guess from git's message is safe exactly when it is right, or git got everything required
   done: then no best-effort run exits 0 over a tree that it has itself half patched.
   */
  lemma GuessIsSafeIff(d: Diff, fit: nat -> Fit, after: nat)
    requires DiffOk(d) && FitsBut(d, fit)
    ensures var (tree, outcome) := Run(d, Untouched(d), Env(fit, PatchMissing, GitDied(after, true)));
            TreeOk(d, tree) &&
            (!(ExitCode(outcome, true) == 0 && SomeLanded(tree) && !AllLanded(d, tree))
             <==> after == 0 || forall i :: i in d.required ==> i < after)
  {
    var env := Env(fit, PatchMissing, GitDied(after, true));
    ExitZeroOverHalfPatchedIff(d, Untouched(d), env, true);
    if after > 0 {
      assert Patches(fit, 0);
    }
  }

  // ----- crash safety over histories, file by file -----

  predicate FitsBut(d: Diff, fit: nat -> Fit) {
    forall i: nat :: i < d.size ==> fit(i).Lands? || (fit(i).LandsPartly? && i in d.expectedRejects)
  }

  ghost predicate AllFit(d: Diff, attempts: seq<Attempt>) {
    forall a :: a in attempts ==> FitsBut(d, a.env.fit)
  }

  /** Whatever has happened, the patched files are the first k of the diff. */
  predicate PrefixLanded(t: Tree, k: nat) {
    k <= |t.files| && t.hasBase && t.hasMessage && forall i: nat :: i < |t.files| ==> (t.files[i].Landed? <==> i < k)
  }

  lemma ApplyExtends(d: Diff, t: Tree, fit: nat -> Fit, k: nat, n: nat)
    requires TreeOk(d, t) && PrefixLanded(t, k) && FitsBut(d, fit) && n <= d.size
    ensures PrefixLanded(ApplyUpTo(t, fit, n), if k < n then n else k)
  {
    ApplyKeepsLanded(t, fit, n);
  }

  lemma AttemptExtends(d: Diff, t: Tree, a: Attempt, k: nat) returns (n: nat)
    requires DiffOk(d) && TreeOk(d, t) && PrefixLanded(t, k) && FitsBut(d, a.env.fit)
    ensures PrefixLanded(After(d, t, a), n)
    ensures a.killedAfter.None? && !TakenForRefused(a.env) && !Run(d, t, a.env).1.Failed? && d.size - 1 in d.required ==> n == d.size
  {
    forall j: nat | j <= d.size ensures PrefixLanded(ApplyUpTo(t, a.env.fit, j), if k < j then j else k) {
      ApplyExtends(d, t, a.env.fit, k, j);
    }
    n := if k > d.message then k
         else match a.killedAfter
           case Some(after) => (if k < Stop(d, after) then Stop(d, after) else k)
           case None =>
             match a.env.patch
             case PatchFinished => d.size
             case PatchBroke(after) => (if k < Stop(d, after) then Stop(d, after) else k)
             case PatchMissing =>
               match a.env.git
               case GitFinished => d.size
               case GitDied(after, _) => (if k < Stop(d, after) then Stop(d, after) else k);
  }

  lemma {:induction false} HistoryIsPrefix(d: Diff, t: Tree, attempts: seq<Attempt>, k: nat) returns (n: nat)
    requires DiffOk(d) && TreeOk(d, t) && PrefixLanded(t, k) && AllFit(d, attempts)
    ensures PrefixLanded(History(d, t, attempts), n)
    decreases |attempts|
  {
    if attempts == [] {
      n := k;
    } else {
      assert attempts[0] in attempts;
      n := AttemptExtends(d, t, attempts[0], k);
      n := HistoryIsPrefix(d, After(d, t, attempts[0]), attempts[1..], n);
    }
  }

  ghost predicate EveryFileLanded(t: Tree) {
    forall i: nat :: i < |t.files| ==> t.files[i].Landed?
  }

  /** With an applier and a library the diff fits, exit 0 vouches for the whole diff, whatever runs and kills came before. */
  ghost predicate ExitZeroVouchesForAll(d: Diff)
    requires DiffOk(d)
  {
    forall attempts: seq<Attempt>, env: Env, bestEffort: bool ::
      AllFit(d, attempts) && FitsBut(d, env.fit) && !TakenForRefused(env)
      && ExitCode(Run(d, History(d, Untouched(d), attempts), env).1, bestEffort) == 0 ==>
        EveryFileLanded(Run(d, History(d, Untouched(d), attempts), env).0)
  }

  lemma ExitZeroIsWhole(d: Diff, attempts: seq<Attempt>, env: Env, bestEffort: bool)
    requires DiffOk(d) && d.size - 1 in d.required
    requires AllFit(d, attempts) && FitsBut(d, env.fit) && !TakenForRefused(env)
    requires ExitCode(Run(d, History(d, Untouched(d), attempts), env).1, bestEffort) == 0
    ensures EveryFileLanded(Run(d, History(d, Untouched(d), attempts), env).0)
  {
    var t := History(d, Untouched(d), attempts);
    var k := HistoryIsPrefix(d, Untouched(d), attempts, 0);
    var last := Attempt(env, None);
    var n := AttemptExtends(d, t, last, k);
    assert After(d, t, last) == Run(d, t, env).0;
  }

  /**
   Crash safety of the whole diff, unchecked files included: exit 0 vouches for every file exactly when the last
   file the applier writes is a required site.
   */
  lemma ExitZeroVouchesForAllIff(d: Diff)
    requires DiffOk(d)
    ensures ExitZeroVouchesForAll(d) <==> d.size - 1 in d.required
  {
    if d.size - 1 in d.required {
      forall attempts: seq<Attempt>, env: Env, bestEffort: bool
        | AllFit(d, attempts) && FitsBut(d, env.fit) && !TakenForRefused(env)
          && ExitCode(Run(d, History(d, Untouched(d), attempts), env).1, bestEffort) == 0
        ensures EveryFileLanded(Run(d, History(d, Untouched(d), attempts), env).0)
      {
        ExitZeroIsWhole(d, attempts, env, bestEffort);
      }
    } else {
      var env := Env(_ => Lands, PatchFinished, GIT_MISSING);
      var killed := Attempt(env, Some(d.size - 1));
      var t := After(d, Untouched(d), killed);
      assert History(d, Untouched(d), [killed]) == t by {
        assert [killed][1..] == [] && History(d, t, []) == t;
      }
      ApplyExtends(d, Untouched(d), env.fit, 0, d.size - 1);
      assert AllFit(d, [killed]);
      assert ExitCode(Run(d, t, env).1, false) == 0 && t.files[d.size - 1].Pristine?;
      assert !EveryFileLanded(Run(d, t, env).0);
    }
  }

  /** The gap is reachable whenever something precedes Message.js in the diff. */
  lemma HalfPatchedTreeIsReachable(d: Diff, fit: nat -> Fit)
    requires DiffOk(d) && d.message > 0 && fit(0).Lands?
    ensures var killed := Attempt(Env(fit, PatchFinished, GIT_MISSING), Some(1));
            var t := History(d, Untouched(d), [killed]);
            var (after, outcome) := Run(d, t, Env(fit, PatchMissing, GIT_MISSING));
            TreeOk(d, after) && ExitCode(outcome, true) == 0 && SomeLanded(after) && !AllLanded(d, after)
  {
    var killed := Attempt(Env(fit, PatchFinished, GIT_MISSING), Some(1));
    var t0 := Untouched(d);
    var t := After(d, t0, killed);
    assert [killed][1..] == [] && History(d, t, []) == t;
    assert ApplyUpTo(t0, fit, 0) == t0;
    assert t.files[0].Landed?;
  }

  // ----- what a killed run leaves for later ones -----

  /**
   Killed before Message.js: the next run completes the tree but reports it, because the files already
   patched reject; the run after that stands down.
   */
  lemma KilledEarlyIsCompleted(d: Diff, env: Env, k: nat)
    requires DiffOk(d) && FitsBut(d, env.fit) && env.patch.PatchFinished?
    requires 0 < k <= d.message && 0 !in d.expectedRejects
    ensures var killed := ApplyUpTo(Untouched(d), env.fit, k);
            var (second, outcome) := Run(d, killed, env);
            && outcome == Failed(true) && TreeOk(d, second) && AllLanded(d, second)
            && Run(d, second, env) == (second, StoodDown)
  {
    var t0 := Untouched(d);
    var killed := ApplyUpTo(t0, env.fit, k);
    ApplyKeepsLanded(t0, env.fit, k);
    ApplyKeepsLanded(killed, env.fit, d.size);
    var second := ApplyUpTo(killed, env.fit, d.size);
    assert 0 in second.rejects - d.expectedRejects;
  }

  /** Killed after Message.js but before the end: refused from then on, by every run, best-effort or not, applier or not. */
  lemma KilledLateIsRefusedForGood(d: Diff, fit: nat -> Fit, k: nat, attempts: seq<Attempt>, env: Env, bestEffort: bool)
    requires DiffOk(d) && FitsBut(d, fit) && d.message < k < d.size && d.size - 1 in d.required
    ensures var killed := ApplyUpTo(Untouched(d), fit, k);
            History(d, killed, attempts) == killed && ExitCode(Run(d, killed, env).1, bestEffort) == 1
    decreases |attempts|
  {
    var killed := ApplyUpTo(Untouched(d), fit, k);
    ApplyKeepsLanded(Untouched(d), fit, k);
    assert killed.files[d.size - 1].Pristine?;
    if attempts == [] {
    } else {
      assert After(d, killed, attempts[0]) == killed;
      KilledLateIsRefusedForGood(d, fit, k, attempts[1..], env, bestEffort);
    }
  }

  /**
   Why the site list must reach the end of the diff: a run killed after Message.js can never pass for an
   upstream fix exactly when the last file is a required site (or is Message.js itself).
   */
  lemma NoLatchIffLastFileChecked(d: Diff, fit: nat -> Fit, env: Env)
    requires DiffOk(d) && FitsBut(d, fit)
    ensures (forall k :: d.message < k < d.size ==> !Run(d, ApplyUpTo(Untouched(d), fit, k), env).1.StoodDown?)
            <==> d.message == d.size - 1 || d.size - 1 in d.required
  {
    forall k | d.message < k < d.size
      ensures Run(d, ApplyUpTo(Untouched(d), fit, k), env).1.StoodDown? <==> forall i :: i in d.required ==> i < k
    {
      ApplyKeepsLanded(Untouched(d), fit, k);
    }
    if d.message < d.size - 1 && d.size - 1 !in d.required {
      var k := d.size - 1;
      assert forall i :: i in d.required ==> i < k;
      assert Run(d, ApplyUpTo(Untouched(d), fit, k), env).1.StoodDown?;
    }
  }

  /** wwebjs-201832.patch: index.d.ts, Client, six structures up to Contact (7), GroupChat, GroupNotification, Message, Utils (11). */
  const WWEBJS_201832 := Diff(12, 10, {1, 2, 3, 4, 5, 6, 7, 8, 9, 10, 11}, {7})

  /** The shipped diff and site list: no kill after Message.js can latch, and exit 0 vouches for all twelve files. */
  lemma {:induction false} ShippedDiffIsSafe(fit: nat -> Fit, env: Env)
    requires FitsBut(WWEBJS_201832, fit)
    ensures DiffOk(WWEBJS_201832)
    ensures !Run(WWEBJS_201832, ApplyUpTo(Untouched(WWEBJS_201832), fit, 11), env).1.StoodDown?
    ensures ExitZeroVouchesForAll(WWEBJS_201832)
  {
    NoLatchIffLastFileChecked(WWEBJS_201832, fit, env);
    ExitZeroVouchesForAllIff(WWEBJS_201832);
  }
}
