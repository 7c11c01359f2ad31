/**
 `patch-wwebjs-participant-arity.js`: one group per action, preceded by a rewind of the bodies an earlier
 version of the patcher left behind.
 */
module ParticipantArity {
  import opened Common
  import opened Text
  import opened PatchGroups

  datatype Action = Action(name: string, find: string, legacy: string, replace: string)

  predicate UsableActions(actions: seq<Action>) {
    forall a :: a in actions ==> a.find != "" && a.legacy != "" && a.replace != "" && '$' !in a.replace
  }

  function GroupsOf(actions: seq<Action>): (groups: seq<Group>)
    requires UsableActions(actions)
    ensures UsableGroups(groups)
  {
    if actions == [] then [] else
      assert actions[0] in actions;
      [Group(actions[0].name, [Edit(actions[0].find, actions[0].replace)])] + GroupsOf(actions[1..])
  }

  /** `remove` has the same body in both versions, so it is never rewound. */
  function Rewind(source: string, a: Action): string
    requires a.legacy != ""
  {
    if a.legacy == a.replace then source else ReplaceAll(source, a.legacy, a.find)
  }

  function NormalizeLegacy(source: string, actions: seq<Action>): string
    requires UsableActions(actions)
    decreases |actions|
  {
    if actions == [] then source else
      assert actions[0] in actions;
      NormalizeLegacy(Rewind(source, actions[0]), actions[1..])
  }

  function Patch(source: string, actions: seq<Action>): Option<Report>
    requires UsableActions(actions)
  {
    Resolve(NormalizeLegacy(source, actions), GroupsOf(actions))
  }

  method ApplyParticipantArityPatches(file: Installed, actions: seq<Action>) returns (report: Option<Report>)
    requires UsableActions(actions)
    modifies file
    ensures report == Patch(old(file.content), actions)
    ensures file.content == if report.Some? && report.value.applied != [] then report.value.source else old(file.content)
    ensures file.writes == old(file.writes) + if report.Some? && report.value.applied != [] then 1 else 0
  {
    var source := file.content;
    var i := 0;
    assert actions[0..] == actions;
    while i < |actions|
      invariant 0 <= i <= |actions|
      invariant UsableActions(actions[i..])
      invariant NormalizeLegacy(source, actions[i..]) == NormalizeLegacy(old(file.content), actions)
      invariant file.content == old(file.content) && file.writes == old(file.writes)
    {
      var a := actions[i];
      ghost var rest := actions[i..];
      assert a in actions && rest[0] == a && rest[1..] == actions[i + 1..];
      assert UsableActions(rest[1..]);
      if a.legacy != a.replace {
        source := ReplaceAll(source, a.legacy, a.find);
      }
      i := i + 1;
    }
    report := file.ResolveFrom(source, GroupsOf(actions));
  }

  // ----- the texts -----

  function ActionWords(a: Action): seq<string> {
    [a.find, a.replace] + if a.legacy == a.replace then [] else [a.legacy]
  }

  lemma OwnWords(a: Action)
    ensures a.find in ActionWords(a) && a.replace in ActionWords(a) && a.legacy in ActionWords(a)
  {
    var words := ActionWords(a);
    assert words[0] == a.find && words[1] == a.replace && (a.legacy != a.replace ==> words[2] == a.legacy);
  }

  function AllWords(actions: seq<Action>): seq<string> {
    if actions == [] then [] else ActionWords(actions[0]) + AllWords(actions[1..])
  }

  lemma {:induction false} HeadAction(actions: seq<Action>)
    requires actions != [] && Independent(AllWords(actions))
    ensures var a := actions[0];
            && Unbordered(a.find) && Unbordered(a.replace) && Unbordered(a.legacy)
            && Apart(a.find, a.replace) && Apart(a.find, a.legacy)
            && (a.legacy != a.replace ==> Apart(a.legacy, a.replace))
            && Independent(AllWords(actions[1..]))
            && a.find in ActionWords(a) && a.replace in ActionWords(a) && a.legacy in ActionWords(a)
  {
    var a := actions[0];
    var head := ActionWords(a);
    IndependentSplit(head, AllWords(actions[1..]));
    IndependentPairs(head, 0, 1);
    IndependentPairs(head, 1, 0);
    assert head[0] in head && head[1] in head;
    if a.legacy != a.replace {
      IndependentPairs(head, 0, 2);
      IndependentPairs(head, 2, 1);
      assert head[2] in head;
    }
  }

  lemma {:induction false} CrossApart(actions: seq<Action>, u: string, v: string)
    requires actions != [] && Independent(AllWords(actions))
    requires u in ActionWords(actions[0]) && v in AllWords(actions[1..])
    ensures Apart(u, v) && Apart(v, u)
  {
    IndependentSplit(ActionWords(actions[0]), AllWords(actions[1..]));
    ApartSymmetric(u, v);
  }

  lemma {:induction false} WordOfAction(actions: seq<Action>, a: Action, w: string)
    requires a in actions && w in ActionWords(a)
    ensures w in AllWords(actions)
  {
    if actions[0] == a {
    } else {
      WordOfAction(actions[1..], a, w);
    }
  }

  lemma {:induction false} WordsOfGroups(actions: seq<Action>)
    requires UsableActions(actions) && Independent(AllWords(actions))
    ensures IndependentGroups(GroupsOf(actions))
    ensures forall w :: w in Words(AllEdits(GroupsOf(actions))) ==> w in AllWords(actions)
  {
    if actions == [] {
    } else {
      var a := actions[0];
      HeadAction(actions);
      WordsOfGroups(actions[1..]);
      FirstGroupWords(actions);
      var rest := Words(AllEdits(GroupsOf(actions[1..])));
      forall v | v in rest ensures Apart(a.find, v) && Apart(a.replace, v) {
        CrossApart(actions, a.find, v);
        CrossApart(actions, a.replace, v);
      }
      var tail := [a.replace] + rest;
      assert tail[1..] == rest && ([a.find] + tail)[1..] == tail;
      assert [a.find, a.replace] + rest == [a.find] + tail;
    }
  }

  lemma FirstGroupWords(actions: seq<Action>)
    requires UsableActions(actions) && actions != []
    ensures UsableActions(actions[1..])
    ensures Words(AllEdits(GroupsOf(actions))) == [actions[0].find, actions[0].replace] + Words(AllEdits(GroupsOf(actions[1..])))
  {
  }

  // ----- the rewind, on any text -----

  /** Replacing n by x everywhere moves no count but those of n and x. */
  lemma {:induction false} ReplaceAllCounts(s: string, n: string, x: string, m: string)
    requires Unbordered(n) && m != "" && Apart(m, x) && (m == n || Apart(m, n))
    ensures Occurrences(ReplaceAll(s, n, x), m) == if m == n then 0 else Occurrences(s, m)
    decreases |s|
  {
    if Occurrences(s, n) > 0 {
      var l, r := CutAtFirst(s, n);
      AbsentIffZero(l, n);
      ReplaceAllHit(l, n, r, x);
      ReplaceAllCounts(r, n, x, m);
      CountAcross(l, x, ReplaceAll(r, n, x), m);
      if m != n {
        CountAcross(l, n, r, m);
      }
    } else {
      AbsentIffZero(s, n);
    }
  }

  /** ... and adds one x for each n. */
  lemma {:induction false} ReplaceAllAdds(s: string, n: string, x: string)
    requires Unbordered(n) && Unbordered(x) && Apart(x, n)
    ensures Occurrences(ReplaceAll(s, n, x), x) == Occurrences(s, x) + Occurrences(s, n)
    decreases |s|
  {
    if Occurrences(s, n) > 0 {
      var l, r := CutAtFirst(s, n);
      AbsentIffZero(l, n);
      ReplaceAllHit(l, n, r, x);
      ReplaceAllAdds(r, n, x);
      CountHit(l, x, ReplaceAll(r, n, x));
      CountAcross(l, n, r, x);
      CountHit(l, n, r);
    } else {
      AbsentIffZero(s, n);
    }
  }

  /** Rewinding one action moves no count of a word apart from its texts. */
  lemma RewindOneKeepsCount(source: string, a: Action, n: string)
    requires a.legacy != "" && n != "" && Unbordered(a.legacy) && Apart(n, a.find) && Apart(n, a.legacy)
    ensures Occurrences(Rewind(source, a), n) == Occurrences(source, n)
  {
    if a.legacy != a.replace {
      ApartDiffer(n, a.legacy);
      ReplaceAllCounts(source, a.legacy, a.find, n);
    }
  }

  /** A word apart from every action's text is counted the same before and after the rewind. */
  lemma {:induction false} RewindKeepsCount(source: string, actions: seq<Action>, n: string)
    requires UsableActions(actions) && Independent(AllWords(actions)) && n != "" && ApartFromAll(n, AllWords(actions))
    ensures Occurrences(NormalizeLegacy(source, actions), n) == Occurrences(source, n)
    decreases |actions|
  {
    if actions == [] {
    } else {
      var a := actions[0];
      assert a in actions;
      HeadAction(actions);
      WordOfAction(actions, a, a.find);
      WordOfAction(actions, a, a.legacy);
      RewindOneKeepsCount(source, a, n);
      assert ApartFromAll(n, AllWords(actions[1..]));
      RewindKeepsCount(Rewind(source, a), actions[1..], n);
    }
  }

  /** The counts of one action's texts before and after the whole rewind. */
  predicate Rewound(source: string, out: string, a: Action)
    requires a.find != "" && a.legacy != "" && a.replace != ""
  {
    && Occurrences(out, a.replace) == Occurrences(source, a.replace)
    && (a.legacy == a.replace ==> Occurrences(out, a.find) == Occurrences(source, a.find))
    && (a.legacy != a.replace ==>
          && Occurrences(out, a.find) == Occurrences(source, a.find) + Occurrences(source, a.legacy)
          && Occurrences(out, a.legacy) == 0)
  }

  lemma RewindFirst(source: string, actions: seq<Action>)
    requires UsableActions(actions) && Independent(AllWords(actions)) && actions != []
    ensures actions[0] in actions && Rewound(source, NormalizeLegacy(source, actions), actions[0])
  {
    var a, rest := actions[0], actions[1..];
    assert a in actions;
    HeadAction(actions);
    forall n | n in ActionWords(a) ensures ApartFromAll(n, AllWords(rest)) {
      forall w | w in AllWords(rest) ensures Apart(n, w) { CrossApart(actions, n, w); }
    }
    if a.legacy != a.replace {
      ReplaceAllAdds(source, a.legacy, a.find);
      ReplaceAllCounts(source, a.legacy, a.find, a.replace);
      ReplaceAllCounts(source, a.legacy, a.find, a.legacy);
      RewindKeepsCount(Rewind(source, a), rest, a.legacy);
    }
    RewindKeepsCount(Rewind(source, a), rest, a.find);
    RewindKeepsCount(Rewind(source, a), rest, a.replace);
  }

  lemma {:induction false} RewindCounts(source: string, actions: seq<Action>, a: Action)
    requires UsableActions(actions) && Independent(AllWords(actions)) && a in actions
    ensures Rewound(source, NormalizeLegacy(source, actions), a)
    decreases |actions|
  {
    if a == actions[0] {
      RewindFirst(source, actions);
    } else {
      var b := actions[0];
      assert b in actions && a in actions[1..];
      HeadAction(actions);
      OwnWords(a);
      LaterWordKept(source, actions, a, a.find);
      LaterWordKept(source, actions, a, a.replace);
      LaterWordKept(source, actions, a, a.legacy);
      RewindCounts(Rewind(source, b), actions[1..], a);
    }
  }

  /** Rewinding the first action leaves the count of a later action's word alone. */
  lemma {:induction false} LaterWordKept(source: string, actions: seq<Action>, a: Action, n: string)
    requires UsableActions(actions) && Independent(AllWords(actions)) && actions != []
    requires a in actions[1..] && n in ActionWords(a) && n != ""
    ensures actions[0] in actions && Occurrences(Rewind(source, actions[0]), n) == Occurrences(source, n)
  {
    var b := actions[0];
    assert b in actions;
    HeadAction(actions);
    WordOfAction(actions[1..], a, n);
    CrossApart(actions, b.find, n);
    CrossApart(actions, b.legacy, n);
    RewindOneKeepsCount(source, b, n);
  }

  // ----- promises on every source text -----

  /** The start-up guard's isApplied. */
  predicate IsCurrent(source: string, actions: seq<Action>)
    requires UsableActions(actions)
  {
    forall a :: a in actions ==> Occurrences(source, a.replace) == 1
  }

  /** Current, with nothing pristine or legacy left over. */
  predicate OnlyCurrent(source: string, actions: seq<Action>)
    requires UsableActions(actions)
  {
    forall a :: a in actions ==>
      && Occurrences(source, a.replace) == 1 && Occurrences(source, a.find) == 0
      && (a.legacy != a.replace ==> Occurrences(source, a.legacy) == 0)
  }

  lemma {:induction false} GroupsApplied(source: string, actions: seq<Action>)
    requires UsableActions(actions)
    ensures IsApplied(source, GroupsOf(actions))
            <==> forall a :: a in actions ==> Occurrences(source, a.find) == 0 && Occurrences(source, a.replace) == 1
  {
    if actions == [] {
    } else {
      var a := actions[0];
      var e := Edit(a.find, a.replace);
      GroupsApplied(source, actions[1..]);
      assert GroupsOf(actions)[0].edits == [e] && e in [e];
      assert Present(source, [e]) <==> Occurrences(source, a.find) == 0 && Occurrences(source, a.replace) == 1;
      assert IsApplied(source, GroupsOf(actions)) <==> Present(source, [e]) && IsApplied(source, GroupsOf(actions[1..])) by {
        assert GroupsOf(actions) == [Group(a.name, [e])] + GroupsOf(actions[1..]);
        if IsApplied(source, GroupsOf(actions)) {
          assert GroupsOf(actions)[0] in GroupsOf(actions);
        }
      }
    }
  }

  lemma {:induction false} NothingToRewind(source: string, actions: seq<Action>)
    requires UsableActions(actions)
    requires forall a :: a in actions && a.legacy != a.replace ==> Occurrences(source, a.legacy) == 0
    ensures NormalizeLegacy(source, actions) == source
    decreases |actions|
  {
    if actions == [] {
    } else {
      assert actions[0] in actions;
      AbsentIffZero(source, actions[0].legacy);
      NothingToRewind(source, actions[1..]);
    }
  }

  lemma {:induction false} GroupsWhole(source: string, actions: seq<Action>)
    requires UsableActions(actions)
    ensures AllWhole(source, GroupsOf(actions))
            <==> forall a :: a in actions ==> Occurrences(source, a.find) + Occurrences(source, a.replace) == 1
  {
    if actions == [] {
    } else {
      var a := actions[0];
      var e := Edit(a.find, a.replace);
      GroupsWhole(source, actions[1..]);
      assert GroupsOf(actions)[0].edits == [e] && e in [e] && GroupsOf(actions)[1..] == GroupsOf(actions[1..]);
      assert Present(source, [e]) <==> Occurrences(source, a.find) == 0 && Occurrences(source, a.replace) == 1;
      assert Pristine(source, [e]) <==> Occurrences(source, a.find) == 1 && Occurrences(source, a.replace) == 0;
      assert forall b :: b in actions <==> b == a || b in actions[1..];
    }
  }

  /** Which files are accepted: those with exactly one body per action, in one of its shapes; any other is refused. */
  lemma AcceptedArityIff(source: string, actions: seq<Action>)
    requires UsableActions(actions) && Independent(AllWords(actions))
    ensures Patch(source, actions).Some? <==>
              forall a :: a in actions ==>
                a.find != "" && a.legacy != "" && a.replace != ""
                && Occurrences(source, a.find) + Occurrences(source, a.replace)
                   + (if a.legacy == a.replace then 0 else Occurrences(source, a.legacy)) == 1
  {
    var rewound := NormalizeLegacy(source, actions);
    WordsOfGroups(actions);
    AcceptedWhole(rewound, GroupsOf(actions));
    GroupsWhole(rewound, actions);
    forall a | a in actions ensures Rewound(source, rewound, a) {
      RewindCounts(source, actions, a);
    }
  }

  /** An accepted file ends with every action current and no older body anywhere. */
  lemma {:induction false} AcceptedIsCurrent(source: string, actions: seq<Action>)
    requires UsableActions(actions) && Independent(AllWords(actions)) && Patch(source, actions).Some?
    ensures OnlyCurrent(Patch(source, actions).value.source, actions)
  {
    var rewound, groups := NormalizeLegacy(source, actions), GroupsOf(actions);
    WordsOfGroups(actions);
    AcceptedIsApplied(rewound, groups);
    var out := Patch(source, actions).value.source;
    GroupsApplied(out, actions);
    forall a | a in actions && a.legacy != a.replace ensures a.legacy != "" && Occurrences(out, a.legacy) == 0 {
      RewindCounts(source, actions, a);
      LegacyApartFromGroups(actions, a);
      ResolveKeepsCount(rewound, groups, a.legacy);
    }
  }

  lemma {:induction false} LegacyApartFromGroups(actions: seq<Action>, a: Action)
    requires UsableActions(actions) && Independent(AllWords(actions)) && a in actions && a.legacy != a.replace
    ensures ApartFromAll(a.legacy, Words(AllEdits(GroupsOf(actions))))
  {
    var b := actions[0];
    HeadAction(actions);
    WordsOfGroups(actions[1..]);
    var rest := Words(AllEdits(GroupsOf(actions[1..])));
    assert GroupsOf(actions)[0].edits == [Edit(b.find, b.replace)];
    WordsConcat([Edit(b.find, b.replace)], AllEdits(GroupsOf(actions[1..])));
    assert Words([Edit(b.find, b.replace)]) == [b.find, b.replace];
    if a == b {
      forall w | w in rest ensures Apart(a.legacy, w) { CrossApart(actions, a.legacy, w); }
      ApartSymmetric(a.find, a.legacy);
    } else {
      LegacyApartFromGroups(actions[1..], a);
      OwnWords(a);
      WordOfAction(actions[1..], a, a.legacy);
      CrossApart(actions, b.find, a.legacy);
      CrossApart(actions, b.replace, a.legacy);
    }
  }

  /** Nothing is applied exactly when the file was already current throughout; then it is left as it was. */
  lemma AppliesNothingIffCurrent(source: string, actions: seq<Action>)
    requires UsableActions(actions) && Independent(AllWords(actions))
    ensures Patch(source, actions).Some? && Patch(source, actions).value.applied == [] <==> OnlyCurrent(source, actions)
    ensures OnlyCurrent(source, actions) ==> Patch(source, actions).value.source == source
  {
    var rewound := NormalizeLegacy(source, actions);
    AppliesNothingIff(rewound, GroupsOf(actions));
    GroupsApplied(rewound, actions);
    forall a | a in actions
      ensures Occurrences(rewound, a.find) == 0 && Occurrences(rewound, a.replace) == 1 <==>
              Occurrences(source, a.replace) == 1 && Occurrences(source, a.find) == 0
              && (a.legacy != a.replace ==> Occurrences(source, a.legacy) == 0)
    {
      RewindCounts(source, actions, a);
    }
    if OnlyCurrent(source, actions) {
      NothingToRewind(source, actions);
    }
  }

  /** A second run over an accepted file changes nothing. */
  lemma {:induction false} SecondArityRunIsIdle(source: string, actions: seq<Action>)
    requires UsableActions(actions) && Independent(AllWords(actions)) && Patch(source, actions).Some?
    ensures var out := Patch(source, actions).value.source;
            IsCurrent(out, actions) && Patch(out, actions).Some? && Patch(out, actions).value.applied == []
            && Patch(out, actions).value.source == out
  {
    AcceptedIsCurrent(source, actions);
    AppliesNothingIffCurrent(Patch(source, actions).value.source, actions);
  }
}
