/**
 Upgrading a tree someone already patched: surrounding text with a body per action, each body pristine,
 left by the earlier version of the patcher, or current, in any order.
 */
module ArityUpgrade {
  import opened Text
  import opened PatchGroups
  import opened ParticipantArity

  lemma {:induction false} FillReplacesAll(holes: seq<Hole>, tail: string, n: string, x: string)
    requires OnlyAsBody(holes, tail, n)
    ensures ReplaceAll(Fill(holes, tail), n, x) == Fill(Substitute(holes, n, x), tail)
  {
    if holes == [] {
      AbsentIffZero(tail, n);
    } else {
      var h, rest := holes[0], Fill(holes[1..], tail);
      assert h in holes;
      AbsentIffZero(h.context, n);
      FillReplacesAll(holes[1..], tail, n, x);
      if h.word == n {
        ReplaceAllHit(h.context, n, rest, x);
      } else {
        ReplaceAllAcross(h.context, h.word, rest, n, x);
      }
      assert Substitute(holes, n, x)[1..] == Substitute(holes[1..], n, x);
    }
  }

  function RewindHole(holes: seq<Hole>, a: Action): seq<Hole> {
    if a.legacy == a.replace then holes else Substitute(holes, a.legacy, a.find)
  }

  function RewindHoles(holes: seq<Hole>, actions: seq<Action>): seq<Hole>
    decreases |actions|
  {
    if actions == [] then holes else RewindHoles(RewindHole(holes, actions[0]), actions[1..])
  }

  function PatchHoles(holes: seq<Hole>, actions: seq<Action>): seq<Hole>
    decreases |actions|
  {
    if actions == [] then holes
    else PatchHoles(Substitute(holes, actions[0].find, actions[0].replace), actions[1..])
  }

  /** The rewind of a filled template is the filled, rewound template. */
  lemma {:induction false} RewindFill(holes: seq<Hole>, tail: string, actions: seq<Action>, words: seq<string>)
    requires UsableActions(actions) && Template(holes, tail, words) && Independent(words)
    requires forall a :: a in actions ==> a.find in words && a.legacy in words
    ensures NormalizeLegacy(Fill(holes, tail), actions) == Fill(RewindHoles(holes, actions), tail)
    ensures Template(RewindHoles(holes, actions), tail, words)
    decreases |actions|
  {
    if actions == [] {
    } else {
      var a := actions[0];
      assert a in actions;
      if a.legacy != a.replace {
        TemplateWord(holes, tail, words, a.legacy);
        FillReplacesAll(holes, tail, a.legacy, a.find);
        TemplateSubstitute(holes, tail, words, a.legacy, a.find);
      }
      RewindFill(RewindHole(holes, a), tail, actions[1..], words);
    }
  }

  /** One body per action, pristine or current. */
  predicate OnePerAction(holes: seq<Hole>, actions: seq<Action>) {
    forall a :: a in actions ==> Bodies(holes, a.find) + Bodies(holes, a.replace) == 1
  }

  lemma DifferentWords(actions: seq<Action>, b: Action, u: string, v: string)
    requires actions != [] && Independent(AllWords(actions)) && b in actions[1..]
    requires u in ActionWords(actions[0]) && v in ActionWords(b)
    ensures u != v
  {
    WordOfAction(actions[1..], b, v);
    CrossApart(actions, u, v);
    ApartDiffer(u, v);
  }

  lemma OwnWordsDiffer(actions: seq<Action>)
    requires actions != [] && Independent(AllWords(actions))
    ensures actions[0].find != actions[0].replace && actions[0].find != actions[0].legacy
  {
    HeadAction(actions);
    ApartDiffer(actions[0].find, actions[0].replace);
    ApartDiffer(actions[0].find, actions[0].legacy);
  }

  /** The patcher on a rewound template: every pristine body becomes current, in one pass. */
  lemma {:induction false} ResolveFill(holes: seq<Hole>, tail: string, actions: seq<Action>, words: seq<string>)
    requires UsableActions(actions) && Independent(AllWords(actions)) && OnePerAction(holes, actions)
    requires Independent(words) && Template(holes, tail, words)
    requires forall a :: a in actions ==> a.find in words && a.replace in words
    ensures var r := Resolve(Fill(holes, tail), GroupsOf(actions));
            r.Some? && r.value.source == Fill(PatchHoles(holes, actions), tail)
    decreases |actions|
  {
    if actions == [] {
    } else {
      var a, rest := actions[0], actions[1..];
      var e := Edit(a.find, a.replace);
      var source, next := Fill(holes, tail), Substitute(holes, a.find, a.replace);
      assert a in actions;
      TemplateWord(holes, tail, words, a.find);
      TemplateWord(holes, tail, words, a.replace);
      FillCounts(holes, tail, a.find);
      FillCounts(holes, tail, a.replace);
      assert GroupsOf(actions)[0].edits == [e] && GroupsOf(actions)[1..] == GroupsOf(rest);
      OneEdit(source, e);
      if Bodies(holes, a.find) == 1 {
        FillReplacesFirst(holes, tail, a.find, a.replace);
      } else {
        SubstituteAbsent(holes, a.find, a.replace);
      }
      TemplateSubstitute(holes, tail, words, a.find, a.replace);
      OneStillPerAction(holes, actions);
      HeadAction(actions);
      ResolveFill(next, tail, rest, words);
    }
  }

  lemma OneEdit(source: string, e: Edit)
    requires Usable(e)
    ensures AllUsable([e])
    ensures Present(source, [e]) <==> Occurrences(source, e.find) == 0 && Occurrences(source, e.replace) == 1
    ensures Pristine(source, [e]) <==> Occurrences(source, e.find) == 1 && Occurrences(source, e.replace) == 0
    ensures ApplyEdits(source, [e]) == ReplaceFirst(source, e.find, e.replace)
  {
  }

  lemma OneStillPerAction(holes: seq<Hole>, actions: seq<Action>)
    requires actions != [] && Independent(AllWords(actions)) && OnePerAction(holes, actions)
    ensures OnePerAction(Substitute(holes, actions[0].find, actions[0].replace), actions[1..])
  {
    var a := actions[0];
    HeadAction(actions);
    OwnWordsDiffer(actions);
    forall b | b in actions[1..]
      ensures var next := Substitute(holes, a.find, a.replace);
              Bodies(next, b.find) + Bodies(next, b.replace) == 1
    {
      SubstituteOther(holes, actions, b, a.find, a.replace);
    }
  }

  /** Exchanging two of one action's texts keeps the bodies of another. */
  lemma SubstituteOther(holes: seq<Hole>, actions: seq<Action>, b: Action, n: string, x: string)
    requires actions != [] && Independent(AllWords(actions)) && b in actions[1..]
    requires n in ActionWords(actions[0]) && x in ActionWords(actions[0]) && n != x
    ensures Bodies(Substitute(holes, n, x), b.find) == Bodies(holes, b.find)
    ensures Bodies(Substitute(holes, n, x), b.replace) == Bodies(holes, b.replace)
    ensures Bodies(Substitute(holes, n, x), b.legacy) == Bodies(holes, b.legacy)
  {
  }

  /** One body per action, in one of its three shapes. */
  predicate OneShapePerAction(holes: seq<Hole>, actions: seq<Action>) {
    forall a :: a in actions ==>
      Bodies(holes, a.find) + Bodies(holes, a.replace) + (if a.legacy == a.replace then 0 else Bodies(holes, a.legacy)) == 1
  }

  lemma {:induction false} RewindKeepsShape(holes: seq<Hole>, actions: seq<Action>, b: Action)
    requires Independent(AllWords(actions)) && b in actions
    ensures var out := RewindHoles(holes, actions);
            Bodies(out, b.find) + Bodies(out, b.replace)
            == Bodies(holes, b.find) + Bodies(holes, b.replace) + (if b.legacy == b.replace then 0 else Bodies(holes, b.legacy))
    decreases |actions|
  {
    var a, rest := actions[0], actions[1..];
    HeadAction(actions);
    OwnWordsDiffer(actions);
    var next := RewindHole(holes, a);
    if b == a {
      if a.legacy != a.replace {
        ApartDiffer(a.legacy, a.replace);
        SubstituteBodies(holes, a.legacy, a.find, a.find);
        SubstituteBodies(holes, a.legacy, a.find, a.replace);
      }
      RewindLeaves(next, actions, a.find);
      RewindLeaves(next, actions, a.replace);
    } else {
      if a.legacy != a.replace {
        SubstituteOther(holes, actions, b, a.legacy, a.find);
      }
      RewindKeepsShape(next, rest, b);
    }
  }

  /** The rewind of the later actions leaves the first one's bodies. */
  lemma RewindLeaves(holes: seq<Hole>, actions: seq<Action>, n: string)
    requires actions != [] && Independent(AllWords(actions)) && n in ActionWords(actions[0])
    ensures Bodies(RewindHoles(holes, actions[1..]), n) == Bodies(holes, n)
  {
    forall b | b in actions[1..] ensures n != b.find && n != b.legacy {
      OwnWords(b);
      DifferentWords(actions, b, n, b.find);
      DifferentWords(actions, b, n, b.legacy);
    }
    HeadAction(actions);
    RewindSkips(holes, actions[1..], n);
  }

  lemma {:induction false} RewindSkips(holes: seq<Hole>, actions: seq<Action>, n: string)
    requires Independent(AllWords(actions))
    requires forall b :: b in actions ==> n != b.find && n != b.legacy
    ensures Bodies(RewindHoles(holes, actions), n) == Bodies(holes, n)
    decreases |actions|
  {
    if actions == [] {
    } else {
      var a := actions[0];
      assert a in actions;
      HeadAction(actions);
      OwnWordsDiffer(actions);
      if a.legacy != a.replace {
        SubstituteBodies(holes, a.legacy, a.find, n);
      }
      RewindSkips(RewindHole(holes, a), actions[1..], n);
    }
  }

  // ----- what the upgrade is meant to produce -----

  /** The current text of the action a body belongs to. */
  function Modern(word: string, actions: seq<Action>): string {
    if actions == [] then word
    else if word == actions[0].find || word == actions[0].legacy then actions[0].replace
    else Modern(word, actions[1..])
  }

  function ModernHoles(holes: seq<Hole>, actions: seq<Action>): seq<Hole> {
    if holes == [] then []
    else [Hole(holes[0].context, Modern(holes[0].word, actions))] + ModernHoles(holes[1..], actions)
  }

  function RewindWord(w: string, actions: seq<Action>): string
    decreases |actions|
  {
    if actions == [] then w
    else
      var a := actions[0];
      RewindWord(if a.legacy != a.replace && w == a.legacy then a.find else w, actions[1..])
  }

  function PatchWord(w: string, actions: seq<Action>): string
    decreases |actions|
  {
    if actions == [] then w
    else PatchWord(if w == actions[0].find then actions[0].replace else w, actions[1..])
  }

  function MapHoles(holes: seq<Hole>, f: string -> string): seq<Hole> {
    if holes == [] then [] else [Hole(holes[0].context, f(holes[0].word))] + MapHoles(holes[1..], f)
  }

  lemma {:induction false} MapSubstitute(holes: seq<Hole>, n: string, x: string, f: string -> string)
    ensures MapHoles(Substitute(holes, n, x), f) == MapHoles(holes, w => f(if w == n then x else w))
  {
    if holes == [] {
    } else {
      MapSubstitute(holes[1..], n, x, f);
      assert Substitute(holes, n, x)[1..] == Substitute(holes[1..], n, x);
    }
  }

  lemma {:induction false} MapSame(holes: seq<Hole>, f: string -> string, g: string -> string)
    requires forall h :: h in holes ==> f(h.word) == g(h.word)
    ensures MapHoles(holes, f) == MapHoles(holes, g)
  {
    if holes == [] {
    } else {
      assert holes[0] in holes;
      MapSame(holes[1..], f, g);
    }
  }

  lemma {:induction false} RewindIsMap(holes: seq<Hole>, actions: seq<Action>, f: string -> string)
    ensures MapHoles(RewindHoles(holes, actions), f) == MapHoles(holes, w => f(RewindWord(w, actions)))
    decreases |actions|
  {
    if actions == [] {
      forall w: string ensures RewindWord(w, actions) == w {
      }
      MapSame(holes, f, w => f(RewindWord(w, actions)));
    } else {
      var a, rest := actions[0], actions[1..];
      var g := w => f(RewindWord(w, rest));
      RewindIsMap(RewindHole(holes, a), rest, f);
      if a.legacy != a.replace {
        MapSubstitute(holes, a.legacy, a.find, g);
        forall w: string ensures RewindWord(w, actions) == RewindWord(if w == a.legacy then a.find else w, rest) {
        }
        MapSame(holes, w => g(if w == a.legacy then a.find else w), w => f(RewindWord(w, actions)));
      } else {
        forall w: string ensures RewindWord(w, actions) == RewindWord(w, rest) {
        }
        MapSame(holes, g, w => f(RewindWord(w, actions)));
      }
    }
  }

  lemma {:induction false} PatchIsMap(holes: seq<Hole>, actions: seq<Action>, f: string -> string)
    ensures MapHoles(PatchHoles(holes, actions), f) == MapHoles(holes, w => f(PatchWord(w, actions)))
    decreases |actions|
  {
    if actions == [] {
      forall w: string ensures PatchWord(w, actions) == w {
      }
      MapSame(holes, f, w => f(PatchWord(w, actions)));
    } else {
      var a, rest := actions[0], actions[1..];
      var g := w => f(PatchWord(w, rest));
      PatchIsMap(Substitute(holes, a.find, a.replace), rest, f);
      MapSubstitute(holes, a.find, a.replace, g);
      forall w: string ensures PatchWord(w, actions) == PatchWord(if w == a.find then a.replace else w, rest) {
      }
      MapSame(holes, w => g(if w == a.find then a.replace else w), w => f(PatchWord(w, actions)));
    }
  }

  lemma {:induction false} MapIdentity(holes: seq<Hole>)
    ensures MapHoles(holes, w => w) == holes
  {
    if holes == [] {
    } else {
      MapIdentity(holes[1..]);
    }
  }

  lemma {:induction false} ModernIsMap(holes: seq<Hole>, actions: seq<Action>)
    ensures MapHoles(holes, w => Modern(w, actions)) == ModernHoles(holes, actions)
  {
    if holes == [] {
    } else {
      ModernIsMap(holes[1..], actions);
    }
  }

  /** A word of none of these actions is left alone. */
  lemma {:induction false} StrangersStay(w: string, actions: seq<Action>)
    requires forall a :: a in actions ==> w != a.find && w != a.legacy
    ensures RewindWord(w, actions) == PatchWord(w, actions) == Modern(w, actions) == w
  {
    if actions == [] {
    } else {
      assert actions[0] in actions;
      StrangersStay(w, actions[1..]);
    }
  }

  lemma FirstIsStranger(actions: seq<Action>, w: string)
    requires actions != [] && Independent(AllWords(actions)) && w in ActionWords(actions[0])
    ensures RewindWord(w, actions[1..]) == PatchWord(w, actions[1..]) == Modern(w, actions[1..]) == w
  {
    forall b | b in actions[1..] ensures w != b.find && w != b.legacy {
      OwnWords(b);
      DifferentWords(actions, b, w, b.find);
      DifferentWords(actions, b, w, b.legacy);
    }
    StrangersStay(w, actions[1..]);
  }

  lemma {:induction false} WordEnds(w: string, actions: seq<Action>)
    requires Independent(AllWords(actions)) && w in AllWords(actions)
    ensures PatchWord(RewindWord(w, actions), actions) == Modern(w, actions)
    ensures Modern(w, actions) == w ==> forall a :: a in actions ==> w != a.find && (a.legacy != a.replace ==> w != a.legacy)
    decreases |actions|
  {
    var a, rest := actions[0], actions[1..];
    HeadAction(actions);
    OwnWordsDiffer(actions);
    FirstIsStranger(actions, a.find);
    FirstIsStranger(actions, a.replace);
    if w in ActionWords(a) {
      FirstIsStranger(actions, w);
      if a.legacy != a.replace { ApartDiffer(a.legacy, a.replace); }
      forall b | b in rest ensures w != b.find && w != b.legacy {
        OwnWords(b);
        DifferentWords(actions, b, w, b.find);
        DifferentWords(actions, b, w, b.legacy);
      }
    } else {
      assert w in AllWords(rest);
      CrossApart(actions, a.find, w);
      CrossApart(actions, a.legacy, w);
      ApartDiffer(a.find, w);
      ApartDiffer(a.legacy, w);
      LaterWordAvoids(actions, w);
      WordEnds(w, rest);
    }
  }

  /** The rewind of a later action's word never lands on the first action's find. */
  lemma LaterWordAvoids(actions: seq<Action>, w: string)
    requires actions != [] && Independent(AllWords(actions)) && w in AllWords(actions[1..])
    ensures RewindWord(w, actions[1..]) != actions[0].find
  {
    HeadAction(actions);
    RewindStaysInWords(w, actions[1..], AllWords(actions[1..]));
    CrossApart(actions, actions[0].find, RewindWord(w, actions[1..]));
    ApartDiffer(actions[0].find, RewindWord(w, actions[1..]));
  }

  lemma {:induction false} RewindStaysInWords(w: string, actions: seq<Action>, words: seq<string>)
    requires w in words && forall v :: v in AllWords(actions) ==> v in words
    ensures RewindWord(w, actions) in words
    decreases |actions|
  {
    if actions == [] {
    } else {
      var a := actions[0];
      OwnWords(a);
      RewindStaysInWords(if a.legacy != a.replace && w == a.legacy then a.find else w, actions[1..], words);
    }
  }

  lemma UpgradeHoles(holes: seq<Hole>, tail: string, actions: seq<Action>)
    requires Independent(AllWords(actions)) && Template(holes, tail, AllWords(actions))
    ensures PatchHoles(RewindHoles(holes, actions), actions) == ModernHoles(holes, actions)
  {
    var rewound := RewindHoles(holes, actions);
    var id := (w: string) => w;
    var patch := w => id(PatchWord(w, actions));
    MapIdentity(PatchHoles(rewound, actions));
    PatchIsMap(rewound, actions, id);
    RewindIsMap(holes, actions, patch);
    forall h | h in holes ensures patch(RewindWord(h.word, actions)) == Modern(h.word, actions) {
      WordEnds(h.word, actions);
    }
    MapSame(holes, w => patch(RewindWord(w, actions)), w => Modern(w, actions));
    ModernIsMap(holes, actions);
  }

  /**
   Upgrade: whatever mix of pristine, legacy and current bodies a tree carries, the patcher accepts it
   and leaves exactly the text in which every body is current.
   */
  lemma {:induction false} UpgradeReachesCurrent(holes: seq<Hole>, tail: string, actions: seq<Action>)
    requires UsableActions(actions) && Independent(AllWords(actions))
    requires Template(holes, tail, AllWords(actions)) && OneShapePerAction(holes, actions)
    ensures var r := Patch(Fill(holes, tail), actions);
            r.Some? && r.value.source == Fill(ModernHoles(holes, actions), tail)
  {
    var words := AllWords(actions);
    forall a | a in actions ensures a.find in words && a.legacy in words && a.replace in words {
      OwnWords(a);
      WordOfAction(actions, a, a.find);
      WordOfAction(actions, a, a.replace);
      WordOfAction(actions, a, a.legacy);
    }
    RewindFill(holes, tail, actions, words);
    var rewound := RewindHoles(holes, actions);
    forall a | a in actions ensures Bodies(rewound, a.find) + Bodies(rewound, a.replace) == 1 {
      RewindKeepsShape(holes, actions, a);
    }
    ResolveFill(rewound, tail, actions, words);
    UpgradeHoles(holes, tail, actions);
  }

  /** Confluence: two trees that differ only in which version of each body they carry end as the same file. */
  lemma {:induction false} UpgradeIsConfluent(mixed: seq<Hole>, other: seq<Hole>, tail: string, actions: seq<Action>)
    requires UsableActions(actions) && Independent(AllWords(actions))
    requires Template(mixed, tail, AllWords(actions)) && OneShapePerAction(mixed, actions)
    requires Template(other, tail, AllWords(actions)) && OneShapePerAction(other, actions)
    requires ModernHoles(mixed, actions) == ModernHoles(other, actions)
    ensures var a, b := Patch(Fill(mixed, tail), actions), Patch(Fill(other, tail), actions);
            a.Some? && b.Some? && a.value.source == b.value.source
  {
    UpgradeReachesCurrent(mixed, tail, actions);
    UpgradeReachesCurrent(other, tail, actions);
  }

  // ----- the pristine tree behind a mixed one -----

  /** The pristine text of the action a body belongs to. */
  function Upstream(word: string, actions: seq<Action>): string {
    if actions == [] then word
    else if word in ActionWords(actions[0]) then actions[0].find
    else Upstream(word, actions[1..])
  }

  function UpstreamHoles(holes: seq<Hole>, actions: seq<Action>): seq<Hole> {
    if holes == [] then []
    else [Hole(holes[0].context, Upstream(holes[0].word, actions))] + UpstreamHoles(holes[1..], actions)
  }

  /** The upstream text names the owner of a body, and is current or legacy for no action. */
  lemma {:induction false} UpstreamOwner(w: string, actions: seq<Action>, a: Action)
    requires Independent(AllWords(actions)) && w in AllWords(actions) && a in actions
    ensures Upstream(w, actions) in AllWords(actions)
    ensures Upstream(w, actions) == a.find <==> w in ActionWords(a)
    ensures Upstream(w, actions) != a.replace && Upstream(w, actions) != a.legacy
    ensures Modern(Upstream(w, actions), actions) == Modern(w, actions)
    decreases |actions|
  {
    var b, rest := actions[0], actions[1..];
    HeadAction(actions);
    OwnWordsDiffer(actions);
    OwnWords(a);
    if w in ActionWords(b) {
      FirstIsStranger(actions, w);
      if a != b {
        DifferentWords(actions, a, b.find, a.find);
        DifferentWords(actions, a, b.find, a.replace);
        DifferentWords(actions, a, b.find, a.legacy);
        if w in ActionWords(a) {
          DifferentWords(actions, a, w, w);
        }
      }
    } else {
      UpstreamOwnerLater(w, actions, a);
    }
  }

  lemma {:induction false} UpstreamOwnerLater(w: string, actions: seq<Action>, a: Action)
    requires Independent(AllWords(actions)) && w in AllWords(actions) && a in actions && w !in ActionWords(actions[0])
    ensures Upstream(w, actions) in AllWords(actions)
    ensures Upstream(w, actions) == a.find <==> w in ActionWords(a)
    ensures Upstream(w, actions) != a.replace && Upstream(w, actions) != a.legacy
    ensures Modern(Upstream(w, actions), actions) == Modern(w, actions)
    decreases |actions|, 0
  {
    var b, rest := actions[0], actions[1..];
    HeadAction(actions);
    assert w in AllWords(rest);
    var c := rest[0];
    var u := Upstream(w, rest);
    UpstreamOwner(w, rest, c);
    forall v | v in ActionWords(b) ensures u != v && w != v {
      CrossApart(actions, v, u);
      ApartDiffer(v, u);
    }
    OwnWords(b);
    if a != b {
      UpstreamOwner(w, rest, a);
    }
  }

  lemma {:induction false} UpstreamBodies(holes: seq<Hole>, actions: seq<Action>, a: Action)
    requires Independent(AllWords(actions)) && a in actions && forall h :: h in holes ==> h.word in AllWords(actions)
    ensures var out := UpstreamHoles(holes, actions);
            && Bodies(out, a.replace) == 0 && Bodies(out, a.legacy) == 0
            && Bodies(out, a.find) == Bodies(holes, a.find) + Bodies(holes, a.replace)
                                      + (if a.legacy == a.replace then 0 else Bodies(holes, a.legacy))
  {
    if holes == [] {
    } else {
      var w := holes[0].word;
      assert holes[0] in holes;
      UpstreamOwner(w, actions, a);
      ThreeShapes(actions, a);
      UpstreamBodies(holes[1..], actions, a);
      assert UpstreamHoles(holes, actions)[1..] == UpstreamHoles(holes[1..], actions);
    }
  }

  lemma {:induction false} ThreeShapes(actions: seq<Action>, a: Action)
    requires Independent(AllWords(actions)) && a in actions
    ensures a.find != a.replace && a.find != a.legacy
    ensures forall w :: w in ActionWords(a) <==> w == a.find || w == a.replace || w == a.legacy
  {
    HeadAction(actions);
    OwnWords(a);
    if a == actions[0] {
      OwnWordsDiffer(actions);
    } else {
      ThreeShapes(actions[1..], a);
    }
  }

  lemma {:induction false} UpstreamKeeps(holes: seq<Hole>, tail: string, actions: seq<Action>)
    requires Independent(AllWords(actions)) && Template(holes, tail, AllWords(actions))
    ensures Template(UpstreamHoles(holes, actions), tail, AllWords(actions))
    ensures ModernHoles(UpstreamHoles(holes, actions), actions) == ModernHoles(holes, actions)
  {
    if holes == [] {
    } else {
      assert holes[0] in holes && holes[0].word in AllWords(actions);
      UpstreamOwner(holes[0].word, actions, actions[0]);
      UpstreamKeeps(holes[1..], tail, actions);
      assert UpstreamHoles(holes, actions)[1..] == UpstreamHoles(holes[1..], actions);
    }
  }

  /** Any mix ends as the same file as the all-pristine tree it came from. */
  lemma {:induction false} UpgradeEqualsFreshPatch(mixed: seq<Hole>, tail: string, actions: seq<Action>)
    requires UsableActions(actions) && Independent(AllWords(actions))
    requires Template(mixed, tail, AllWords(actions)) && OneShapePerAction(mixed, actions)
    ensures var pristine := UpstreamHoles(mixed, actions);
            var a, b := Patch(Fill(mixed, tail), actions), Patch(Fill(pristine, tail), actions);
            && a.Some? && b.Some? && a.value.source == b.value.source
            && forall x :: x in actions ==>
                 Bodies(pristine, x.find) == 1 && Bodies(pristine, x.replace) == 0 && Bodies(pristine, x.legacy) == 0
  {
    var pristine := UpstreamHoles(mixed, actions);
    forall x | x in actions
      ensures Bodies(pristine, x.find) == 1 && Bodies(pristine, x.replace) == 0 && Bodies(pristine, x.legacy) == 0
    {
      UpstreamBodies(mixed, actions, x);
    }
    UpstreamKeeps(mixed, tail, actions);
    UpgradeIsConfluent(mixed, pristine, tail, actions);
  }

  lemma {:induction false} NoBody(holes: seq<Hole>, n: string)
    ensures Bodies(holes, n) == 0 <==> forall h :: h in holes ==> h.word != n
  {
    if holes == [] {
    } else {
      NoBody(holes[1..], n);
      assert forall h :: h in holes <==> h == holes[0] || h in holes[1..];
    }
  }

  lemma {:induction false} AllModern(holes: seq<Hole>, actions: seq<Action>)
    ensures ModernHoles(holes, actions) == holes <==> forall h :: h in holes ==> Modern(h.word, actions) == h.word
  {
    if holes == [] {
    } else {
      AllModern(holes[1..], actions);
      assert forall h :: h in holes <==> h == holes[0] || h in holes[1..];
      var m := ModernHoles(holes, actions);
      assert m == [m[0]] + ModernHoles(holes[1..], actions) && holes == [holes[0]] + holes[1..];
      assert m[1..] == ModernHoles(holes[1..], actions);
    }
  }

  /** The upgrade applies nothing exactly when every body was already current. */
  lemma {:induction false} UpgradeAppliesNothingIff(holes: seq<Hole>, tail: string, actions: seq<Action>)
    requires UsableActions(actions) && Independent(AllWords(actions))
    requires Template(holes, tail, AllWords(actions)) && OneShapePerAction(holes, actions)
    ensures var r := Patch(Fill(holes, tail), actions);
            r.Some? && (r.value.applied == [] <==> ModernHoles(holes, actions) == holes)
  {
    UpgradeReachesCurrent(holes, tail, actions);
    AppliesNothingIffCurrent(Fill(holes, tail), actions);
    AllModern(holes, actions);
    var words := AllWords(actions);
    forall a, n | a in actions && n in ActionWords(a)
      ensures n != "" && Occurrences(Fill(holes, tail), n) == Bodies(holes, n)
    {
      WordOfAction(actions, a, n);
      TemplateWord(holes, tail, words, n);
      FillCounts(holes, tail, n);
    }
    forall a | a in actions
      ensures a.find in ActionWords(a) && a.replace in ActionWords(a) && a.legacy in ActionWords(a)
    {
      OwnWords(a);
    }
    if ModernHoles(holes, actions) == holes {
      forall a | a in actions ensures Bodies(holes, a.find) == 0 && (a.legacy != a.replace ==> Bodies(holes, a.legacy) == 0) {
        forall h | h in holes ensures h.word != a.find && (a.legacy != a.replace ==> h.word != a.legacy) {
          WordEnds(h.word, actions);
        }
        NoBody(holes, a.find);
        NoBody(holes, a.legacy);
      }
    }
    if OnlyCurrent(Fill(holes, tail), actions) {
      forall h | h in holes ensures Modern(h.word, actions) == h.word {
        forall a | a in actions ensures h.word != a.find && (a.legacy != a.replace ==> h.word != a.legacy) {
          NoBody(holes, a.find);
          NoBody(holes, a.legacy);
        }
        CurrentStays(h.word, actions);
      }
    }
  }

  lemma {:induction false} CurrentStays(w: string, actions: seq<Action>)
    requires forall a :: a in actions ==> w != a.find && (a.legacy != a.replace ==> w != a.legacy)
    ensures Modern(w, actions) == w
  {
    if actions == [] {
    } else {
      assert actions[0] in actions;
      CurrentStays(w, actions[1..]);
    }
  }
}
