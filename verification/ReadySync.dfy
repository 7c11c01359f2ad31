/**
 `patch-wwebjs-ready-sync.js`: one all-or-nothing set of edits whose replacements may contain their own
 find, so finds are counted with the replacements cut out first.
 */
module ReadySync {
  import opened Text
  import opened PatchGroups

  /** source.split(word).join('') */
  function Without(source: string, word: string): string
    requires word != ""
  {
    ReplaceAll(source, word, "")
  }

  /** How often `find` is left once every `cut` is taken out. */
  function Leftover(source: string, cut: string, find: string): nat
    requires cut != "" && find != ""
  {
    Occurrences(Without(source, cut), find)
  }

  function Finds(source: string, e: Edit): nat
    requires Usable(e)
  {
    Leftover(source, e.replace, e.find)
  }

  /** The stand-down branch, which is also isApplied. */
  predicate Patched(source: string, edits: seq<Edit>)
    requires AllUsable(edits)
  {
    forall e :: e in edits ==> Finds(source, e) == 0 && Occurrences(source, e.replace) == 1
  }

  predicate Unpatched(source: string, edits: seq<Edit>)
    requires AllUsable(edits)
  {
    forall e :: e in edits ==> Finds(source, e) == 1 && Occurrences(source, e.replace) == 0
  }

  datatype Result = Skipped | Applied(source: string) | Refused

  function Apply(source: string, edits: seq<Edit>): Result
    requires AllUsable(edits)
  {
    if Patched(source, edits) then Skipped
    else if Unpatched(source, edits) then Applied(ApplyEdits(source, edits))
    else Refused
  }

  method ApplyReadySyncPatch(file: Installed, edits: seq<Edit>) returns (result: Result)
    requires AllUsable(edits)
    modifies file
    ensures result == Apply(old(file.content), edits)
    ensures file.content == if result.Applied? then result.source else old(file.content)
    ensures file.writes == old(file.writes) + if result.Applied? then 1 else 0
  {
    var source := file.content;
    if Patched(source, edits) {
      return Skipped;
    }
    if Unpatched(source, edits) {
      var i := 0;
      assert edits[0..] == edits;
      while i < |edits|
        invariant 0 <= i <= |edits|
        invariant ApplyEdits(source, edits[i..]) == ApplyEdits(file.content, edits)
        invariant file.content == old(file.content) && file.writes == old(file.writes)
      {
        assert edits[i..][0] == edits[i] && edits[i..][1..] == edits[i + 1..];
        source := ReplaceFirst(source, edits[i].find, edits[i].replace);
        i := i + 1;
      }
      file.content := source;
      file.writes := file.writes + 1;
      return Applied(source);
    }
    result := Refused;
  }

  // ----- texts -----

  /**
   To be seen off the texts: each edit has an opening that starts its find and its replacement and is held nowhere
   else in them, nor in the texts of another edit.
   */
  lemma {:induction false} OpenedEditsAreSeparate(edits: seq<Edit>, openings: seq<string>)
    requires |openings| == |edits|
    requires forall i :: 0 <= i < |edits| ==> OnlyOpens(openings[i], edits[i].find) && OnlyOpens(openings[i], edits[i].replace)
    requires forall i, j :: 0 <= i < |edits| && 0 <= j < |edits| && i != j ==>
               Avoids(edits[i].find, openings[j]) && Avoids(edits[i].replace, openings[j])
    ensures SeparateEdits(edits)
  {
    if edits == [] {
    } else {
      var e, h, rest, others := edits[0], openings[0], edits[1..], openings[1..];
      OpenedIsUnbordered(e.find, h);
      OpenedIsUnbordered(e.replace, h);
      forall w | w in Words(rest) ensures Apart(e.find, w) && Apart(e.replace, w) {
        var j := WordOwner(rest, w);
        assert rest[j] == edits[j + 1];
        OpenedAreApart(e.find, h, w, openings[j + 1]);
        OpenedAreApart(e.replace, h, w, openings[j + 1]);
      }
      forall i, j | 0 <= i < |rest| && 0 <= j < |rest| && i != j
        ensures Avoids(rest[i].find, others[j]) && Avoids(rest[i].replace, others[j])
      {
        assert rest[i] == edits[i + 1] && others[j] == openings[j + 1];
      }
      OpenedEditsAreSeparate(rest, others);
    }
  }

  lemma {:induction false} WordOwner(edits: seq<Edit>, w: string) returns (j: nat)
    requires w in Words(edits)
    ensures j < |edits| && (w == edits[j].find || w == edits[j].replace)
  {
    if w == edits[0].find || w == edits[0].replace {
      j := 0;
    } else {
      j := WordOwner(edits[1..], w);
      j := j + 1;
    }
  }

  lemma LeftoverElsewhere(source: string, f: Edit, cut: string, find: string)
    requires Usable(f) && Unbordered(f.find) && Occurrences(source, f.find) == 1
    requires cut != "" && find != "" && Apart(cut, f.find) && Apart(cut, f.replace) && Apart(find, f.find) && Apart(find, f.replace)
    ensures var out := ReplaceFirst(source, f.find, f.replace);
            Leftover(out, cut, find) == Leftover(source, cut, find)
  {
    var l, r := CutAtOnly(source, f.find);
    ReplaceFirstHit(l, f.find, r, f.replace);
    ReplaceAllAcross(l, f.find, r, cut, "");
    ReplaceAllAcross(l, f.replace, r, cut, "");
    CountAcross(Without(l, cut), f.find, Without(r, cut), find);
    CountAcross(Without(l, cut), f.replace, Without(r, cut), find);
  }

  /** The edit itself: cutting out what it wrote leaves what cutting out what it found would have left. */
  lemma LeftoverHere(source: string, e: Edit)
    requires Usable(e) && Unbordered(e.find) && Unbordered(e.replace)
    requires Occurrences(source, e.find) == 1 && Occurrences(source, e.replace) == 0
    ensures var out := ReplaceFirst(source, e.find, e.replace);
            Leftover(out, e.replace, e.find) == Leftover(source, e.find, e.find) && Occurrences(out, e.replace) == 1
  {
    var l, r := CutAtOnly(source, e.find);
    ReplaceFirstHit(l, e.find, r, e.replace);
    PartsLack(l, e.find, r, e.replace);
    CountHit(l, e.replace, r);
    ReplaceAllHit(l, e.replace, r, "");
    ReplaceAllHit(l, e.find, r, "");
    AbsentIffZero(l, e.replace);
    AbsentIffZero(r, e.replace);
    AbsentIffZero(l, e.find);
    AbsentIffZero(r, e.find);
  }

  lemma PartsLack(l: string, w: string, r: string, n: string)
    requires n != "" && Occurrences(l + w + r, n) == 0
    ensures Occurrences(l, n) == 0 && Occurrences(r, n) == 0
  {
    AbsentIffZero(l + w + r, n);
    forall p ensures !OccursAt(l, n, p) && !OccursAt(r, n, p) {
      OccursInParts(l, w, r, n, p);
      OccursInParts(l, w, r, n, p + |l| + |w|);
    }
    AbsentIffZero(l, n);
    AbsentIffZero(r, n);
  }

  /** With no replacement present, finds are simply counted. */
  lemma UnpatchedCounts(source: string, e: Edit)
    requires Usable(e) && Finds(source, e) == 1 && Occurrences(source, e.replace) == 0
    ensures Occurrences(source, e.find) == 1
  {
    AbsentIffZero(source, e.replace);
  }

  predicate Fresh(source: string, edits: seq<Edit>)
    requires AllUsable(edits)
  {
    forall e :: e in edits ==> Occurrences(source, e.find) == 1 && Occurrences(source, e.replace) == 0
  }

  lemma {:induction false} FirstEdit(source: string, edits: seq<Edit>)
    requires edits != [] && AllUsable(edits) && SeparateEdits(edits) && Fresh(source, edits)
    ensures var next := ReplaceFirst(source, edits[0].find, edits[0].replace);
            Fresh(next, edits[1..])
            && forall f :: f in edits[1..] ==> Leftover(next, f.find, f.find) == Leftover(source, f.find, f.find)
  {
    var e := edits[0];
    assert e in edits && Usable(e);
    forall f | f in edits[1..]
      ensures var next := ReplaceFirst(source, e.find, e.replace);
              && Occurrences(next, f.find) == 1 && Occurrences(next, f.replace) == 0
              && Leftover(next, f.find, f.find) == Leftover(source, f.find, f.find)
    {
      assert f in edits && Usable(f);
      EditWords(edits[1..], f);
      EditKeepsCount(source, e, f.find);
      EditKeepsCount(source, e, f.replace);
      LeftoverElsewhere(source, e, f.find, f.find);
    }
  }

  /** Later edits do not disturb an edit already made. */
  lemma {:induction false} LaterEditsKeep(source: string, edits: seq<Edit>, e: Edit)
    requires AllUsable(edits) && SeparateEdits(edits) && Fresh(source, edits) && Usable(e)
    requires ApartFromAll(e.find, Words(edits)) && ApartFromAll(e.replace, Words(edits))
    ensures var out := ApplyEdits(source, edits);
            Finds(out, e) == Finds(source, e) && Occurrences(out, e.replace) == Occurrences(source, e.replace)
    decreases |edits|
  {
    if edits == [] {
    } else {
      var f, rest := edits[0], edits[1..];
      assert f in edits && Usable(f);
      EditWords(edits, f);
      LeftoverElsewhere(source, f, e.replace, e.find);
      EditKeepsCount(source, f, e.replace);
      FirstEdit(source, edits);
      assert forall w :: w in Words(rest) ==> w in Words(edits);
      LaterEditsKeep(ReplaceFirst(source, f.find, f.replace), rest, e);
    }
  }

  /** After all edits, each find counts what cutting the find out of the original would have left. */
  lemma {:induction false} EditsLeave(source: string, edits: seq<Edit>, e: Edit)
    requires AllUsable(edits) && SeparateEdits(edits) && Fresh(source, edits) && e in edits
    ensures var out := ApplyEdits(source, edits);
            Finds(out, e) == Leftover(source, e.find, e.find) && Occurrences(out, e.replace) == 1
    decreases |edits|
  {
    var f, rest := edits[0], edits[1..];
    var next := ReplaceFirst(source, f.find, f.replace);
    FirstEdit(source, edits);
    if e == f {
      LeftoverHere(source, e);
      LaterEditsKeep(next, rest, e);
    } else {
      EditsLeave(next, rest, e);
    }
  }

  /**
   What is written: a file in which each find stands once, and no replacement, is accepted, and each find is exchanged
   for its replacement, everything else staying as it was.
   */
  lemma AcceptedTextIs(holes: seq<Hole>, tail: string, edits: seq<Edit>)
    requires AllUsable(edits) && SeparateEdits(edits) && edits != []
    requires forall e :: e in edits ==>
               OnlyAsBody(holes, tail, e.find) && Bodies(holes, e.find) == 1
               && e.replace != "" && Occurrences(Fill(holes, tail), e.replace) == 0
    ensures Apply(Fill(holes, tail), edits) == Applied(Fill(Exchange(holes, edits), tail))
  {
    var source := Fill(holes, tail);
    forall e | e in edits ensures Usable(e) && Finds(source, e) == 1 && Occurrences(source, e.replace) == 0 {
      assert Usable(e);
      AbsentIffZero(source, e.replace);
      FillCounts(holes, tail, e.find);
    }
    assert edits[0] in edits;
    EditsExchange(holes, tail, edits);
  }

  /** Which files are left alone, rewritten and refused, by the counts. */
  lemma AcceptedIff(source: string, edits: seq<Edit>)
    requires AllUsable(edits) && edits != []
    ensures Apply(source, edits).Skipped? <==>
              forall e :: e in edits ==>
                Usable(e) && Occurrences(ReplaceAll(source, e.replace, ""), e.find) == 0 && Occurrences(source, e.replace) == 1
    ensures Apply(source, edits).Applied? <==>
              forall e :: e in edits ==>
                Usable(e) && Occurrences(source, e.find) == 1 && Occurrences(source, e.replace) == 0
  {
    assert edits[0] in edits;
    forall e | e in edits ensures Usable(e) && (Occurrences(source, e.replace) == 0 ==> Finds(source, e) == Occurrences(source, e.find)) {
      assert Usable(e);
      AbsentIffZero(source, e.replace);
    }
  }

  // ----- the promise and its exact condition -----

  /** Cutting any one find out of the source joins no new find from the two sides. */
  predicate CutsClean(source: string, edits: seq<Edit>)
    requires AllUsable(edits)
  {
    forall e :: e in edits ==> Leftover(source, e.find, e.find) == 0
  }

  /**
   A source this patcher rewrites comes out satisfying isApplied, so that the next run stands down, exactly
   when cutting its finds out joins no new ones; otherwise the next run refuses its own result.
   */
  lemma {:induction false} SecondRunStandsDownIff(source: string, edits: seq<Edit>)
    requires AllUsable(edits) && SeparateEdits(edits) && Apply(source, edits).Applied?
    ensures var out := Apply(source, edits).source;
            && (Patched(out, edits) <==> CutsClean(source, edits))
            && Apply(out, edits) == if CutsClean(source, edits) then Skipped else Refused
  {
    forall e | e in edits ensures Occurrences(source, e.find) == 1 {
      UnpatchedCounts(source, e);
    }
    var out := ApplyEdits(source, edits);
    forall e | e in edits ensures Finds(out, e) == Leftover(source, e.find, e.find) && Occurrences(out, e.replace) == 1 {
      EditsLeave(source, edits, e);
    }
    if edits != [] {
      assert edits[0] in edits;
    }
  }

  /** A source in which the text before one find and the text after it spell that find between them. */
  function Spelled(before: string, find: string, k: nat, after: string): string
    requires k <= |find|
  {
    (before + find[..k]) + find + (find[k..] + after)
  }

  lemma SpelledSides(before: string, find: string, k: nat, after: string)
    requires Unbordered(find) && k <= |find| && Occurrences(Spelled(before, find, k, after), find) == 1
    ensures Occurrences(before + find[..k], find) == 0 && Occurrences(find[k..] + after, find) == 0
  {
    CountHit(before + find[..k], find, find[k..] + after);
  }

  lemma SpelledWithout(before: string, find: string, k: nat, after: string)
    requires Unbordered(find) && k <= |find|
    requires Occurrences(before + find[..k], find) == 0 && Occurrences(find[k..] + after, find) == 0
    ensures Without(Spelled(before, find, k, after), find) == before + find + after
  {
    var l, r := before + find[..k], find[k..] + after;
    AbsentIffZero(l, find);
    AbsentIffZero(r, find);
    ReplaceAllHit(l, find, r, "");
    Rejoin(before, find, k, after);
  }

  lemma Rejoin(before: string, find: string, k: nat, after: string)
    requires k <= |find|
    ensures (before + find[..k]) + "" + (find[k..] + after) == before + find + after
  {
    assert find[..k] + find[k..] == find;
  }

  lemma SpelledLeavesOne(before: string, find: string, k: nat, after: string)
    requires Unbordered(find) && k <= |find| && Occurrences(Spelled(before, find, k, after), find) == 1
    ensures Leftover(Spelled(before, find, k, after), find, find) > 0
  {
    SpelledSides(before, find, k, after);
    SpelledWithout(before, find, k, after);
    CountHit(before, find, after);
  }

  /** Any such source, if accepted, is refused by the next run. */
  lemma {:induction false} SpelledSidesAreRefused(before: string, after: string, e: Edit, k: nat, edits: seq<Edit>)
    requires AllUsable(edits) && SeparateEdits(edits) && e in edits && k <= |e.find|
    requires Apply(Spelled(before, e.find, k, after), edits).Applied?
    ensures Apply(Apply(Spelled(before, e.find, k, after), edits).source, edits).Refused?
  {
    var source := Spelled(before, e.find, k, after);
    assert Usable(e);
    UnpatchedCounts(source, e);
    SeparateIsUnbordered(edits, e);
    SpelledLeavesOne(before, e.find, k, after);
    SecondRunStandsDownIff(source, edits);
  }

  lemma {:induction false} SeparateIsUnbordered(edits: seq<Edit>, e: Edit)
    requires SeparateEdits(edits) && e in edits
    ensures Unbordered(e.find) && Unbordered(e.replace)
  {
    if e == edits[0] {
    } else {
      SeparateIsUnbordered(edits[1..], e);
    }
  }

  lemma TooShort(s: string, n: string)
    requires |s| < |n|
    ensures Occurrences(s, n) == 0
  {
    AbsentIffZero(s, n);
  }

  // ----- such files exist for every edit of every list -----

  /** The finds of some edits, one after the other. */
  function Sites(edits: seq<Edit>): seq<Hole> {
    if edits == [] then [] else [Hole("", edits[0].find)] + Sites(edits[1..])
  }

  lemma {:induction false} SitesConcat(a: seq<Edit>, b: seq<Edit>)
    ensures Sites(a + b) == Sites(a) + Sites(b)
  {
    if a == [] {
      assert a + b == b;
    } else {
      assert (a + b)[1..] == a[1..] + b;
      SitesConcat(a[1..], b);
    }
  }

  lemma {:induction false} SiteOf(edits: seq<Edit>, h: Hole)
    requires h in Sites(edits)
    ensures h.context == "" && exists e :: e in edits && e.find == h.word
  {
    if h == Sites(edits)[0] {
      assert edits[0] in edits;
    } else {
      SiteOf(edits[1..], h);
    }
  }

  lemma {:induction false} SeparatePair(edits: seq<Edit>, e: Edit, f: Edit)
    requires SeparateEdits(edits) && e in edits && f in edits && e != f
    ensures Apart(e.find, f.find)
  {
    if e == edits[0] {
      EditWords(edits[1..], f);
    } else if f == edits[0] {
      EditWords(edits[1..], e);
      ApartSymmetric(f.find, e.find);
    } else {
      SeparatePair(edits[1..], e, f);
    }
  }

  lemma {:induction false} NoSite(edits: seq<Edit>, n: string)
    requires forall e :: e in edits ==> e.find != n
    ensures Bodies(Sites(edits), n) == 0
  {
    if edits == [] {
    } else {
      assert edits[0] in edits;
      NoSite(edits[1..], n);
      assert Sites(edits)[1..] == Sites(edits[1..]);
    }
  }

  /** Each find of a separate list stands in it once. */
  lemma {:induction false} OneSiteEach(edits: seq<Edit>, e: Edit)
    requires SeparateEdits(edits) && e in edits
    ensures Bodies(Sites(edits), e.find) == 1
  {
    assert Sites(edits)[1..] == Sites(edits[1..]);
    if e == edits[0] {
      forall f | f in edits[1..] ensures f.find != e.find {
        EditWords(edits[1..], f);
        ApartDiffer(e.find, f.find);
      }
      NoSite(edits[1..], e.find);
    } else {
      EditWords(edits[1..], e);
      ApartDiffer(edits[0].find, e.find);
      OneSiteEach(edits[1..], e);
    }
  }

  /** All finds, with the halves of one of them around it: the others first, then that one inside a copy of itself. */
  function Copied(before: seq<Edit>, e: Edit, after: seq<Edit>, k: nat): seq<Hole>
    requires k <= |e.find|
  {
    Sites(before + after) + [Hole(e.find[..k], e.find)]
  }

  function CopiedText(before: seq<Edit>, e: Edit, after: seq<Edit>, k: nat): string
    requires k <= |e.find|
  {
    Fill(Copied(before, e, after, k), e.find[k..])
  }

  /** Half of a find holds no find. */
  lemma HalvesHoldNothing(edits: seq<Edit>, e: Edit, f: Edit, k: nat)
    requires SeparateEdits(edits) && e in edits && f in edits && 0 < k < |e.find| && f.find != ""
    ensures Occurrences(e.find[..k], f.find) == 0 && Occurrences(e.find[k..], f.find) == 0
  {
    if f == e {
      TooShort(e.find[..k], e.find);
      TooShort(e.find[k..], e.find);
    } else {
      SeparatePair(edits, e, f);
      PartsLack(e.find[..k], "", e.find[k..], f.find) by {
        assert e.find[..k] + "" + e.find[k..] == e.find;
        forall p ensures !OccursAt(e.find, f.find, p) {
        }
        AbsentIffZero(e.find, f.find);
      }
    }
  }

  lemma CopiedHoldsEachOnce(before: seq<Edit>, e: Edit, after: seq<Edit>, k: nat, f: Edit)
    requires var edits := before + [e] + after;
             AllUsable(edits) && SeparateEdits(edits) && f in edits && 0 < k < |e.find|
    ensures f.find != "" && Occurrences(CopiedText(before, e, after, k), f.find) == 1
  {
    var edits := before + [e] + after;
    var holes, tail := Copied(before, e, after, k), e.find[k..];
    assert Usable(f) && e in edits;
    SeparateIsUnbordered(edits, f);
    HalvesHoldNothing(edits, e, f, k);
    TooShort("", f.find);
    forall h | h in holes
      ensures f.find != "" && Occurrences(h.context, f.find) == 0 && (h.word == f.find || Apart(f.find, h.word))
    {
      HoleOf(before, e, after, k, h);
      var g :| g in edits && g.find == h.word;
      if g != f {
        SeparatePair(edits, f, g);
      }
    }
    FillCounts(holes, tail, f.find);
    CopiedBodies(before, e, after, k, f);
  }

  lemma HoleOf(before: seq<Edit>, e: Edit, after: seq<Edit>, k: nat, h: Hole)
    requires k <= |e.find| && h in Copied(before, e, after, k)
    ensures h.context == "" || h.context == e.find[..k]
    ensures exists g :: g in before + [e] + after && g.find == h.word
  {
    if h in Sites(before + after) {
      SiteOf(before + after, h);
      var g :| g in before + after && g.find == h.word;
      assert g in before + [e] + after;
    } else {
      assert e in before + [e] + after;
    }
  }

  lemma CopiedBodies(before: seq<Edit>, e: Edit, after: seq<Edit>, k: nat, f: Edit)
    requires SeparateEdits(before + [e] + after) && f in before + [e] + after && k <= |e.find|
    ensures Bodies(Copied(before, e, after, k), f.find) == 1
  {
    var n := f.find;
    OneSiteEach(before + [e] + after, f);
    SitesConcat(before + [e], after);
    SitesConcat(before, [e]);
    SitesConcat(before, after);
    BodiesConcat(Sites(before) + Sites([e]), Sites(after), n);
    BodiesConcat(Sites(before), Sites([e]), n);
    BodiesConcat(Sites(before), Sites(after), n);
    BodiesConcat(Sites(before + after), [Hole(e.find[..k], e.find)], n);
    assert [e][1..] == [] && [Hole(e.find[..k], e.find)][1..] == [] && [Hole("", e.find)][1..] == [];
  }

  /**
   Whatever the script's list of separate edits, each of them has a file that is accepted by one run and refused by the
   next: the find inside a copy of itself, beside the other finds. It is accepted exactly when no replacement
   occurs in it.
   */
  lemma {:induction false} SidesCanSpellTheFind(before: seq<Edit>, e: Edit, after: seq<Edit>, k: nat)
    requires var edits := before + [e] + after; AllUsable(edits) && SeparateEdits(edits)
    requires 0 < k < |e.find|
    ensures var edits := before + [e] + after;
            var source := CopiedText(before, e, after, k);
            && (Apply(source, edits).Applied? <==> forall f :: f in edits ==> f.replace != "" && Occurrences(source, f.replace) == 0)
            && (Apply(source, edits).Applied? ==> Apply(Apply(source, edits).source, edits).Refused?)
  {
    var edits := before + [e] + after;
    var source := CopiedText(before, e, after, k);
    assert e in edits;
    AcceptedWithoutReplacements(before, e, after, k);
    if Apply(source, edits).Applied? {
      FillLast(Sites(before + after), Hole(e.find[..k], e.find), e.find[k..]);
      assert e.find[k..] + "" == e.find[k..];
      SpelledSidesAreRefused(Fill(Sites(before + after), ""), "", e, k, edits);
    }
  }

  lemma AcceptedWithoutReplacements(before: seq<Edit>, e: Edit, after: seq<Edit>, k: nat)
    requires var edits := before + [e] + after; AllUsable(edits) && SeparateEdits(edits)
    requires 0 < k < |e.find|
    ensures var edits := before + [e] + after;
            var source := CopiedText(before, e, after, k);
            Apply(source, edits).Applied? <==> forall f :: f in edits ==> f.replace != "" && Occurrences(source, f.replace) == 0
  {
    var edits := before + [e] + after;
    var source := CopiedText(before, e, after, k);
    assert e in edits && Usable(e);
    if forall f :: f in edits ==> f.replace != "" && Occurrences(source, f.replace) == 0 {
      forall f | f in edits ensures Usable(f) && Finds(source, f) == 1 {
        assert Usable(f);
        AbsentIffZero(source, f.replace);
        CopiedHoldsEachOnce(before, e, after, k, f);
      }
      assert Finds(source, e) == 1;
    }
  }
}
