/**
 The grouped source patchers (`patch-wwebjs-status.js`, and the apply loop of
 `patch-wwebjs-participant-arity.js`): each group of edits is applied all at once, skipped when already
 present, or refused, and the file is written once, after every group has been resolved.
 */
module PatchGroups {
  import opened Common
  import opened Text

  datatype Edit = Edit(find: string, replace: string)

  datatype Group = Group(name: string, edits: seq<Edit>)

  datatype Report = Report(source: string, applied: seq<string>, skipped: seq<string>)

  // ----- what one run of the patcher does to a source text -----

  predicate Usable(e: Edit) {
    e.find != "" && e.replace != "" && '$' !in e.replace
  }

  predicate AllUsable(edits: seq<Edit>) {
    forall e :: e in edits ==> Usable(e)
  }

  /** Already there: every find gone, every replacement exactly once. */
  predicate Present(source: string, edits: seq<Edit>)
    requires AllUsable(edits)
  {
    forall e :: e in edits ==> Occurrences(source, e.find) == 0 && Occurrences(source, e.replace) == 1
  }

  predicate Pristine(source: string, edits: seq<Edit>)
    requires AllUsable(edits)
  {
    forall e :: e in edits ==> Occurrences(source, e.find) == 1 && Occurrences(source, e.replace) == 0
  }

  function ApplyEdits(source: string, edits: seq<Edit>): string
    decreases |edits|
  {
    if edits == [] then source
    else ApplyEdits(ReplaceFirst(source, edits[0].find, edits[0].replace), edits[1..])
  }

  predicate UsableGroups(groups: seq<Group>) {
    forall g :: g in groups ==> AllUsable(g.edits)
  }

  /** None is the refusal of an unknown shape. */
  function Resolve(source: string, groups: seq<Group>): Option<Report>
    requires UsableGroups(groups)
    decreases |groups|
  {
    if groups == [] then Some(Report(source, [], [])) else
      var g := groups[0];
      assert g in groups;
      if Present(source, g.edits) then
        match Resolve(source, groups[1..])
        case None => None
        case Some(r) => Some(r.(skipped := [g.name] + r.skipped))
      else if Pristine(source, g.edits) then
        match Resolve(ApplyEdits(source, g.edits), groups[1..])
        case None => None
        case Some(r) => Some(r.(applied := [g.name] + r.applied))
      else None
  }

  predicate IsApplied(source: string, groups: seq<Group>)
    requires UsableGroups(groups)
  {
    forall g :: g in groups ==> Present(source, g.edits)
  }

  // ----- the file -----

  class Installed {
    var content: string
    var writes: nat

    constructor (content: string)
      ensures this.content == content && writes == 0
    {
      this.content, writes := content, 0;
    }

    /** applyStatusPatches: refuses without writing, and writes only when something was applied. */
    method ApplyGroups(groups: seq<Group>) returns (report: Option<Report>)
      requires UsableGroups(groups)
      modifies this
      ensures report == Resolve(old(content), groups)
      ensures content == if report.Some? && report.value.applied != [] then report.value.source else old(content)
      ensures writes == old(writes) + if report.Some? && report.value.applied != [] then 1 else 0
    {
      report := ResolveFrom(content, groups);
    }

    /** The loop over the groups, from a source text already read (and perhaps rewound). */
    method ResolveFrom(original: string, groups: seq<Group>) returns (report: Option<Report>)
      requires UsableGroups(groups)
      modifies this
      ensures report == Resolve(original, groups)
      ensures content == if report.Some? && report.value.applied != [] then report.value.source else old(content)
      ensures writes == old(writes) + if report.Some? && report.value.applied != [] then 1 else 0
    {
      var source := original;
      var applied, skipped := [], [];
      var i := 0;
      assert groups[0..] == groups;
      OntoNothing(Resolve(source, groups));
      while i < |groups|
        invariant 0 <= i <= |groups|
        invariant content == old(content) && writes == old(writes)
        invariant Resolve(original, groups) == Onto(applied, skipped, Resolve(source, groups[i..]))
      {
        var g := groups[i];
        ghost var rest := groups[i..];
        assert g in groups && rest[0] == g && rest[1..] == groups[i + 1..];
        if Present(source, g.edits) {
          OntoOnto(applied, skipped, [], [g.name], Resolve(source, rest[1..]));
          skipped := skipped + [g.name];
        } else if Pristine(source, g.edits) {
          ghost var before := source;
          var j := 0;
          assert g.edits[0..] == g.edits;
          while j < |g.edits|
            invariant 0 <= j <= |g.edits|
            invariant content == old(content) && writes == old(writes)
            invariant ApplyEdits(before, g.edits) == ApplyEdits(source, g.edits[j..])
          {
            assert g.edits[j..][0] == g.edits[j] && g.edits[j..][1..] == g.edits[j + 1..];
            source := ReplaceFirst(source, g.edits[j].find, g.edits[j].replace);
            j := j + 1;
          }
          OntoOnto(applied, skipped, [g.name], [], Resolve(source, rest[1..]));
          applied := applied + [g.name];
        } else {
          return None;
        }
        i := i + 1;
      }
      assert applied + [] == applied && skipped + [] == skipped;
      if applied != [] {
        content := source;
        writes := writes + 1;
      }
      report := Some(Report(source, applied, skipped));
    }
  }

  function Onto(applied: seq<string>, skipped: seq<string>, r: Option<Report>): Option<Report> {
    if r.None? then None
    else Some(Report(r.value.source, applied + r.value.applied, skipped + r.value.skipped))
  }

  lemma OntoNothing(r: Option<Report>)
    ensures Onto([], [], r) == r
  {
    if r.Some? {
      assert [] + r.value.applied == r.value.applied && [] + r.value.skipped == r.value.skipped;
    }
  }

  lemma OntoOnto(a: seq<string>, b: seq<string>, c: seq<string>, d: seq<string>, r: Option<Report>)
    ensures Onto(a, b, Onto(c, d, r)) == Onto(a + c, b + d, r)
  {
    if r.Some? {
      assert a + (c + r.value.applied) == (a + c) + r.value.applied;
      assert b + (d + r.value.skipped) == (b + d) + r.value.skipped;
    }
  }

  // ----- texts that keep out of each other's way -----

  function Words(edits: seq<Edit>): seq<string> {
    if edits == [] then [] else [edits[0].find, edits[0].replace] + Words(edits[1..])
  }

  function AllEdits(groups: seq<Group>): seq<Edit> {
    if groups == [] then [] else groups[0].edits + AllEdits(groups[1..])
  }

  predicate ApartFromAll(n: string, words: seq<string>) {
    forall w :: w in words ==> Apart(n, w)
  }

  /** No word occurs in, or runs into, another one or itself. */
  predicate Independent(words: seq<string>) {
    words == [] || (Unbordered(words[0]) && ApartFromAll(words[0], words[1..]) && Independent(words[1..]))
  }

  lemma {:induction false} IndependentPairs(words: seq<string>, i: nat, j: nat)
    requires Independent(words) && i < |words| && j < |words|
    ensures Unbordered(words[i])
    ensures i != j ==> Apart(words[i], words[j])
    decreases |words|
  {
    if i > 0 && j > 0 {
      IndependentPairs(words[1..], i - 1, j - 1);
    } else if i > 0 {
      IndependentPairs(words[1..], i - 1, i - 1);
      assert words[i] in words[1..];
      assert Apart(words[0], words[i]);
    } else if j > 0 {
      assert words[j] in words[1..];
    }
  }

  // ----- seeing it off the texts -----

  /** A word that does not end in a character of h, the last one aside, cannot run into h. */
  lemma EndsElsewhere(u: string, h: string)
    requires u != "" && h != "" && u[|u| - 1] !in h[..|h| - 1]
    ensures !RunsInto(u, h)
  {
    forall k | 0 < k < |u| && k < |h| ensures u[|u| - k..] != h[..k] {
      assert h[..k][k - 1] == h[..|h| - 1][k - 1];
      assert u[|u| - k..][k - 1] == u[|u| - 1];
    }
  }

  /** What keeps out of the opening of v keeps out of v. */
  lemma OpeningKeepsOut(u: string, v: string, h: string)
    requires h != "" && h <= v && !RunsInto(u, h) && forall p :: 0 < p <= |u| ==> !OccursAt(u, h, p)
    ensures !RunsInto(u, v)
    ensures !(v <= u) ==> !Contains(u, v)
  {
    forall k | 0 < k < |u| && k < |v| ensures u[|u| - k..] != v[..k] {
      if k >= |h| {
        assert v[..k][..|h|] == h;
        assert u[|u| - k..][..|h|] == u[|u| - k..|u| - k + |h|];
        assert !OccursAt(u, h, |u| - k);
      } else {
        assert v[..k] == h[..k];
      }
    }
    if !(v <= u) {
      forall p | 0 <= p <= |u| - |v| ensures !OccursAt(u, v, p) {
        assert OccursAt(u, h, p) ==> p == 0;
        assert u[p..p + |v|][..|h|] == u[p..p + |h|];
      }
    }
  }

  /** h opens v, and v holds it nowhere else, not even cut off at its end. */
  predicate OnlyOpens(h: string, v: string) {
    h != "" && h <= v && !RunsInto(v, h) && forall p :: 0 < p <= |v| ==> !OccursAt(v, h, p)
  }

  /** u does not hold h, not even cut off at its end. */
  predicate Avoids(u: string, h: string) {
    !Contains(u, h) && !RunsInto(u, h)
  }

  lemma OpenedIsUnbordered(v: string, h: string)
    requires OnlyOpens(h, v)
    ensures Unbordered(v)
  {
    OpeningKeepsOut(v, v, h);
  }

  lemma OpenedAreApart(u: string, g: string, v: string, h: string)
    requires OnlyOpens(g, u) && OnlyOpens(h, v) && Avoids(u, h) && Avoids(v, g)
    ensures Apart(u, v)
  {
    forall p ensures !OccursAt(u, h, p) && !OccursAt(v, g, p) {
    }
    if v <= u { assert OccursAt(u, h, 0); }
    if u <= v { assert OccursAt(v, g, 0); }
    OpeningKeepsOut(u, v, h);
    OpeningKeepsOut(v, u, g);
  }

  /** Each word has an opening of its own, which no other word holds: then no two words, or copies, can overlap. */
  lemma {:induction false} OpenedWordsAreIndependent(words: seq<string>, openings: seq<string>)
    requires |openings| == |words|
    requires forall i :: 0 <= i < |words| ==> OnlyOpens(openings[i], words[i])
    requires forall i, j :: 0 <= i < |words| && 0 <= j < |words| && i != j ==> Avoids(words[i], openings[j])
    ensures Independent(words)
  {
    if words == [] {
    } else {
      var rest, others := words[1..], openings[1..];
      OpenedIsUnbordered(words[0], openings[0]);
      forall v | v in rest ensures Apart(words[0], v) {
        var j :| 0 <= j < |rest| && rest[j] == v;
        assert words[j + 1] == v;
        OpenedAreApart(words[0], openings[0], v, openings[j + 1]);
      }
      forall i, j | 0 <= i < |rest| && 0 <= j < |rest| && i != j ensures Avoids(rest[i], others[j]) {
        assert rest[i] == words[i + 1] && others[j] == openings[j + 1];
      }
      OpenedWordsAreIndependent(rest, others);
    }
  }

  /** A word that opens with `head`, holds it nowhere else, and does not end in a character of its beginning. */
  predicate Headed(w: string, head: string) {
    && head != "" && head <= w
    && (forall p :: 0 < p <= |w| ==> !OccursAt(w, head, p))
    && w[|w| - 1] !in head[..|head| - 1]
  }

  /** Words may also share one opening, as long as none is the beginning of another. */
  lemma {:induction false} HeadedWordsAreIndependent(words: seq<string>, head: string)
    requires forall w :: w in words ==> Headed(w, head)
    requires forall i, j :: 0 <= i < |words| && 0 <= j < |words| && i != j ==> !(words[i] <= words[j])
    ensures Independent(words)
  {
    if words == [] {
    } else {
      var u, rest := words[0], words[1..];
      assert u in words;
      EndsElsewhere(u, head);
      OpeningKeepsOut(u, u, head);
      forall v | v in rest ensures Apart(u, v) {
        var j :| 0 <= j < |rest| && rest[j] == v;
        assert words[j + 1] == v && v in words;
        EndsElsewhere(v, head);
        OpeningKeepsOut(u, v, head);
        OpeningKeepsOut(v, u, head);
      }
      forall i, j | 0 <= i < |rest| && 0 <= j < |rest| && i != j ensures !(rest[i] <= rest[j]) {
        assert rest[i] == words[i + 1] && rest[j] == words[j + 1];
      }
      HeadedWordsAreIndependent(rest, head);
    }
  }

  lemma {:induction false} WordsConcat(a: seq<Edit>, b: seq<Edit>)
    ensures Words(a + b) == Words(a) + Words(b)
  {
    if a == [] {
      assert a + b == b;
    } else {
      assert (a + b)[0] == a[0] && (a + b)[1..] == a[1..] + b;
      WordsConcat(a[1..], b);
    }
  }

  lemma {:induction false} EditWords(edits: seq<Edit>, e: Edit)
    requires e in edits
    ensures e.find in Words(edits) && e.replace in Words(edits)
  {
    if edits[0] == e {
    } else {
      EditWords(edits[1..], e);
    }
  }

  lemma {:induction false} IndependentSplit(a: seq<string>, b: seq<string>)
    requires Independent(a + b)
    ensures Independent(a) && Independent(b)
    ensures forall u, v :: u in a && v in b ==> Apart(u, v)
  {
    if a == [] {
      assert a + b == b;
    } else {
      assert (a + b)[0] == a[0] && (a + b)[1..] == a[1..] + b;
      IndependentSplit(a[1..], b);
      forall v | v in a[1..] || v in b ensures Apart(a[0], v) {
        assert v in a[1..] + b;
      }
    }
  }

  // ----- one edit, one group -----

  /** An edit moves no count but those of its own two words. */
  lemma EditKeepsCount(source: string, e: Edit, n: string)
    requires Usable(e) && Unbordered(e.find) && Occurrences(source, e.find) == 1
    requires n != "" && Apart(n, e.find) && Apart(n, e.replace)
    ensures Occurrences(ReplaceFirst(source, e.find, e.replace), n) == Occurrences(source, n)
  {
    var l, r := CutAtOnly(source, e.find);
    ReplaceFirstHit(l, e.find, r, e.replace);
    CountAcross(l, e.find, r, n);
    CountAcross(l, e.replace, r, n);
  }

  lemma EditLands(source: string, e: Edit)
    requires Usable(e) && Unbordered(e.find) && Unbordered(e.replace) && Apart(e.find, e.replace)
    requires Occurrences(source, e.find) == 1
    ensures var out := ReplaceFirst(source, e.find, e.replace);
            Occurrences(out, e.find) == 0 && Occurrences(out, e.replace) == Occurrences(source, e.replace) + 1
  {
    var l, r := CutAtOnly(source, e.find);
    ReplaceFirstHit(l, e.find, r, e.replace);
    CountAcross(l, e.replace, r, e.find);
    CountAcross(l, e.find, r, e.replace);
    CountHit(l, e.replace, r);
  }

  lemma {:induction false} EditsKeepCount(source: string, edits: seq<Edit>, n: string)
    requires AllUsable(edits) && Independent(Words(edits)) && Pristine(source, edits)
    requires n != "" && ApartFromAll(n, Words(edits))
    ensures Occurrences(ApplyEdits(source, edits), n) == Occurrences(source, n)
    decreases |edits|
  {
    if edits == [] {
    } else {
      var e, rest := edits[0], edits[1..];
      HeadApart(edits);
      EditWords(edits, e);
      EditKeepsCount(source, e, n);
      RestPristine(source, edits);
      assert forall w :: w in Words(rest) ==> w in Words(edits);
      EditsKeepCount(ReplaceFirst(source, e.find, e.replace), rest, n);
    }
  }

  /** The first edit's words against those of the rest. */
  lemma HeadApart(edits: seq<Edit>)
    requires edits != [] && Independent(Words(edits))
    ensures var e := edits[0];
            && Unbordered(e.find) && Unbordered(e.replace) && Apart(e.find, e.replace)
            && ApartFromAll(e.find, Words(edits[1..])) && ApartFromAll(e.replace, Words(edits[1..]))
            && Independent(Words(edits[1..]))
  {
  }

  lemma ApartSymmetric(u: string, v: string)
    requires Apart(u, v)
    ensures Apart(v, u)
  {
  }

  lemma {:induction false} RestPristine(source: string, edits: seq<Edit>)
    requires edits != [] && AllUsable(edits) && Independent(Words(edits)) && Pristine(source, edits)
    ensures Pristine(ReplaceFirst(source, edits[0].find, edits[0].replace), edits[1..])
  {
    var e := edits[0];
    HeadApart(edits);
    forall f | f in edits[1..]
      ensures Occurrences(ReplaceFirst(source, e.find, e.replace), f.find) == 1
      ensures Occurrences(ReplaceFirst(source, e.find, e.replace), f.replace) == 0
    {
      EditWords(edits[1..], f);
      assert f in edits && Usable(f);
      EditKeepsCount(source, e, f.find);
      EditKeepsCount(source, e, f.replace);
    }
  }

  /** Applying a pristine group leaves it present. */
  lemma {:induction false} EditsLand(source: string, edits: seq<Edit>)
    requires AllUsable(edits) && Independent(Words(edits)) && Pristine(source, edits)
    ensures Present(ApplyEdits(source, edits), edits)
    decreases |edits|
  {
    if edits == [] {
    } else {
      var e, rest := edits[0], edits[1..];
      HeadApart(edits);
      EditLands(source, e);
      RestPristine(source, edits);
      var next := ReplaceFirst(source, e.find, e.replace);
      EditsLand(next, rest);
      EditsKeepCount(next, rest, e.find);
      EditsKeepCount(next, rest, e.replace);
    }
  }

  // ----- a whole run -----

  predicate IndependentGroups(groups: seq<Group>) {
    Independent(Words(AllEdits(groups)))
  }

  lemma GroupsSplit(groups: seq<Group>)
    requires groups != [] && IndependentGroups(groups)
    ensures Independent(Words(groups[0].edits)) && IndependentGroups(groups[1..])
    ensures forall n :: n in Words(groups[0].edits) ==> ApartFromAll(n, Words(AllEdits(groups[1..])))
  {
    WordsConcat(groups[0].edits, AllEdits(groups[1..]));
    IndependentSplit(Words(groups[0].edits), Words(AllEdits(groups[1..])));
  }

  lemma ApartFromGroups(groups: seq<Group>, n: string)
    requires groups != [] && ApartFromAll(n, Words(AllEdits(groups)))
    ensures ApartFromAll(n, Words(groups[0].edits)) && ApartFromAll(n, Words(AllEdits(groups[1..])))
  {
  }

  lemma {:induction false} ResolveKeepsCount(source: string, groups: seq<Group>, n: string)
    requires UsableGroups(groups) && IndependentGroups(groups) && Resolve(source, groups).Some?
    requires n != "" && ApartFromAll(n, Words(AllEdits(groups)))
    ensures Occurrences(Resolve(source, groups).value.source, n) == Occurrences(source, n)
    decreases |groups|
  {
    if groups == [] {
    } else {
      var g := groups[0];
      assert g in groups;
      GroupsSplit(groups);
      ApartFromGroups(groups, n);
      if Present(source, g.edits) {
        ResolveKeepsCount(source, groups[1..], n);
      } else {
        EditsKeepCount(source, g.edits, n);
        ResolveKeepsCount(ApplyEdits(source, g.edits), groups[1..], n);
      }
    }
  }

  /** Whatever shape was accepted, the result satisfies the start-up guard's predicate. */
  lemma {:induction false} AcceptedIsApplied(source: string, groups: seq<Group>)
    requires UsableGroups(groups) && IndependentGroups(groups) && Resolve(source, groups).Some?
    ensures IsApplied(Resolve(source, groups).value.source, groups)
    decreases |groups|
  {
    if groups == [] {
    } else {
      var g := groups[0];
      assert g in groups;
      GroupsSplit(groups);
      var next := if Present(source, g.edits) then source else ApplyEdits(source, g.edits);
      if !Present(source, g.edits) {
        EditsLand(source, g.edits);
      }
      AcceptedIsApplied(next, groups[1..]);
      var out := Resolve(source, groups).value.source;
      forall e | e in g.edits ensures Occurrences(out, e.find) == 0 && Occurrences(out, e.replace) == 1 {
        EditWords(g.edits, e);
        assert Usable(e);
        ResolveKeepsCount(next, groups[1..], e.find);
        ResolveKeepsCount(next, groups[1..], e.replace);
      }
      assert Present(out, g.edits);
    }
  }

  /** Nothing is applied exactly when everything was already there, and then the text is untouched. */
  lemma {:induction false} AppliesNothingIff(source: string, groups: seq<Group>)
    requires UsableGroups(groups)
    ensures (Resolve(source, groups).Some? && Resolve(source, groups).value.applied == []) <==> IsApplied(source, groups)
    ensures IsApplied(source, groups) ==> Resolve(source, groups).value.source == source
    decreases |groups|
  {
    if groups == [] {
    } else {
      assert groups[0] in groups;
      AppliesNothingIff(source, groups[1..]);
    }
  }

  /** Idempotence: a second run over an accepted source's result applies nothing and changes nothing. */
  lemma {:induction false} SecondRunIsIdle(source: string, groups: seq<Group>)
    requires UsableGroups(groups) && IndependentGroups(groups) && Resolve(source, groups).Some?
    ensures var out := Resolve(source, groups).value.source;
            Resolve(out, groups).Some? && Resolve(out, groups).value.applied == [] && Resolve(out, groups).value.source == out
  {
    AcceptedIsApplied(source, groups);
    AppliesNothingIff(Resolve(source, groups).value.source, groups);
  }

  // ----- what becomes of the text -----

  /** A replacement may contain its own find, but different edits keep out of each other's way. */
  predicate SeparateEdits(edits: seq<Edit>) {
    edits == [] ||
    (var e := edits[0];
     && Unbordered(e.find) && Unbordered(e.replace)
     && ApartFromAll(e.find, Words(edits[1..])) && ApartFromAll(e.replace, Words(edits[1..]))
     && SeparateEdits(edits[1..]))
  }

  /** Surrounding text free of every word, and nothing but the actions' own texts as bodies. */
  predicate Template(holes: seq<Hole>, tail: string, words: seq<string>) {
    && (forall n :: n in words ==> n != "" && Occurrences(tail, n) == 0)
    && (forall h, n :: h in holes && n in words ==> n != "" && Occurrences(h.context, n) == 0)
    && (forall h :: h in holes ==> h.word in words)
  }

  lemma {:induction false} TemplateWord(holes: seq<Hole>, tail: string, words: seq<string>, n: string)
    requires Template(holes, tail, words) && Independent(words) && n in words
    ensures OnlyAsBody(holes, tail, n)
  {
    var i :| 0 <= i < |words| && words[i] == n;
    IndependentPairs(words, i, i);
    forall h | h in holes ensures h.word == n || Apart(n, h.word) {
      var j :| 0 <= j < |words| && words[j] == h.word;
      IndependentPairs(words, i, j);
    }
  }

  lemma TemplateSubstitute(holes: seq<Hole>, tail: string, words: seq<string>, n: string, x: string)
    requires Template(holes, tail, words) && x in words
    ensures Template(Substitute(holes, n, x), tail, words)
  {
  }

  /** Each body that is a find gives way to its replacement. */
  function Exchange(holes: seq<Hole>, edits: seq<Edit>): seq<Hole>
    decreases |edits|
  {
    if edits == [] then holes else Exchange(Substitute(holes, edits[0].find, edits[0].replace), edits[1..])
  }

  lemma OnlyAsBodyStays(holes: seq<Hole>, tail: string, n: string, e: Edit)
    requires OnlyAsBody(holes, tail, n) && Apart(n, e.find) && Apart(n, e.replace)
    ensures OnlyAsBody(Substitute(holes, e.find, e.replace), tail, n)
    ensures Bodies(Substitute(holes, e.find, e.replace), n) == Bodies(holes, n)
  {
    forall h | h in Substitute(holes, e.find, e.replace)
      ensures Occurrences(h.context, n) == 0 && (h.word == n || Apart(n, h.word))
    {
      SubstituteWords(holes, e.find, e.replace, h);
    }
    ApartDiffer(n, e.find);
    ApartDiffer(n, e.replace);
    OtherBodies(holes, e.find, e.replace, n);
  }

  lemma {:induction false} OtherBodies(holes: seq<Hole>, n: string, x: string, m: string)
    requires m != n && m != x
    ensures Bodies(Substitute(holes, n, x), m) == Bodies(holes, m)
  {
    if holes == [] {
    } else {
      OtherBodies(holes[1..], n, x, m);
      assert Substitute(holes, n, x)[1..] == Substitute(holes[1..], n, x);
    }
  }

  /** Applying edits to a text in which each find stands once exchanges those bodies and leaves the rest alone. */
  lemma {:induction false} EditsExchange(holes: seq<Hole>, tail: string, edits: seq<Edit>)
    requires AllUsable(edits) && SeparateEdits(edits)
    requires forall e :: e in edits ==> OnlyAsBody(holes, tail, e.find) && Bodies(holes, e.find) == 1
    ensures ApplyEdits(Fill(holes, tail), edits) == Fill(Exchange(holes, edits), tail)
    decreases |edits|
  {
    if edits == [] {
    } else {
      var e, rest := edits[0], edits[1..];
      assert e in edits && Usable(e);
      FillReplacesFirst(holes, tail, e.find, e.replace);
      forall f | f in rest
        ensures OnlyAsBody(Substitute(holes, e.find, e.replace), tail, f.find)
                && Bodies(Substitute(holes, e.find, e.replace), f.find) == 1
      {
        EditWords(rest, f);
        ApartSymmetric(e.find, f.find);
        ApartSymmetric(e.replace, f.find);
        OnlyAsBodyStays(holes, tail, f.find, e);
      }
      EditsExchange(Substitute(holes, e.find, e.replace), tail, rest);
    }
  }

  lemma {:induction false} ExchangeAbsent(holes: seq<Hole>, edits: seq<Edit>)
    requires forall e :: e in edits ==> Bodies(holes, e.find) == 0
    ensures Exchange(holes, edits) == holes
    decreases |edits|
  {
    if edits == [] {
    } else {
      assert edits[0] in edits;
      SubstituteAbsent(holes, edits[0].find, edits[0].replace);
      ExchangeAbsent(holes, edits[1..]);
    }
  }

  lemma {:induction false} ExchangeConcat(holes: seq<Hole>, a: seq<Edit>, b: seq<Edit>)
    ensures Exchange(holes, a + b) == Exchange(Exchange(holes, a), b)
    decreases |a|
  {
    if a == [] {
      assert a + b == b;
    } else {
      assert (a + b)[0] == a[0] && (a + b)[1..] == a[1..] + b;
      ExchangeConcat(Substitute(holes, a[0].find, a[0].replace), a[1..], b);
    }
  }

  lemma {:induction false} IndependentIsSeparate(edits: seq<Edit>)
    requires Independent(Words(edits))
    ensures SeparateEdits(edits)
  {
    if edits == [] {
    } else {
      HeadApart(edits);
      IndependentIsSeparate(edits[1..]);
    }
  }

  /** The names of the groups that are untouched, or else of those that are in place. */
  function NamesWhere(source: string, groups: seq<Group>, untouched: bool): seq<string>
    requires UsableGroups(groups)
  {
    if groups == [] then [] else
      var g := groups[0];
      assert g in groups;
      var inPlace := forall e :: e in g.edits ==> e.find != "" && e.replace != ""
                                                  && Occurrences(source, e.find) == 0 && Occurrences(source, e.replace) == 1;
      (if inPlace == untouched then [] else [g.name]) + NamesWhere(source, groups[1..], untouched)
  }

  lemma NextKeepsOthers(source: string, groups: seq<Group>)
    requires groups != [] && UsableGroups(groups) && IndependentGroups(groups) && Pristine(source, groups[0].edits)
    ensures var next := ApplyEdits(source, groups[0].edits);
            forall h, e :: h in groups[1..] && e in h.edits ==>
              Usable(e) && Occurrences(next, e.find) == Occurrences(source, e.find)
              && Occurrences(next, e.replace) == Occurrences(source, e.replace)
  {
    forall h, e | h in groups[1..] && e in h.edits
      ensures Usable(e)
              && Occurrences(ApplyEdits(source, groups[0].edits), e.find) == Occurrences(source, e.find)
              && Occurrences(ApplyEdits(source, groups[0].edits), e.replace) == Occurrences(source, e.replace)
    {
      assert h in groups && Usable(e);
      OtherGroupKept(source, groups, h, e);
    }
  }

  predicate AllWhole(source: string, groups: seq<Group>)
    requires UsableGroups(groups)
  {
    groups == [] ||
    (assert groups[0] in groups;
     (Present(source, groups[0].edits) || Pristine(source, groups[0].edits)) && AllWhole(source, groups[1..]))
  }

  lemma {:induction false} AllWholeMeans(source: string, groups: seq<Group>)
    requires UsableGroups(groups)
    ensures AllWhole(source, groups) <==> forall g :: g in groups ==> Present(source, g.edits) || Pristine(source, g.edits)
  {
    if groups == [] {
    } else {
      AllWholeMeans(source, groups[1..]);
      assert forall h :: h in groups <==> h == groups[0] || h in groups[1..];
    }
  }

  lemma {:induction false} SameCountsWhole(a: string, b: string, groups: seq<Group>)
    requires UsableGroups(groups)
    requires forall g, e :: g in groups && e in g.edits ==>
               Usable(e) && Occurrences(b, e.find) == Occurrences(a, e.find) && Occurrences(b, e.replace) == Occurrences(a, e.replace)
    ensures AllWhole(a, groups) == AllWhole(b, groups)
  {
    if groups == [] {
    } else {
      assert groups[0] in groups;
      SameCountsWhole(a, b, groups[1..]);
    }
  }

  lemma {:induction false} AcceptedWhole(source: string, groups: seq<Group>)
    requires UsableGroups(groups) && IndependentGroups(groups)
    ensures Resolve(source, groups).Some? <==> AllWhole(source, groups)
    decreases |groups|
  {
    if groups == [] {
    } else {
      var g, rest := groups[0], groups[1..];
      assert g in groups;
      GroupsSplit(groups);
      if Present(source, g.edits) {
        AcceptedWhole(source, rest);
      } else if Pristine(source, g.edits) {
        AcceptedWhole(ApplyEdits(source, g.edits), rest);
        NextKeepsOthers(source, groups);
        SameCountsWhole(source, ApplyEdits(source, g.edits), rest);
      }
    }
  }

  lemma {:induction false} ReportIs(source: string, groups: seq<Group>)
    requires UsableGroups(groups) && IndependentGroups(groups) && Resolve(source, groups).Some?
    ensures Resolve(source, groups).value.applied == NamesWhere(source, groups, true)
    ensures Resolve(source, groups).value.skipped == NamesWhere(source, groups, false)
    decreases |groups|
  {
    if groups == [] {
    } else {
      var g, rest := groups[0], groups[1..];
      assert g in groups;
      GroupsSplit(groups);
      if Present(source, g.edits) {
        ReportIs(source, rest);
      } else {
        var next := ApplyEdits(source, g.edits);
        ReportIs(next, rest);
        NextKeepsOthers(source, groups);
        SameCountsSameNames(source, next, rest, true);
        SameCountsSameNames(source, next, rest, false);
      }
    }
  }

  /**
   Which sources are accepted, and what is reported: each group must be in place as a whole (every find gone, every
   replacement there once) or untouched as a whole (every find there once, no replacement). The untouched ones
   are reported as applied, the others as skipped, in order.
   */
  lemma {:induction false} AcceptedIff(source: string, groups: seq<Group>)
    requires UsableGroups(groups) && IndependentGroups(groups)
    ensures Resolve(source, groups).Some? <==>
              forall g :: g in groups ==>
                || (forall e :: e in g.edits ==> Usable(e) && Occurrences(source, e.find) == 0 && Occurrences(source, e.replace) == 1)
                || (forall e :: e in g.edits ==> Usable(e) && Occurrences(source, e.find) == 1 && Occurrences(source, e.replace) == 0)
    ensures Resolve(source, groups).Some? ==>
              Resolve(source, groups).value.applied == NamesWhere(source, groups, true)
              && Resolve(source, groups).value.skipped == NamesWhere(source, groups, false)
  {
    AcceptedWhole(source, groups);
    AllWholeMeans(source, groups);
    if Resolve(source, groups).Some? {
      ReportIs(source, groups);
    }
  }

  lemma {:induction false} OtherGroupKept(source: string, groups: seq<Group>, h: Group, e: Edit)
    requires groups != [] && UsableGroups(groups) && IndependentGroups(groups)
    requires h in groups[1..] && e in h.edits && Usable(e) && Pristine(source, groups[0].edits)
    ensures Occurrences(ApplyEdits(source, groups[0].edits), e.find) == Occurrences(source, e.find)
    ensures Occurrences(ApplyEdits(source, groups[0].edits), e.replace) == Occurrences(source, e.replace)
  {
    GroupsSplit(groups);
    EditOfGroups(groups[1..], h, e);
    EditWords(AllEdits(groups[1..]), e);
    forall n | n == e.find || n == e.replace ensures ApartFromAll(n, Words(groups[0].edits)) {
      forall w | w in Words(groups[0].edits) ensures Apart(n, w) {
        assert ApartFromAll(w, Words(AllEdits(groups[1..])));
        ApartSymmetric(w, n);
      }
    }
    EditsKeepCount(source, groups[0].edits, e.find);
    EditsKeepCount(source, groups[0].edits, e.replace);
  }

  lemma {:induction false} EditOfGroups(groups: seq<Group>, h: Group, e: Edit)
    requires h in groups && e in h.edits
    ensures e in AllEdits(groups)
  {
    if h == groups[0] {
    } else {
      EditOfGroups(groups[1..], h, e);
    }
  }

  lemma {:induction false} SameCountsSameNames(a: string, b: string, groups: seq<Group>, untouched: bool)
    requires UsableGroups(groups)
    requires forall g, e :: g in groups && e in g.edits ==>
               Usable(e) && Occurrences(b, e.find) == Occurrences(a, e.find) && Occurrences(b, e.replace) == Occurrences(a, e.replace)
    ensures NamesWhere(a, groups, untouched) == NamesWhere(b, groups, untouched)
  {
    if groups == [] {
    } else {
      assert groups[0] in groups;
      SameCountsSameNames(a, b, groups[1..], untouched);
    }
  }

  /**
   What is written: in a text whose bodies are finds and replacements, an accepted run exchanges every find for its
   replacement and leaves everything else as it was.
   */
  lemma {:induction false} AcceptedTextIs(holes: seq<Hole>, tail: string, groups: seq<Group>, words: seq<string>)
    requires UsableGroups(groups) && IndependentGroups(groups)
    requires Independent(words) && Template(holes, tail, words) && forall w :: w in Words(AllEdits(groups)) ==> w in words
    requires Resolve(Fill(holes, tail), groups).Some?
    ensures Resolve(Fill(holes, tail), groups).value.source == Fill(Exchange(holes, AllEdits(groups)), tail)
    decreases |groups|
  {
    if groups == [] {
    } else {
      var g, rest := groups[0], groups[1..];
      assert g in groups;
      GroupsSplit(groups);
      WordsConcat(g.edits, AllEdits(rest));
      ExchangeConcat(holes, g.edits, AllEdits(rest));
      forall e | e in g.edits ensures OnlyAsBody(holes, tail, e.find) {
        EditWords(g.edits, e);
        TemplateWord(holes, tail, words, e.find);
      }
      forall e | e in g.edits ensures Usable(e) && Occurrences(Fill(holes, tail), e.find) == Bodies(holes, e.find) {
        assert Usable(e);
        FillCounts(holes, tail, e.find);
      }
      if Present(Fill(holes, tail), g.edits) {
        ExchangeAbsent(holes, g.edits);
        AcceptedTextIs(holes, tail, rest, words);
      } else {
        IndependentIsSeparate(g.edits);
        EditsExchange(holes, tail, g.edits);
        ExchangeKeepsTemplate(holes, tail, words, g.edits);
        AcceptedTextIs(Exchange(holes, g.edits), tail, rest, words);
      }
    }
  }

  lemma {:induction false} ExchangeKeepsTemplate(holes: seq<Hole>, tail: string, words: seq<string>, edits: seq<Edit>)
    requires Template(holes, tail, words) && forall w :: w in Words(edits) ==> w in words
    ensures Template(Exchange(holes, edits), tail, words)
    decreases |edits|
  {
    if edits == [] {
    } else {
      var e := edits[0];
      EditWords(edits, e);
      TemplateSubstitute(holes, tail, words, e.find, e.replace);
      ExchangeKeepsTemplate(Substitute(holes, e.find, e.replace), tail, words, edits[1..]);
    }
  }
}
