/**
 String search and replacement as the patchers use them: `split`, counting by `split`, `split` then
 `join`, and first-occurrence `replace`. The lemmas say how each acts on a text cut at a known word,
 including why no occurrence can straddle the cut.
 */
module Text {
  predicate OccursAt(s: string, n: string, p: int) {
    0 <= p && p + |n| <= |s| && s[p..p + |n|] == n
  }

  /** Index of the first occurrence at or after `from`, or -1. */
  function IndexOf(s: string, n: string, from: nat): (p: int)
    ensures p < 0 ==> forall q :: from <= q ==> !OccursAt(s, n, q)
    ensures p >= 0 ==> from <= p && OccursAt(s, n, p) && forall q :: from <= q < p ==> !OccursAt(s, n, q)
    decreases |s| - from
  {
    if from + |n| > |s| then -1
    else if s[from..from + |n|] == n then from
    else
      var p := IndexOf(s, n, from + 1);
      assert !OccursAt(s, n, from);
      assert forall q :: from <= q && OccursAt(s, n, q) ==> from + 1 <= q;
      p
  }

  function Split(s: string, n: string): (parts: seq<string>)
    requires n != ""
    ensures parts != []
    decreases |s|
  {
    var p := IndexOf(s, n, 0);
    if p < 0 then [s] else [s[..p]] + Split(s[p + |n|..], n)
  }

  function Occurrences(s: string, n: string): nat
    requires n != ""
  {
    |Split(s, n)| - 1
  }

  function Join(parts: seq<string>, x: string): string
    requires parts != []
  {
    if |parts| == 1 then parts[0] else parts[0] + x + Join(parts[1..], x)
  }

  function ReplaceAll(s: string, n: string, x: string): string
    requires n != ""
  {
    Join(Split(s, n), x)
  }

  /** What String.prototype.replace puts in place of one match: `$$`, `$&`, `$`` and `$'` are interpreted. */
  function Expand(r: string, before: string, match_: string, after: string): string {
    if r == "" then ""
    else if |r| >= 2 && r[0] == '$' && r[1] == '$' then "$" + Expand(r[2..], before, match_, after)
    else if |r| >= 2 && r[0] == '$' && r[1] == '&' then match_ + Expand(r[2..], before, match_, after)
    else if |r| >= 2 && r[0] == '$' && r[1] == '`' then before + Expand(r[2..], before, match_, after)
    else if |r| >= 2 && r[0] == '$' && r[1] == '\'' then after + Expand(r[2..], before, match_, after)
    else [r[0]] + Expand(r[1..], before, match_, after)
  }

  function ReplaceFirst(s: string, n: string, r: string): string {
    var p := IndexOf(s, n, 0);
    if p < 0 then s else s[..p] + Expand(r, s[..p], n, s[p + |n|..]) + s[p + |n|..]
  }

  lemma {:induction false} ExpandsToItself(r: string, before: string, match_: string, after: string)
    requires '$' !in r
    ensures Expand(r, before, match_, after) == r
  {
    if r == "" {
    } else {
      assert r[0] in r;
      ExpandsToItself(r[1..], before, match_, after);
    }
  }

  // ----- words that cannot overlap -----

  predicate Contains(s: string, n: string) {
    exists p :: 0 <= p <= |s| - |n| && OccursAt(s, n, p)
  }

  /** Some proper, non-empty suffix of u is a prefix of v. */
  predicate RunsInto(u: string, v: string) {
    exists k :: 0 < k < |u| && k < |v| && u[|u| - k..] == v[..k]
  }

  predicate Apart(u: string, v: string) {
    !Contains(u, v) && !Contains(v, u) && !RunsInto(u, v) && !RunsInto(v, u)
  }

  lemma ApartDiffer(u: string, v: string)
    requires Apart(u, v)
    ensures u != v
  {
    assert OccursAt(u, u, 0);
  }

  /** A word no two occurrences of which overlap. */
  predicate Unbordered(u: string) {
    u != "" && !RunsInto(u, u)
  }

  lemma Slices(t: string, p: int, q: int, k: int)
    requires 0 <= p <= q <= |t| && 0 <= k <= q - p
    ensures t[p..q][k..] == t[p + k..q] && t[p..q][..k] == t[p..p + k]
  {
  }

  /** An occurrence of n that shares a character with the word w at |l| overlaps it in one of four ways. */
  lemma SharedCharacter(l: string, w: string, r: string, n: string, p: int)
    requires OccursAt(l + w + r, n, p) && |l| < p + |n| && p < |l| + |w|
    ensures Contains(n, w) || Contains(w, n) || (p < |l| && RunsInto(n, w)) || (p > |l| && RunsInto(w, n))
  {
    var t, a, b := l + w + r, |l|, |l| + |w|;
    var q := p + |n|;
    assert t[a..b] == w && t[p..q] == n;
    if p <= a && b <= q {
      assert n[a - p..b - p] == t[a..b];
      assert OccursAt(n, w, a - p);
    } else if a <= p && q <= b {
      assert w[p - a..q - a] == t[p..q];
      assert OccursAt(w, n, p - a);
    } else if p < a {
      Slices(t, p, q, a - p);
      Slices(t, a, b, q - a);
      assert n[|n| - (q - a)..] == w[..q - a];
    } else {
      Slices(t, a, b, p - a);
      Slices(t, p, q, b - p);
      assert w[|w| - (b - p)..] == n[..b - p];
    }
  }

  /** No occurrence of n straddles, contains or lies inside a word apart from it. */
  lemma NoStraddle(l: string, w: string, r: string, n: string, p: int)
    requires Apart(n, w) && OccursAt(l + w + r, n, p)
    ensures p + |n| <= |l| || |l| + |w| <= p
  {
    if |l| < p + |n| && p < |l| + |w| {
      SharedCharacter(l, w, r, n, p);
    }
  }

  /** An occurrence of n that shares a character with another one runs into it. */
  lemma SharedWithItself(l: string, n: string, r: string, p: int)
    requires OccursAt(l + n + r, n, p) && |l| < p + |n| && p < |l| + |n| && p != |l|
    ensures RunsInto(n, n)
  {
    var t, a := l + n + r, |l|;
    var b, q := a + |n|, p + |n|;
    assert t[a..b] == n && t[p..q] == n;
    if p < a {
      Slices(t, p, q, a - p);
      Slices(t, a, b, q - a);
      assert n[|n| - (q - a)..] == n[..q - a];
    } else {
      Slices(t, a, b, p - a);
      Slices(t, p, q, b - p);
      assert n[|n| - (b - p)..] == n[..b - p];
    }
  }

  lemma NoSelfStraddle(l: string, n: string, r: string, p: int)
    requires Unbordered(n) && OccursAt(l + n + r, n, p)
    ensures p + |n| <= |l| || p == |l| || |l| + |n| <= p
  {
    if |l| < p + |n| && p < |l| + |n| && p != |l| {
      SharedWithItself(l, n, r, p);
    }
  }

  // ----- splitting a text cut at a word -----

  lemma OccursInParts(l: string, w: string, r: string, n: string, p: int)
    ensures p + |n| <= |l| ==> (OccursAt(l + w + r, n, p) <==> OccursAt(l, n, p))
    ensures |l| + |w| <= p ==> (OccursAt(l + w + r, n, p) <==> OccursAt(r, n, p - |l| - |w|))
  {
  }

  lemma IsIndex(s: string, n: string, i: int)
    requires i < 0 ==> forall q :: 0 <= q ==> !OccursAt(s, n, q)
    requires i >= 0 ==> OccursAt(s, n, i) && forall q :: 0 <= q < i ==> !OccursAt(s, n, q)
    ensures if i < 0 then IndexOf(s, n, 0) < 0 else IndexOf(s, n, 0) == i
  {
  }

  /** The first occurrence in a cut text: in the left part if there is one, otherwise past the word. */
  lemma FirstAcross(l: string, w: string, r: string, n: string)
    requires Apart(n, w) && n != ""
    ensures var p, q, i := IndexOf(l, n, 0), IndexOf(r, n, 0), IndexOf(l + w + r, n, 0);
            if p >= 0 then i == p else if q >= 0 then i == |l| + |w| + q else i < 0
  {
    var t := l + w + r;
    var p, q := IndexOf(l, n, 0), IndexOf(r, n, 0);
    var i := if p >= 0 then p else if q >= 0 then |l| + |w| + q else -1;
    if i >= 0 { OccursInParts(l, w, r, n, i); }
    forall j | 0 <= j && (i < 0 || j < i) ensures !OccursAt(t, n, j) {
      if OccursAt(t, n, j) {
        NoStraddle(l, w, r, n, j);
        OccursInParts(l, w, r, n, j);
      }
    }
    IsIndex(t, n, i);
  }

  lemma FirstHit(l: string, n: string, r: string)
    requires Unbordered(n)
    ensures var p := IndexOf(l, n, 0);
            IndexOf(l + n + r, n, 0) == if p >= 0 then p else |l|
  {
    var t := l + n + r;
    var p := IndexOf(l, n, 0);
    var i := if p >= 0 then p else |l|;
    assert t[|l|..|l| + |n|] == n;
    OccursInParts(l, n, r, n, i);
    forall j | 0 <= j < i ensures !OccursAt(t, n, j) {
      if OccursAt(t, n, j) {
        NoSelfStraddle(l, n, r, j);
        OccursInParts(l, n, r, n, j);
      }
    }
    IsIndex(t, n, i);
  }

  lemma CatLeft(a: string, b: string, c: string, d: string, e: string)
    ensures (a + b + c) + d + e == a + b + (c + d + e)
  {
  }

  lemma CatRight(a: string, b: string, c: string, d: string, e: string)
    ensures a + b + (c + d + e) == (a + b + c) + d + e
  {
  }

  /** Two lists of parts with their facing ends joined around w. */
  function Glue(a: seq<string>, w: string, b: seq<string>): seq<string>
    requires a != [] && b != []
  {
    a[..|a| - 1] + [a[|a| - 1] + w + b[0]] + b[1..]
  }

  lemma GluePrepend(x: string, a: seq<string>, w: string, b: seq<string>)
    requires a != [] && b != []
    ensures Glue([x] + a, w, b) == [x] + Glue(a, w, b)
  {
  }

  lemma GlueOnes(l: string, w: string, head: string, rest: seq<string>)
    ensures Glue([l], w, [head] + rest) == [l + w + head] + rest
  {
    assert [l][..0] == [] && ([head] + rest)[1..] == rest;
  }

  lemma SplitAt(s: string, n: string, head: string, tail: string)
    requires n != "" && s == head + n + tail && IndexOf(s, n, 0) == |head|
    ensures Split(s, n) == [head] + Split(tail, n)
  {
    assert s[..|head|] == head && s[|head| + |n|..] == tail;
  }

  lemma {:induction false} SplitAcross(l: string, w: string, r: string, n: string)
    requires Apart(n, w) && n != ""
    ensures Split(l + w + r, n) == Glue(Split(l, n), w, Split(r, n))
    decreases |l|
  {
    FirstAcross(l, w, r, n);
    var t := l + w + r;
    var p := IndexOf(l, n, 0);
    if p >= 0 {
      var head, rest := l[..p], l[p + |n|..];
      assert l == head + n + rest;
      SplitAt(l, n, head, rest);
      CatLeft(head, n, rest, w, r);
      SplitAt(t, n, head, rest + w + r);
      SplitAcross(rest, w, r, n);
      GluePrepend(head, Split(rest, n), w, Split(r, n));
    } else {
      SplitPastWord(l, w, r, n);
    }
  }

  lemma SplitPastWord(l: string, w: string, r: string, n: string)
    requires Apart(n, w) && n != "" && IndexOf(l, n, 0) < 0
    ensures Split(l + w + r, n) == Glue([l], w, Split(r, n))
  {
    FirstAcross(l, w, r, n);
    var t := l + w + r;
    var q := IndexOf(r, n, 0);
    if q >= 0 {
      var head, rest := r[..q], r[q + |n|..];
      assert r == head + n + rest;
      SplitAt(r, n, head, rest);
      CatRight(l, w, head, n, rest);
      SplitAt(t, n, l + w + head, rest);
      GlueOnes(l, w, head, Split(rest, n));
    } else {
      assert Split(r, n) == [r] && Split(t, n) == [t];
      GlueOnes(l, w, r, []);
      assert [r] + [] == [r] && [t] + [] == [t];
    }
  }

  lemma PrependAssoc(x: string, c: seq<string>, d: seq<string>)
    ensures [x] + (c + d) == ([x] + c) + d
  {
  }

  lemma {:induction false} SplitHit(l: string, n: string, r: string)
    requires Unbordered(n)
    ensures Split(l + n + r, n) == Split(l, n) + Split(r, n)
    decreases |l|
  {
    FirstHit(l, n, r);
    var t := l + n + r;
    var p := IndexOf(l, n, 0);
    if p >= 0 {
      var head, rest := l[..p], l[p + |n|..];
      assert l == head + n + rest;
      SplitAt(l, n, head, rest);
      CatLeft(head, n, rest, n, r);
      SplitAt(t, n, head, rest + n + r);
      SplitHit(rest, n, r);
      PrependAssoc(head, Split(rest, n), Split(r, n));
    } else {
      SplitAt(t, n, l, r);
      assert Split(l, n) == [l];
    }
  }

  lemma {:induction false} JoinConcat(a: seq<string>, b: seq<string>, x: string)
    requires a != [] && b != []
    ensures Join(a + b, x) == Join(a, x) + x + Join(b, x)
  {
    if |a| == 1 {
      assert (a + b)[1..] == b;
    } else {
      assert (a + b)[1..] == a[1..] + b;
      JoinConcat(a[1..], b, x);
    }
  }

  lemma {:induction false} JoinGlue(a: seq<string>, w: string, b: seq<string>, x: string)
    requires a != [] && b != []
    ensures Join(Glue(a, w, b), x) == Join(a, x) + w + Join(b, x)
  {
    if |a| == 1 {
      var m := a[0] + w + b[0];
      assert Glue(a, w, b) == [m] + b[1..];
      assert ([m] + b[1..])[1..] == b[1..];
    } else {
      assert a == [a[0]] + a[1..];
      GluePrepend(a[0], a[1..], w, b);
      assert ([a[0]] + Glue(a[1..], w, b))[1..] == Glue(a[1..], w, b);
      JoinGlue(a[1..], w, b, x);
    }
  }

  // ----- counting and replacing in a text cut at a word -----

  lemma CountAcross(l: string, w: string, r: string, n: string)
    requires Apart(n, w) && n != ""
    ensures Occurrences(l + w + r, n) == Occurrences(l, n) + Occurrences(r, n)
  {
    SplitAcross(l, w, r, n);
  }

  lemma CountHit(l: string, n: string, r: string)
    requires Unbordered(n)
    ensures Occurrences(l + n + r, n) == Occurrences(l, n) + 1 + Occurrences(r, n)
  {
    SplitHit(l, n, r);
  }

  lemma ReplaceAllAcross(l: string, w: string, r: string, n: string, x: string)
    requires Apart(n, w) && n != ""
    ensures ReplaceAll(l + w + r, n, x) == ReplaceAll(l, n, x) + w + ReplaceAll(r, n, x)
  {
    SplitAcross(l, w, r, n);
    JoinGlue(Split(l, n), w, Split(r, n), x);
  }

  lemma ReplaceAllHit(l: string, n: string, r: string, x: string)
    requires Unbordered(n)
    ensures ReplaceAll(l + n + r, n, x) == ReplaceAll(l, n, x) + x + ReplaceAll(r, n, x)
  {
    SplitHit(l, n, r);
    JoinConcat(Split(l, n), Split(r, n), x);
  }

  /** Counting zero means absent, and then nothing is replaced. */
  lemma AbsentIffZero(s: string, n: string)
    requires n != ""
    ensures Occurrences(s, n) == 0 <==> forall p :: !OccursAt(s, n, p)
    ensures Occurrences(s, n) == 0 ==> (forall x :: ReplaceAll(s, n, x) == s)
  {
  }

  lemma ReplaceFirstAt(s: string, n: string, x: string, head: string, tail: string)
    requires '$' !in x && s == head + n + tail && IndexOf(s, n, 0) == |head|
    ensures ReplaceFirst(s, n, x) == head + x + tail
  {
    assert s[..|head|] == head && s[|head| + |n|..] == tail;
    ExpandsToItself(x, head, n, tail);
  }

  lemma {:induction false} ReplaceFirstAcross(l: string, w: string, r: string, n: string, x: string)
    requires Apart(n, w) && n != "" && '$' !in x && Occurrences(l, n) == 0
    ensures ReplaceFirst(l + w + r, n, x) == l + w + ReplaceFirst(r, n, x)
  {
    FirstAcross(l, w, r, n);
    var q := IndexOf(r, n, 0);
    if q >= 0 {
      var head, rest := r[..q], r[q + |n|..];
      assert r == head + n + rest;
      CatRight(l, w, head, n, rest);
      CatRight(l, w, head, x, rest);
      ReplaceFirstAt(r, n, x, head, rest);
      ReplaceFirstAt(l + w + r, n, x, l + w + head, rest);
    }
  }

  lemma ReplaceFirstHit(l: string, n: string, r: string, x: string)
    requires Unbordered(n) && '$' !in x && Occurrences(l, n) == 0
    ensures ReplaceFirst(l + n + r, n, x) == l + x + r
  {
    FirstHit(l, n, r);
    ReplaceFirstAt(l + n + r, n, x, l, r);
  }

  /** The first occurrence cuts a text into a part without any and the rest. */
  lemma CutAtFirst(s: string, n: string) returns (l: string, r: string)
    requires n != "" && Occurrences(s, n) > 0
    ensures s == l + n + r && Occurrences(l, n) == 0
  {
    var p := IndexOf(s, n, 0);
    l, r := s[..p], s[p + |n|..];
    assert s == l + n + r;
    forall q ensures !OccursAt(l, n, q) {
      OccursInParts(l, n, r, n, q);
    }
    AbsentIffZero(l, n);
  }

  /** A text with exactly one occurrence is cut by it into two parts without any. */
  lemma CutAtOnly(s: string, n: string) returns (l: string, r: string)
    requires Unbordered(n) && Occurrences(s, n) == 1
    ensures s == l + n + r && Occurrences(l, n) == 0 && Occurrences(r, n) == 0
  {
    var p := IndexOf(s, n, 0);
    l, r := s[..p], s[p + |n|..];
    assert s == l + n + r;
    CountHit(l, n, r);
  }

  // ----- a text with words at known places -----

  /** A stretch of surrounding text and the body that follows it. */
  datatype Hole = Hole(context: string, word: string)

  function Fill(holes: seq<Hole>, tail: string): string {
    if holes == [] then tail else holes[0].context + holes[0].word + Fill(holes[1..], tail)
  }

  function Bodies(holes: seq<Hole>, n: string): nat {
    if holes == [] then 0 else (if holes[0].word == n then 1 else 0) + Bodies(holes[1..], n)
  }

  /** n occurs in the filled text only as a body. */
  predicate OnlyAsBody(holes: seq<Hole>, tail: string, n: string) {
    && Unbordered(n)
    && Occurrences(tail, n) == 0
    && forall h :: h in holes ==> Occurrences(h.context, n) == 0 && (h.word == n || Apart(n, h.word))
  }

  lemma {:induction false} FillCounts(holes: seq<Hole>, tail: string, n: string)
    requires OnlyAsBody(holes, tail, n)
    ensures Occurrences(Fill(holes, tail), n) == Bodies(holes, n)
  {
    if holes == [] {
    } else {
      var h := holes[0];
      assert h in holes;
      FillCounts(holes[1..], tail, n);
      if h.word == n {
        CountHit(h.context, n, Fill(holes[1..], tail));
      } else {
        CountAcross(h.context, h.word, Fill(holes[1..], tail), n);
      }
    }
  }

  lemma {:induction false} BodiesConcat(a: seq<Hole>, b: seq<Hole>, n: string)
    ensures Bodies(a + b, n) == Bodies(a, n) + Bodies(b, n)
  {
    if a == [] {
      assert a + b == b;
    } else {
      assert (a + b)[1..] == a[1..] + b;
      BodiesConcat(a[1..], b, n);
    }
  }

  /** The last place of a text, split off. */
  lemma {:induction false} FillLast(holes: seq<Hole>, h: Hole, tail: string)
    ensures Fill(holes + [h], tail) == (Fill(holes, "") + h.context) + h.word + tail
  {
    if holes == [] {
      assert holes + [h] == [h] && [h][1..] == [];
    } else {
      assert (holes + [h])[1..] == holes[1..] + [h];
      FillLast(holes[1..], h, tail);
    }
  }

  function Substitute(holes: seq<Hole>, n: string, x: string): seq<Hole> {
    if holes == [] then []
    else [Hole(holes[0].context, if holes[0].word == n then x else holes[0].word)] + Substitute(holes[1..], n, x)
  }

  lemma {:induction false} SubstituteAbsent(holes: seq<Hole>, n: string, x: string)
    requires Bodies(holes, n) == 0
    ensures Substitute(holes, n, x) == holes
  {
    if holes == [] {
    } else {
      SubstituteAbsent(holes[1..], n, x);
    }
  }

  lemma {:induction false} FillReplacesFirst(holes: seq<Hole>, tail: string, n: string, x: string)
    requires OnlyAsBody(holes, tail, n) && Bodies(holes, n) == 1 && '$' !in x
    ensures ReplaceFirst(Fill(holes, tail), n, x) == Fill(Substitute(holes, n, x), tail)
  {
    var h, rest := holes[0], Fill(holes[1..], tail);
    assert h in holes;
    if h.word == n {
      ReplaceFirstHit(h.context, n, rest, x);
      SubstituteAbsent(holes[1..], n, x);
    } else {
      ReplaceFirstAcross(h.context, h.word, rest, n, x);
      FillReplacesFirst(holes[1..], tail, n, x);
    }
    assert Substitute(holes, n, x)[1..] == Substitute(holes[1..], n, x);
  }

  lemma {:induction false} SubstituteBodies(holes: seq<Hole>, n: string, x: string, m: string)
    requires n != x
    ensures Bodies(Substitute(holes, n, x), m)
            == if m == n then 0 else if m == x then Bodies(holes, x) + Bodies(holes, n) else Bodies(holes, m)
  {
    if holes == [] {
    } else {
      SubstituteBodies(holes[1..], n, x, m);
      assert Substitute(holes, n, x)[1..] == Substitute(holes[1..], n, x);
    }
  }

  lemma {:induction false} SubstituteWords(holes: seq<Hole>, n: string, x: string, h: Hole)
    requires h in Substitute(holes, n, x)
    ensures exists g :: g in holes && g.context == h.context && h.word == if g.word == n then x else g.word
  {
    if h == Substitute(holes, n, x)[0] {
      assert holes[0] in holes;
    } else {
      assert h in Substitute(holes[1..], n, x);
      SubstituteWords(holes[1..], n, x, h);
    }
  }
}
