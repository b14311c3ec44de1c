/** `redact_pii`: sort the detected entities by `begin`, largest first, then
    splice `[<Type>]` over each span in that order. Working right to left
    means a splice never moves the characters below its `begin`, so every
    later (lower) entity can still use the offsets of the original text. */
module Redactor {
  import opened Spans
  import opened StableSort

  /** Python's normalisation of a slice bound `i` on a sequence of length
      `n` (step 1): a negative bound counts from the end, and the result is
      clamped to `[0, n]`. This is what `text[:i]` and `text[i:]` use. */
  function SliceBound(i: int, n: nat): (k: nat)
    ensures k <= n
    ensures 0 <= i <= n ==> k == i
  {
    if i < 0 then (if n + i < 0 then 0 else n + i)
    else if i > n then n
    else i
  }

  /** One step of the loop: `text[:begin] + "[" + Type + "]" + text[end:]`,
      with Python's slice semantics (no bound is ever out of range). */
  function Splice(text: string, x: Entity): string {
    text[..SliceBound(x.begin, |text|)] + Token(x) + text[SliceBound(x.end, |text|)..]
  }

  /** Whatever the bounds, a splice keeps the text below the normalised
      `begin`, then has exactly the placeholder, then exactly the text from
      the normalised `end` on. */
  lemma SpliceKeeps(text: string, x: Entity)
    ensures var r, b, e := Splice(text, x), SliceBound(x.begin, |text|), SliceBound(x.end, |text|);
      && |r| == b + |Token(x)| + (|text| - e)
      && r[..b] == text[..b]
      && r[b..b + |Token(x)|] == Token(x)
      && r[b + |Token(x)|..] == text[e..]
  {
    var b, e := SliceBound(x.begin, |text|), SliceBound(x.end, |text|);
    assert Splice(text, x) == text[..b] + (Token(x) + text[e..]);
  }

  /** The loop over the already sorted entities, first to last. */
  function ApplyAll(text: string, s: seq<Entity>): string
    decreases |s|
  {
    if s == [] then text else ApplyAll(Splice(text, s[0]), s[1..])
  }

  /** `redact_pii(text, entities)`. */
  function Redact(text: string, entities: seq<Entity>): string {
    ApplyAll(text, SortDesc(entities))
  }

  /** The same computation written as the source's loop. */
  method RedactPii(text: string, entities: seq<Entity>) returns (redacted: string)
    ensures redacted == Redact(text, entities)
    ensures entities == [] ==> redacted == text
  {
    var sorted := SortDesc(entities);
    redacted := text;
    for i := 0 to |sorted|
      invariant redacted == ApplyAll(text, sorted[..i])
    {
      var x := sorted[i];
      assert sorted[..i + 1] == sorted[..i] + [x];
      ApplyAllSnoc(text, sorted[..i], x);
      redacted := redacted[..SliceBound(x.begin, |redacted|)] + Token(x)
        + redacted[SliceBound(x.end, |redacted|)..];
    }
    assert sorted[..|sorted|] == sorted;
  }

  // ---------------------------------------------------------------------
  // The single splice

  /** An in-bounds splice keeps `text[:begin]` and `text[end:]` exactly and
      puts exactly `[<Type>]` between them. */
  lemma SpliceInBounds(text: string, x: Entity)
    requires InBounds(x, |text|)
    ensures |Splice(text, x)| == |text| - (x.end - x.begin) + |x.kind| + 2
    ensures Splice(text, x)[..x.begin] == text[..x.begin]
    ensures Splice(text, x)[x.begin..x.begin + |x.kind| + 2] == "[" + x.kind + "]"
    ensures Splice(text, x)[x.begin + |x.kind| + 2..] == text[x.end..]
  {
    var r := Splice(text, x);
    assert r == text[..x.begin] + (Token(x) + text[x.end..]);
  }

  /** A span covering the whole text leaves nothing but its placeholder. */
  lemma WholeTextSpan(text: string, kind: string)
    ensures Redact(text, [Entity(0, |text|, kind)]) == "[" + kind + "]"
  {
    var x := Entity(0, |text|, kind);
    assert SortDesc([x]) == [x];
    assert ApplyAll(Splice(text, x), []) == Splice(text, x);
  }

  /** With no entities the text comes back unchanged. */
  lemma NoEntities(text: string)
    ensures Redact(text, []) == text
  {
  }

  // ---------------------------------------------------------------------
  // Right-to-left processing

  /** Splices below `|u|` never touch what follows `u`. */
  lemma {:induction false} ApplyFrame(u: string, v: string, s: seq<Entity>)
    requires DescendingChain(s)
    requires AllInBounds(s, |u|)
    ensures ApplyAll(u + v, s) == ApplyAll(u, s) + v
    decreases |s|
  {
    if s != [] {
      var y := s[0];
      assert InBounds(y, |u|);
      var w := Splice(u, y);
      assert Splice(u + v, y) == w + v by {
        assert (u + v)[..y.begin] == u[..y.begin];
        assert (u + v)[y.end..] == u[y.end..] + v;
      }
      assert AllInBounds(s[1..], |w|) by {
        forall j | 0 <= j < |s[1..]|
          ensures InBounds(s[1..][j], |w|)
        {
          assert Before(s[j + 1], s[0]);
        }
      }
      ApplyFrame(w, v, s[1..]);
    }
  }

  /** The loop's fold, one entity at a time. */
  lemma {:induction false} ApplyAllSnoc(text: string, s: seq<Entity>, x: Entity)
    ensures ApplyAll(text, s + [x]) == Splice(ApplyAll(text, s), x)
    decreases |s|
  {
    if s != [] {
      assert (s + [x])[1..] == s[1..] + [x];
      ApplyAllSnoc(Splice(text, s[0]), s[1..], x);
    }
  }

  /** The loop invariant of the right-to-left argument. Before entity `k`
      is processed, the current text still agrees with the original up to
      that entity's `end` (for `k > 0`: up to the previous entity's
      `begin`), so the slice of step `k` is in range and removes exactly the
      original characters of the span. */
  lemma {:induction false} PrefixInvariant(text: string, d: seq<Entity>, k: nat)
    requires DescendingChain(d)
    requires AllInBounds(d, |text|)
    requires k < |d|
    ensures d[k].end <= |ApplyAll(text, d[..k])|
    ensures ApplyAll(text, d[..k])[..d[k].end] == text[..d[k].end]
    ensures ApplyAll(text, d[..k])[d[k].begin..d[k].end] == text[d[k].begin..d[k].end]
    ensures k > 0 ==> d[k - 1].begin <= |ApplyAll(text, d[..k])|
    ensures k > 0 ==> ApplyAll(text, d[..k])[..d[k - 1].begin] == text[..d[k - 1].begin]
  {
    var cur := ApplyAll(text, d[..k]);
    if k > 0 {
      PrefixInvariant(text, d, k - 1);
      var prev := ApplyAll(text, d[..k - 1]);
      var x := d[k - 1];
      assert d[..k] == d[..k - 1] + [x];
      ApplyAllSnoc(text, d[..k - 1], x);
      assert cur == Splice(prev, x);
      SpliceInBounds(prev, x);
      CommonPrefix(prev, text, x.begin, x.end);
      assert Before(d[k], x);
      CommonPrefix(cur, text, d[k].end, x.begin);
    }
    CommonPrefix(cur, text, d[k].begin, d[k].end);
  }

  /** Texts that agree up to `e` agree up to any `m <= e`, and on every
      slice from `m` to `e`. */
  lemma CommonPrefix(u: string, v: string, m: int, e: int)
    requires 0 <= m <= e <= |u| && e <= |v|
    requires u[..e] == v[..e]
    ensures u[..m] == v[..m]
    ensures u[m..e] == v[m..e]
  {
    assert u[..m] == u[..e][..m] && v[..m] == v[..e][..m];
    assert u[m..e] == u[..e][m..] && v[m..e] == v[..e][m..];
  }

  // ---------------------------------------------------------------------
  // Reference definition: the gaps between the spans, left to right,
  // alternated with the placeholders

  /** `s` lists spans left to right inside `[from, n]`: each starts no
      earlier than the previous one ended. */
  predicate Tiles(s: seq<Entity>, from: int, n: int) {
    if s == [] then 0 <= from <= n
    else 0 <= from <= s[0].begin <= s[0].end <= n && Tiles(s[1..], s[0].end, n)
  }

  /** The text from `from` on, with every span of `s` replaced by its
      placeholder and every character outside the spans kept in order. */
  function Layout(text: string, s: seq<Entity>, from: int): string
    requires Tiles(s, from, |text|)
  {
    if s == [] then text[from..]
    else text[from..s[0].begin] + Token(s[0]) + Layout(text, s[1..], s[0].end)
  }

  /** Reversal of an entity list. */
  function Reverse(s: seq<Entity>): (r: seq<Entity>)
    ensures |r| == |s|
    ensures forall i :: 0 <= i < |s| ==> r[i] == s[|s| - 1 - i]
  {
    if s == [] then [] else Reverse(s[1..]) + [s[0]]
  }

  lemma {:induction false} ReverseMultiset(s: seq<Entity>)
    ensures multiset(Reverse(s)) == multiset(s)
  {
    if s != [] {
      ReverseMultiset(s[1..]);
      assert Reverse(s) == Reverse(s[1..]) + [s[0]];
      assert s == [s[0]] + s[1..];
    }
  }

  lemma ReverseReverse(s: seq<Entity>)
    ensures Reverse(Reverse(s)) == s
  {
    var r := Reverse(s);
    var rr := Reverse(r);
    forall i | 0 <= i < |s|
      ensures rr[i] == s[i]
    {
      assert rr[i] == r[|s| - 1 - i];
    }
  }

  /** A left-to-right tiling, read backwards, is ordered largest first. */
  lemma {:induction false} TilesAscending(s: seq<Entity>, from: int, n: int)
    requires Tiles(s, from, n)
    ensures forall i :: 0 <= i < |s| ==> from <= s[i].begin
    ensures forall i, j :: 0 <= i < j < |s| ==> s[i].begin <= s[j].begin
  {
    if s != [] {
      TilesAscending(s[1..], s[0].end, n);
      assert forall i :: 1 <= i < |s| ==> s[i] == s[1..][i - 1];
    }
  }

  /** A span that starts at or after the end of a tiling extends it. */
  lemma {:induction false} TilesSnoc(s: seq<Entity>, x: Entity, from: int, n: int)
    requires 0 <= x.begin <= x.end <= n
    requires Tiles(s, from, x.begin)
    ensures Tiles(s + [x], from, n)
  {
    if s == [] {
      assert [x][1..] == [];
    } else {
      assert (s + [x])[1..] == s[1..] + [x];
      TilesSnoc(s[1..], x, s[0].end, n);
    }
  }

  /** Appending a span to the right end of a tiling of `text[..x.begin]`. */
  lemma {:induction false} LayoutSnoc(text: string, s: seq<Entity>, x: Entity, from: int)
    requires InBounds(x, |text|)
    requires Tiles(s, from, x.begin)
    ensures Tiles(s + [x], from, |text|)
    ensures Layout(text, s + [x], from)
         == Layout(text[..x.begin], s, from) + Token(x) + text[x.end..]
  {
    TilesSnoc(s, x, from, |text|);
    if s == [] {
      LayoutLast(text, x, from);
    } else {
      LayoutSnoc(text, s[1..], x, s[0].end);
      LayoutSnocStep(text, s, x, from);
    }
  }

  lemma LayoutLast(text: string, x: Entity, from: int)
    requires InBounds(x, |text|)
    requires 0 <= from <= x.begin
    ensures Tiles([x], from, |text|)
    ensures Layout(text, [x], from) == text[..x.begin][from..] + Token(x) + text[x.end..]
  {
    assert [x][1..] == [];
    assert text[..x.begin][from..] == text[from..x.begin];
  }

  /** The inductive step of `LayoutSnoc`, given its claim for the tail. */
  lemma LayoutSnocStep(text: string, s: seq<Entity>, x: Entity, from: int)
    requires InBounds(x, |text|)
    requires s != [] && Tiles(s, from, x.begin)
    requires Tiles(s + [x], from, |text|)
    requires Tiles(s[1..] + [x], s[0].end, |text|)
    requires Layout(text, s[1..] + [x], s[0].end)
          == Layout(text[..x.begin], s[1..], s[0].end) + Token(x) + text[x.end..]
    ensures Layout(text, s + [x], from)
         == Layout(text[..x.begin], s, from) + Token(x) + text[x.end..]
  {
    var low := text[..x.begin];
    var y := s[0];
    assert (s + [x])[0] == y;
    assert (s + [x])[1..] == s[1..] + [x];
    var head := text[from..y.begin] + Token(y);
    var tail := Layout(low, s[1..], y.end);
    var right := text[x.end..];
    assert low[from..y.begin] == text[from..y.begin];
    assert Layout(low, s, from) == head + tail;
    calc {
      Layout(text, s + [x], from);
      head + Layout(text, s[1..] + [x], y.end);
      head + ((tail + Token(x)) + right);
      { AppendAssoc(head, tail + Token(x), right); }
      (head + (tail + Token(x))) + right;
      { AppendAssoc(head, tail, Token(x)); }
      ((head + tail) + Token(x)) + right;
    }
  }

  lemma AppendAssoc(a: string, b: string, c: string)
    ensures a + (b + c) == (a + b) + c
  {
  }

  /** Folding a right-to-left chain of in-bounds spans produces the gaps and
      placeholders read left to right. */
  lemma {:induction false} ApplyChain(text: string, d: seq<Entity>)
    requires DescendingChain(d)
    requires AllInBounds(d, |text|)
    ensures Tiles(Reverse(d), 0, |text|)
    ensures ApplyAll(text, d) == Layout(text, Reverse(d), 0)
    decreases |d|
  {
    if d != [] {
      var x, rest := d[0], d[1..];
      assert InBounds(x, |text|);
      var low := text[..x.begin];
      assert AllInBounds(rest, |low|) by {
        forall j | 0 <= j < |rest|
          ensures InBounds(rest[j], |low|)
        {
          assert Before(d[j + 1], d[0]);
        }
      }
      ApplyChain(low, rest);
      LayoutSnoc(text, Reverse(rest), x, 0);
      var right := text[x.end..];
      AppendAssoc(low, Token(x), right);
      ApplyFrame(low, Token(x) + right, rest);
      AppendAssoc(Layout(low, Reverse(rest), 0), Token(x), right);
      calc {
        ApplyAll(text, d);
        ApplyAll(Splice(text, x), rest);
        ApplyAll(low + (Token(x) + right), rest);
        ApplyAll(low, rest) + (Token(x) + right);
        Layout(low, Reverse(rest), 0) + (Token(x) + right);
        Layout(text, Reverse(rest) + [x], 0);
      }
    }
  }

  /** For pairwise-disjoint in-bounds entities, the output is the original
      gaps between the spans in ascending order, alternated with the
      placeholders: every character outside the spans is kept, in order,
      whatever order the entities arrived in. */
  lemma RedactIsLayout(text: string, entities: seq<Entity>, asc: seq<Entity>)
    requires AllInBounds(entities, |text|)
    requires PairwiseDisjoint(entities)
    requires multiset(asc) == multiset(entities)
    requires Tiles(asc, 0, |text|)
    ensures Redact(text, entities) == Layout(text, asc, 0)
  {
    var d := SortDesc(entities);
    SortDescChain(entities);
    ChainStrict(d);
    InBoundsPermutation(d, entities, |text|);
    ApplyChain(text, d);
    TilesAscending(asc, 0, |text|);
    ReverseMultiset(asc);
    ReverseReverse(asc);
    StrictDescendingUnique(d, Reverse(asc));
  }

  /** The left-to-right arrangement `RedactIsLayout` speaks of exists for
      every pairwise-disjoint in-bounds entity list. */
  lemma LeftToRightExists(text: string, entities: seq<Entity>)
    requires AllInBounds(entities, |text|)
    requires PairwiseDisjoint(entities)
    ensures multiset(Reverse(SortDesc(entities))) == multiset(entities)
    ensures Tiles(Reverse(SortDesc(entities)), 0, |text|)
  {
    var d := SortDesc(entities);
    SortDescChain(entities);
    InBoundsPermutation(d, entities, |text|);
    ApplyChain(text, d);
    ReverseMultiset(d);
  }

  /** Entities that start at pairwise different offsets are redacted the
      same way in any input order: the sort fixes the processing order. */
  lemma OrderIndependent(text: string, entities: seq<Entity>, reordered: seq<Entity>)
    requires DistinctBegins(entities)
    requires multiset(reordered) == multiset(entities)
    ensures Redact(text, reordered) == Redact(text, entities)
  {
    SortDescStrict(entities);
    StrictDescendingUnique(SortDesc(entities), SortDesc(reordered));
  }

  /** Disjoint entities, in any input order, give the same output. */
  lemma DisjointOrderIndependent(text: string, entities: seq<Entity>, reordered: seq<Entity>)
    requires PairwiseDisjoint(entities)
    requires multiset(reordered) == multiset(entities)
    ensures Redact(text, reordered) == Redact(text, entities)
  {
    DisjointBeginsDistinct(entities);
    OrderIndependent(text, entities, reordered);
  }

  lemma {:induction false} ChainLength(text: string, d: seq<Entity>)
    requires DescendingChain(d)
    requires AllInBounds(d, |text|)
    ensures |ApplyAll(text, d)| == |text| - Covered(d) + TokenTotal(d)
    decreases |d|
  {
    if d != [] {
      var x, rest := d[0], d[1..];
      assert InBounds(x, |text|);
      var low := text[..x.begin];
      assert AllInBounds(rest, |low|) by {
        forall j | 0 <= j < |rest|
          ensures InBounds(rest[j], |low|)
        {
          assert Before(d[j + 1], d[0]);
        }
      }
      ChainLength(low, rest);
      assert Splice(text, x) == low + (Token(x) + text[x.end..]);
      ApplyFrame(low, Token(x) + text[x.end..], rest);
    }
  }

  /** Output length for pairwise-disjoint in-bounds entities: the covered
      characters are removed and every placeholder `[<Type>]` is added. */
  lemma RedactLength(text: string, entities: seq<Entity>)
    requires AllInBounds(entities, |text|)
    requires PairwiseDisjoint(entities)
    ensures |Redact(text, entities)| == |text| - Covered(entities) + TokenTotal(entities)
  {
    var d := SortDesc(entities);
    SortDescChain(entities);
    InBoundsPermutation(d, entities, |text|);
    ChainLength(text, d);
    SortDescTotals(entities);
  }
}
