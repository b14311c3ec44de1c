/** Detected PII entities and the relations between their spans that the
    redactor's correctness argument relies on. Offsets count code points of the
    text, the unit the detector reports and Python strings index by. */
module Spans {

  /** One detected entity: the half-open span `[begin, end)` of the text and
      its type label (`NAME`, `PHONE`, ...). The detector's other fields
      (confidence score and the like) are not read by the redactor and are
      not modelled. */
  datatype Entity = Entity(begin: int, end: int, kind: string)

  /** The placeholder `[<Type>]` that replaces an entity. */
  function Token(x: Entity): (tok: string)
    ensures |tok| == |x.kind| + 2
  {
    "[" + x.kind + "]"
  }

  /** The span of `x` lies inside a text of length `n`, offsets in order. */
  predicate InBounds(x: Entity, n: int) {
    0 <= x.begin <= x.end <= n
  }

  predicate AllInBounds(s: seq<Entity>, n: int) {
    forall i :: 0 <= i < |s| ==> InBounds(s[i], n)
  }

  /** `x` lies wholly to the left of `y` and starts strictly earlier. The
      strict start rules out two zero-width spans at the same offset, whose
      relative order the redactor's output does depend on. */
  predicate Before(x: Entity, y: Entity) {
    x.end <= y.begin && x.begin < y.begin
  }

  predicate Disjoint(x: Entity, y: Entity) {
    Before(x, y) || Before(y, x)
  }

  /** No two entities of the list (at different positions) overlap. */
  predicate PairwiseDisjoint(s: seq<Entity>) {
    forall i, j :: 0 <= i < |s| && 0 <= j < |s| && i != j ==> Disjoint(s[i], s[j])
  }

  /** No two entities of the list start at the same offset. */
  predicate DistinctBegins(s: seq<Entity>) {
    forall i, j :: 0 <= i < j < |s| ==> s[i].begin != s[j].begin
  }

  /** Ordered by `begin`, largest first (ties allowed). */
  predicate Descending(s: seq<Entity>) {
    forall i, j :: 0 <= i < j < |s| ==> s[j].begin <= s[i].begin
  }

  predicate StrictlyDescending(s: seq<Entity>) {
    forall i, j :: 0 <= i < j < |s| ==> s[j].begin < s[i].begin
  }

  /** Right-to-left order of disjoint spans: every later entity lies wholly
      before every earlier one. */
  predicate DescendingChain(s: seq<Entity>) {
    forall i, j :: 0 <= i < j < |s| ==> Before(s[j], s[i])
  }

  /** Total number of characters the spans cover. */
  function Covered(s: seq<Entity>): int {
    if s == [] then 0 else (s[0].end - s[0].begin) + Covered(s[1..])
  }

  /** Total length of the placeholders `[<Type>]` of the entities. */
  function TokenTotal(s: seq<Entity>): nat {
    if s == [] then 0 else |Token(s[0])| + TokenTotal(s[1..])
  }

  /** Disjoint entities start at pairwise different offsets. */
  lemma DisjointBeginsDistinct(s: seq<Entity>)
    requires PairwiseDisjoint(s)
    ensures DistinctBegins(s)
  {
    forall i, j | 0 <= i < j < |s|
      ensures s[i].begin != s[j].begin
    {
      assert Disjoint(s[i], s[j]);
    }
  }

  /** A right-to-left chain is strictly ordered by `begin`. */
  lemma ChainStrict(s: seq<Entity>)
    requires DescendingChain(s)
    ensures StrictlyDescending(s)
  {
  }

  /** Bounds are a property of the entities, not of their order. */
  lemma InBoundsPermutation(s: seq<Entity>, t: seq<Entity>, n: int)
    requires multiset(s) == multiset(t)
    requires AllInBounds(t, n)
    ensures AllInBounds(s, n)
  {
    forall i | 0 <= i < |s|
      ensures InBounds(s[i], n)
    {
      assert s[i] in multiset(t);
      var j :| 0 <= j < |t| && t[j] == s[i];
    }
  }
}
