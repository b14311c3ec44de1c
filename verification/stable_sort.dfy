/** The ordering step of the redactor: Python's
    `sorted(entities, key=begin, reverse=True)`, a stable sort on `begin`,
    largest first, in which entities with equal `begin` keep their input
    order. Modelled as a stable insertion sort. */
module StableSort {
  import opened Spans

  /** Inserts `x` into `s` in front of the first entity that starts no later
      than `x` does. */
  function Insert(x: Entity, s: seq<Entity>): (r: seq<Entity>)
    ensures multiset(r) == multiset(s) + multiset{x}
  {
    if s == [] || s[0].begin <= x.begin then [x] + s
    else
      assert s == [s[0]] + s[1..];
      [s[0]] + Insert(x, s[1..])
  }

  /** Every entity of `Insert(x, s)` is `x` or comes from `s`. */
  lemma InsertMember(x: Entity, s: seq<Entity>, y: Entity)
    requires y in Insert(x, s)
    ensures y == x || y in s
  {
    assert y in multiset(Insert(x, s));
  }

  /** An entity of the tail sits at a position after the head. */
  lemma MemberTail(s: seq<Entity>, y: Entity)
    requires s != [] && y in s[1..]
    ensures exists j :: 1 <= j < |s| && s[j] == y
  {
    var j :| 0 <= j < |s[1..]| && s[1..][j] == y;
    assert s[j + 1] == y;
  }

  lemma ConsDescending(x: Entity, s: seq<Entity>)
    requires Descending(s)
    requires forall y :: y in s ==> y.begin <= x.begin
    ensures Descending([x] + s)
  {
    var r := [x] + s;
    forall i, j | 0 <= i < j < |r|
      ensures r[j].begin <= r[i].begin
    {
      assert r[j] == s[j - 1];
      if i > 0 {
        assert r[i] == s[i - 1];
      }
    }
  }

  lemma ConsStrict(x: Entity, s: seq<Entity>)
    requires StrictlyDescending(s)
    requires forall y :: y in s ==> y.begin < x.begin
    ensures StrictlyDescending([x] + s)
  {
    var r := [x] + s;
    forall i, j | 0 <= i < j < |r|
      ensures r[j].begin < r[i].begin
    {
      assert r[j] == s[j - 1];
      if i > 0 {
        assert r[i] == s[i - 1];
      }
    }
  }

  /** Prepending an entity that lies wholly after every entity of a chain
      keeps it a chain. */
  lemma ConsChain(x: Entity, s: seq<Entity>)
    requires DescendingChain(s)
    requires forall y :: y in s ==> Before(y, x)
    ensures DescendingChain([x] + s)
  {
    var r := [x] + s;
    forall i, j | 0 <= i < j < |r|
      ensures Before(r[j], r[i])
    {
      assert r[j] == s[j - 1];
      if i > 0 {
        assert r[i] == s[i - 1];
      }
    }
  }

  lemma {:induction false} InsertDescending(x: Entity, s: seq<Entity>)
    requires Descending(s)
    ensures Descending(Insert(x, s))
  {
    if s == [] || s[0].begin <= x.begin {
      forall y | y in s
        ensures y.begin <= x.begin
      {
        var j :| 0 <= j < |s| && s[j] == y;
      }
      ConsDescending(x, s);
    } else {
      assert s == [s[0]] + s[1..];
      InsertDescending(x, s[1..]);
      forall y | y in Insert(x, s[1..])
        ensures y.begin <= s[0].begin
      {
        InsertMember(x, s[1..], y);
        if y != x {
          MemberTail(s, y);
        }
      }
      ConsDescending(s[0], Insert(x, s[1..]));
    }
  }

  /** The entities ordered by `begin`, largest first. An entity is inserted
      in front of every later one with the same `begin`, which keeps the
      input order among equal keys. */
  function SortDesc(s: seq<Entity>): (r: seq<Entity>)
    ensures multiset(r) == multiset(s)
    ensures Descending(r)
  {
    if s == [] then []
    else
      assert s == [s[0]] + s[1..];
      InsertDescending(s[0], SortDesc(s[1..]));
      Insert(s[0], SortDesc(s[1..]))
  }

  /** The entities of `s` that start at `k`, in their order in `s`. */
  function WithBegin(s: seq<Entity>, k: int): seq<Entity> {
    if s == [] then []
    else if s[0].begin == k then [s[0]] + WithBegin(s[1..], k)
    else WithBegin(s[1..], k)
  }

  lemma WithBeginCons(x: Entity, s: seq<Entity>, k: int)
    ensures x.begin == k ==> WithBegin([x] + s, k) == [x] + WithBegin(s, k)
    ensures x.begin != k ==> WithBegin([x] + s, k) == WithBegin(s, k)
  {
    assert ([x] + s)[0] == x;
    assert ([x] + s)[1..] == s;
  }

  lemma {:induction false} InsertWithBegin(x: Entity, s: seq<Entity>, k: int)
    ensures WithBegin(Insert(x, s), k) == WithBegin([x] + s, k)
  {
    if s == [] || s[0].begin <= x.begin {
    } else {
      var y, rest := s[0], s[1..];
      assert s == [y] + rest;
      InsertWithBegin(x, rest, k);
      assert Insert(x, s) == [y] + Insert(x, rest);
      WithBeginCons(y, Insert(x, rest), k);
      WithBeginCons(x, rest, k);
      WithBeginCons(x, s, k);
      WithBeginCons(y, rest, k);
    }
  }

  /** Stability: for every key, the entities with that `begin` appear in the
      sorted list in exactly their input order. */
  lemma {:induction false} SortDescStable(s: seq<Entity>, k: int)
    ensures WithBegin(SortDesc(s), k) == WithBegin(s, k)
  {
    if s != [] {
      SortDescStable(s[1..], k);
      InsertWithBegin(s[0], SortDesc(s[1..]), k);
      WithBeginCons(s[0], SortDesc(s[1..]), k);
      WithBeginCons(s[0], s[1..], k);
      assert s == [s[0]] + s[1..];
    }
  }

  lemma {:induction false} WithBeginHasKey(s: seq<Entity>, k: int)
    requires WithBegin(s, k) != []
    ensures exists j :: 0 <= j < |s| && s[j].begin == k
  {
    if s[0].begin != k {
      WithBeginHasKey(s[1..], k);
      var j :| 0 <= j < |s[1..]| && s[1..][j].begin == k;
      assert s[j + 1].begin == k;
    }
  }

  lemma WithBeginHead(s: seq<Entity>)
    requires s != []
    ensures WithBegin(s, s[0].begin) == [s[0]] + WithBegin(s[1..], s[0].begin)
  {
  }

  /** Lists with the same entities for every key are both empty or both not. */
  lemma EmptyFromKeys(a: seq<Entity>, b: seq<Entity>)
    requires forall k :: WithBegin(a, k) == WithBegin(b, k)
    ensures a == [] <==> b == []
  {
    if a != [] {
      WithBeginHead(a);
      assert WithBegin(b, a[0].begin) != [];
    }
    if b != [] {
      WithBeginHead(b);
      assert WithBegin(a, b[0].begin) != [];
    }
  }

  /** Two non-empty descending lists with the same entities for every key
      start with the same entity. */
  lemma StableHeads(a: seq<Entity>, b: seq<Entity>)
    requires Descending(a) && Descending(b)
    requires forall k :: WithBegin(a, k) == WithBegin(b, k)
    requires a != [] && b != []
    ensures a[0] == b[0]
  {
    var ka, kb := a[0].begin, b[0].begin;
    WithBeginHead(a);
    WithBeginHead(b);
    assert WithBegin(b, ka) != [];
    WithBeginHasKey(b, ka);
    assert WithBegin(a, kb) != [];
    WithBeginHasKey(a, kb);
    assert ka == kb;
    assert a[0] == WithBegin(a, ka)[0] == WithBegin(b, ka)[0] == b[0];
  }

  /** Dropping a common head keeps the entities of key `k` equal. */
  lemma StableTail(a: seq<Entity>, b: seq<Entity>, k: int)
    requires WithBegin(a, k) == WithBegin(b, k)
    requires a != [] && b != [] && a[0] == b[0]
    ensures WithBegin(a[1..], k) == WithBegin(b[1..], k)
  {
    if a[0].begin == k {
      var ta, tb := WithBegin(a[1..], k), WithBegin(b[1..], k);
      assert [a[0]] + ta == [a[0]] + tb;
      assert ta == ([a[0]] + ta)[1..];
      assert tb == ([a[0]] + tb)[1..];
    }
  }

  /** A descending order that keeps every key's entities in the same order is
      unique: two such arrangements of the same entities are equal. */
  lemma {:induction false} StableDescendingUnique(a: seq<Entity>, b: seq<Entity>)
    requires Descending(a) && Descending(b)
    requires forall k :: WithBegin(a, k) == WithBegin(b, k)
    ensures a == b
    decreases |a|
  {
    EmptyFromKeys(a, b);
    if a != [] {
      StableHeads(a, b);
      forall k
        ensures WithBegin(a[1..], k) == WithBegin(b[1..], k)
      {
        StableTail(a, b, k);
      }
      StableDescendingUnique(a[1..], b[1..]);
      assert a == [a[0]] + a[1..] && b == [b[0]] + b[1..];
    }
  }

  /** `SortDesc` is exactly the stable descending sort: any arrangement of the
      entities that is ordered by `begin`, largest first, and keeps each key's
      entities in input order is the one `SortDesc` returns. */
  lemma SortDescIsStableSort(s: seq<Entity>, r: seq<Entity>)
    requires Descending(r)
    requires forall k :: WithBegin(r, k) == WithBegin(s, k)
    ensures r == SortDesc(s)
  {
    forall k
      ensures WithBegin(r, k) == WithBegin(SortDesc(s), k)
    {
      SortDescStable(s, k);
    }
    StableDescendingUnique(r, SortDesc(s));
  }

  lemma {:induction false} InsertStrict(x: Entity, s: seq<Entity>)
    requires StrictlyDescending(s)
    requires forall y :: y in s ==> y.begin != x.begin
    ensures StrictlyDescending(Insert(x, s))
  {
    if s == [] || s[0].begin <= x.begin {
      forall y | y in s
        ensures y.begin < x.begin
      {
        var j :| 0 <= j < |s| && s[j] == y;
      }
      ConsStrict(x, s);
    } else {
      assert s == [s[0]] + s[1..];
      InsertStrict(x, s[1..]);
      forall y | y in Insert(x, s[1..])
        ensures y.begin < s[0].begin
      {
        InsertMember(x, s[1..], y);
        if y != x {
          MemberTail(s, y);
        }
      }
      ConsStrict(s[0], Insert(x, s[1..]));
    }
  }

  /** With pairwise different begins the sorted order is strict. */
  lemma {:induction false} SortDescStrict(s: seq<Entity>)
    requires DistinctBegins(s)
    ensures StrictlyDescending(SortDesc(s))
  {
    if s != [] {
      assert DistinctBegins(s[1..]) by {
        forall i, j | 0 <= i < j < |s[1..]|
          ensures s[1..][i].begin != s[1..][j].begin
        {
          assert s[1..][i] == s[i + 1] && s[1..][j] == s[j + 1];
        }
      }
      SortDescStrict(s[1..]);
      var c := SortDesc(s[1..]);
      forall y | y in c
        ensures y.begin != s[0].begin
      {
        assert y in multiset(s[1..]);
        MemberTail(s, y);
      }
      InsertStrict(s[0], c);
    }
  }

  lemma {:induction false} InsertChain(x: Entity, s: seq<Entity>)
    requires DescendingChain(s)
    requires forall y :: y in s ==> Disjoint(x, y)
    ensures DescendingChain(Insert(x, s))
  {
    if s == [] || s[0].begin <= x.begin {
      forall y | y in s
        ensures Before(y, x)
      {
        var j :| 0 <= j < |s| && s[j] == y;
        assert Disjoint(x, y);
        if j > 0 {
          assert Before(s[j], s[0]);
        }
      }
      ConsChain(x, s);
    } else {
      assert s == [s[0]] + s[1..];
      InsertChain(x, s[1..]);
      forall y | y in Insert(x, s[1..])
        ensures Before(y, s[0])
      {
        InsertMember(x, s[1..], y);
        if y == x {
          assert Disjoint(x, s[0]);
        } else {
          MemberTail(s, y);
        }
      }
      ConsChain(s[0], Insert(x, s[1..]));
    }
  }

  /** Sorting pairwise-disjoint entities puts them in right-to-left order:
      each entity lies wholly before every one processed ahead of it. */
  lemma {:induction false} SortDescChain(s: seq<Entity>)
    requires PairwiseDisjoint(s)
    ensures DescendingChain(SortDesc(s))
  {
    if s != [] {
      assert PairwiseDisjoint(s[1..]) by {
        forall i, j | 0 <= i < |s[1..]| && 0 <= j < |s[1..]| && i != j
          ensures Disjoint(s[1..][i], s[1..][j])
        {
          assert s[1..][i] == s[i + 1] && s[1..][j] == s[j + 1];
        }
      }
      SortDescChain(s[1..]);
      var c := SortDesc(s[1..]);
      forall y | y in c
        ensures Disjoint(s[0], y)
      {
        assert y in multiset(s[1..]);
        MemberTail(s, y);
      }
      InsertChain(s[0], c);
    }
  }

  lemma MultisetTail(a: seq<Entity>)
    requires a != []
    ensures multiset(a[1..]) == multiset(a) - multiset{a[0]}
  {
    assert a == [a[0]] + a[1..];
  }

  /** In a strictly ordered list only the head starts at or above the
      head's offset. */
  lemma StrictHead(a: seq<Entity>, j: int)
    requires StrictlyDescending(a)
    requires 0 <= j < |a| && a[j].begin >= a[0].begin
    ensures j == 0
  {
  }

  /** The largest `begin` of both arrangements belongs to the same entity. */
  lemma HeadsEqual(a: seq<Entity>, b: seq<Entity>)
    requires StrictlyDescending(a) && Descending(b)
    requires multiset(a) == multiset(b)
    requires a != []
    ensures b != [] && a[0] == b[0]
  {
    assert a[0] in multiset(b);
    var ja :| 0 <= ja < |b| && b[ja] == a[0];
    assert b[0] in multiset(a);
    var jb :| 0 <= jb < |a| && a[jb] == b[0];
    assert a[jb].begin >= a[0].begin;
    StrictHead(a, jb);
  }

  /** A strictly ordered arrangement is the only descending arrangement of
      its entities. */
  lemma {:induction false} StrictDescendingUnique(a: seq<Entity>, b: seq<Entity>)
    requires StrictlyDescending(a) && Descending(b)
    requires multiset(a) == multiset(b)
    ensures a == b
    decreases |a|
  {
    if a == [] {
      assert |multiset(b)| == 0;
    } else {
      HeadsEqual(a, b);
      MultisetTail(a);
      MultisetTail(b);
      StrictDescendingUnique(a[1..], b[1..]);
      assert a == [a[0]] + a[1..] && b == [b[0]] + b[1..];
    }
  }

  /** The sort only moves entities, so the covered and inserted lengths are
      unchanged. */
  lemma {:induction false} InsertTotals(x: Entity, s: seq<Entity>)
    ensures Covered(Insert(x, s)) == Covered([x] + s)
    ensures TokenTotal(Insert(x, s)) == TokenTotal([x] + s)
  {
    if s == [] || s[0].begin <= x.begin {
    } else {
      InsertTotals(x, s[1..]);
      assert ([s[0]] + Insert(x, s[1..]))[1..] == Insert(x, s[1..]);
      assert ([x] + s)[1..] == s;
      assert ([x] + s[1..])[1..] == s[1..];
      assert ([s[0]] + ([x] + s[1..]))[1..] == [x] + s[1..];
    }
  }

  lemma {:induction false} SortDescTotals(s: seq<Entity>)
    ensures Covered(SortDesc(s)) == Covered(s)
    ensures TokenTotal(SortDesc(s)) == TokenTotal(s)
  {
    if s != [] {
      SortDescTotals(s[1..]);
      InsertTotals(s[0], SortDesc(s[1..]));
      assert ([s[0]] + SortDesc(s[1..]))[1..] == SortDesc(s[1..]);
    }
  }
}
