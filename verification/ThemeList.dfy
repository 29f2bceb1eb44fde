/**
  The stream pipeline of getAllThemes: drop premium facades, then sort by
  getOrder. Stream.sorted on an ordered stream is stable, so the sort is an
  insertion sort that puts each facade before the first one of no smaller
  order.
 */
module ThemeList {
  import opened ThemeFacade
  import StringOrder

  ghost predicate OrderSorted(s: seq<Facade>)
  {
    forall i, j :: 0 <= i < j < |s| ==> s[i].Order() <= s[j].Order()
  }

  /** The theme ids of s ascend strictly, as the keys of a TreeMap do. */
  ghost predicate IdsAscending(s: seq<Facade>)
  {
    forall i, j :: 0 <= i < j < |s| ==> StringOrder.Less(s[i].ThemeId(), s[j].ThemeId())
  }

  /** Facades of equal order appear in ascending order of their theme ids. */
  ghost predicate TiesByThemeId(s: seq<Facade>)
  {
    forall i, j :: 0 <= i < j < |s| && s[i].Order() == s[j].Order() ==>
      StringOrder.Less(s[i].ThemeId(), s[j].ThemeId())
  }

  /** filter(f -> !f.isPremium()) */
  function NonPremium(s: seq<Facade>): (r: seq<Facade>)
    ensures forall f :: f in r <==> f in s && !f.IsPremium()
    ensures forall f :: multiset(r)[f] == if f.IsPremium() then 0 else multiset(s)[f]
    ensures multiset(r) <= multiset(s)
  {
    if s == [] then []
    else
      assert s == [s[0]] + s[1..];
      if s[0].IsPremium() then NonPremium(s[1..]) else [s[0]] + NonPremium(s[1..])
  }

  /** In a sequence of ascending ids, the head's id is below every id of the tail. */
  lemma HeadIdBelowTail(s: seq<Facade>, f: Facade)
    requires IdsAscending(s) && |s| > 0 && f in s[1..]
    ensures StringOrder.Less(s[0].ThemeId(), f.ThemeId())
  {
    var k :| 0 <= k < |s[1..]| && s[1..][k] == f;
    assert s[k + 1] == f;
  }

  /** Prepending a facade whose id is below every id of an ascending sequence keeps it ascending. */
  lemma ConsIdsAscending(h: Facade, rest: seq<Facade>)
    requires IdsAscending(rest)
    requires forall f :: f in rest ==> StringOrder.Less(h.ThemeId(), f.ThemeId())
    ensures IdsAscending([h] + rest)
  {
    var r := [h] + rest;
    forall i, j | 0 <= i < j < |r|
      ensures StringOrder.Less(r[i].ThemeId(), r[j].ThemeId())
    {
      assert r[j] == rest[j - 1];
      if i > 0 {
        assert r[i] == rest[i - 1];
      }
    }
  }

  /** On input whose ids strictly ascend, the filter's output keeps them strictly ascending. */
  lemma {:induction false} NonPremiumKeepsIdsAscending(s: seq<Facade>)
    requires IdsAscending(s)
    ensures IdsAscending(NonPremium(s))
  {
    if s != [] {
      var tail := s[1..];
      assert IdsAscending(tail);
      NonPremiumKeepsIdsAscending(tail);
      if !s[0].IsPremium() {
        var rest := NonPremium(tail);
        forall f | f in rest
          ensures StringOrder.Less(s[0].ThemeId(), f.ThemeId())
        {
          HeadIdBelowTail(s, f);
        }
        ConsIdsAscending(s[0], rest);
      }
    }
  }

  /** x placed before the first element of s whose order is not smaller than x's. */
  function Insert(x: Facade, s: seq<Facade>): (r: seq<Facade>)
    ensures multiset(r) == multiset(s) + multiset{x}
  {
    if s == [] || x.Order() <= s[0].Order() then [x] + s
    else
      assert s == [s[0]] + s[1..];
      [s[0]] + Insert(x, s[1..])
  }

  /** Insertion into a sorted sequence leaves it sorted. */
  lemma {:induction false} InsertSorted(x: Facade, s: seq<Facade>)
    requires OrderSorted(s)
    ensures OrderSorted(Insert(x, s))
  {
    if s != [] && x.Order() > s[0].Order() {
      var tail := s[1..];
      InsertSorted(x, tail);
      var rest := Insert(x, tail);
      var r := [s[0]] + rest;
      forall j | 0 < j < |r|
        ensures s[0].Order() <= r[j].Order()
      {
        assert r[j] == rest[j - 1];
        assert r[j] in multiset(rest);
        if r[j] != x {
          assert r[j] in multiset(tail);
          var k :| 0 <= k < |tail| && tail[k] == r[j];
          assert s[k + 1] == r[j];
        }
      }
      assert forall i, j :: 0 < i < j < |r| ==> r[i] == rest[i - 1] && r[j] == rest[j - 1];
    }
  }

  /** sorted(Comparator.comparingInt(getOrder)) */
  function SortByOrder(s: seq<Facade>): (r: seq<Facade>)
    ensures multiset(r) == multiset(s)
    ensures OrderSorted(r)
  {
    if s == [] then []
    else
      assert s == [s[0]] + s[1..];
      var sorted := SortByOrder(s[1..]);
      InsertSorted(s[0], sorted);
      Insert(s[0], sorted)
  }

  /** In a sequence whose ties are in id order, the head's id is below that of every later facade of the same order. */
  lemma TiesHead(s: seq<Facade>, f: Facade)
    requires TiesByThemeId(s) && |s| > 0 && f in s[1..] && f.Order() == s[0].Order()
    ensures StringOrder.Less(s[0].ThemeId(), f.ThemeId())
  {
    var k :| 0 <= k < |s[1..]| && s[1..][k] == f;
    assert s[k + 1] == f;
  }

  /** Prepending a facade whose id is below every later facade of its order keeps ties in id order. */
  lemma ConsKeepsTies(h: Facade, rest: seq<Facade>)
    requires TiesByThemeId(rest)
    requires forall f :: f in rest && f.Order() == h.Order() ==> StringOrder.Less(h.ThemeId(), f.ThemeId())
    ensures TiesByThemeId([h] + rest)
  {
    var r := [h] + rest;
    forall i, j | 0 <= i < j < |r| && r[i].Order() == r[j].Order()
      ensures StringOrder.Less(r[i].ThemeId(), r[j].ThemeId())
    {
      assert r[j] == rest[j - 1];
      if i > 0 {
        assert r[i] == rest[i - 1];
      }
    }
  }

  /** Inserting a facade whose id is below all others keeps ties in id order. */
  lemma {:induction false} InsertKeepsTies(x: Facade, s: seq<Facade>)
    requires TiesByThemeId(s)
    requires forall f :: f in s ==> StringOrder.Less(x.ThemeId(), f.ThemeId())
    ensures TiesByThemeId(Insert(x, s))
  {
    if s == [] || x.Order() <= s[0].Order() {
      ConsKeepsTies(x, s);
    } else {
      var tail := s[1..];
      assert forall f :: f in tail ==> f in s;
      assert TiesByThemeId(tail);
      InsertKeepsTies(x, tail);
      var rest := Insert(x, tail);
      forall f | f in rest && f.Order() == s[0].Order()
        ensures StringOrder.Less(s[0].ThemeId(), f.ThemeId())
      {
        assert f in multiset(rest);
        assert f != x;
        assert f in multiset(tail);
        TiesHead(s, f);
      }
      ConsKeepsTies(s[0], rest);
    }
  }

  /** On input whose ids strictly ascend, ties stay in id order. */
  lemma {:induction false} SortKeepsTies(s: seq<Facade>)
    requires IdsAscending(s)
    ensures TiesByThemeId(SortByOrder(s))
  {
    if s != [] {
      var tail := s[1..];
      assert IdsAscending(tail);
      SortKeepsTies(tail);
      var sorted := SortByOrder(tail);
      forall f | f in sorted
        ensures StringOrder.Less(s[0].ThemeId(), f.ThemeId())
      {
        assert f in multiset(tail);
        HeadIdBelowTail(s, f);
      }
      InsertKeepsTies(s[0], sorted);
    }
  }
}
