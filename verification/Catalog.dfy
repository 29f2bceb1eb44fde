/**
  THEMES_MAP and the static operations of MTThemes over it. The map
  operations are first stated as functions of the map (what getThemeFor,
  addTheme, installTheme and getAllThemes compute), then the Registry
  class holds the map and changes it in place as the enum's static state
  does.
 */
module Catalog {
  import opened Wrappers
  import opened ThemeFacade
  import opened ThemeList
  import StringOrder

  /** Every entry is stored under its own theme id. */
  ghost predicate Keyed(m: map<string, Facade>)
  {
    forall k :: k in m ==> m[k].ThemeId() == k
  }

  /** m' keeps every entry of m: no key removed, no entry replaced. */
  ghost predicate Grows(m: map<string, Facade>, m': map<string, Facade>)
  {
    forall k :: k in m ==> k in m' && m'[k] == m[k]
  }

  /** THEMES_MAP.get(id): the stored facade, or None (null) for an unknown id. */
  function Lookup(m: map<string, Facade>, id: string): (r: Option<Facade>)
    ensures r.Some? <==> id in m
    ensures r.Some? ==> r.value == m[id]
    ensures Keyed(m) && r.Some? ==> r.value.ThemeId() == id
  {
    if id in m then Some(m[id]) else None
  }

  /** addTheme: insert f under its theme id unless that key is taken. */
  function Add(m: map<string, Facade>, f: Facade): (r: map<string, Facade>)
    ensures Grows(m, r)
    ensures r.Keys == m.Keys + {f.ThemeId()}
    ensures f.ThemeId() in m ==> r == m
    ensures f.ThemeId() !in m ==> r[f.ThemeId()] == f
    ensures Keyed(m) ==> Keyed(r)
  {
    if f.ThemeId() !in m then m[f.ThemeId() := f] else m
  }

  /**
    installTheme: if nothing is stored under the theme's id, add the
    adapted theme (under its theme id); then look up the theme id. The
    result is the new map and the facade returned.
   */
  function Install(m: map<string, Facade>, theme: Themeable): (r: (map<string, Facade>, Option<Facade>))
    ensures Grows(m, r.0)
    ensures Keyed(m) ==> Keyed(r.0)
    ensures theme.id in m || theme.themeId in m ==> r.0 == m
    ensures theme.id !in m && theme.themeId !in m ==>
      r.0.Keys == m.Keys + {theme.themeId} && r.0[theme.themeId] == FromTheme(theme)
    ensures r.1.None? <==> theme.id in m && theme.themeId !in m
    ensures r.1.Some? ==> theme.themeId in r.0 && r.1.value == r.0[theme.themeId]
    ensures theme.themeId in m ==> r.1 == Some(m[theme.themeId])
  {
    var m' := if Lookup(m, theme.id).None? then Add(m, FromTheme(theme)) else m;
    (m', Lookup(m', theme.themeId))
  }

  /** A second installation of the same theme changes nothing and returns what the first returned. */
  lemma InstallIdempotent(m: map<string, Facade>, theme: Themeable)
    ensures Install(Install(m, theme).0, theme) == Install(m, theme)
  {
    var (m1, r1) := Install(m, theme);
    if theme.themeId !in m1 {
      assert theme.id in m;
    }
  }

  /** THEMES_MAP.values(): the facades in ascending key order. */
  function ValuesInKeyOrder(m: map<string, Facade>): (r: seq<Facade>)
    ensures |r| == |m|
    ensures forall f :: f in r <==> f in m.Values
    ensures Keyed(m) ==> IdsAscending(r)
  {
    var ks := StringOrder.SortedKeys(m.Keys);
    var r := seq(|ks|, i requires 0 <= i < |ks| => m[ks[i]]);
    ValuesListed(m, ks, r);
    r
  }

  lemma ValuesListed(m: map<string, Facade>, ks: seq<string>, r: seq<Facade>)
    requires forall k :: k in m ==> k in ks
    requires |r| == |ks| && forall i :: 0 <= i < |ks| ==> ks[i] in m && r[i] == m[ks[i]]
    ensures forall f :: f in r <==> f in m.Values
  {
    forall f | f in m.Values
      ensures f in r
    {
      var k :| k in m && m[k] == f;
      var i :| 0 <= i < |ks| && ks[i] == k;
      assert r[i] == f;
    }
  }

  /**
    getAllThemes: the non-premium facades of the map, sorted by order;
    facades of equal order keep the map's ascending key order.
   */
  function AllThemes(m: map<string, Facade>): (r: seq<Facade>)
    ensures forall f :: f in r ==> !f.IsPremium()
    ensures forall f :: f in r <==> f in m.Values && !f.IsPremium()
    ensures OrderSorted(r)
    ensures multiset(r) == multiset(NonPremium(ValuesInKeyOrder(m)))
  {
    var kept := NonPremium(ValuesInKeyOrder(m));
    var r := SortByOrder(kept);
    SameMembers(r, kept);
    r
  }

  lemma SameMembers(a: seq<Facade>, b: seq<Facade>)
    requires multiset(a) == multiset(b)
    ensures forall f :: f in a <==> f in b
  {
    forall f
      ensures f in a <==> f in b
    {
      assert f in a <==> f in multiset(a);
      assert f in b <==> f in multiset(b);
    }
  }

  /** Over the values of a keyed map, which arrive in ascending key order, ties come out in ascending key order. */
  lemma AllThemesTieBreak(m: map<string, Facade>)
    requires Keyed(m)
    ensures TiesByThemeId(AllThemes(m))
  {
    var values := ValuesInKeyOrder(m);
    NonPremiumKeepsIdsAscending(values);
    SortKeepsTies(NonPremium(values));
  }

  /** In a keyed map no facade is listed twice by getAllThemes. */
  lemma {:induction false} AllThemesDistinct(m: map<string, Facade>)
    requires Keyed(m)
    ensures forall i, j :: 0 <= i < j < |AllThemes(m)| ==> AllThemes(m)[i] != AllThemes(m)[j]
  {
    var r := AllThemes(m);
    AllThemesTieBreak(m);
    forall i, j | 0 <= i < j < |r|
      ensures r[i] != r[j]
    {
      if r[i] == r[j] {
        StringOrder.LessIrreflexive(r[i].ThemeId());
      }
    }
  }

  /** The map after the initializer has put the first i constants. */
  ghost predicate SeededUpTo(m: map<string, Facade>, instances: Variant -> Themeable, i: nat)
    requires i <= |AllVariants|
  {
    && Keyed(m)
    && (forall k :: k in m <==> exists j :: 0 <= j < i && DeclaredName(AllVariants[j]) == k)
    && (forall j :: 0 <= j < i ==>
          m[DeclaredName(AllVariants[j])] == EnumConstant(AllVariants[j], instances(AllVariants[j])))
  }

  /** One turn of the initializer loop: the new name is not yet a key, so put overwrites nothing. */
  lemma SeedStep(m: map<string, Facade>, instances: Variant -> Themeable, i: nat)
    requires i < |AllVariants| && SeededUpTo(m, instances, i)
    ensures var v := AllVariants[i];
      SeededUpTo(m[DeclaredName(v) := EnumConstant(v, instances(v))], instances, i + 1)
  {
    var v := AllVariants[i];
    var m' := m[DeclaredName(v) := EnumConstant(v, instances(v))];
    forall j | 0 <= j < i
      ensures DeclaredName(AllVariants[j]) != DeclaredName(v)
    {
      DeclaredNameInjective(AllVariants[j], v);
    }
    forall k | k in m'
      ensures exists j :: 0 <= j < i + 1 && DeclaredName(AllVariants[j]) == k
    {
      if k == DeclaredName(v) {
        assert DeclaredName(AllVariants[i]) == k;
      }
    }
  }

  /** After the loop every constant is stored under its name, and the keys are the built-in names. */
  lemma SeedComplete(m: map<string, Facade>, instances: Variant -> Themeable)
    requires SeededUpTo(m, instances, |AllVariants|)
    ensures m.Keys == BuiltinNames
    ensures forall v :: DeclaredName(v) in m && m[DeclaredName(v)] == EnumConstant(v, instances(v))
  {
    forall v
      ensures DeclaredName(v) in m && m[DeclaredName(v)] == EnumConstant(v, instances(v))
    {
      VariantListed(v);
      var j :| 0 <= j < |AllVariants| && AllVariants[j] == v;
    }
    forall k | k in BuiltinNames
      ensures k in m
    {
      NameDeclared(k);
      var v :| DeclaredName(v) == k;
    }
    forall k | k in m
      ensures k in BuiltinNames
    {
      var j :| 0 <= j < |AllVariants| && DeclaredName(AllVariants[j]) == k;
      VariantListed(AllVariants[j]);
    }
  }

  /** The enum's static state: THEMES_MAP, seeded from the constants. */
  class Registry {
    /** The theme instance each constant was built with. */
    const instances: Variant -> Themeable
    var themes: map<string, Facade>

    /** Every entry is under its theme id and every constant is still stored under its name. */
    ghost predicate Valid()
      reads this
    {
      && Keyed(themes)
      && forall v :: DeclaredName(v) in themes && themes[DeclaredName(v)] == EnumConstant(v, instances(v))
    }

    /** The static initializer: put every constant under its name, in declaration order. */
    constructor (instances: Variant -> Themeable)
      ensures Valid()
      ensures this.instances == instances
      ensures themes.Keys == BuiltinNames
    {
      this.instances := instances;
      themes := map[];
      new;
      var i := 0;
      while i < |AllVariants|
        invariant 0 <= i <= |AllVariants|
        invariant SeededUpTo(themes, instances, i)
      {
        var v := AllVariants[i];
        SeedStep(themes, instances, i);
        themes := themes[DeclaredName(v) := EnumConstant(v, instances(v))];
        i := i + 1;
      }
      SeedComplete(themes, instances);
    }

    /** getThemeFor */
    function GetThemeFor(id: string): (r: Option<Facade>)
      reads this
      requires Valid()
      ensures r.Some? <==> id in themes
      ensures r.Some? ==> r.value == themes[id] && r.value.ThemeId() == id
      ensures forall v :: id == DeclaredName(v) ==> r == Some(EnumConstant(v, instances(v)))
    {
      Lookup(themes, id)
    }

    /** addTheme */
    method AddTheme(f: Facade)
      requires Valid()
      modifies this
      ensures Valid()
      ensures Grows(old(themes), themes)
      ensures themes == Add(old(themes), f)
    {
      if f.ThemeId() !in themes {
        themes := themes[f.ThemeId() := f];
      }
    }

    /** installTheme */
    method InstallTheme(theme: Themeable) returns (r: Option<Facade>)
      requires Valid()
      modifies this
      ensures Valid()
      ensures Grows(old(themes), themes)
      ensures (themes, r) == Install(old(themes), theme)
    {
      if GetThemeFor(theme.id).None? {
        AddTheme(FromTheme(theme));
      }
      r := GetThemeFor(theme.themeId);
    }

    /** getAllThemes */
    function GetAllThemes(): (r: seq<Facade>)
      reads this
      requires Valid()
      ensures r == AllThemes(themes)
      ensures TiesByThemeId(r)
      ensures forall v :: EnumConstant(v, instances(v)) in r
    {
      AllThemesTieBreak(themes);
      AllThemes(themes)
    }
  }

  /** What a caller can conclude from the contracts alone: lookups in a fresh registry. */
  method LookupUsage(instances: Variant -> Themeable)
  {
    var registry := new Registry(instances);
    assert "NONEXISTENT" !in BuiltinNames;
    assert registry.GetThemeFor("NONEXISTENT") == None;
    assert registry.GetThemeFor("DRACULA") == Some(EnumConstant(DRACULA, instances(DRACULA)));
  }

  /** What a caller can conclude from the contracts alone: installing a new theme twice. */
  method InstallUsage(instances: Variant -> Themeable)
  {
    var registry := new Registry(instances);
    var custom := Themeable("CUSTOM_42", "CUSTOM_42", "Custom 42", "Custom42Scheme", true, true, 7);
    assert custom.id !in BuiltinNames;
    var installed := registry.InstallTheme(custom);
    assert installed == Some(FromTheme(custom));
    assert installed.value.Order() == 100 && !installed.value.IsPremium() && !installed.value.IsCustom();
    var again := registry.InstallTheme(custom);
    assert again == installed;
  }

  /** What a caller can conclude from the contracts alone: installing over a built-in id. */
  method ClashUsage(instances: Variant -> Themeable)
  {
    var registry := new Registry(instances);
    var clash := Themeable("DRACULA", "DRACULA", "Other Dracula", "OtherScheme", false, false, 1);
    var kept := registry.InstallTheme(clash);
    assert kept == Some(EnumConstant(DRACULA, instances(DRACULA)));

    var split := Themeable("DRACULA", "MY_DRACULA", "My Dracula", "MyScheme", true, false, 3);
    assert split.themeId !in registry.themes by {
      assert "MY_DRACULA" !in BuiltinNames;
    }
    var missing := registry.InstallTheme(split);
    assert missing == None;
  }
}
