# Material Theme registry (MTThemes) in Dafny

This project models the theme registry of the Material Theme plugin for
JetBrains IDEs: the enum `MTThemes` in
`src/main/java/com/chrisrm/idea/themes/MTThemes.java`. The enum has fourteen
built-in theme constants and a static `TreeMap` (`THEMES_MAP`) from theme id
to theme facade. The map is seeded once from the constants and only ever
grows afterwards. It supports four operations: lookup by id
(`getThemeFor`), insert-if-absent (`addTheme`), installation of an external
theme through an adapter (`installTheme`, `fromTheme`), and the sorted list
of non-premium themes (`getAllThemes`).

Files, one module each:

- `Wrappers.dfy`: `Option`, which stands for a Java reference that may be `null`.
- `StringOrder.dfy`: the key order of a `TreeMap<String, _>` (`String.compareTo`).
  It proves that order is a strict total order, and gives the least key of a set
  and the keys in ascending order.
- `ThemeFacade.dfy`: the theme data an `MTThemeable` exposes (`Themeable`), the
  fourteen constants (`Variant`), and the facade (`Facade`). A facade is either an
  enum constant (`Constant`) or the anonymous adapter that `fromTheme` builds
  (`Adapted`), and its getters are member functions.
- `ThemeList.dfy`: the stream pipeline of `getAllThemes`. It drops premium
  facades, then runs a stable sort by order, modelled as an insertion sort.
  The file proves sortedness and permutation. On input whose theme ids strictly
  ascend, as the values of a keyed `TreeMap` do, it also proves that the filter
  keeps that order and that ties stay in id order.
- `Catalog.dfy`: the map operations as functions of the map. It also holds the
  class `Registry`, which owns the mutable map. The constructor runs the
  static initializer loop. `AddTheme` and `InstallTheme` change the map in place.
  Each of these methods is proved against the map functions.

The registry's object invariant (`Registry.Valid`) has two parts. Every entry is
stored under its own `getThemeId()`. Every constant stays stored under its
declared name.

`installTheme` tests for presence with the theme's `getId()`, but it inserts
and looks up with `getThemeId()`. The model keeps these as two separate fields.
`Catalog.Install` states the consequence exactly: the call returns `None`
(Java `null`) when the `getId()` key is already taken but the `getThemeId()`
key is not.

Ties in `getAllThemes` follow the map's iteration order. A map type that
keeps insertion order would break ties by insertion. `THEMES_MAP` is a
`TreeMap` (MTThemes.java:64), so ties follow ascending key order.

## Model

| member | source | states |
|---|---|---|
| `ThemeFacade.EnumConstant` | src/main/java/com/chrisrm/idea/themes/MTThemes.java:92-155 | A built-in facade returns its declared name from both `getName()` and `getThemeId()`. Its `isPremium()` is the constructor flag, which is false. Every other getter forwards to the constant's theme instance. |
| `ThemeFacade.BuiltinNamesCount` | src/main/java/com/chrisrm/idea/themes/MTThemes.java:47-60 | There are exactly fourteen constants, and they declare fourteen distinct names. |
| `ThemeFacade.DeclaredNameInjective` | src/main/java/com/chrisrm/idea/themes/MTThemes.java:47-60 | Two different constants never declare the same name, so no `put` of the initializer overwrites another constant. |
| `ThemeFacade.FromTheme` | src/main/java/com/chrisrm/idea/themes/MTThemes.java:206-261 | The adapted facade always has order 100 and is neither premium nor custom. Its `getName()` is the theme's `getId()` and its `getThemeId()` is the theme's `getThemeId()`. The scheme, theme, display name and dark flag are forwarded. |
| `Catalog.Registry.constructor` | src/main/java/com/chrisrm/idea/themes/MTThemes.java:64-70 | After static initialization the map holds exactly the fourteen built-in names. Each constant is stored under its declared name, and every entry is keyed by its own theme id. |
| `Catalog.SeedStep` | src/main/java/com/chrisrm/idea/themes/MTThemes.java:66-70 | In each turn of the initializer loop, the `put` targets a name not yet in the map. The put therefore overwrites nothing, and the map then holds exactly the constants seen so far. |
| `Catalog.SeedComplete` | src/main/java/com/chrisrm/idea/themes/MTThemes.java:64-70 | When the loop ends, the keys are exactly the fourteen built-in names, and each maps to its constant. |
| `Catalog.Lookup` | src/main/java/com/chrisrm/idea/themes/MTThemes.java:162-164 | A lookup finds a facade exactly when the id is a key, and then returns the stored facade. An unknown id gives `None`, never a default. In a keyed map the facade found has the looked-up id as its theme id. |
| `Catalog.Registry.GetThemeFor` | src/main/java/com/chrisrm/idea/themes/MTThemes.java:162-164 | Same as `Lookup`, on the registry. Looking up a built-in name always returns that constant. |
| `Catalog.Add` | src/main/java/com/chrisrm/idea/themes/MTThemes.java:178-182 | No existing entry is removed or overwritten. The key set gains at most the facade's theme id. If that id was absent it now maps to the facade; otherwise the map is unchanged. Keyed maps stay keyed. |
| `Catalog.Registry.AddTheme` | src/main/java/com/chrisrm/idea/themes/MTThemes.java:178-182 | The in-place insert produces `Add` of the old map. It keeps the registry invariant, and the map only grows. |
| `Catalog.Install` | src/main/java/com/chrisrm/idea/themes/MTThemes.java:166-171 | The map only grows. When the id or the theme id is already a key, the map is unchanged. Otherwise exactly the theme id is added, mapped to `fromTheme(theme)`. The result is the entry under the theme id. It is absent exactly when the id is taken and the theme id is not. |
| `Catalog.Registry.InstallTheme` | src/main/java/com/chrisrm/idea/themes/MTThemes.java:166-171 | The in-place installation produces `Install` of the old map, both the new map and the returned facade. It keeps the registry invariant and never shrinks the map. |
| `Catalog.InstallIdempotent` | src/main/java/com/chrisrm/idea/themes/MTThemes.java:166-171 | A second installation of the same theme leaves the map unchanged and returns the same result as the first. |
| `StringOrder.LessTotal` | src/main/java/com/chrisrm/idea/themes/MTThemes.java:64 | The `TreeMap`'s key comparison is total: two keys are equal or one is smaller. |
| `StringOrder.LessTransitive` | src/main/java/com/chrisrm/idea/themes/MTThemes.java:64 | The key comparison is transitive. |
| `StringOrder.Least` | src/main/java/com/chrisrm/idea/themes/MTThemes.java:64 | The first key the `TreeMap` iterates over is in the set and below every other key. |
| `StringOrder.SortedKeys` | src/main/java/com/chrisrm/idea/themes/MTThemes.java:64 | The `TreeMap`'s iteration order lists every key exactly once, in strictly ascending order. |
| `Catalog.ValuesInKeyOrder` | src/main/java/com/chrisrm/idea/themes/MTThemes.java:191 | `values()` lists one facade per key and exactly the map's values. In a keyed map their theme ids strictly ascend. |
| `ThemeList.NonPremium` | src/main/java/com/chrisrm/idea/themes/MTThemes.java:193 | The filter keeps exactly the non-premium facades, each as often as it occurs in its input, and drops every premium one. |
| `ThemeList.NonPremiumKeepsIdsAscending` | src/main/java/com/chrisrm/idea/themes/MTThemes.java:193 | On input whose theme ids strictly ascend, the filter's output keeps them strictly ascending. |
| `ThemeList.Insert` | src/main/java/com/chrisrm/idea/themes/MTThemes.java:194 | One insertion step adds exactly the one facade. |
| `ThemeList.InsertSorted` | src/main/java/com/chrisrm/idea/themes/MTThemes.java:194 | An insertion step keeps a sequence sorted by order. |
| `ThemeList.SortByOrder` | src/main/java/com/chrisrm/idea/themes/MTThemes.java:194 | The sort returns a permutation of its input, sorted non-decreasing by `getOrder()`. |
| `ThemeList.InsertKeepsTies` | src/main/java/com/chrisrm/idea/themes/MTThemes.java:194 | Inserting a facade whose id is below every other id keeps facades of equal order in id order. |
| `ThemeList.SortKeepsTies` | src/main/java/com/chrisrm/idea/themes/MTThemes.java:194 | On input whose theme ids strictly ascend, facades of equal order come out in ascending id order. This is what a stable sort of `TreeMap` values gives. |
| `Catalog.AllThemes` | src/main/java/com/chrisrm/idea/themes/MTThemes.java:188-196 | `getAllThemes()` contains no premium facade. It contains every non-premium value of the map and nothing else. It is sorted non-decreasing by order, and it is a permutation of the filtered values. |
| `Catalog.AllThemesTieBreak` | src/main/java/com/chrisrm/idea/themes/MTThemes.java:188-196 | In a keyed map, facades of equal order are listed in ascending key order. This holds because the stable sort runs over the `TreeMap`'s values. |
| `Catalog.AllThemesDistinct` | src/main/java/com/chrisrm/idea/themes/MTThemes.java:188-196 | In a keyed map, no facade is listed twice. |
| `Catalog.Registry.GetAllThemes` | src/main/java/com/chrisrm/idea/themes/MTThemes.java:188-196 | On the registry, ties come in ascending key order, and every built-in constant is listed. |

`Catalog.LookupUsage`, `Catalog.InstallUsage` and `Catalog.ClashUsage` are
client methods. They show what a caller of a freshly seeded registry can
derive from the contracts alone:

- unknown ids give `None`;
- a new theme is installed once, with order 100;
- an id clash keeps the built-in entry;
- a theme whose id is taken but whose theme id is free gives `None`.

## Left out

- `getIcon()` and `javax.swing.Icon`: a UI handle with no behaviour in the registry, so `Themeable` carries no icon.
- `toString()`: it only names a constant and plays no part in the registry's behaviour.
- The concrete theme classes (`MTOceanicTheme`, `DraculaTheme`, ...), and `MTThemeable`/`MTThemeFacade` as interfaces: these are not part of this model. Their getters are fields of `Themeable`. The theme instance each constant is built with is the constructor parameter `instances`.
- Object identity: Java returns the same facade instance, while the model compares facades as values. Two adapters of equal themes are therefore equal here, even though Java would see distinct objects.
- Character order: Dafny's `char` is a Unicode scalar value. `String.compareTo` compares UTF-16 code units, so keys with characters outside the Basic Multilingual Plane may sort differently from Java.
- Concurrency: the check-then-insert in `installTheme`/`addTheme` is not atomic in the source. The model is single-threaded.
- Applying a theme or colour scheme to the IDE, and the plugin lifecycle: these are external collaborators.
- `Vector` and the stream plumbing: the list returned by `getAllThemes` is a `seq<Facade>`.
- ThemeList.SortByOrder: its contract does not state stability for arbitrary input. Ties are proved to stay in id order only for input whose theme ids strictly ascend (`SortKeepsTies`), which is the input the registry's keyed map supplies.
