/**
  The facade every theme is seen through (MTThemeFacade), its two
  implementations in MTThemes.java (the enum constants and the anonymous
  adapter built by fromTheme), and the theme data (MTThemeable) they wrap.
 */
module ThemeFacade {

  /**
    What the registry reads from a theme object. The theme classes are not
    part of this model, so each getter is a field: getId, getThemeId,
    getName, getEditorColorsScheme, isDark, isCustom and getOrder. id and
    themeId are separate getters and may differ.
   */
  datatype Themeable = Themeable(
    id: string,
    themeId: string,
    name: string,
    editorColorsScheme: string,
    isDark: bool,
    isCustom: bool,
    order: int)

  /** The fourteen enum constants, in declaration order by AllVariants. */
  datatype Variant =
    | OCEANIC | DARKER | LIGHTER | PALENIGHT | DEEPOCEAN | CUSTOM | LIGHT_CUSTOM
    | MONOKAI | ARC_DARK | ONE_DARK | ONE_LIGHT | SOLARIZED_DARK | SOLARIZED_LIGHT | DRACULA

  const AllVariants: seq<Variant> := [
    OCEANIC, DARKER, LIGHTER, PALENIGHT, DEEPOCEAN, CUSTOM, LIGHT_CUSTOM,
    MONOKAI, ARC_DARK, ONE_DARK, ONE_LIGHT, SOLARIZED_DARK, SOLARIZED_LIGHT, DRACULA]

  /** The name each constant passes to the enum constructor. */
  function DeclaredName(v: Variant): string
  {
    match v
    case OCEANIC => "OCEANIC"
    case DARKER => "DARKER"
    case LIGHTER => "LIGHTER"
    case PALENIGHT => "PALENIGHT"
    case DEEPOCEAN => "DEEPOCEAN"
    case CUSTOM => "CUSTOM"
    case LIGHT_CUSTOM => "LIGHT_CUSTOM"
    case MONOKAI => "MONOKAI"
    case ARC_DARK => "ARC_DARK"
    case ONE_DARK => "ONE_DARK"
    case ONE_LIGHT => "ONE_LIGHT"
    case SOLARIZED_DARK => "SOLARIZED_DARK"
    case SOLARIZED_LIGHT => "SOLARIZED_LIGHT"
    case DRACULA => "DRACULA"
  }

  /** The isPremium flag each constant passes to the enum constructor: false for all fourteen. */
  function DeclaredPremium(v: Variant): bool
  {
    false
  }

  /** The names of the built-in constants. */
  const BuiltinNames: set<string> := {
    "OCEANIC", "DARKER", "LIGHTER", "PALENIGHT", "DEEPOCEAN", "CUSTOM", "LIGHT_CUSTOM",
    "MONOKAI", "ARC_DARK", "ONE_DARK", "ONE_LIGHT", "SOLARIZED_DARK", "SOLARIZED_LIGHT", "DRACULA"}

  /**
    A theme as the registry hands it out. Constant is an enum constant
    (its name, its theme instance and its premium flag); Adapted is the
    anonymous facade fromTheme wraps around an installed theme.
   */
  datatype Facade =
    | Constant(name: string, mtTheme: Themeable, premium: bool)
    | Adapted(theme: Themeable)
  {
    function ThemeColorScheme(): string
    {
      match this
      case Constant(_, t, _) => t.editorColorsScheme
      case Adapted(t) => t.editorColorsScheme
    }

    function Theme(): Themeable
    {
      match this
      case Constant(_, t, _) => t
      case Adapted(t) => t
    }

    function IsDark(): bool
    {
      match this
      case Constant(_, t, _) => t.isDark
      case Adapted(t) => t.isDark
    }

    function Name(): string
    {
      match this
      case Constant(n, _, _) => n
      case Adapted(t) => t.id
    }

    function ThemeName(): string
    {
      match this
      case Constant(_, t, _) => t.name
      case Adapted(t) => t.name
    }

    function ThemeId(): string
    {
      match this
      case Constant(n, _, _) => n
      case Adapted(t) => t.themeId
    }

    function Order(): int
    {
      match this
      case Constant(_, t, _) => t.order
      case Adapted(_) => 100
    }

    function IsPremium(): bool
    {
      match this
      case Constant(_, _, p) => p
      case Adapted(_) => false
    }

    function IsCustom(): bool
    {
      match this
      case Constant(_, t, _) => t.isCustom
      case Adapted(_) => false
    }
  }

  /** The enum constant v, built around its theme instance. */
  function EnumConstant(v: Variant, mtTheme: Themeable): (f: Facade)
    ensures f.Name() == DeclaredName(v) && f.ThemeId() == DeclaredName(v)
    ensures f.Name() in BuiltinNames
    ensures f.IsPremium() == DeclaredPremium(v) && !f.IsPremium()
    ensures f.Theme() == mtTheme && f.ThemeName() == mtTheme.name
    ensures f.ThemeColorScheme() == mtTheme.editorColorsScheme
    ensures f.IsDark() == mtTheme.isDark && f.IsCustom() == mtTheme.isCustom
    ensures f.Order() == mtTheme.order
  {
    Constant(DeclaredName(v), mtTheme, DeclaredPremium(v))
  }

  /**
    fromTheme: the facade for an installed theme. It forwards the theme's
    data, except that its name is the theme's id, its order is 100 and it
    is neither premium nor custom whatever the theme says.
   */
  function FromTheme(theme: Themeable): (f: Facade)
    ensures f.Name() == theme.id && f.ThemeId() == theme.themeId
    ensures f.Order() == 100 && !f.IsPremium() && !f.IsCustom()
    ensures f.Theme() == theme && f.ThemeName() == theme.name
    ensures f.ThemeColorScheme() == theme.editorColorsScheme
    ensures f.IsDark() == theme.isDark
  {
    Adapted(theme)
  }

  /** Distinct constants declare distinct names. */
  lemma DeclaredNameInjective(v: Variant, w: Variant)
    ensures DeclaredName(v) == DeclaredName(w) ==> v == w
  {
  }

  /** The built-in names are fourteen distinct strings. */
  lemma BuiltinNamesCount()
    ensures |AllVariants| == 14 && |BuiltinNames| == 14
  {
  }

  /** Every constant is listed by AllVariants and declares one of the built-in names. */
  lemma VariantListed(v: Variant)
    ensures v in AllVariants && DeclaredName(v) in BuiltinNames
  {
  }

  /** Every built-in name is declared by some constant. */
  lemma NameDeclared(k: string)
    requires k in BuiltinNames
    ensures exists v :: DeclaredName(v) == k
  {
    if k == "OCEANIC" {
      assert DeclaredName(OCEANIC) == k;
    } else if k == "DARKER" {
      assert DeclaredName(DARKER) == k;
    } else if k == "LIGHTER" {
      assert DeclaredName(LIGHTER) == k;
    } else if k == "PALENIGHT" {
      assert DeclaredName(PALENIGHT) == k;
    } else if k == "DEEPOCEAN" {
      assert DeclaredName(DEEPOCEAN) == k;
    } else if k == "CUSTOM" {
      assert DeclaredName(CUSTOM) == k;
    } else if k == "LIGHT_CUSTOM" {
      assert DeclaredName(LIGHT_CUSTOM) == k;
    } else if k == "MONOKAI" {
      assert DeclaredName(MONOKAI) == k;
    } else if k == "ARC_DARK" {
      assert DeclaredName(ARC_DARK) == k;
    } else if k == "ONE_DARK" {
      assert DeclaredName(ONE_DARK) == k;
    } else if k == "ONE_LIGHT" {
      assert DeclaredName(ONE_LIGHT) == k;
    } else if k == "SOLARIZED_DARK" {
      assert DeclaredName(SOLARIZED_DARK) == k;
    } else if k == "SOLARIZED_LIGHT" {
      assert DeclaredName(SOLARIZED_LIGHT) == k;
    } else if k == "DRACULA" {
      assert DeclaredName(DRACULA) == k;
    }
  }
}
