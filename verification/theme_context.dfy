/**
 * The colour theme (contexts/ThemeContext.tsx): a two-state machine whose
 * state is chosen from storage at start-up, flipped by `toggleTheme`, and
 * mirrored by an effect into the root element's classes and into storage.
 */
module ThemeContext {
  import opened Wrappers

  datatype Theme = Light | Dark

  /** The theme as a class name and as a stored string. */
  function Name(t: Theme): string
  {
    match t
    case Light => "light"
    case Dark => "dark"
  }

  /** The storage key the theme is kept under. */
  const ThemeKey: string := "theme"

  /** The error `useTheme` throws outside a provider. */
  const OutsideProvider: string := "useTheme must be used within a ThemeProvider"

  /** The updater passed by `toggleTheme`. */
  function Toggle(t: Theme): (r: Theme)
    ensures r != t
  {
    if t == Light then Dark else Light
  }

  /** Reads a stored string back: only the exact names of the two themes are accepted. */
  function Parse(saved: string): (r: Option<Theme>)
    ensures r.Some? ==> Name(r.value) == saved
  {
    if saved == "light" then Some(Light)
    else if saved == "dark" then Some(Dark)
    else None
  }

  /** The initial state: a valid saved theme wins, anything else falls back to the system preference. */
  function InitialTheme(saved: Option<string>, prefersDark: bool): Theme
  {
    if saved.Some? && Parse(saved.value).Some? then Parse(saved.value).value
    else if prefersDark then Dark else Light
  }

  /** Toggling flips the theme and is its own inverse. */
  lemma ToggleInvolution(t: Theme)
    ensures Toggle(Toggle(t)) == t
    ensures Toggle(t) == Light <==> t == Dark
  {
  }

  /** Storing a theme's name and parsing it back gives the theme; no other string parses. */
  lemma ParseName(t: Theme, s: string)
    ensures Parse(Name(t)) == Some(t)
    ensures Parse(s).Some? <==> s == "light" || s == "dark"
  {
  }

  /**
   * The initial theme equals the saved one when it is exactly "light" or
   * "dark"; any other saved value, or none, gives the system preference.
   */
  lemma InitialThemeSpec(saved: Option<string>, prefersDark: bool)
    ensures forall t: Theme :: saved == Some(Name(t)) ==> InitialTheme(saved, prefersDark) == t
    ensures (saved.None? || (saved.value != "light" && saved.value != "dark")) ==>
      InitialTheme(saved, prefersDark) == (if prefersDark then Dark else Light)
  {
  }

  /** What a component sees through the context: the current theme. */
  datatype ThemeContextValue = ThemeContextValue(theme: Theme)

  /** `useTheme`: the provider's value unchanged, or an error when there is no provider. */
  function UseTheme(context: Option<ThemeContextValue>): (r: Result<ThemeContextValue, string>)
    ensures r.Success? <==> context.Some?
    ensures r.Success? ==> r.value == context.value
    ensures r.Failure? ==> r.error == OutsideProvider
  {
    if context.None? then Failure(OutsideProvider) else Success(context.value)
  }

  /** The two classes agree with `t`: its own class present, the other one absent. */
  predicate ClassesShow(classes: set<string>, t: Theme)
  {
    Name(t) in classes && Name(Toggle(t)) !in classes
  }

  /**
   * The provider together with the parts of the page it writes: the root
   * element's class list and the browser's key-value storage.
   */
  class ThemeProvider {
    var theme: Theme
    var rootClasses: set<string>
    var storage: map<string, string>

    /** The provider mounts with the initial theme; its effect has not run yet. */
    constructor (storage: map<string, string>, rootClasses: set<string>, prefersDark: bool)
      ensures theme == InitialTheme(if ThemeKey in storage then Some(storage[ThemeKey]) else None, prefersDark)
      ensures this.rootClasses == rootClasses && this.storage == storage
    {
      theme := InitialTheme(if ThemeKey in storage then Some(storage[ThemeKey]) else None, prefersDark);
      this.rootClasses := rootClasses;
      this.storage := storage;
    }

    /** The page shows and stores the current theme. */
    ghost predicate Synced()
      reads this
    {
      ClassesShow(rootClasses, theme) && ThemeKey in storage && storage[ThemeKey] == Name(theme)
    }

    /** `toggleTheme`. */
    method ToggleTheme()
      modifies this`theme
      ensures theme == Toggle(old(theme)) && theme != old(theme)
    {
      theme := Toggle(theme);
    }

    /**
     * The effect run after each theme change: the opposite class is removed,
     * the current one added, other classes untouched, and the theme stored
     * under its key with every other key unchanged.
     */
    method ApplyEffect()
      modifies this`rootClasses, this`storage
      ensures rootClasses == old(rootClasses) - {Name(Toggle(theme))} + {Name(theme)}
      ensures forall c :: c != "light" && c != "dark" ==> (c in rootClasses <==> c in old(rootClasses))
      ensures storage == old(storage)[ThemeKey := Name(theme)]
      ensures Synced()
    {
      var oldTheme := if theme == Light then Dark else Light;
      rootClasses := rootClasses - {Name(oldTheme)};
      rootClasses := rootClasses + {Name(theme)};
      storage := storage[ThemeKey := Name(theme)];
    }

    /** A toggle followed by its effect leaves the page showing and storing the new theme; a reload would restore it. */
    method ToggleAndApply(prefersDark: bool)
      modifies this`theme, this`rootClasses, this`storage
      ensures theme == Toggle(old(theme))
      ensures Synced()
      ensures InitialTheme(Some(storage[ThemeKey]), prefersDark) == theme
    {
      ToggleTheme();
      ApplyEffect();
      ParseName(theme, storage[ThemeKey]);
    }
  }
}
