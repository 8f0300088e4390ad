/** Theme management: the stored preference (`localStorage` key `theme`),
    the `dark` class on the document element and the toggle's icon. The
    stored value and the system's colour-scheme preference are given as
    values; the DOM and the storage are the fields of a `Page`. */
module Theme {
  import opened Text

  /** The icon shown on the toggle. */
  datatype Icon = Sun | Moon | Monitor

  /** `localStorage.getItem('theme') || 'system'`: a missing or empty entry
      reads as `system`. */
  function Effective(stored: Option<string>): (t: string)
    ensures t != []
    ensures stored.Some? && stored.value != [] ==> t == stored.value
  {
    if stored.None? || stored.value == [] then "system" else stored.value
  }

  /** The three themes the toggle cycles through. */
  predicate Known(t: string) {
    t == "system" || t == "light" || t == "dark"
  }

  /** `cycleTheme`'s choice of the next theme: system, light, dark, and any
      other value back to system. */
  function Next(current: string): string {
    if current == "system" then "light"
    else if current == "light" then "dark"
    else "system"
  }

  /** `applyTheme`: the document is dark for `dark`, and for `system` when
      the system prefers a dark scheme. */
  predicate IsDark(theme: string, prefersDark: bool) {
    theme == "dark" || (theme == "system" && prefersDark)
  }

  /** `updateToggleIcon`: moon for dark, sun for light, the monitor for
      anything else. */
  function IconFor(theme: string): Icon {
    if theme == "dark" then Moon else if theme == "light" then Sun else Monitor
  }

  /** The cycle visits the three themes in order and returns after three
      clicks; any other stored value goes to `system` first. */
  lemma NextCycle(t: string)
    ensures Known(Next(t))
    ensures Next("system") == "light" && Next("light") == "dark" && Next("dark") == "system"
    ensures !Known(t) ==> Next(t) == "system"
    ensures Known(t) ==> Next(Next(Next(t))) == t && Next(t) != t
  {
  }

  /** The icon tells the three themes apart. */
  lemma IconDistinct(a: string, b: string)
    requires Known(a) && Known(b) && IconFor(a) == IconFor(b)
    ensures a == b
  {
  }

  /** Only `system` depends on the system preference; `light` is never dark
      and `dark` always is. */
  lemma DarkOnlyFollowsSystem(theme: string)
    ensures IsDark(theme, true) != IsDark(theme, false) <==> theme == "system"
    ensures IsDark(theme, false) <==> theme == "dark"
  {
  }

  /** The `dark` class after a colour-scheme change, as the listener is
      written: the theme is re-applied only when `system` is stored
      explicitly. */
  function AfterSchemeChange(stored: Option<string>, dark: bool, prefersDark: bool): bool {
    if stored == Some("system") then IsDark("system", prefersDark) else dark
  }

  /** The listener leaves the document as it was on a page whose theme was
      never chosen, although such a page shows the system theme: loading it
      under a light scheme and then switching the system to dark keeps it
      light. */
  lemma DefaultIgnoresSchemeChange()
    ensures Effective(None) == "system"
    ensures IsDark(Effective(None), false) == false
    ensures AfterSchemeChange(None, IsDark(Effective(None), false), true) == false
    ensures IsDark(Effective(None), true) == true
  {
  }

  /** The listener as evidently intended: re-apply whenever the theme in
      effect is `system`. */
  function AfterSchemeChangeFixed(stored: Option<string>, dark: bool, prefersDark: bool): (d: bool)
    ensures Effective(stored) == "system" ==> d == prefersDark
    ensures Effective(stored) != "system" ==> d == dark
  {
    if Effective(stored) == "system" then IsDark("system", prefersDark) else dark
  }

  /** A document that shows the theme in effect for the previous system
      preference shows it for the new one after the corrected listener; the
      listener as written does the same once a theme has been stored. */
  lemma SchemeChangeKeepsConsistent(stored: Option<string>, dark: bool, prefersDark: bool)
    requires dark == IsDark(Effective(stored), !prefersDark) || dark == IsDark(Effective(stored), prefersDark)
    ensures AfterSchemeChangeFixed(stored, dark, prefersDark) == IsDark(Effective(stored), prefersDark)
    ensures stored.Some? && stored.value != [] ==>
              AfterSchemeChange(stored, dark, prefersDark) == AfterSchemeChangeFixed(stored, dark, prefersDark)
  {
    DarkOnlyFollowsSystem(Effective(stored));
  }

  /** The page state the theme code reads and writes. */
  class Page {
    var stored: Option<string>
    var dark: bool
    var icon: Icon

    /** The document consistent with the theme in effect. */
    predicate Shows(prefersDark: bool)
      reads this
    {
      dark == IsDark(Effective(stored), prefersDark) && icon == IconFor(Effective(stored))
    }

    /** Script start-up: read the saved theme, apply it and show its icon. */
    constructor (saved: Option<string>, prefersDark: bool)
      ensures stored == saved
      ensures dark == IsDark(Effective(saved), prefersDark) && icon == IconFor(Effective(saved))
    {
      stored := saved;
      var savedTheme := Effective(saved);
      dark := IsDark(savedTheme, prefersDark);
      icon := IconFor(savedTheme);
    }

    /** `cycleTheme`: store the next theme, apply it and show its icon. */
    method Cycle(prefersDark: bool)
      modifies this
      ensures stored == Some(Next(Effective(old(stored))))
      ensures dark == IsDark(Next(Effective(old(stored))), prefersDark)
      ensures icon == IconFor(Next(Effective(old(stored))))
      ensures Known(Effective(stored)) && Shows(prefersDark)
    {
      var currentTheme := Effective(stored);
      var newTheme;
      if currentTheme == "system" {
        newTheme := "light";
      } else if currentTheme == "light" {
        newTheme := "dark";
      } else {
        newTheme := "system";
      }
      stored := Some(newTheme);
      dark := IsDark(newTheme, prefersDark);
      icon := IconFor(newTheme);
    }

    /** The `prefers-color-scheme` change listener as written. */
    method SchemeChanged(prefersDark: bool)
      modifies this
      ensures stored == old(stored) && icon == old(icon)
      ensures dark == AfterSchemeChange(old(stored), old(dark), prefersDark)
    {
      if stored == Some("system") {
        dark := IsDark("system", prefersDark);
      }
    }
  }
}
