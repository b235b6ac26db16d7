/**
 * The application store (`useAppStore`): the colour theme, a loading flag and the sidebar state.
 * Choosing a theme also writes it to local storage and to the page's `<html>` element; both are
 * outside effects that never feed back into the store, so they are kept as ghost fields.
 */
module AppStore {
  import opened Wrappers

  /** The themes the application offers (`THEME_CONFIG.themes`). */
  const THEMES: seq<string> := ["light", "dark"]

  /** The theme used when nothing is stored (`THEME_CONFIG.default`). */
  const DEFAULT_THEME: string := "light"

  predicate ValidTheme(t: string) {
    t in THEMES
  }

  /** `localStorage.getItem(key) || THEME_CONFIG.default`: a missing or empty stored text gives the default. */
  function InitialTheme(stored: Option<string>): (t: string)
    ensures stored.Some? && stored.value != "" ==> t == stored.value
    ensures stored.None? || stored.value == "" ==> t == DEFAULT_THEME
    ensures t != ""
  {
    if stored.Some? && stored.value != "" then stored.value else DEFAULT_THEME
  }

  /** The theme `toggleTheme` asks for: dark after light, light after anything else. */
  function Toggled(t: string): (r: string)
    ensures ValidTheme(r)
    ensures r != t
    ensures r == "dark" <==> t == "light"
  {
    if t == "light" then "dark" else "light"
  }

  /** Toggling twice comes back to the start exactly when the start is one of the offered themes. */
  lemma ToggledTwice(t: string)
    ensures Toggled(Toggled(t)) == t <==> ValidTheme(t)
  {
    if !ValidTheme(t) {
      assert Toggled(t) == "light";
    }
  }

  class AppStore {
    var theme: string
    var loading: bool
    var sidebarCollapsed: bool
    /** What local storage holds under the theme key. */
    ghost var storedTheme: Option<string>
    /** The `data-theme` attribute the store last wrote on `<html>`, if any. */
    ghost var documentTheme: Option<string>

    /** The store as created: the stored theme or the default, not loading, sidebar open. */
    constructor(stored: Option<string>)
      ensures theme == InitialTheme(stored)
      ensures !loading && !sidebarCollapsed
      ensures storedTheme == stored && documentTheme == None
    {
      theme := InitialTheme(stored);
      loading := false;
      sidebarCollapsed := false;
      storedTheme := stored;
      documentTheme := None;
    }

    /** The computed `isDark`. */
    function IsDark(): bool
      reads this
    {
      theme == "dark"
    }

    /** `updateThemeClass`: the page shows the current theme; its `dark` class follows from `documentTheme`. */
    method UpdateThemeClass()
      modifies this
      ensures documentTheme == Some(theme)
      ensures theme == old(theme) && loading == old(loading) && sidebarCollapsed == old(sidebarCollapsed)
      ensures storedTheme == old(storedTheme)
    {
      documentTheme := Some(theme);
    }

    /** `initTheme`: show the current theme on the page. */
    method InitTheme()
      modifies this
      ensures documentTheme == Some(theme)
      ensures theme == old(theme) && loading == old(loading) && sidebarCollapsed == old(sidebarCollapsed)
      ensures storedTheme == old(storedTheme)
    {
      UpdateThemeClass();
    }

    /**
     * `setTheme(newTheme)`: an offered theme becomes current, is stored and is shown; any other
     * value changes nothing at all.
     */
    method SetTheme(newTheme: string)
      modifies this
      ensures ValidTheme(newTheme) ==>
        theme == newTheme && storedTheme == Some(newTheme) && documentTheme == Some(newTheme)
      ensures ValidTheme(newTheme) ==> (IsDark() <==> newTheme == "dark")
      ensures !ValidTheme(newTheme) ==>
        theme == old(theme) && storedTheme == old(storedTheme) && documentTheme == old(documentTheme)
      ensures loading == old(loading) && sidebarCollapsed == old(sidebarCollapsed)
    {
      if newTheme in THEMES {
        theme := newTheme;
        storedTheme := Some(newTheme);
        UpdateThemeClass();
      }
    }

    /**
     * `toggleTheme`: from light to dark and from anything else to light, through `setTheme`, so
     * the theme is always an offered one afterwards and dark exactly when it was light.
     */
    method ToggleTheme()
      modifies this
      ensures theme == Toggled(old(theme)) && ValidTheme(theme)
      ensures IsDark() <==> old(theme) == "light"
      ensures storedTheme == Some(theme) && documentTheme == Some(theme)
      ensures loading == old(loading) && sidebarCollapsed == old(sidebarCollapsed)
    {
      var newTheme := if theme == "light" then "dark" else "light";
      SetTheme(newTheme);
    }

    /** `setLoading(status)`: only the loading flag changes. */
    method SetLoading(status: bool)
      modifies this
      ensures loading == status
      ensures theme == old(theme) && sidebarCollapsed == old(sidebarCollapsed)
      ensures storedTheme == old(storedTheme) && documentTheme == old(documentTheme)
    {
      loading := status;
    }

    /** `toggleSidebar`: only the sidebar flag changes, to its opposite. */
    method ToggleSidebar()
      modifies this
      ensures sidebarCollapsed == !old(sidebarCollapsed)
      ensures theme == old(theme) && loading == old(loading)
      ensures storedTheme == old(storedTheme) && documentTheme == old(documentTheme)
    {
      sidebarCollapsed := !sidebarCollapsed;
    }
  }

  /** Toggling the sidebar twice leaves the whole store as it was. */
  method ToggleSidebarTwice(s: AppStore)
    modifies s
    ensures s.sidebarCollapsed == old(s.sidebarCollapsed) && s.theme == old(s.theme) && s.loading == old(s.loading)
    ensures s.storedTheme == old(s.storedTheme) && s.documentTheme == old(s.documentTheme)
  {
    s.ToggleSidebar();
    s.ToggleSidebar();
  }

  /** Toggling the theme twice from an offered theme comes back to it, and the second toggle undoes the first. */
  method ToggleThemeTwice(s: AppStore)
    requires ValidTheme(s.theme)
    modifies s
    ensures s.theme == old(s.theme) && s.storedTheme == Some(s.theme) && s.documentTheme == Some(s.theme)
    ensures s.loading == old(s.loading) && s.sidebarCollapsed == old(s.sidebarCollapsed)
  {
    s.ToggleTheme();
    s.ToggleTheme();
    ToggledTwice(old(s.theme));
  }

  /** A store created from any stored text, even one that names no offered theme, holds an offered theme after one toggle. */
  method FreshToggle(stored: Option<string>) returns (s: AppStore)
    ensures fresh(s)
    ensures s.theme == Toggled(InitialTheme(stored)) && ValidTheme(s.theme)
    ensures InitialTheme(stored) == "light" ==> s.IsDark()
  {
    s := new AppStore(stored);
    s.ToggleTheme();
  }
}
