/** The `theme` slice of the store (src/store/slices/themeSlice.ts): the chosen
    theme, the operating system's preference, and the appearance that results.
    The browser is an input here: whether a window exists, what
    `prefers-color-scheme` reports and what `localStorage` holds. Writing to
    `localStorage` and toggling the document's `dark` class are left out. */
module ThemeSlice {
  import opened Common

  datatype Theme = Light | Dark | System
  datatype Appearance = LightAppearance | DarkAppearance

  /** The name a theme is stored under. */
  function ThemeName(t: Theme): string {
    match t
    case Light => "light"
    case Dark => "dark"
    case System => "system"
  }

  /** What the store reads from the browser when it is created. */
  datatype Env =
    | NoWindow
    | Window(prefersDark: bool, stored: Option<string>)

  datatype ThemeState = ThemeState(theme: Theme, systemTheme: Appearance, resolvedTheme: Appearance)

  /** `getSystemTheme`: dark only when a window reports a dark preference. */
  function GetSystemTheme(env: Env): (r: Appearance)
    ensures r == DarkAppearance <==> env.Window? && env.prefersDark
  {
    if env.Window? && env.prefersDark then DarkAppearance else LightAppearance
  }

  /** The stored string read as a theme, when it names one. */
  function ParseTheme(s: string): (r: Option<Theme>)
    ensures r.Some? ==> ThemeName(r.value) == s
    ensures (s == "light" || s == "dark" || s == "system") ==> r.Some?
  {
    if s == "light" then Some(Light)
    else if s == "dark" then Some(Dark)
    else if s == "system" then Some(System)
    else None
  }

  /** `getStoredTheme`: the stored value when it is one of the three names, and
      `system` otherwise (no window, nothing stored, empty or unknown string). */
  function GetStoredTheme(env: Env): (r: Theme)
    ensures (env.Window? && env.stored.Some? && ParseTheme(env.stored.value).Some?) ==>
      ThemeName(r) == env.stored.value
    ensures (env.NoWindow? || env.stored.None? || ParseTheme(env.stored.value).None?) ==> r == System
  {
    if env.Window? && env.stored.Some? then ParseTheme(env.stored.value).GetOr(System) else System
  }

  /** Whatever was stored by `setTheme` is read back as the same theme. */
  lemma StoredThemeRoundTrip(t: Theme, prefersDark: bool)
    ensures GetStoredTheme(Window(prefersDark, Some(ThemeName(t)))) == t
  {
  }

  /** A value that is not one of the three names falls back to `system`. */
  lemma UnknownStoredThemeIsSystem(prefersDark: bool, stored: string)
    requires stored != "light" && stored != "dark" && stored != "system"
    ensures GetStoredTheme(Window(prefersDark, Some(stored))) == System
  {
  }

  /** `resolveTheme`: `system` follows the operating system, the others are themselves. */
  function ResolveTheme(theme: Theme, system: Appearance): (r: Appearance)
    ensures theme == System ==> r == system
    ensures theme == Light ==> r == LightAppearance
    ensures theme == Dark ==> r == DarkAppearance
  {
    match theme
    case System => system
    case Light => LightAppearance
    case Dark => DarkAppearance
  }

  /** The slice's invariant: the shown appearance is the chosen theme resolved. */
  predicate Valid(s: ThemeState) {
    s.resolvedTheme == ResolveTheme(s.theme, s.systemTheme)
  }

  /** The state the store starts in. */
  function InitialState(env: Env): (r: ThemeState)
    ensures Valid(r)
    ensures r.theme == GetStoredTheme(env) && r.systemTheme == GetSystemTheme(env)
  {
    var system := GetSystemTheme(env);
    var stored := GetStoredTheme(env);
    ThemeState(stored, system, ResolveTheme(stored, system))
  }

  /** `setTheme`: the theme changes, the system preference does not. */
  function SetTheme(s: ThemeState, t: Theme): (r: ThemeState)
    ensures r.theme == t && r.systemTheme == s.systemTheme
    ensures Valid(r)
  {
    s.(theme := t, resolvedTheme := ResolveTheme(t, s.systemTheme))
  }

  /** `setSystemTheme`: the system preference changes, the theme does not. */
  function SetSystemTheme(s: ThemeState, a: Appearance): (r: ThemeState)
    ensures r.systemTheme == a && r.theme == s.theme
    ensures Valid(r)
  {
    s.(systemTheme := a, resolvedTheme := ResolveTheme(s.theme, a))
  }

  /** `initializeTheme` only touches the document, so the state is unchanged. */
  function InitializeTheme(s: ThemeState): (r: ThemeState)
    ensures r == s
  {
    s
  }

  datatype ThemeAction = SetThemeAction(t: Theme) | SetSystemThemeAction(a: Appearance) | InitializeThemeAction

  function Reduce(s: ThemeState, action: ThemeAction): ThemeState {
    match action
    case SetThemeAction(t) => SetTheme(s, t)
    case SetSystemThemeAction(a) => SetSystemTheme(s, a)
    case InitializeThemeAction => InitializeTheme(s)
  }

  function ReduceAll(s: ThemeState, actions: seq<ThemeAction>): ThemeState
    decreases |actions|
  {
    if |actions| == 0 then s else ReduceAll(Reduce(s, actions[0]), actions[1..])
  }

  /** From the initial state, every sequence of actions keeps the invariant. */
  lemma {:induction false} ReduceAllKeepsValid(s: ThemeState, actions: seq<ThemeAction>)
    requires Valid(s)
    ensures Valid(ReduceAll(s, actions))
    decreases |actions|
  {
    if |actions| > 0 {
      ReduceAllKeepsValid(Reduce(s, actions[0]), actions[1..]);
    }
  }

  /** With the theme pinned to light or dark, the system preference never shows. */
  lemma ExplicitThemeIgnoresSystem(s: ThemeState, a: Appearance)
    requires s.theme != System && Valid(s)
    ensures SetSystemTheme(s, a).resolvedTheme == s.resolvedTheme
  {
  }
}
