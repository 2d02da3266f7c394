/** The colour theme: `light`, `dark` or `high-contrast`, remembered in
    storage under `theme`. The stored value is read back without checking,
    so the current theme is any string. */
module Theme {
  import opened Wrappers

  const Light := "light"
  const Dark := "dark"
  const HighContrast := "high-contrast"

  /** The cycle order of `toggleTheme`. */
  const Themes: seq<string> := [Light, Dark, HighContrast]

  /** `Array.prototype.indexOf`: the first position of `x`, or -1. */
  function IndexOf(xs: seq<string>, x: string): (i: int)
    ensures -1 <= i < |xs|
    ensures i == -1 <==> x !in xs
    ensures 0 <= i ==> xs[i] == x && forall j :: 0 <= j < i ==> xs[j] != x
    decreases |xs|
  {
    if |xs| == 0 then -1
    else if xs[0] == x then 0
    else
      var i := IndexOf(xs[1..], x);
      if i == -1 then -1 else i + 1
  }

  /** `ThemeContext.tsx:14-17`: the saved theme, or `light` when none (or an empty one)
      is saved. */
  function InitialTheme(saved: Option<string>): (t: string)
    ensures saved.Some? && saved.value != "" ==> t == saved.value
    ensures saved.None? || saved.value == "" ==> t == Light
  {
    match saved
    case Some(v) => if v == "" then Light else v
    case None => Light
  }

  /** The theme in use and the value in storage. */
  datatype State = State(theme: string, saved: Option<string>)

  /** `setTheme`: use the theme and persist it. */
  function SetTheme(s: State, theme: string): (r: State)
    ensures r.theme == theme && r.saved == Some(theme)
  {
    State(theme, Some(theme))
  }

  /** `ThemeContext.tsx:25-30`: the next theme in the cycle; an unknown theme sits at
      index -1, so it is followed by the first one. */
  function NextTheme(theme: string): (next: string)
    ensures next in Themes
    ensures theme == Light ==> next == Dark
    ensures theme == Dark ==> next == HighContrast
    ensures theme == HighContrast ==> next == Light
    ensures theme !in Themes ==> next == Light
  {
    Themes[(IndexOf(Themes, theme) + 1) % |Themes|]
  }

  function ToggleTheme(s: State): (r: State)
    ensures r.theme == NextTheme(s.theme) && r.saved == Some(r.theme)
  {
    SetTheme(s, NextTheme(s.theme))
  }

  /** Three toggles come back to any of the three themes. */
  lemma ThreeTogglesReturn(s: State)
    requires s.theme in Themes
    ensures ToggleTheme(ToggleTheme(ToggleTheme(s))).theme == s.theme
  {
  }

  /** Whatever the stored value, after one toggle the theme is a known one,
      and the value a reload would start from is the theme in use. */
  lemma ToggleReloads(s: State)
    ensures ToggleTheme(s).theme in Themes
    ensures InitialTheme(ToggleTheme(s).saved) == ToggleTheme(s).theme
  {
  }
}
