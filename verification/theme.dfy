/**
  The theme button: it flips the page between light and dark and labels
  itself with the theme a further click would switch to.
 */
module Theme {

  datatype ThemeState = ThemeState(dark: bool, caption: string)

  const LightLabel := "Light Theme"
  const DarkLabel := "Dark Theme"

  /** Flips the mode; the button then names the other theme. */
  function ToggleTheme(t: ThemeState): (r: ThemeState)
    ensures r.dark != t.dark
    ensures r.caption == LightLabel <==> r.dark
    ensures r.caption == DarkLabel <==> !r.dark
  {
    var dark := !t.dark;
    ThemeState(dark, if dark then LightLabel else DarkLabel)
  }

  /** Two clicks restore the original mode, and the caption then matches it. */
  lemma ToggleTwice(t: ThemeState)
    ensures ToggleTheme(ToggleTheme(t)).dark == t.dark
    ensures ToggleTheme(ToggleTheme(t)).caption == (if t.dark then LightLabel else DarkLabel)
  {
  }
}
