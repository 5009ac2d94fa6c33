/**
 The theme store (app.js:142-153): the `dark` class on the page body and the
 `theme` entry of local storage, modelled as a flag and a string map.
 */
module Theme {

  const ThemeKey: string := "theme"

  datatype ThemeState = ThemeState(dark: bool, storage: map<string, string>)

  /** The stored text for a mode. */
  function ModeText(dark: bool): (r: string)
    ensures r == "dark" <==> dark
    ensures !dark ==> r == "light"
  {
    if dark then "dark" else "light"
  }

  /** At load, from a page body without the `dark` class: dark exactly when
      the stored theme is "dark" (absent, "light" or anything else gives the
      light default); storage is only read. */
  function Init(storage: map<string, string>): (s: ThemeState)
    ensures s.storage == storage
    ensures s.dark <==> ThemeKey in storage && storage[ThemeKey] == "dark"
  {
    ThemeState(ThemeKey in storage && storage[ThemeKey] == "dark", storage)
  }

  /** The toggle button: flips the mode and stores the new mode's text;
      every other key is left as it was. */
  function Toggle(s: ThemeState): (s': ThemeState)
    ensures s'.dark != s.dark
    ensures ThemeKey in s'.storage && (s'.storage[ThemeKey] == "dark" <==> s'.dark)
    ensures s'.storage[ThemeKey] in {"dark", "light"}
    ensures forall k :: k in s.storage && k != ThemeKey ==> k in s'.storage && s'.storage[k] == s.storage[k]
    ensures s'.storage.Keys == s.storage.Keys + {ThemeKey}
  {
    var dark := !s.dark;
    ThemeState(dark, s.storage[ThemeKey := ModeText(dark)])
  }

  /** The stored entry agrees with the mode shown. */
  predicate Persisted(s: ThemeState) {
    ThemeKey in s.storage && s.storage[ThemeKey] == ModeText(s.dark)
  }

  /** `n` presses of the toggle button. */
  function Presses(s: ThemeState, n: nat): ThemeState {
    if n == 0 then s else Toggle(Presses(s, n - 1))
  }

  /** After any positive number of presses the mode is the starting one
      flipped once per press, and storage records it. */
  lemma {:induction false} PressesFlip(s: ThemeState, n: nat)
    ensures Presses(s, n).dark == (if n % 2 == 0 then s.dark else !s.dark)
    ensures n > 0 ==> Persisted(Presses(s, n))
  {
    if n > 0 {
      PressesFlip(s, n - 1);
    }
  }

  /** Reloading the page after a toggle restores the mode the toggle chose:
      what `Toggle` stores, `Init` reads back. */
  lemma ReloadAfterToggle(s: ThemeState)
    ensures Init(Toggle(s).storage) == Toggle(s)
  {
  }

  /** Two presses restore the mode, and storage then records it. */
  lemma TogglesCancel(s: ThemeState)
    ensures Toggle(Toggle(s)).dark == s.dark && Persisted(Toggle(Toggle(s)))
  {
  }

  /** From a first visit (nothing stored) the page starts light; the first
      press stores "dark", the second "light". */
  lemma FirstVisit()
    ensures !Init(map[]).dark
    ensures Toggle(Init(map[])).storage == map[ThemeKey := "dark"]
    ensures Toggle(Toggle(Init(map[]))).storage == map[ThemeKey := "light"]
  {
  }
}
