/** Theme selection, the custom palette's colour inputs and the theme
    customizer modal (script.js, applyTheme, toColor, showModal,
    hideModal and their event wiring). */
module Theme {
  import opened Storage

  datatype Theme = System | Light | Dark | Pink | Custom

  /** The names `applyTheme` accepts, in the order the source lists them. */
  const KnownThemes: seq<string> := ["system", "light", "dark", "pink", "custom"]

  /** The name a theme is stored and shown under. */
  function Name(t: Theme): string {
    match t
    case System => "system"
    case Light => "light"
    case Dark => "dark"
    case Pink => "pink"
    case Custom => "custom"
  }

  /** The test at the top of `applyTheme`: a known name selects its
      theme, any other string selects the system theme. */
  function Validate(name: string): (t: Theme)
    ensures name in KnownThemes ==> Name(t) == name
    ensures name !in KnownThemes ==> t == System
  {
    if name == "light" then Light
    else if name == "dark" then Dark
    else if name == "pink" then Pink
    else if name == "custom" then Custom
    else System
  }

  /** Every theme's name is a known one, and it validates back to the
      theme: a saved theme is restored as it was. */
  lemma {:induction false} NameRoundTrip(t: Theme)
    ensures Name(t) in KnownThemes
    ensures Validate(Name(t)) == t
  {
    match t
    case System =>
    case Light =>
    case Dark =>
    case Pink =>
    case Custom =>
  }

  /** `loadTheme()`: the stored theme string, or "system" when there is
      none, it is empty or the store cannot be read. */
  function LoadTheme(r: Read): (name: string)
    ensures name != []
    ensures r.Found? && r.value != [] ==> name == r.value
    ensures !(r.Found? && r.value != []) ==> name == "system"
  {
    StoredOr(r, "system")
  }

  /** The theme the page starts in: the stored one when it names a theme,
      the system theme for anything missing, unreadable or unknown. */
  lemma {:induction false} StartTheme(r: Read)
    ensures r.Found? && r.value in KnownThemes ==> Name(Validate(LoadTheme(r))) == r.value
    ensures !(r.Found? && r.value in KnownThemes) ==> Validate(LoadTheme(r)) == System
  {
    if r.Found? && r.value == [] {
      assert r.value !in KnownThemes;
    }
  }

  /** One value per palette channel (bg, panel, text, muted, primary,
      border). */
  datatype Channels<T> = Channels(bg: T, panel: T, text: T, muted: T, primary: T, border: T)

  /** The stored custom palette: a channel the stored object lacks is None. */
  type Palette = Channels<Option<string>>

  /** The colours `applyTheme` falls back to, channel by channel. */
  const Fallbacks: Channels<string> :=
    Channels("#0f172a", "#111827", "#e5e7eb", "#9ca3af", "#22d3ee", "#1f2937")

  predicate StartsWithHash(s: string) {
    |s| > 0 && s[0] == '#'
  }

  /** `toColor(value, fallback)`: the stored value when it is a non-empty
      string starting with '#', the fallback otherwise. */
  function ToColor(value: Option<string>, fallback: string): (r: string)
    ensures value.Some? && StartsWithHash(value.value) ==> r == value.value
    ensures !(value.Some? && StartsWithHash(value.value)) ==> r == fallback
  {
    var v := if value.Some? && value.value != [] then value.value else fallback;
    if StartsWithHash(v) then v else fallback
  }

  /** The values `applyTheme` seeds the six colour inputs with. Each is a
      '#' colour: the stored one when that is a '#' colour, and the
      channel's own fallback otherwise. */
  function SeedInputs(p: Palette): (c: Channels<string>)
    ensures StartsWithHash(c.bg) && StartsWithHash(c.panel) && StartsWithHash(c.text)
    ensures StartsWithHash(c.muted) && StartsWithHash(c.primary) && StartsWithHash(c.border)
    ensures c.bg == if p.bg.Some? && StartsWithHash(p.bg.value) then p.bg.value else Fallbacks.bg
    ensures c.panel == if p.panel.Some? && StartsWithHash(p.panel.value) then p.panel.value else Fallbacks.panel
    ensures c.text == if p.text.Some? && StartsWithHash(p.text.value) then p.text.value else Fallbacks.text
    ensures c.muted == if p.muted.Some? && StartsWithHash(p.muted.value) then p.muted.value else Fallbacks.muted
    ensures c.primary == if p.primary.Some? && StartsWithHash(p.primary.value) then p.primary.value else Fallbacks.primary
    ensures c.border == if p.border.Some? && StartsWithHash(p.border.value) then p.border.value else Fallbacks.border
  {
    Channels(ToColor(p.bg, Fallbacks.bg), ToColor(p.panel, Fallbacks.panel),
             ToColor(p.text, Fallbacks.text), ToColor(p.muted, Fallbacks.muted),
             ToColor(p.primary, Fallbacks.primary), ToColor(p.border, Fallbacks.border))
  }

  /** The page's theme state: the theme class on the root element, the
      customize button, the modal and its document Escape listener, and
      the six colour inputs. */
  class Appearance {
    /** The `theme-*` class on the root element. */
    var theme: Theme
    /** The customize button is shown (not `hidden`). */
    var customizeShown: bool
    /** The modal is shown (not `hidden`, `aria-hidden` false). */
    var modalOpen: bool
    /** `onEscClose` is registered as a document keydown listener. */
    var escListening: bool
    /** The values of the six colour inputs. */
    var inputs: Channels<string>

    /** The customize button shows exactly for the custom theme; the modal
        is open only then, and the Escape listener is there exactly while
        the modal is open. */
    ghost predicate Valid()
      reads this
    {
      customizeShown == (theme == Custom)
      && (modalOpen ==> theme == Custom)
      && escListening == modalOpen
    }

    /** Start-up: the modal starts closed and the stored theme (through
        `loadTheme`) is applied with the stored palette. */
    constructor (stored: Read, palette: Palette, inputs0: Channels<string>)
      ensures Valid()
      ensures theme == Validate(LoadTheme(stored)) && !modalOpen
      ensures inputs == if theme == Custom then SeedInputs(palette) else inputs0
    {
      theme := System;
      customizeShown := false;
      modalOpen := false;
      escListening := false;
      inputs := inputs0;
      new;
      Apply(LoadTheme(stored), palette);
    }

    /** `applyTheme(name)`, with `palette` what `loadCustomTheme` reads:
        the validated theme becomes current; the custom theme shows the
        customize button and seeds the inputs, any other hides the button
        and closes the modal. */
    method Apply(name: string, palette: Palette)
      requires Valid()
      modifies this
      ensures Valid()
      ensures theme == Validate(name)
      ensures theme == Custom ==> inputs == SeedInputs(palette) && modalOpen == old(modalOpen)
      ensures theme != Custom ==> inputs == old(inputs) && !modalOpen
    {
      theme := Validate(name);
      if theme == Custom {
        customizeShown := true;
        inputs := SeedInputs(palette);
      } else {
        customizeShown := false;
        HideModal();
      }
    }

    /** `showModal`, wired to the customize button, which can only be
        clicked while it is shown. */
    method ShowModal()
      requires Valid() && customizeShown
      modifies this
      ensures Valid()
      ensures modalOpen && theme == old(theme) && inputs == old(inputs)
    {
      modalOpen := true;
      escListening := true;
    }

    /** `hideModal`: the close button, the backdrop and Escape end here.
        `applyTheme` calls it right after switching away from the custom
        theme, before the state is consistent again. */
    method HideModal()
      modifies this
      ensures old(Valid()) ==> Valid()
      ensures !modalOpen && !escListening
      ensures theme == old(theme) && customizeShown == old(customizeShown) && inputs == old(inputs)
    {
      modalOpen := false;
      escListening := false;
    }

    /** A keydown on the document: only the Escape key, and only while
        `onEscClose` is registered, closes the modal. */
    method KeyDown(key: string)
      requires Valid()
      modifies this
      ensures Valid()
      ensures modalOpen == (old(modalOpen) && key != "Escape")
      ensures theme == old(theme) && inputs == old(inputs)
    {
      if escListening && key == "Escape" {
        HideModal();
      }
    }

    /** A click inside the modal: it closes only when the click landed on
        the backdrop. */
    method ModalClick(onBackdrop: bool)
      requires Valid()
      modifies this
      ensures Valid()
      ensures modalOpen == (old(modalOpen) && !onBackdrop)
      ensures theme == old(theme) && inputs == old(inputs)
    {
      if onBackdrop {
        HideModal();
      }
    }
  }
}
