/**
 * The theme preference of the page: the `data-theme` attribute of the
 * document root, the `theme` entry of `localStorage`, and the icon of the
 * toggle button. The DOM and the store are replaced by plain fields.
 */
module Theme {

  const Light: string := "light"
  const Dark: string := "dark"

  /** The `localStorage` key under which the preference is kept. */
  const StorageKey: string := "theme"

  /** The two glyphs the toggle button shows. */
  datatype Icon = Moon | Sun
  {
    /** The icon's text; the two glyphs differ, so the text tells the icon. */
    function Glyph(): (g: string)
      ensures g == "\U{1F319}" <==> this == Moon
    {
      match this
      case Moon => "\U{1F319}"
      case Sun => "\U{2600}\U{FE0F}"
    }
  }

  /**
   * The theme chosen at load: `localStorage.getItem('theme') || 'light'`.
   * A missing entry (`null`) and the empty string both fall back to light;
   * every other stored string is used as it is, recognised or not.
   */
  function InitialTheme(store: map<string, string>): (t: string)
    ensures t != ""
    ensures StorageKey in store && store[StorageKey] != "" ==> t == store[StorageKey]
    ensures StorageKey !in store || store[StorageKey] == "" ==> t == Light
  {
    if StorageKey in store && store[StorageKey] != "" then store[StorageKey] else Light
  }

  /** The theme a click switches to: light becomes dark, anything else light. */
  function Toggled(current: string): (t: string)
    ensures t == Light || t == Dark
    ensures t == Dark <==> current == Light
  {
    if current == Light then Dark else Light
  }

  /** `updateThemeIcon`: the moon for the light theme, the sun for every other value. */
  function IconFor(theme: string): (i: Icon)
    ensures i == Moon <==> theme == Light
  {
    if theme == Light then Moon else Sun
  }

  /**
   * Two clicks restore light and dark; any other value (one read from the
   * store at load) ends at dark after two clicks.
   */
  lemma ToggleTwice(t: string)
    ensures t == Light || t == Dark ==> Toggled(Toggled(t)) == t
    ensures t != Light && t != Dark ==> Toggled(Toggled(t)) == Dark
  {
  }

  /** A reload after a click shows the theme that click persisted. */
  lemma ReloadAfterToggle(store: map<string, string>, current: string)
    ensures InitialTheme(store[StorageKey := Toggled(current)]) == Toggled(current)
  {
  }

  /** The two values the page itself writes survive a reload unchanged. */
  lemma ReloadKeepsKnownTheme(store: map<string, string>, t: string)
    requires t == Light || t == Dark
    ensures InitialTheme(store[StorageKey := t]) == t
  {
  }

  /**
   * An unrecognised stored value is applied as it is; it is shown with the
   * sun icon, and one click turns it into light.
   */
  lemma UnrecognisedThemeKept(store: map<string, string>)
    requires StorageKey in store && store[StorageKey] !in {"", Light, Dark}
    ensures InitialTheme(store) == store[StorageKey]
    ensures IconFor(InitialTheme(store)) == Sun
    ensures Toggled(InitialTheme(store)) == Light
  {
  }

  /** The root element's attribute, the browser's store and the button's icon. */
  class ThemeToggle {
    var attr: string
    var store: map<string, string>
    var iconText: string

    /** The icon's text always matches the applied theme. */
    ghost predicate Valid()
      reads this
    {
      iconText == IconFor(attr).Glyph()
    }

    /** Page load: read the preference, apply it to the root, set the icon. */
    constructor Load(saved: map<string, string>)
      ensures Valid()
      ensures store == saved
      ensures attr == InitialTheme(saved)
    {
      var current := InitialTheme(saved);
      store := saved;
      attr := current;
      iconText := IconFor(current).Glyph();
    }

    /**
     * The click handler: switch the applied theme, store it under the
     * `theme` key and update the icon. No other store entry changes.
     */
    method Click()
      requires Valid()
      modifies this
      ensures Valid()
      ensures attr == Toggled(old(attr))
      ensures attr == Light || attr == Dark
      ensures store == old(store)[StorageKey := attr]
      ensures forall k :: k != StorageKey ==> (k in store <==> k in old(store))
      ensures forall k :: k != StorageKey && k in store ==> store[k] == old(store)[k]
    {
      var current := attr;
      var newTheme := if current == Light then Dark else Light;
      attr := newTheme;
      store := store[StorageKey := newTheme];
      iconText := IconFor(newTheme).Glyph();
    }
  }
}
