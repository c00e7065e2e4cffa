/**
 * The pure part of the extension's state reflection: how the toolbar button
 * shows the state, and which state the extension starts in.
 */
module Appearance {
  import opened Wrappers

  const AllowTitle := "Allow use of PageSpeed"
  const DisallowTitle := "Tell servers NOT to use PageSpeed"

  /** The suffix added to the icon file names: the "slashed" logo while PageSpeed is refused. */
  function IconSuffix(disabled: bool): string
  {
    if disabled then "-slash" else ""
  }

  /** The tooltip of the toolbar button. */
  function Title(disabled: bool): string
  {
    if disabled then DisallowTitle else AllowTitle
  }

  /** The icon paths handed to the toolbar, by icon size. */
  function IconPaths(disabled: bool): map<string, string>
  {
    map["16" := "icons/logo-16" + IconSuffix(disabled) + ".png",
        "32" := "icons/logo-32" + IconSuffix(disabled) + ".png"]
  }

  /** The slashed icon and the refusing title appear exactly when the extension is disabled. */
  lemma AppearanceReflectsState(disabled: bool)
    ensures IconSuffix(disabled) == "-slash" <==> disabled
    ensures IconSuffix(disabled) == "" <==> !disabled
    ensures Title(disabled) == "Tell servers NOT to use PageSpeed" <==> disabled
    ensures Title(disabled) == "Allow use of PageSpeed" <==> !disabled
  {
  }

  /** The toolbar tells the two states apart: equal icons or equal titles mean equal states. */
  lemma AppearanceDistinguishesStates(a: bool, b: bool)
    ensures IconPaths(a) == IconPaths(b) <==> a == b
    ensures Title(a) == Title(b) <==> a == b
  {
    if a != b {
      assert |IconPaths(a)["16"]| != |IconPaths(b)["16"]|;
      assert |Title(a)| != |Title(b)|;
    }
  }

  /**
   * The state the extension starts in, given what storage holds under the
   * "isDisabled" key: the stored value when the key is present, and `true`
   * (refuse PageSpeed) on a first run.
   */
  function InitialDisabled(stored: Option<bool>): bool
  {
    match stored
    case Some(b) => b
    case None => true
  }

  /** A value that was persisted is the value the next start-up restores. */
  lemma PersistThenLoad(b: bool)
    ensures InitialDisabled(Some(b)) == b
  {
  }

  /** Without a stored value the extension starts out refusing PageSpeed. */
  lemma FirstRunRefuses()
    ensures InitialDisabled(None)
  {
  }
}
