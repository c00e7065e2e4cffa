# PageSpeedOff background page, modelled in Dafny

PageSpeedOff is a browser extension that asks web servers not to apply the
PageSpeed optimisation service. Its background page holds one boolean of
state, `isDisabled`: while it is true, every outgoing HTTP(S) request carries
the header `PageSpeed: off`. A click on the toolbar button flips the state.
The state is persisted in the browser's local storage and shown by the
button's icon ("slashed" logo) and title, and it is restored at start-up.

The model has four modules:

- `Wrappers` (`wrappers.dfy`): an `Option` datatype.
- `Headers` (`headers.dfy`): a header as a `(name, value)` datatype, the
  case-insensitive name test as ASCII lower-casing, the scan for the first
  PageSpeed header (`FirstMatch`) and the specification of the transform
  (`Injected(headers, disabled)`), with lemmas for each of its cases, for
  order preservation, for the presence of `PageSpeed: off` and for
  idempotence.
- `Appearance` (`appearance.dfy`): the pure mappings from the state to the
  icon suffix, the icon paths and the title, and the start-up rule "stored
  value if the key is present, else `true`".
- `Background` (`background.dfy`): class `Extension` with the field
  `isDisabled` and the values last handed to the host (stored value, icon
  paths, title). Its methods are `ApplyState`, `Toggle`, `Load` and
  `SetPageSpeedHeader`. The last one runs the source's loop over an array
  of headers, with its `break`, and is proved against `Injected`.

Host calls are modelled as recorded values:
- `browser.storage.local.set` assigns the field `stored`.
- `browser.storage.local.get` reads the field `stored`.
- `setIcon` and `setTitle` assign the fields `iconPaths` and `title`.
- What storage holds when the browser starts is a constructor parameter.

## Model

| member | source | states |
|---|---|---|
| `Headers.LowerChar` | background.js:48 | lower-casing one character leaves no ASCII upper-case letter and changes only upper-case letters, each to the letter 32 code points up |
| `Headers.LowerCase` | background.js:48 | `toLowerCase()` keeps the length of the name and lower-cases each character in place |
| `Headers.IsPageSpeedIff` | background.js:48 | a name passes the test exactly when it has 9 characters that lower-case to "pagespeed", i.e. it is a case variant of "PageSpeed" |
| `Headers.PageSpeedOffMatches` | background.js:61 | the appended header's name "PageSpeed" passes the same test |
| `Headers.FirstMatch` | background.js:45-56 | the scan stops at a matching header that has no earlier match, and finds nothing exactly when no header matches |
| `Headers.FirstMatchByNames` | background.js:45-56 | where the scan stops depends only on the header names, not on their values |
| `Headers.InjectedWhenAllowed` | background.js:42-66 | when not disabled, the returned header list equals the input |
| `Headers.InjectedAppends` | background.js:58-62 | disabled and no PageSpeed header present: the length grows by one, all earlier headers equal the input, and the last header is `PageSpeed: off` |
| `Headers.InjectedOverwrites` | background.js:45-55 | disabled and a first match at index i: the length is unchanged, header i keeps its name and gets value "off", and every other header is unchanged, later duplicate PageSpeed headers included |
| `Headers.InjectedKeepsOrder` | background.js:38-67 | in either state every header keeps its position and name, the length grows by at most one, and at most one existing header changes |
| `Headers.InjectedCarriesOff` | background.js:48-61 | when disabled, the output always has a header named PageSpeed (case-insensitively) whose value is "off" |
| `Headers.InjectedIdempotent` | background.js:45-62 | when disabled, applying the transform to its own output gives the same list again |
| `Headers.OverwrittenIsFixed` | background.js:45-55 | idempotence in the overwrite case: the second scan stops at the same header and finds it already "off" |
| `Headers.AppendedIsFixed` | background.js:58-62 | idempotence in the append case: the second scan stops at the appended header |
| `Headers.ScenarioOnBecomesOff` | background.js:48-54 | `[PageSpeed: on]` becomes `[PageSpeed: off]` |
| `Headers.ScenarioDuplicateKept` | background.js:48-54 | with two PageSpeed headers in different case, only the first becomes "off" |
| `Headers.ScenarioAllowedUnchanged` | background.js:42-66 | `[Accept: */*]` goes out unchanged when not disabled |
| `Appearance.AppearanceReflectsState` | background.js:18-24 | the icon suffix is "-slash" and the title is "Tell servers NOT to use PageSpeed" exactly when disabled; otherwise the suffix is "" and the title is "Allow use of PageSpeed" |
| `Appearance.AppearanceDistinguishesStates` | background.js:18-33 | different states give different icon paths and different titles |
| `Appearance.PersistThenLoad` | background.js:70-75 | a persisted value is the one the start-up rule restores |
| `Appearance.FirstRunRefuses` | background.js:76-80 | with the key absent, the extension starts disabled |
| `Background.Extension.constructor` | background.js:4 | `isDisabled` is true before storage is read; storage holds what it held at start; nothing is set on the toolbar yet |
| `Background.Extension.ApplyState` | background.js:12-36 | the state is unchanged; storage holds it; the icon paths and title are its mapping; reading storage back restores the state |
| `Background.Extension.Toggle` | background.js:6-10 | the state is negated, and storage and toolbar reflect the new state |
| `Background.Extension.Load` | background.js:69-83 | the state becomes the stored value when the key is present and true otherwise; a stored value stays as it was; storage and toolbar reflect the state |
| `Background.Extension.SetPageSpeedHeader` | background.js:38-67 | the returned headers are `Injected(input, isDisabled)`; the same array is returned (edited in place) unless a header had to be appended, in which case the input array is unchanged |
| `Background.ToggleTwice` | background.js:6-10 | two toggles restore the original state, with storage and toolbar reflecting it |

## Left out

- `Background.Extension.SetPageSpeedHeader`: a JavaScript array grows in place with `push`. A Dafny array has a fixed length, so in the append case the method returns a fresh array holding the input followed by `PageSpeed: off`, and leaves the input array as it was.
- `Background.Extension.SetPageSpeedHeader`: headers are values here. The source sets `header.value` on a header object, which another reference to that object would also see; that aliasing is not modelled.
- `Headers.LowerCase`: models `toLowerCase()` for ASCII letters only. No non-ASCII character lower-cases to one of the letters of "pagespeed", so the name test gives the same answer as the source's.
- Storage contents: a value stored under "isDisabled" by something other than this code (a non-boolean) is not modelled. The only writer is `applyState`, which always stores a boolean.
- The host calls `browser.storage.local`, `browserAction.setIcon`/`setTitle` and the listener registrations (background.js:85-86) are not modelled as calls. They appear only as the recorded storage value, icon paths and title. The toolbar's default appearance from the extension manifest is not part of this model.
- Timing: the start-up `get` is asynchronous, so a request can arrive before it resolves. The model does not order `Load` against requests. Any interleaving of the methods is allowed, and each sees the current `isDisabled`.
- Console logging.
- `options.js` (the options page) is not part of this model. It renders the page and its mode radio buttons. Per-site mode, the `mode`, `globalDisabled` and `persiteSettings` storage keys and schema migration are not implemented by the background page modelled here. That page reads and writes only the flat `isDisabled` key.
