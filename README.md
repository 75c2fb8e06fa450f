# Portfolio page scripts: a verified model

This project models the parts of the portfolio site's `script.js` that hold logic and not only styling:

- **Theme preference.** At load, the `data-theme` attribute of the document root is set from the `theme` entry of `localStorage`, or `light` when that entry is missing or empty. Clicking the toggle switches the theme, writes it to the root and to the store, and updates the moon or sun icon.
- **Contact form.** The submit handler clears old errors and trims the four values. It then checks name, e-mail, subject and message. Every failing field shows its own message and paints the border of its input. The button switches to "Sending..." only when all four checks pass. `isValidEmail` tests the address against `^[^\s@]+@[^\s@]+\.[^\s@]+$`.
- **Active navigation link.** On scroll, every section whose window holds the scroll position takes `active` off all nav links and puts it on the links that point at it. The last such section in document order wins.
- **Keyboard navigation flag.** A Tab press adds the `keyboard-nav` class to the body, and a mouse press removes it.

The DOM and the browser are replaced by plain state:

- The root attribute, the store and the icon's text are fields of `Theme.ThemeToggle`.
- The error elements and input borders are maps in `ContactForm.Form`, keyed by element id.
- The links' `active` classes are a `bool` array.
- The scroll position, the navbar height and the section geometry are parameters.

Modules, one per concern of `script.js`:

| file | module | what |
|---|---|---|
| `wrappers.dfy` | `Wrappers` | `Option`, for DOM attributes that may be `null` |
| `text.dfy` | `Text` | JavaScript white space, `trim()`, UTF-16 `length` |
| `theme.dfy` | `Theme` | load, toggle, icon; class `ThemeToggle` |
| `email_address.dfy` | `EmailAddress` | the regular expression as an automaton, proved equal to a plain description |
| `contact_form.dfy` | `ContactForm` | the four checks, `showError`, `clearErrors`, the submit handler; class `Form` |
| `navigation.dfy` | `Navigation` | `updateActiveNavLink` over an array of link flags |
| `keyboard.dfy` | `Keyboard` | the two listeners; class `Body` |

Only a missing or empty `theme` entry falls back to `light` (script.js:7). Any other stored string, recognised or not, is applied as it is. `Theme.InitialTheme` keeps such a value, and `Theme.UnrecognisedThemeKept` states what the page then does.

## Model

| member | source | states |
|---|---|---|
| `Text.IsSpace` | script.js:98-101 | the white space of `trim()` and of `\s`: the ECMAScript WhiteSpace and LineTerminator characters, one set for both |
| `Text.LeadingSpaces` | script.js:98-101 | the count of leading white space: every character before it is white space, the one at it is not |
| `Text.TrailingSpaces` | script.js:98-101 | the count of trailing white space: every character after the core is white space, the one before it is not |
| `Text.TrimStart` | script.js:98-101 | the result is the suffix of the input left after a run of white space, and does not start with white space |
| `Text.TrimEnd` | script.js:98-101 | the result is the prefix before a run of white space, and does not end with white space |
| `Text.Trim` | script.js:98-101 | `trim()` returns a string no longer than the input with no white space at either end |
| `Text.TrimStartOfPadded` | script.js:98-101 | removing leading white space from `p + t` gives `t` when `p` is all white space and `t` does not start with it |
| `Text.TrimEndOfPadded` | script.js:98-101 | removing trailing white space from `t + q` gives `t` when `q` is all white space and `t` does not end with it |
| `Text.TrimOfPadded` | script.js:98-101 | `trim()` of any white-space-padded string is exactly its core, so the result is unique |
| `Text.TrimIdempotent` | script.js:98-101 | trimming twice equals trimming once |
| `Text.Utf16Length` | script.js:107 | JavaScript `length` counts UTF-16 code units: between the number of characters and twice that |
| `Text.Utf16LengthOfBmp` | script.js:117 | for text in the Basic Multilingual Plane, `length` equals the number of characters |
| `Theme.InitialTheme` | script.js:7 | the loaded theme is the stored string when it is present and non-empty, otherwise `light`; it is never empty |
| `Theme.Toggled` | script.js:14 | a click yields `light` or `dark`, and yields `dark` exactly when the current theme is `light` |
| `Theme.IconFor` | script.js:21-23 | the icon is the moon exactly when the theme is `light`, the sun for every other value |
| `Theme.Icon.Glyph` | script.js:22 | the text of the icon is the moon glyph exactly for the moon, so the two icons have different texts |
| `Theme.ToggleTwice` | script.js:12-19 | two clicks restore `light` and `dark`; from any other value they end at `dark` |
| `Theme.ReloadAfterToggle` | script.js:7-17 | after a click persists its theme, a reload applies that same theme |
| `Theme.ReloadKeepsKnownTheme` | script.js:7-8 | a stored `light` or `dark` is applied unchanged at load |
| `Theme.UnrecognisedThemeKept` | script.js:7-22 | a stored value other than empty, `light` and `dark` is applied as it is, shown with the sun, and one click turns it into `light` |
| `Theme.ThemeToggle.Load` | script.js:7-9 | page load: the store is untouched, the root attribute is the loaded theme, and the icon's text is the matching glyph |
| `Theme.ThemeToggle.Click` | script.js:12-19 | the root attribute becomes the toggled theme and the `theme` entry equals it; no other store key is added, removed or changed; the icon's text is the matching glyph |
| `EmailAddress.IsValidEmail` | script.js:174-177 | the regular expression accepts an address exactly when it has no white space, exactly one `@` (not first), and after the `@` a `.` with at least one character on each side |
| `EmailAddress.Accepts` | script.js:175 | the pattern as a recogniser over six phases: characters that are not white space, exactly one `@` after a non-empty local part, and a `.` with a character on each side in the domain |
| `EmailAddress.AcceptsTld` | script.js:175 | the final `[^\s@]+` accepts exactly strings of characters that are neither white space nor `@` |
| `EmailAddress.AcceptsAfterDot` | script.js:175 | right after the dot, the rest is accepted exactly when it is non-empty and has no white space or `@` |
| `EmailAddress.AcceptsHost` | script.js:175 | inside the domain, the rest is accepted exactly when it has no white space or `@` and has a `.` that is not its last character |
| `EmailAddress.AcceptsAfterAt` | script.js:175 | right after the `@`, the rest is accepted exactly when it has no white space or `@` and has a `.` that is neither its first nor its last character |
| `EmailAddress.AcceptsUser` | script.js:175 | inside the local part, the rest is accepted exactly when it splits at an `@` into atoms before it and a valid domain after it |
| `EmailAddress.AcceptsStart` | script.js:175 | the whole matcher accepts exactly the well-formed addresses (both directions) |
| `EmailAddress.SplitIsWellFormed` | script.js:175 | splitting at an `@` in slices agrees with the index form of the plain description |
| `EmailAddress.Examples` | script.js:175 | `a@b.c` and `a@b..c` pass; an empty local part, an empty part before or after the dot, a second `@` and a space each fail |
| `ContactForm.Trimmed` | script.js:97-102 | every value is trimmed: none of the four starts or ends with white space, and none is longer than the raw value |
| `ContactForm.Passes` | script.js:107-122 | the four conditions: name length at least 2, a valid e-mail, subject length at least 3, message length at least 10, lengths in UTF-16 code units |
| `ContactForm.FieldOf` | script.js:108-123 | each error element id belongs to exactly one of the four fields, and other ids to none |
| `ContactForm.ErrorIdsDistinct` | script.js:108-123 | the four error element ids are pairwise distinct |
| `ContactForm.Failures` | script.js:105-125 | the failing fields are exactly those whose check does not pass |
| `ContactForm.ValidIffAllPass` | script.js:105-127 | the form is valid (name length ≥ 2, valid e-mail, subject length ≥ 3, message length ≥ 10) exactly when each of the four checks passes |
| `ContactForm.ValidIffNoFailures` | script.js:105-127 | the form is valid exactly when no field fails |
| `ContactForm.ErrorText` | script.js:105-125 | an error element shows a message exactly when its field failed, and then the message of that field |
| `ContactForm.ValidIffNoErrors` | script.js:105-127 | the form is valid exactly when none of the four error elements shows a message |
| `ContactForm.SingleEmojiNamePasses` | script.js:107 | one emoji is two code units long, so it passes the name check |
| `ContactForm.PaddingIgnored` | script.js:97-102 | white space padded around the raw values does not change the values that are checked |
| `ContactForm.Reported` | script.js:107-125 | the error texts after the four `if`s in source order: each failing field writes its message to its element |
| `ContactForm.ReportedKeys` | script.js:105-125 | the four checks write only to existing error elements |
| `ContactForm.ReportedAt` | script.js:105-125 | after the four checks, each element holds its field's message if that field failed and its earlier text otherwise |
| `ContactForm.ReportedAfterClear` | script.js:94-125 | starting from cleared errors, every element ends with its failing field's message or empty text, whatever failed before or after it |
| `ContactForm.Painted` | script.js:107-125 | the input borders after the four `if`s: each failing field paints the input before its error element `#ef4444` |
| `ContactForm.PaintedAfterClear` | script.js:94-125 | starting from cleared borders, exactly the inputs before a failing field's error element are red, and all others are empty |
| `ContactForm.BlankAll` | script.js:162-172 | one `forEach` of `clearErrors` keeps every element and empties each of them |
| `ContactForm.Form.constructor` | script.js:143-144 | the form starts with the page's elements and an enabled "Send Message" button, the state the handler restores after sending |
| `ContactForm.Form.ClearErrors` | script.js:162-172 | every error text and every input border becomes empty; no element is added or removed |
| `ContactForm.Form.ShowError` | script.js:153-160 | the element gets the message, and the input before it gets the red border; nothing else changes |
| `ContactForm.Form.Check` | script.js:107-110 | one check: on failure it shows the field's error and clears the flag; otherwise nothing changes |
| `ContactForm.Form.Validate` | script.js:105-125 | all four checks run in order without short-circuit; the flag stays true exactly when no field fails |
| `ContactForm.Form.Respond` | script.js:105-134 | from cleared errors: the messages and borders of exactly the failing fields; sends exactly when the form is valid, and only then sets the button to "Sending..." and disabled, otherwise leaves it as it was |
| `ContactForm.Form.Submit` | script.js:90-134 | sends exactly when the trimmed form is valid; every error element shows exactly its failing field's message and all other texts are empty; the button changes only on success |
| `Navigation.Target` | script.js:57-60 | the href a section's links carry: `#` followed by its id, or `#null` when it has none |
| `Navigation.InView` | script.js:52-56 | the scroll position lies in the half-open window from `offsetTop` minus the navbar height minus 100, of the section's height |
| `Navigation.LastInView` | script.js:51-56 | the index found is a section in view with no later section in view; none is found exactly when no section is in view |
| `Navigation.ActiveAfter` | script.js:47-66 | the link flags after the handler cover every link |
| `Navigation.ActiveAfterMeaning` | script.js:51-63 | with no section in view the flags are those before; otherwise a link is active exactly when its href is `#` plus the id of the last section in view |
| `Navigation.LastInViewSnoc` | script.js:51-65 | a later section in view takes over from every earlier one |
| `Navigation.ActiveAfterIdempotent` | script.js:47-68 | running the handler twice at one scroll position equals running it once |
| `Navigation.ActiveAfterForgetsBefore` | script.js:56-63 | when some section is in view, the result does not depend on which links were active before |
| `Navigation.MissingIdTargetsNull` | script.js:57-60 | a section without an id is matched against the href `#null` |
| `Navigation.UpdateActiveNavLink` | script.js:47-66 | with a section in view, exactly the links whose href is `#` plus the last such section's id are active; with none in view, every link keeps its state |
| `Keyboard.Step` | script.js:272-286 | Tab sets the flag, a mouse press clears it, and any other key, Escape included, leaves it unchanged |
| `Keyboard.Run` | script.js:272-286 | the flag after the two listeners handle a run of events, oldest first |
| `Keyboard.LastDecisive` | script.js:272-286 | the index found is a Tab or mouse press with no Tab or mouse press after it; none is found exactly when the run has neither |
| `Keyboard.RunSnoc` | script.js:272-286 | running one more event applies that event's step to the earlier result |
| `Keyboard.RunIsLastDecisive` | script.js:272-286 | after any run of events, the flag is set exactly when the last Tab or mouse press was a Tab, and keeps its initial value when there was neither |
| `Keyboard.Body.constructor` | script.js:279-286 | the body starts without the `keyboard-nav` class |
| `Keyboard.Body.OnKeyDown` | script.js:272-282 | the keydown listener makes one step with the pressed key |
| `Keyboard.Body.OnMouseDown` | script.js:284-286 | the mousedown listener clears the flag |

## Left out

- Smooth scrolling on link clicks (script.js:26-44), the navbar shadow (script.js:70-84), card hover transforms (script.js:208-235), input focus transforms (script.js:250-262) and the load animation (script.js:310-319): presentation only. They set style strings and keep no invariant.
- The parallax effect (script.js:237-248): it builds a CSS string from a floating-point product.
- The IntersectionObserver reveal animation (script.js:179-206): the browser calls it back, and it holds no logic to model.
- The simulated request after a valid submission (script.js:136-150) and `debounce` (script.js:288-304): both are timers and closures and would need an event loop. `Form.Submit` stops once the button shows "Sending..." and is disabled.
- The footer year (script.js:264-269) and the console messages (script.js:306-308): they call into the environment.
- The `localStorage` and DOM lookups are not modelled as failing. The store is a map from keys to strings, and a missing key stands for `getItem` returning `null`. `Form.Valid` requires that the page has the four error elements, each after an input, since `showError` would otherwise fail on `null`.
- The page markup, `index.html`, is not part of this model. The button's initial "Send Message" text and the layout of each error element after its input are assumed from it.
- `Text.IsSpace` follows ECMAScript's WhiteSpace and LineTerminator sets as characters. It does not follow any later change to the Unicode space-separator category.
- The regular-expression class `[^\s@]` reads UTF-16 code units, and the model reads Unicode characters. A supplementary character is two code units outside the class either way, so the outcome is the same.
- The scroll position, `offsetTop`, `offsetHeight` and the navbar height are integers. Browsers can report a fractional `scrollY`.
- `Navigation.ActiveAfter`: its own contract states only the length. What the flags mean is stated by `Navigation.ActiveAfterMeaning` and `Navigation.UpdateActiveNavLink`.
