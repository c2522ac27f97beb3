# Date field and shortcut menu: a Dafny model

This project models the logic inside two Blockly plugins.

- **field-date.** `dateValidator` accepts a `YYYY-MM-DD` string unchanged and turns anything else into `null`. The field's class-validation hook delegates to it. The constructor supplies a default date.
- **shortcut-menu.** The modal has three pieces of logic:
  - `formatCodes` renders the serialized key bindings of a command as `<code>` HTML.
  - The keydown handler traps Tab focus inside the dialog and closes the dialog on Escape. `show` chooses the element that gets focus first.
  - The modal keeps a list of bound event handles. `dispose` releases that list.

Modules:

- `Wrappers` (`wrappers.dfy`): `Option`.
- `Sequences` (`sequences.dfy`): `Distinct`, a list with no element twice.
- `JsStrings` (`js_strings.dfy`): these JavaScript operations:
  - string `<`, `<=` and `>=`, proved equal to the first-difference comparison of ECMA-262's IsLessThan;
  - `split` on one character, and `Array.prototype.join`;
  - the round trips between `split` and `join`.
- `FieldDate` (`field_date.dfy`): the regular expression written alternative by alternative. It is proved equal to a separate numeric reading of the format, in which the month is 1–12 and the day is 1–31.
- `ShortcutFormat` (`shortcut_format.dfy`): `formatCodes`. Its lemmas describe it as a homomorphism: chords are separated by ` , `, and the tokens of a chord by ` + `.
- `FocusTrap` (`focus_trap.dfy`): the keydown handler, the focus choice in `show`, and a theorem that Tab and Shift+Tab cycle through the dialog's focusable elements.
- `BoundEvents` (`bound_events.dfy`): `addEvent_`, `dispose`, the moves of the current overlay element in `render` (line 269 only), `show` and `dispose`, and a conservation law over any sequence of these operations.

A JavaScript string is a sequence of UTF-16 code units. It is modelled as a Dafny `string` with one `char` per code unit. The two readings agree on every string both can represent: strings without surrogate code units, which in Dafny are the strings whose characters all lie at or below U+FFFF. A Dafny character above U+FFFF has no one-unit counterpart, since JavaScript stores it as a surrogate pair and its `<` compares that pair's first unit. The model's results on such strings say nothing about the plugins (see Left out).

Some behaviour of the code, stated as the code has it:

- The modal's `hide` (shortcut-menu `index.js:147-149`) only hides the host's widget layer and unbinds nothing. So `BoundEvents.Step` leaves the bookkeeping alone on `Hide`.
- `formatCodes` renders the token `17` as the character with code 17 (U+0011), not as `1`: see `ShortcutFormat.NumeralsAreCharacterCodes`.
- Listeners are bound in `render` (`index.js:253-324`). `show` binds none.
- `dispose` does not call `hide`. It only unbinds the recorded handles and removes the overlay.

## Model

| member | source | states |
|---|---|---|
| FieldDate.DateValidator | plugins/field-date/src/index.js:19-29 | Never returns undefined. A falsy input (`FieldDate.IsFalsy`, the test at line 20: undefined, null, `""`) yields null. The result is a string exactly when the input is a string of date shape (ten characters, digits with hyphens at positions 4 and 7, month 1–12, day 1–31), and then it is the input itself |
| FieldDate.PatternIsDateShape | plugins/field-date/src/index.js:23-24 | The anchored regular expression of line 23, written alternative by alternative as `FieldDate.MatchesDatePattern`, accepts exactly the strings of the numeric date shape |
| FieldDate.DoClassValidation | plugins/field-date/src/index.js:92-94 | The class-validation hook never returns undefined, turns a falsy input into null, returns null or its input unchanged, and returns a string exactly for date-shaped strings |
| FieldDate.ConstructorValue | plugins/field-date/src/index.js:67 | A missing value becomes `2000-10-10`. Any other value, `null` included, is passed on unchanged |
| FieldDate.ValidatorIdempotent | plugins/field-date/src/index.js:19-29 | Validating a validated value changes nothing |
| FieldDate.NoCalendarCheck | plugins/field-date/src/index.js:23 | `2021-02-31` is accepted unchanged. Months 00 and 13, days 00 and 32, a two-digit year and the empty string are rejected |
| FieldDate.DefaultValueIsValid | plugins/field-date/src/index.js:67 | The default constructor value passes class validation unchanged |
| JsStrings.LessIsLexicographic | plugins/shortcut-menu/src/index.js:360 | `JsStrings.Less`, the recursive string `<`, holds exactly when the left string is a proper prefix of the right, or is smaller at the first position where they differ, as the IsLessThan operation of ECMA-262 defines `<` on strings |
| JsStrings.LessTrichotomy | plugins/shortcut-menu/src/index.js:360 | String `<` is irreflexive and asymmetric, and of two different strings one is smaller |
| JsStrings.AtLeast | plugins/shortcut-menu/src/index.js:360 | `a >= b`, computed as `!(a < b)`, holds exactly when `a` equals `b` or `b < a` |
| JsStrings.AtMost | plugins/shortcut-menu/src/index.js:360 | `a <= b`, computed as `!(b < a)`, holds exactly when `a` equals `b` or `a < b` |
| JsStrings.Join | plugins/shortcut-menu/src/index.js:364 | Joining no parts gives the empty string, and joining one part gives that part with no separator. `JoinConcat` and `JoinOfSplit` fix the rest |
| JsStrings.Map | plugins/shortcut-menu/src/index.js:355-364 | `Array.prototype.map`, used twice on line 355 and once on line 364: the result has the input's length, and each element is the function applied to the element at the same position. `MapConcat` shows that mapping commutes with concatenation |
| JsStrings.Split | plugins/shortcut-menu/src/index.js:355 | `split('+')` yields at least one part, and no part contains the separator |
| JsStrings.SplitPartCount | plugins/shortcut-menu/src/index.js:355 | `split('+')` yields exactly one part more than the string has separators |
| JsStrings.JoinOfSplit | plugins/shortcut-menu/src/index.js:355 | Joining the parts of a split with the separator gives back the original string |
| JsStrings.SplitOfJoin | plugins/shortcut-menu/src/index.js:355 | Splitting a join of separator-free parts gives back the parts |
| JsStrings.SplitCons | plugins/shortcut-menu/src/index.js:355 | Scanning one unit of `split`: a separator closes an empty part, any other unit joins the first part of the rest |
| JsStrings.SplitConcat | plugins/shortcut-menu/src/index.js:355 | Splitting `x + sep + y` gives the parts of `x` followed by the parts of `y` |
| JsStrings.JoinConcat | plugins/shortcut-menu/src/index.js:364 | `join` of two non-empty lists concatenated is the two joins with one separator between them |
| ShortcutFormat.SpecialName | plugins/shortcut-menu/src/index.js:345-357 | The table has an entry exactly for `27`, `46`, `8`, `Control`, `Meta`, `Shift` and `Alt`. Every entry is non-empty, and exactly Meta, Shift and Alt are shown under their own names |
| ShortcutFormat.PrintableRangeByFirstUnit | plugins/shortcut-menu/src/index.js:360 | `ShortcutFormat.InPrintableRange`, the test `code >= '!' && code <= '~'` under JavaScript string order, holds exactly when the token is non-empty and starts at or above `!` and below `~`, or is exactly `~` |
| ShortcutFormat.AllDigitsEverywhere | plugins/shortcut-menu/src/index.js:361 | The digit test used for `Number` holds exactly when every position is a decimal digit |
| ShortcutFormat.DecimalValueReadsFromFront | plugins/shortcut-menu/src/index.js:361 | The value of a digit string read from the last digit equals the value read front to back, as `Number` scans it |
| ShortcutFormat.NumeralUnit | plugins/shortcut-menu/src/index.js:361 | `NumeralUnit` is `Some` exactly for a non-empty digit string whose value is below 2^53 and whose value modulo 2^16 is not a surrogate. It then holds the unit `String.fromCharCode(Number(token))` gives, the value modulo 2^16 |
| ShortcutFormat.NumeralUnitFromFront | plugins/shortcut-menu/src/index.js:361 | The same characterisation for numerals of any length, with the value read digit by digit from the front and the digits checked position by position |
| ShortcutFormat.TwoDigitNumeral | plugins/shortcut-menu/src/index.js:361 | A two-digit numeral converts to the character whose code is its value |
| ShortcutFormat.SmallNumerals | plugins/shortcut-menu/src/index.js:361 | `27` converts to ESC, `67` to `C` and `17` to U+0011 |
| ShortcutFormat.FormatToken | plugins/shortcut-menu/src/index.js:345-363 | A key of the special table renders as the table's entry, even when it is printable. Otherwise an exactly convertible numeral renders as the character with that code. An empty token, or one starting below `!`, above `~`, or with `~` but longer than one unit, renders unchanged |
| ShortcutFormat.SpecialTakesPrecedence | plugins/shortcut-menu/src/index.js:345-358 | `27` is printable and a numeral, yet renders as `Escape`. All seven table entries render as listed (`8` Backspace, `46` `.`, `Control` Ctrl, and Meta, Shift and Alt as themselves) |
| ShortcutFormat.NumeralsAreCharacterCodes | plugins/shortcut-menu/src/index.js:359-363 | `67` renders as `C` and `17` as U+0011, not as `1`. The tokens `""`, ` A` and `~~` render unchanged |
| ShortcutFormat.Wrap | plugins/shortcut-menu/src/index.js:364 | The template `<code>${code}</code>`: the result is `<code>`, then the text unchanged, then `</code>`, and nothing else |
| ShortcutFormat.FormatCodes | plugins/shortcut-menu/src/index.js:344-365 | No bindings render as the empty string. One binding renders as its chord alone, with no ` , ` |
| ShortcutFormat.FormatCodesConcat | plugins/shortcut-menu/src/index.js:355-364 | The rendering of a concatenation of two non-empty binding lists is the two renderings joined by ` , ` |
| ShortcutFormat.FormatChord | plugins/shortcut-menu/src/index.js:355-364 | A chord without `+` renders as `<code>` + token rendering + `</code>` |
| ShortcutFormat.FormatChordConcat | plugins/shortcut-menu/src/index.js:355-364 | The tokens on the two sides of a `+` render independently, joined by ` + ` |
| ShortcutFormat.FormatTwoTokenChord | plugins/shortcut-menu/src/index.js:355-364 | A chord of two plain tokens renders as both tokens wrapped in `<code>`, joined by ` + ` |
| ShortcutFormat.FormatCodesPair | plugins/shortcut-menu/src/index.js:364 | Two bindings render as their two chords joined by ` , ` |
| ShortcutFormat.CtrlCOrEscape | plugins/shortcut-menu/src/index.js:344-365 | The bindings `Control+67` and `27` render as Ctrl + C, then ` , `, then Escape, each token in `<code>` |
| FocusTrap.HandleBackwardTab | plugins/shortcut-menu/src/index.js:182-187 | The default move is prevented exactly when the active element is the recorded first one. Focus then goes to the last one, and otherwise stays put |
| FocusTrap.HandleForwardTab | plugins/shortcut-menu/src/index.js:194-199 | The default move is prevented exactly when the active element is the recorded last one. Focus then goes to the first one, and otherwise stays put |
| FocusTrap.HandleKeyDown | plugins/shortcut-menu/src/index.js:207-230 | Every keydown stops propagation. `hide` is called exactly on Escape with close-on-escape set. Only Tab prevents the default, and focus moves only then, to an end of the recorded range. Tab with no range or a one-element range is swallowed without moving focus. Otherwise Tab is prevented exactly on the last element (Shift+Tab: the first) and lands on the other end |
| FocusTrap.ShowFocus | plugins/shortcut-menu/src/index.js:130-141 | An empty list keeps the old range and focus. Otherwise the range is first to last, and focus goes to one of the first two elements. Focus skips the first element exactly when it is the close button and another element exists |
| FocusTrap.TabStepsRound | plugins/shortcut-menu/src/index.js:182-222 | When the range spans a repeat-free list, one Tab or Shift+Tab moves focus one step round the cycle of its elements. The browser moves focus between interior elements, and the handler wraps at the ends |
| FocusTrap.TabCycles | plugins/shortcut-menu/src/index.js:130-230 | After `show` over a repeat-free list, Tab moves focus to the next element, or from the last to the first. Shift+Tab moves to the previous element, or from the first to the last. Focus never leaves the dialog's focusable elements, and a single element keeps focus |
| BoundEvents.Fresh | plugins/shortcut-menu/src/index.js:59-68 | The constructor's state: no overlay element yet (`htmlDiv_` is null) and no bound handles (`boundEvents_` is empty). No handle has been released yet |
| BoundEvents.AddEvent | plugins/shortcut-menu/src/index.js:240-248 | Exactly one handle is appended after all earlier ones, and nothing else changes |
| BoundEvents.UnbindEach | plugins/shortcut-menu/src/index.js:108-110 | The handles are released in recorded order, after those released before |
| BoundEvents.Dispose | plugins/shortcut-menu/src/index.js:107-115 | Afterwards no handle is recorded, every previously recorded handle has been released once in order, and a rendered overlay is out of the document |
| BoundEvents.Render | plugins/shortcut-menu/src/index.js:269 | Line 269 of `render`: `htmlDiv_` becomes a fresh element outside the document, and the handle lists are unchanged. The handles `render` binds are separate `Add` steps |
| BoundEvents.Show | plugins/shortcut-menu/src/index.js:163-167 | `show` attaches a rendered overlay to the widget layer, touches no handle, and leaves an unrendered modal unrendered |
| BoundEvents.DisposeDetaches | plugins/shortcut-menu/src/index.js:107-115 | After any operations, a final `dispose` leaves the current overlay (the element `htmlDiv_` points to) out of the document. Render then show attaches it, and a following `dispose` removes it |
| BoundEvents.Step | plugins/shortcut-menu/src/index.js:107-149 | One operation on the modal. A released handle stays released in its place. Only `dispose` releases handles, and only `addEvent_` records one. `hide` changes nothing the modal keeps |
| BoundEvents.DisposeIdempotent | plugins/shortcut-menu/src/index.js:107-115 | A second `dispose` releases nothing and changes nothing |
| BoundEvents.ReleasedThenRecorded | plugins/shortcut-menu/src/index.js:107-115 | Over any sequence of add, render, show, hide and dispose, the released handles followed by the recorded ones are exactly the handles ever added, in order: nothing leaks and nothing is released twice |
| BoundEvents.DisposeReleasesEachOnce | plugins/shortcut-menu/src/index.js:107-111 | If the host hands out distinct handles, a final `dispose` leaves nothing recorded and has released every added handle exactly once |

## Left out

- `render` is modelled only as line 269, which points `htmlDiv_` at a fresh overlay element, together with the `addEvent_` calls it makes, which are separate `Add` steps. The rest of DOM construction and styling is not modelled: the container, header, footer and close button, `renderHeader_`, `renderContent_` (the HTML table and `innerHTML`), `createTextInput_`, `renderFooter_` and both stylesheet registrations. In particular, the model does not include which listeners `render` binds, or the overlay-click closing they implement.
- A second `render` while the overlay is shown leaves the earlier overlay element in the widget layer, because line 269 re-points `htmlDiv_` without removing the old element, and `dispose` removes only the current one. `BoundEvents.Overlay` tracks only the element `htmlDiv_` currently points to, so that orphaned element is not tracked.
- Host calls are not modelled: `widgetCreate_` and `widgetDispose_` in both plugins, `showEditor_`/`showPicker`, the host's widget layer behind `hide`, and the field registry. The modal's `hide` appears only as an operation that leaves the bookkeeping alone.
- `init` logs to the console and then calls `render` (line 99). In the model that call is a `RenderOverlay` step followed by the `Add` steps of its bindings; the logging is not modelled. `onEvent_` and `fromJson` are not modelled: they log to the console or hand a value to the constructor, and the search input has no effect on the table.
- Real focus and event dispatch are not modelled. Elements are identity values, and the keydown result is a record of the calls the handler makes. `FocusTrap.NativeTab` stands for the browser's default Tab movement, and assumes the queried list is the dialog's tab order.
- The Blockly `Field` constructor's own use of `doClassValidation_` is not modelled. `FieldDate.ConstructorValue` only fixes the value passed to it.
- `dateValidator` on non-string inputs is not modelled: numbers, objects and the other falsy values `0`, `false` and `NaN`. `RegExp.test` would coerce them to strings first.
- Strings holding surrogate code units are not modelled. A `char` cannot hold a lone surrogate, and a Dafny character above U+FFFF is one unit where JavaScript has two, which also orders differently under `<`. So `String.fromCharCode` of a surrogate code is left to `other`, and the model's results on strings with characters above U+FFFF do not describe the plugins.
- A `show` before any `render` throws in the source, because there is no overlay element. `BoundEvents.Show` leaves such a modal unchanged instead.
- ShortcutFormat.NumeralUnit: gives `None` for a digit string whose value is 2^53 or more, although JavaScript still produces a unit for it. `Number` rounds such a value, or makes it Infinity, and `String.fromCharCode` then gives U+0000 for 2^53 and for Infinity, and the rounded value modulo 2^16 otherwise. The model does not model double rounding, so these tokens are left to `other`. `None` for a value whose unit is a surrogate is forced, because a `char` cannot hold a lone surrogate.
- ShortcutFormat.FormatToken: leaves some printable-range tokens to the parameter `other`. These are tokens that are neither own keys of the special table nor decimal numerals below 2^53 whose code unit is not a surrogate. JavaScript's `in` also matches inherited names such as `toString`, and `Number` also reads hex, exponent and whitespace-padded forms. For such tokens the model only says that the rendering is whatever `other` gives.
- ShortcutFormat.FormatCodes: takes the bindings as strings. The `String(codes)` conversion of non-string bindings is not modelled.
