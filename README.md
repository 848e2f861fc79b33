# Party roulette: entry list, spin guard and text helpers

This project models the logic core of a browser "party roulette" page (`app.js`). Users
build a list of up to 12 entries. Each entry has an identifier, a name and a colour from a
10-colour palette. The wheel can be spun once at least two entries exist. Names are
HTML-escaped before they are shown in the list and in the winner dialog. On the wheel
itself, a long name is cut to a short label.

Modules:

- `JsString` (`js_string.dfy`): the JavaScript `String.prototype.trim` the add handler calls.
  It drops ECMAScript white space and line terminators from both ends.
- `Sanitize` (`sanitize.dfy`): `sanitizeInput`, plus `Unescape`, which decodes exactly the five
  entities `sanitizeInput` emits. `Unescape` is the partner that the round-trip lemma uses.
- `WheelLabel` (`wheel_label.dfy`): the label truncation drawn on each slice.
- `Entries` (`entries.dfy`): the entry record, the palette, the cap, and add and delete as
  functions from the old list to the new one, with their lemmas.
- `Roulette` (`roulette.dfy`): the application state (`items`, `isSpinning`), the events that
  change it, and a class `App` whose handler methods update the state in place. Each method
  is proved to move the state exactly as `Step` says.

The central invariant is `WellFormed`: the list has at most 12 entries, and entry `i` has
colour `COLORS[i % 10]`. The starting list has this property. Add and delete preserve it, so
every reachable state has it (`RunPreservesInvariant`, `ReachableInvariant`).

Neither the add handler nor the delete handler checks `isSpinning`. Entries can therefore
change while the wheel turns. The model keeps this behaviour. `DeleteWhileSpinning` shows a
spinning state that ends up with fewer than two entries after a delete.

The page starts with 4 default entries (app.js:38-43); this code has no reset, load or
persistence. Identifiers are drawn at random (app.js:54-56) and never checked for uniqueness,
so `UniqueIds` is a hypothesis of the lemmas that need it, not an invariant.

## Model

| member | source | states |
|---|---|---|
| `JsString.LeadingWhiteSpace` | app.js:249 | the count of leading characters trim drops: all of them are white space, and the character after them is not |
| `JsString.TrailingWhiteSpace` | app.js:249 | the position where the trailing white space trim drops begins: everything from there on is white space, and the character before it is not |
| `JsString.Trim` | app.js:249 | the trimmed name is empty exactly when the input is all white space; a non-empty result has no white space at either end |
| `JsString.TrimIsSlice` | app.js:249 | trim keeps one contiguous slice of the input and drops only white space before and after it |
| `JsString.TrimUnique` | app.js:249 | white space, then a core with no white space at its ends, then white space, always trims to that core (an independent characterisation of trim) |
| `JsString.TrimIdempotent` | app.js:249 | trimming a trimmed name changes nothing |
| `Sanitize.EscapeChar` | app.js:66-72 | each of `& < > " '` maps to an entity that starts with `&`, ends with `;` and holds no markup character; every other character maps to itself |
| `Sanitize.Escape` | app.js:65-74 | the output is at least as long as the input and contains none of `< > " '`; input without special characters is returned unchanged |
| `Sanitize.EscapeRoundTrip` | app.js:65-74 | decoding the five entities in the escaped text gives back exactly the original name |
| `Sanitize.EscapeInjective` | app.js:65-74 | two different names never escape to the same markup |
| `Sanitize.EscapeAppend` | app.js:73 | escaping distributes over concatenation, so it works character by character in order |
| `Sanitize.EscapeAt` | app.js:73 | the character at each position is replaced by its own replacement, between the escaped text before it and the escaped text after it |
| `WheelLabel.Label` | app.js:147 | the label has at most 8 characters; it equals the name exactly when the name has at most 8 characters; otherwise it is 7 leading characters of the name followed by an ellipsis |
| `WheelLabel.LabelIdempotent` | app.js:147 | labelling a label changes nothing |
| `WheelLabel.LongNamesCollide` | app.js:147 | two long names that share their first 7 characters get the same label |
| `Entries.PaletteColour` | app.js:24-27 | the colour of every position is one of the 10 palette colours |
| `Entries.InitialItems` | app.js:38-43 | the starting list has 4 entries carrying the given identifiers, is coloured by position and is within the cap |
| `Entries.AddOutcomeOf` | app.js:249-259 | an add is dropped as an empty name exactly when the input is all white space, and dropped as full exactly when the name is non-empty and 12 or more entries exist |
| `Entries.AfterAdd` | app.js:248-266 | the old list is always kept as a prefix; the list grows by exactly one entry when the add is accepted and stays the same length otherwise (details in `AddEmptyNameUnchanged`, `AddToFullListUnchanged`, `AddAppendsOne`) |
| `Entries.AddEmptyNameUnchanged` | app.js:249-254 | a name that is empty after trimming leaves the list unchanged |
| `Entries.AddToFullListUnchanged` | app.js:256-259 | an add to a list of 12 or more entries is not accepted and leaves the list unchanged |
| `Entries.AddAppendsOne` | app.js:261-266 | a successful add grows the list by exactly one; earlier entries are unchanged; the new last entry has the given id, the trimmed non-empty name and colour `COLORS[oldLength % 10]` |
| `Entries.AddPreservesWellFormed` | app.js:256-266 | add keeps the list within 12 entries and coloured by position |
| `Entries.WithoutId` | app.js:276 | the filter never lengthens the list and keeps no entry with the given id |
| `Entries.WithoutIdMembers` | app.js:276 | an entry survives the filter exactly when it is in the list and its id differs from the given one |
| `Entries.WithoutIdAppend` | app.js:276 | filtering distributes over concatenation, so relative order is kept |
| `Entries.WithoutIdAbsent` | app.js:276 | filtering by an id no entry has keeps the list as it is |
| `Entries.WithoutIdUnique` | app.js:276 | with distinct ids, filtering by the id of entry k removes entry k and nothing else |
| `Entries.Recoloured` | app.js:278-280 | recolouring keeps length, ids and names, and gives entry i colour `COLORS[i % 10]` |
| `Entries.RecolouredFixesColoured` | app.js:278-280 | recolouring a list already coloured by position changes nothing |
| `Entries.AfterDelete` | app.js:275-280 | a delete never lengthens the list, leaves no entry with the deleted id, and the result is coloured by position whatever the old colours were (details in `DeleteKeepsSurvivors`, `DeleteUniqueRemovesOne`) |
| `Entries.DeleteKeepsSurvivors` | app.js:275-280 | after a delete the survivors keep their ids and names in their original order, none has the deleted id, and entry i has colour `COLORS[i % 10]` |
| `Entries.DeletePreservesWellFormed` | app.js:275-280 | delete keeps the list well formed and never makes it longer |
| `Entries.DeleteAbsentUnchanged` | app.js:275-280 | deleting an id no entry has leaves a well-formed list exactly as it was |
| `Entries.DeleteUniqueRemovesOne` | app.js:275-280 | with distinct ids, deleting entry k shortens the list by one; entries before k are unchanged; later entries move up one place with their ids and names |
| `Roulette.SpinOutcomeOf` | app.js:286-294 | a spin starts exactly when no spin runs and at least 2 entries exist; it is ignored as already spinning exactly when a spin runs |
| `Roulette.Initial` | app.js:38-46 | the starting state has 4 entries, satisfies the invariant and has no spin running |
| `Roulette.Step` | app.js:248-325 | add and delete never touch the spinning flag; spin requests and completions never touch the list; a completion always leaves the page idle (preservation in `StepPreservesInvariant`) |
| `Roulette.Run` | app.js:248-325 | a sequence of only spin requests and completions leaves the list unchanged (preservation in `RunPreservesInvariant`) |
| `Roulette.StepPreservesInvariant` | app.js:248-294 | every handler keeps the list well formed |
| `Roulette.RunPreservesInvariant` | app.js:248-325 | any sequence of adds, deletes, spins and completions keeps the list within 12 entries and coloured by position |
| `Roulette.ReachableInvariant` | app.js:38-46 | every state reachable from the starting page satisfies the invariant |
| `Roulette.SpinRejectedUnchanged` | app.js:287-292 | a spin request while spinning, or with fewer than 2 entries, changes neither the flag nor the list |
| `Roulette.SpinAccepted` | app.js:294 | an accepted spin sets the flag and leaves the list as it is |
| `Roulette.SpinCycleRestores` | app.js:286-325 | from an idle page, a spin followed by its completion returns to exactly the same state |
| `Roulette.SpinReadyPreserved` | app.js:286-294 | add, spin and completion keep "spinning implies at least 2 entries" |
| `Roulette.DeleteWhileSpinning` | app.js:275-284 | delete, which is not guarded by the flag, can leave a spinning wheel with a single entry |
| `Roulette.App.constructor` | app.js:38-46 | the page starts with the 4 default entries and no spin running, which is a valid state |
| `Roulette.App.HandleAddItem` | app.js:248-273 | the new state is `Step` of the old one for this add, the returned outcome says why an add was dropped, and validity is kept |
| `Roulette.App.HandleDeleteItem` | app.js:275-284 | the filter and the in-place recolouring loop together yield exactly `AfterDelete` of the old list; the flag is unchanged and validity is kept |
| `Roulette.App.HandleSpin` | app.js:286-296 | the flag is set exactly when the spin is accepted; the outcome tells apart an ignored request and a refused one |
| `Roulette.App.OnSpinComplete` | app.js:322-325 | the page is idle again and the list is unchanged |

## Left out

- Canvas drawing (`drawWheel`, `drawCenterCircle`, `drawPlaceholder`, `resizeCanvas`, and `drawSegmentText` apart from its label) is not modelled. It only paints on a 2D context, using DOM geometry and the device pixel ratio.
- The spin animation is not modelled: the random turn count, `easeOutCubic`, the frame loop and the rotation value. It is floating-point arithmetic driven by a clock and `Math.random`.
- The winner computation in `onSpinComplete` is not modelled; it is floating-point trigonometry. Because delete is not blocked during a spin (`DeleteWhileSpinning`), that computation can run with fewer entries than the spin started with. With an empty list it reads an entry that does not exist.
- `generateId` is not modelled. Identifiers are parameters: the constructor takes four, and every add takes one.
- List rendering, the toast, the result dialog and confetti are DOM effects and timers, and are not modelled. The `AddOutcome` and `SpinOutcome` values record which notice the code would show.
- Event wiring, the input field's clearing and focus, and the resize debounce are browser plumbing and are not modelled.
- Persistence, reset and loading saved entries are not part of this code and are not modelled.
- `WheelLabel.Label`: lengths count characters, whereas JavaScript counts UTF-16 code units. Names outside the Basic Multilingual Plane can therefore get a different cut than in the browser. Only this cut is affected: `Sanitize.Escape` and `JsString.Trim` match or replace single characters that are each one UTF-16 code unit, so they behave the same on either view of a string.
- `Roulette.App.HandleDeleteItem`: entries are values here. In the code, the recolouring writes into the entry objects that the filter kept. Object identity and aliasing are not modelled.
