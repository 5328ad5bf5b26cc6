# Chip input: a Dafny model

A model of the tag input implemented by the React component `Chip`
(`src/components/Chip.tsx`). The user types into a text field. The field keeps
only letters, digits and spaces, and the list of candidates below it is
narrowed to the catalogue entries whose name contains the typed text. A
candidate becomes a chip when it is clicked, and Enter turns the typed text
into a free-text chip. Backspace on an empty field first highlights the last
chip and then deletes it. Deleting a chip that came from the catalogue puts
its entry back at the end of the candidate list.

The component's state is the four fields `chips`, `inputValue`,
`filteredItems` and `highlightedChip`, plus the fixed four-entry catalogue.
It is modelled as the class `ChipComponent.ChipInput`, with one method per
event handler. Each handler is one atomic transition.

The project has four modules:

- `ChipText` (`chip_text.dfy`) holds the string operations the handlers use:
  - the allowed-character test and `replace` of disallowed characters (`Sanitize`);
  - ASCII `toLowerCase` (`Lower`);
  - `includes` (`Contains`);
  - `trim` (`Trim`, with `TrimStart` and `TrimEnd`). It removes the full
    ECMAScript white-space and line-terminator set.
- `ChipItems` (`chip_items.dfy`) holds the records and the list operations:
  - `Item` (a chip has the same shape);
  - removing every entry with an id (`WithoutId`);
  - `find` by id (`FindById`);
  - the candidate filter (`Filter`);
  - the four catalogue entries (`Catalogue`).
- `ChipComponent` (`chip_component.dfy`) holds the class `ChipInput`, with:
  - its invariant `Valid`: the buffer holds only allowed characters, chip ids
    are unique, and every candidate is a catalogue entry that no chip
    represents;
  - the handlers `HandleInputChange`, `HandleKeyDown`, `HandleDeleteChip`
    and `HandleItemClick`;
  - the chip click `HighlightChip`;
  - the click on a chip's remove glyph, `ClickRemove`.
- `ChipScenarios` (`chip_scenarios.dfy`) holds short interactions that run
  on a fresh component over the real catalogue. Each one states the outcome
  that the handlers' contracts imply.

Behaviour of the code that the model follows as written:

- A value containing a disallowed character is stored with those characters
  removed. In that branch nothing is cut to 20 characters, the candidates are
  not refiltered and the highlight stays. So the buffer can hold more than 20
  characters (`ChipScenarios.OverlongWithPunctuation`).
- An over-long clean value is cut to 20 characters for the buffer, but the
  candidates are filtered with the whole value.
- Deleting a chip appends its catalogue entry to the candidates even when the
  entry is already there. Deleting the same chip twice is therefore not
  idempotent (`ChipScenarios.DeleteTwice`).
- Typing "Jo" lists both John Doe and Alice Johnson, since "johnson"
  contains "jo" (`ChipScenarios.JoCandidates`).
- The remove glyph sits inside the chip element, so its click also reaches
  the chip's highlight handler. React keeps the last update, so the
  highlight ends up on the deleted chip's position
  (`ChipScenarios.RemoveGlyphLeavesHighlight`).
- Backspace is one atomic step, as the user experiences it. It deletes the
  last chip when that chip is already highlighted and otherwise highlights
  it.
- The clock reading that becomes a free-text chip's id is the parameter
  `now` of `HandleKeyDown`.

## Model

| member | source | states |
|---|---|---|
| ChipText.Sanitize | src/components/Chip.tsx:68 | The result holds only characters of `[a-zA-Z0-9 ]`, exactly the allowed characters of the input, and is never longer. It equals the input exactly when the input has no disallowed character, and is strictly shorter otherwise. |
| ChipText.SanitizeAppend | src/components/Chip.tsx:68 | Removal works character by character, keeping order: sanitising a concatenation concatenates the sanitised parts. |
| ChipText.IsAllowed | src/components/Chip.tsx:27 | A character is allowed exactly when `/[^a-zA-Z0-9 ]/` does not match it: an ASCII letter, a digit or a space. |
| ChipText.AllAllowed | src/components/Chip.tsx:67 | The negation of `INVALID_CHARS.test(value)`: every character of the value is allowed. |
| ChipText.Lower | src/components/Chip.tsx:38 | `toLowerCase` on ASCII: same length, each upper-case ASCII letter replaced by its lower-case partner (code point plus 32), every other character unchanged in place, so no upper-case ASCII letter is left. |
| ChipText.LowerEqualIff | src/components/Chip.tsx:38 | Two texts have the same lower-cased form exactly when they have the same length and agree position by position up to ASCII case; both directions are proved. |
| ChipText.Contains | src/components/Chip.tsx:38 | `includes` holds exactly when the needle occurs at some position of the hay. |
| ChipText.MissingCharNoMatch | src/components/Chip.tsx:38 | A needle with a character the hay lacks is not included in it. |
| ChipText.Trim | src/components/Chip.tsx:45-46 | `trim()` never lengthens the text, a non-empty result neither starts nor ends with white space, and everything of the input after the returned piece is white space. `TrimIsPiece` places the piece right after the leading white space, and `TrimBlank` says when it is empty. |
| ChipText.TrimStart | src/components/Chip.tsx:45 | The result is a suffix of the input. Everything dropped is white space, and the result does not start with white space. |
| ChipText.TrimEnd | src/components/Chip.tsx:45 | The result is a prefix of the input. Everything dropped is white space, and the result does not end with white space. |
| ChipText.TrimIsPiece | src/components/Chip.tsx:45 | `trim` returns the contiguous piece of the input that starts right after the leading white space. |
| ChipText.TrimBlank | src/components/Chip.tsx:45 | `trim()` is empty exactly when the input is all white space; this is the "non-blank buffer" test of Enter. |
| ChipText.TrimUnpadded | src/components/Chip.tsx:46 | A non-empty text without white space at either end is left unchanged by trimming. |
| ChipText.TrimIdempotent | src/components/Chip.tsx:46 | Trimming twice is trimming once. |
| ChipItems.Item | src/components/Chip.tsx:4-11 | The record of a catalogue entry and of a chip (a chip adds nothing): id, name, and an email and a photo address that free-text chips lack. |
| ChipItems.WithoutId | src/components/Chip.tsx:82 | `filter(chip => chip.id !== id)` keeps exactly the entries with another id and leaves none with that id. A list without the id comes back unchanged, and one with it gets strictly shorter. With `WithoutIdAppend` this fixes the result entry by entry, order and number included. |
| ChipItems.WithoutIdAppend | src/components/Chip.tsx:82 | Removal decides entry by entry: removing from a concatenation concatenates what is left of the parts, so the kept entries keep their relative order and number. |
| ChipItems.WithoutIdIdempotent | src/components/Chip.tsx:82 | Removing an id a second time changes nothing. |
| ChipItems.WithoutIdKeepsUnique | src/components/Chip.tsx:82 | Removing entries from an id-unique list keeps it id-unique. |
| ChipItems.AppendUnique | src/components/Chip.tsx:101 | Appending an entry whose id is new keeps the list id-unique. |
| ChipItems.WithoutLastId | src/components/Chip.tsx:56 | In an id-unique list, removing the last entry's id removes exactly the last entry. |
| ChipItems.FindById | src/components/Chip.tsx:83 | `find` succeeds exactly when some entry has the id, and then returns the first such entry. |
| ChipItems.Keeps | src/components/Chip.tsx:38 | The filter callback: no chip has the entry's id, and the entry's lower-cased name includes the lower-cased value. |
| ChipItems.Filter | src/components/Chip.tsx:37-40 | The candidates are exactly the catalogue entries that no chip's id matches and whose lower-cased name contains the lower-cased value. There are never more candidates than catalogue entries. |
| ChipItems.FilterAppend | src/components/Chip.tsx:38 | The filter decides entry by entry and keeps catalogue order: filtering a concatenation concatenates the filtered parts. |
| ChipItems.FilterIgnoresCase | src/components/Chip.tsx:38 | Two values that agree after ASCII lower-casing select the same candidates. |
| ChipItems.FilterCaseBlind | src/components/Chip.tsx:38 | Two values that differ only in the case of ASCII letters ("JO" and "jo") select the same candidates. |
| ChipItems.CatalogueEntries | src/components/Chip.tsx:29-34 | The catalogue has four entries with the distinct ids "1" to "4", in that order, each with an email and a photo. |
| ChipComponent.ChipInput.constructor | src/components/Chip.tsx:15-18 | The initial state has no chips, an empty buffer, no candidates and no highlight. It satisfies the invariant. |
| ChipComponent.ChipInput.HandleInputChange | src/components/Chip.tsx:64-78 | A value with a disallowed character stores the sanitised value and leaves candidates and highlight alone. A clean value is stored cut to 20 characters, the candidates become the filter of the whole value, and the highlight is cleared. Chips never change, and the invariant is kept. |
| ChipComponent.ChipInput.HandleKeyDown | src/components/Chip.tsx:44-60 | Enter with a non-blank buffer appends one chip named by the trimmed buffer, with id `now` and no email or photo, and clears buffer and highlight. Backspace on an empty buffer deletes the last chip if it is highlighted and otherwise highlights it. Every other key or state changes nothing. |
| ChipComponent.ChipInput.HandleDeleteChip | src/components/Chip.tsx:81-90 | The new chips are `WithoutId` of the old ones: every chip with the id is removed and the others stay in their order (`WithoutIdAppend`), and a missing id changes no chip. The catalogue entry with that id, if any, is appended to the candidates. Buffer and highlight are cleared, and the invariant is kept. |
| ChipComponent.ChipInput.HandleItemClick | src/components/Chip.tsx:100-105 | The clicked entry is appended as a chip with all its fields, and the new candidates are `WithoutId` of the old ones: every candidate with its id is removed and the rest stay in their order (`WithoutIdAppend`). Buffer and highlight are cleared, and the invariant is kept. |
| ChipComponent.ChipInput.HighlightChip | src/components/Chip.tsx:123 | A click on a chip highlights its index and changes nothing else. |
| ChipComponent.ChipInput.ClickRemove | src/components/Chip.tsx:122-131 | The remove glyph deletes the chip as `HandleDeleteChip` does (the other chips stay in their order, by `WithoutIdAppend`), the entry returns to the candidates, and the bubbling click leaves the highlight on the deleted chip's index. |
| ChipScenarios.JoSkipsNick | src/components/Chip.tsx:30 | With no chips, the filter drops Nick Giannopoulos for "Jo". |
| ChipScenarios.JoKeepsJohn | src/components/Chip.tsx:31 | With no chips, the filter keeps John Doe for "Jo". |
| ChipScenarios.JoSkipsJane | src/components/Chip.tsx:32 | With no chips, the filter drops Jane Smith for "Jo". |
| ChipScenarios.JoKeepsAlice | src/components/Chip.tsx:33 | With no chips, the filter keeps Alice Johnson for "Jo". |
| ChipScenarios.JoCandidates | src/components/Chip.tsx:29-40 | With no chips, "Jo" selects John Doe and Alice Johnson, in that order. |
| ChipScenarios.TypeJo | src/components/Chip.tsx:73-76 | Typing "Jo" into a fresh component stores "Jo" and lists John Doe and Alice Johnson. |
| ChipScenarios.SelectJohn | src/components/Chip.tsx:100-105 | After "Jo" and a click on John Doe, John is the only chip, Alice is the only candidate, and buffer and highlight are empty. |
| ChipScenarios.HighlightJohn | src/components/Chip.tsx:50-53 | A first Backspace on that state only highlights chip 0. |
| ChipScenarios.BackspaceTwice | src/components/Chip.tsx:50-58 | A second Backspace deletes the chip, clears the highlight and returns John Doe to the end of the candidates. |
| ChipScenarios.DeleteJohn | src/components/Chip.tsx:81-90 | Deleting John's chip empties the chips and appends John to the candidates. |
| ChipScenarios.DeleteTwice | src/components/Chip.tsx:85 | Deleting the same id again appends John Doe a second time, so deletion is not idempotent. |
| ChipScenarios.SanitizeTrailing | src/components/Chip.tsx:67-68 | Clean text followed by one disallowed character fails the allowed-character test and sanitises back to the clean text. |
| ChipScenarios.OverlongWithPunctuation | src/components/Chip.tsx:67-70 | A 22-character value ending in "!" is stored as its 21 clean characters: the sanitising branch applies no 20-character cap. |
| ChipScenarios.EnterWord | src/components/Chip.tsx:45-48 | A clean, non-blank word of at most 20 characters followed by Enter gives exactly one chip. Its name is the trimmed word, which trimming no longer changes, its id is the clock reading, and it has no email or photo. The buffer ends empty. |
| ChipScenarios.EnterBlank | src/components/Chip.tsx:45 | Enter after typing only spaces adds no chip and keeps the buffer. |
| ChipScenarios.RemoveGlyphLeavesHighlight | src/components/Chip.tsx:123-129 | Removing the only chip with its remove glyph leaves no chips and the highlight on index 0. |

## Left out

- Rendering is not modelled, because it is presentation: the JSX, CSS classes, images, the placeholder text and the unused `KEY` table.
- Focus handling is not modelled, because it is a DOM side effect: `useEffect` focusing the input and `handleFocusInput`'s child lookup.
- React's batched, asynchronous state updates and the `setTimeout` in the Backspace handler are not modelled. Each handler is one atomic transition.
- In the source, Backspace's delayed check compares the highlight captured when the component rendered. The model compares the highlight current at the keypress, which is what a user pressing Backspace twice in separate events sees.
- `Date.now()` is not modelled, because it is a clock read. Its reading is the parameter `now`.
- The global regex's `lastIndex` state under `test` is not modelled. The test is modelled as "the value contains a disallowed character".
- `toLowerCase` is modelled on ASCII letters only. The filter runs only on values that passed the `[a-zA-Z0-9 ]` check, and the catalogue names are ASCII.
- ChipComponent.ChipInput.HandleKeyDown: the invariant after Enter is promised only when `now` is an id that no chip and no catalogue entry has. A clock reading can collide with an existing id, and then chip ids are no longer unique.
- ChipComponent.ChipInput.HandleItemClick: requires the clicked entry to be a current candidate, as it is in the rendered list. The model does not cover clicks on entries the list does not show.
- ChipComponent.ChipInput.HighlightChip: the index is any natural number. The rendered list only offers indices of existing chips, and the model keeps no range invariant on the highlight, because the remove glyph can leave it past the end.
- Email and photo are optional in the model's `Item`, because free-text chips are built without them. In the source they are typed as strings and are simply absent at run time.
