# Contact list store — a Dafny model

The application is a single-page contact manager: a form adds or edits a
contact (name, phone, email), a table lists the contacts filtered by a search
box and sorted by a clicked column, and each row can be edited or deleted.
The list lives in the browser's local storage under one key and is written
back in full after every change.

This project models the component's logic in Dafny:

- `Text` — the character classes of the two regular expressions, ASCII
  lower-casing, substring search (`includes`) and the `<` order on strings.
- `Validation` — the phone rule (`^[0-9]+$`) and the email rule
  (`^[^\s@]+@[^\s@]+\.[^\s@]+$`), each as a plain predicate (`IsPhone`,
  `IsEmail`) proved equivalent to a predicate shaped like the pattern itself
  (`DigitsPlus`, `EmailPattern`).
- `Contacts` — the `Contact` record and the pure sequence edits behind the
  handlers: replace one position (`map`), remove one position (`filter`),
  and the list a successful submit produces.
- `ContactView` — the table: the search filter, the sort comparator, an
  insertion sort standing for the host's `sort`, and the proof that the view
  is exactly the matching contacts, ordered on the chosen column.
- `Store` — class `ContactStore`, one field per state cell and one method per
  handler; each method frames exactly the fields it sets. The storage key is
  the ghost field `saved`, and `Valid()` states write-through
  (`saved == contacts`).

Behaviour kept as the code has it:

- Edit and delete take the row's index in the filtered, sorted view but
  apply it to the stored list. `RowIndexIsNotStoreIndex` exhibits two
  contacts for which row 0 and position 0 differ.
- Deleting does not adjust the editing index. A later submit whose index no
  longer names a position changes nothing in the list (`Submitted`), yet it
  still counts as saved and clears the draft.
- On submit, the email is validated only when the phone passed, so an
  invalid phone leaves the email error untouched.

## Model

| member | source | states |
|---|---|---|
| `Text.ContainsIff` | src/App.js:104-106 | `includes` as modelled holds exactly when the term occurs at some position of the string |
| `Text.LexLessIrreflexive` | src/App.js:109-110 | no string is `<` itself |
| `Text.LexLessAsymmetric` | src/App.js:109-110 | `a < b` and `b < a` never both hold |
| `Text.LexTrichotomy` | src/App.js:109-110 | two strings are equal or one is `<` the other |
| `Text.LexLeTotal` | src/App.js:109-110 | `<=` on strings is total and antisymmetric |
| `Text.LexLessTransitive` | src/App.js:108-112 | `<` on strings is transitive, so the comparator is consistent |
| `Validation.PhoneMatchesPattern` | src/App.js:31-33 | a value is "non-empty and all ASCII digits" exactly when it matches `^[0-9]+$` read structurally |
| `Validation.EmailMatchesPattern` | src/App.js:41-43 | no whitespace, a single `@` not in first place, and a `.` strictly inside the domain, exactly when the value splits as the email pattern |
| `Validation.EmailHasOneAt` | src/App.js:42 | an accepted address has exactly one `@`, and not at position 0 |
| `Validation.ValidatorExamples` | src/App.js:31-49 | "12345" is a phone number; "12a45" and "" are not; "a@b.com" is an address; "a@b" and "a b@c.com" are not |
| `Contacts.ReplaceAt` | src/App.js:64-66 | the mapped list is the old list with position `i` overwritten, or unchanged when `i` names no position |
| `Contacts.RemoveAt` | src/App.js:88 | the filtered list is the old list with position `i` cut out, order kept, or unchanged when `i` names no position |
| `Contacts.Submitted` | src/App.js:62-69 | with no edit in progress the list grows by one, ending in the draft; with an edit at `i` the length is kept, `i` holds the draft and every other position is unchanged; a stale index changes nothing |
| `Contacts.RemoveAtMultiset` | src/App.js:87-88 | deleting a valid position shortens the list by one and takes exactly that contact out of its multiset |
| `Contacts.SubmittedKeepsWellFormed` | src/App.js:53-69 | storing a well-formed draft keeps every stored contact well-formed |
| `Contacts.RemoveAtKeepsWellFormed` | src/App.js:87-91 | deleting keeps every stored contact well-formed |
| `ContactView.Filter` | src/App.js:102-107 | the kept contacts all match, and each contact is kept as often as it is stored if it matches, otherwise never |
| `ContactView.CompareMeaning` | src/App.js:108-112 | the comparator puts `a` no later than `b` exactly when their column values are non-decreasing (`asc`) or non-increasing (`desc`), and it is antisymmetric |
| `ContactView.Insert` | src/App.js:108-112 | insertion adds exactly one element to the multiset |
| `ContactView.Sort` | src/App.js:108-112 | the sorted list is a permutation of its input |
| `ContactView.InsertSorted` | src/App.js:108-112 | inserting into an ordered list keeps it ordered |
| `ContactView.SortSorted` | src/App.js:108-112 | the sorted list has each neighbouring pair in the comparator's order |
| `ContactView.ViewIsSortedSelection` | src/App.js:102-112 | the view is a permutation of exactly the matching contacts, with neighbouring rows ordered on the column in the direction |
| `ContactView.EmptySearchShowsAll` | src/App.js:102-107 | with an empty search term the view is a reordering of the whole list |
| `ContactView.SearchIgnoresCase` | src/App.js:104 | the term "JOH" finds a contact named "John" |
| `ContactView.RowIndexIsNotStoreIndex` | src/App.js:177-178 | a row's position in the view can differ from the stored position that edit and delete act on |
| `Store.NextSort` | src/App.js:93-100 | a header click selects the clicked column; the same column flips the direction, another column starts ascending |
| `Store.SortClickTwiceRestores` | src/App.js:93-100 | two clicks on the selected column restore the column and direction |
| `Store.ContactStore.constructor` | src/App.js:5-25 | the initial state, with the list loaded from storage or empty |
| `Store.ContactStore.ValidatePhone` | src/App.js:31-39 | returns whether the value is a phone number; the phone error is cleared on success and set to the fixed message on failure |
| `Store.ContactStore.ValidateEmail` | src/App.js:41-49 | returns whether the value is an email address; the email error is cleared on success and set to the fixed message on failure |
| `Store.ContactStore.TypeName` | src/App.js:125 | typing sets the name draft |
| `Store.ContactStore.TypePhone` | src/App.js:132-135 | typing sets the phone draft and its error at once |
| `Store.ContactStore.TypeEmail` | src/App.js:143-146 | typing sets the email draft and its error at once |
| `Store.ContactStore.TypeSearch` | src/App.js:158 | typing sets the search term |
| `Store.ContactStore.Submit` | src/App.js:51-77 | an empty field alerts and changes nothing; an invalid phone, or a valid phone with an invalid email, refuses and changes only the errors the validators that ran set; otherwise the list becomes `Submitted(...)`, storage equals it, the draft and editing index reset, and well-formedness is kept |
| `Store.ContactStore.Edit` | src/App.js:79-85 | the draft becomes the contact at the stored position and the editing index that position |
| `Store.ContactStore.Delete` | src/App.js:87-91 | the list loses exactly the given position (nothing for a position out of range), storage equals it, and well-formedness is kept |
| `Store.ContactStore.Sort` | src/App.js:93-100 | the sort selection becomes `NextSort` of the old selection and the clicked column |
| `Store.EditThenSubmit` | src/App.js:63-66 | edit position `i`, retype, submit: on success the length is kept, `i` holds the new values and all other positions are unchanged; on failure the list is unchanged |

## Left out

- Rendering, event wiring, `alert` and `preventDefault` (src/App.js:114-188). The alert is the `MissingField` outcome of `Submit`.
- The `localStorage` calls and the JSON encoding (src/App.js:16-29). Storage is the ghost field `saved`. The constructor takes the already-parsed value of the key. A malformed stored value is not modelled, and neither is the save-then-load round trip through JSON.
- React's hook semantics: batched `useState` updates, `useEffect` and `useCallback`. Each handler is modelled as a sequence of plain field updates.
- The regular-expression engine. Each pattern is a predicate proved equal to a structural reading of the pattern.
- `Text.Lower`: lower-cases ASCII letters only. JavaScript's `toLowerCase` follows full Unicode case mapping.
- `Text.LexLess`: orders strings by Unicode code points. JavaScript compares UTF-16 code units, which differs only for characters outside the Basic Multilingual Plane.
- `ContactView.Sort`: the host's sort algorithm is unspecified. The model uses an insertion sort and promises only what the comparator fixes, a permutation whose neighbours are in order. Which of two contacts with equal column values comes first is not modelled.
- The display-index mismatch between the view and the stored list is kept as the code has it, not corrected. `Store.ContactStore.Edit` therefore requires a position of the stored list. The code throws on an out-of-range index.
