# Dictionary autocomplete plugin — Dafny model

This project models the core of an Obsidian plugin that keeps a list of known
terms and suggests them while the user types. The model covers these parts:

- **`levenshteinDistance`**: edit distance by a table filled row by row
  (`edit_distance.dfy`).
- **Word-completion suggester** (`DictionaryDevAutocomplete`,
  `autocomplete.dfy`):
  - It finds the word around the cursor, using the fixed separator list
    `excluded_chars`.
  - It looks the word up in the term list, case-insensitively, and ranks the
    matches by edit distance. The sort is stable (`sorting.dfy`).
  - It replaces the word with a `[[term]]` link. The term is lower-cased
    when the typed word starts with a lower-case letter and the term's
    second character is a lower-case letter.
- **Definition suggester** (`DictionaryDevDictAddition`, `dict_addition.dfy`):
  - It recognises an inline definition `!!!name: description!!!`.
  - On acceptance, it asks the vault for a record `Dictionary/<note path
    without .md>/<name>.md` that holds the description.
  - It replaces the marked text with `[[name]]`.
- **Term list** `dictionary_terms` (`term_store.dfy`):
  - It is filled at load time by a worklist walk over the `Dictionary`
    folder tree.
  - It is updated by the vault's `create` and `rename` notifications.

The JavaScript string built-ins the plugin uses are modelled with their
ECMAScript semantics in `jsstring.dfy`: `at` with negative indices,
`substring` with clamping and swapping, `indexOf`, `lastIndexOf`,
`includes`, and the case mappings, restricted to ASCII letters.

Behaviour of the code worth noting:

- The definition scanner does not reject an empty description (main.ts:167,
  `DictAddition.EmptyDescriptionAccepted`).
- The case rule lower-cases only when upper-casing changes the term's second
  character (main.ts:143). A digit does not change, so `D2x` stays `D2x`.
- No suggestion cap is applied. The `limit: 4` and `limit: 5` members
  (main.ts:57, 152) are type annotations, not initialisers.

Behaviour of the code that the model keeps and proves:

- With the cursor at offset 0, `line.at(-1)` reads the last character of
  the line (`Autocomplete.CursorAtLineStart`).
- `onTrigger` reads the line at `cursor.line` but the offset from
  `getCursor("from")`, so the offset may lie past the end of the line. Such
  an offset reads `undefined`, which no check rejects; the result is the one
  for the cursor at the line's end (`Autocomplete.CursorPastLineEnd`).
- `getSuggestions` never returns the empty term, because the filter
  callback returns the term itself and `""` is falsy.
- When the rescanned span in `selectSuggestion` is empty, `toUpperCase` is
  called on `undefined` and throws. The model returns `None` for this case.
- The `rename` handler has no folder check and no duplicate check
  (`TermStore.RenameCanDuplicate`).

## Model

| member | source | states |
|---|---|---|
| EditDistance.Distance | main.ts:40-51 | the recurrence the table follows: a matching last character carries the diagonal value, otherwise one plus the cheapest of the three neighbours; its result is at most the sum of the lengths |
| EditDistance.LevenshteinDistance | main.ts:18-54 | the returned value is the recurrence's distance between the two strings, in either argument order; when either string is empty it is the other's length |
| EditDistance.FillRow | main.ts:39-51 | filling row `i` makes each cell `[i, j]` the distance between `second[..i]` and `first[..j]` and leaves the other rows unchanged |
| EditDistance.DistanceSelf | main.ts:18-53 | a string is at distance 0 from itself |
| EditDistance.DistanceSymmetric | main.ts:18-53 | swapping the two strings does not change the distance |
| EditDistance.DistanceBounds | main.ts:18-53 | the distance is at least the difference of the lengths and at most the longer length |
| EditDistance.DistanceZeroIff | main.ts:18-53 | the distance is 0 exactly when the strings are equal |
| StableSort.SortByProperties | main.ts:110-112 | the sorted sequence is ordered by key, is a permutation of the input, and keeps the input order among equal keys |
| StableSort.StableSortUnique | main.ts:110-112 | any sequence that is ordered by key and keeps each key's elements in input order equals the modelled sort, so every stable sort agrees with it |
| Autocomplete.ScanStart | main.ts:74-79 | the backward scan stops just after the nearest separator at or before its start index, or at 0, with no separator in between |
| Autocomplete.ScanEnd | main.ts:81-86 | the forward scan stops at the first separator at or after its start index, or at the line's end; started at -1 it stops at -1 only when the last character is a separator |
| Autocomplete.ScanEndWraps | main.ts:81-84 | started at -1 with a separator as the line's last character, the forward scan stops at -1, since `line.at(-1)` reads that character |
| Autocomplete.ScanBounds | main.ts:72-86 | the two loops with `break` return the backward and forward scan bounds from the character before the cursor |
| Autocomplete.OnTrigger | main.ts:59-98 | for any line and any cursor offset, including one past the line's end, the method returns the trigger specified for them, including every rejection |
| Autocomplete.TriggerRejects | main.ts:62-70 | an empty line is rejected; a separator before the cursor is rejected; at offset 0 a separator as the line's last character is rejected |
| Autocomplete.TriggerIsWord | main.ts:72-97 | for a cursor at offsets 1 to the line's length, on success `[start, end)` holds the character before the cursor, has no separator, is bounded by a separator or the line's ends, and the query is its text of length >= 2 |
| Autocomplete.WordIsTrigger | main.ts:72-97 | every separator-free maximal word of length >= 2 around the character before the cursor is reported, with its exact range |
| Autocomplete.FirstWordTriggers | main.ts:59-98 | with the cursor right after a first word of at least two non-separator characters followed by a space, as after `hello` in `hello world`, the trigger is that word, from offset 0 to the word's length |
| Autocomplete.SpaceBeforeCursorRejects | main.ts:66-70 | with the cursor before `b` in `a. b`, the character before the cursor is a space, so there is no trigger |
| Autocomplete.CursorPastLineEnd | main.ts:59-98 | an offset past the end of the line gives the same result as the offset at the line's end |
| Autocomplete.SeparatorsListed | main.ts:5 | the written-out separator test holds exactly for the characters of `excluded_chars` |
| Autocomplete.CursorAtLineStart | main.ts:66-86 | at offset 0, once the last character is not a separator, the result is the one for offset 1 |
| Autocomplete.QueryHasNoSeparator | main.ts:72-96 | no character of a trigger's query is a separator |
| Autocomplete.ScannedQueryIsLiteral | main.ts:102-104 | a scanned query with no vertical bar or backslash has no regular-expression metacharacter after upper-casing, so the regex match is substring search |
| Autocomplete.MatchingTerms | main.ts:106-110 | each term is kept as often as the list holds it when it is non-empty and its upper-cased form contains the query, and is dropped otherwise |
| Autocomplete.GetSuggestions | main.ts:100-114 | the result holds exactly the matching terms, with their multiplicity; it is ordered by distance to the upper-cased query; equally near terms keep their list order |
| Autocomplete.SuggestionsUnique | main.ts:110-112 | any ordering with those properties is the one returned |
| Autocomplete.AdaptCase | main.ts:141-145 | the term is unchanged or lower-cased, with the same length and upper-cased form; it changes only when the span's first character and the term's second character are lower-case letters, and then it holds no upper-case letter |
| JsString.UpperCharChanges | main.ts:143 | the test `c !== c.toUpperCase()` holds exactly for the lower-case letters |
| Autocomplete.AdaptCaseExamples | main.ts:143-145 | `Dog` after `d` becomes `dog`; `DNA` and `D2x` after `d` and `Dog` after `D` stay unchanged |
| Autocomplete.SelectSuggestion | main.ts:120-148 | the method returns the selection specified for the rescanned span: `[[adapted term]]` over `[start, end)`, or no edit when the span is empty and the source throws |
| Autocomplete.SelectionReplacesTrigger | main.ts:125-147 | right after a trigger, the selection replaces exactly the trigger's range, adapted to the query's first character |
| DictAddition.OnTrigger | main.ts:154-177 | lines of at most 6 characters are rejected; on success the range runs from the first `!!!` to the next `!!!` after it, at least 4 characters on, both markers lie within the line, and the query is the text between them |
| DictAddition.GetSuggestions | main.ts:179-184 | the only suggestion is the query itself |
| DictAddition.TriggerIff | main.ts:157-169 | a definition is found exactly when the line has more than 6 characters, an opening and a later closing `!!!`, and the first `": "` between them comes after at least one character |
| DictAddition.TriggerShape | main.ts:161-176 | on success, the range starts at the first `!!!` and ends where the next `!!!` starts; the first `": "` after the opener has `open+4 <= def` and `def+2 <= close`; the query is the text between the markers |
| DictAddition.EmptyDescriptionAccepted | main.ts:157-176 | `!!!name: !!!` is accepted with query `name: `, for any non-empty name free of `!` and `:` |
| DictAddition.SplitRoundTrip | main.ts:195-197 | when the value holds a `": "`, name, `": "` and description rebuild it, split at the first `": "` |
| DictAddition.TriggerNameNonEmpty | main.ts:161-197 | the name of a found definition is the non-empty text before its first `": "`, and name and description rebuild the query |
| DictAddition.NameOf | main.ts:195 | the name is a prefix of the value: empty when the value has no `": "`, otherwise the text up to its first `": "` |
| DictAddition.DescriptionOf | main.ts:197 | the description is a suffix of the value: everything after the first `": "`, or, when there is none, everything after the first character |
| DictAddition.FolderFor | main.ts:191-200 | the record folder is `Dictionary/` followed by the note path minus its last three characters, or by nothing for a shorter path |
| DictAddition.SelectSuggestion | main.ts:190-213 | the record request always comes last, preceded by a folder request exactly when the folder is missing; the edit replaces `[first !!!, next !!! + 3)` of the cursor line with `[[name]]` |
| DictAddition.AcceptDefinition | main.ts:190-213 | after a trigger, the vault gets a folder request when the folder is missing, then a request for `Dictionary/<path minus 3>/<name>.md` with the description; `[open, close+3)`, which is `!!!` + query + `!!!`, becomes `[[name]]` |
| JsString.IndexOf | main.ts:161-165 | `indexOf` returns the first occurrence at or after the clamped start, or -1 when there is none |
| TermStore.StripExtension | main.ts:241 | a file's term is its name minus the last three characters, or empty for a shorter name |
| TermStore.WalkAddsEveryFile | main.ts:231-242 | the walk adds one term per file in the tree, the file's stripped name, and nothing for a folder |
| TermStore.TermList.constructor | main.ts:3 | the term list starts empty |
| TermStore.TermList.Load | main.ts:231-242 | the growing-worklist loop appends exactly the walk's terms to the list |
| TermStore.TermList.OnCreate | main.ts:248-252 | the list becomes the one the `create` rule gives |
| TermStore.TermList.OnRename | main.ts:254-257 | the list becomes the one the `rename` rule gives |
| TermStore.CreateKeepsDistinct | main.ts:248-252 | `create` keeps a duplicate-free list duplicate-free; it lists the new term exactly when the term was already listed or the path mentions `Dictionary`; other terms are unaffected |
| TermStore.RemoveAll | main.ts:255 | removal leaves no copy of the old term and keeps every other term's count |
| TermStore.RenameMovesTerm | main.ts:254-257 | after `rename` the new term is listed; a different old term is not; other terms keep their counts |
| TermStore.OldTermIsStrippedName | main.ts:255 | for a file at `folder/name`, the term `rename` removes is the name's stripped form |
| TermStore.RenameCanDuplicate | main.ts:254-257 | renaming to a term already listed, other than the old one, leaves that term listed twice |

## Left out

- Plugin lifecycle and settings are not modelled: `loadSettings`, `DEFAULT_SETTINGS`, and the `registerEditorSuggest`/`registerEvent` wiring. They hold no logic of the core.
- Vault I/O is not modelled: `getFolderByPath`, `createFolder` and `create`.
  - The definition suggester's folder lookup becomes the parameter `folderExists`.
  - The requests are returned as values, in the order they are made.
  - The load-time creation of the `Dictionary` folder is outside the model; `TermList.Load` receives the folder's children.
- The UI is not modelled: `renderSuggestion` and `Notice`.
- The active editor and file are parameters: the cursor line's text, the cursor offset, and the note path. A missing editor or file, which would throw in the source, is not modelled.
- Promises are not modelled: both `getSuggestions` are plain functions.
- Autocomplete.GetSuggestions: requires the upper-cased query to contain no regular-expression metacharacter. `RegExp` is not modelled; under this precondition its match is substring containment. `ScannedQueryIsLiteral` shows that a scanned query meets it unless it holds `|` or `\`.
- JsString.Upper and JsString.Lower map only ASCII letters. Unicode case mapping, which can change a string's length, is not modelled.
- Strings are sequences of UTF-16 code units in JavaScript. Dafny's `char` cannot hold a surrogate, so lines with characters outside the Basic Multilingual Plane (such as emoji) are not modelled. For every other line, lengths and indices agree with JavaScript's.
- TermStore.RemoveAll: `Array.remove` is an Obsidian extension whose code is not part of this model. It is taken to remove every occurrence.
- TermStore.TermList.OnCreate: takes the entry's path and name as separate inputs. It does not model that the name is the path's last segment, or whether the entry is a file or a folder; the handler checks neither.
- Deleting a file is not propagated to the list, because the source registers no handler for it.
- A single-threaded caller is assumed. Interleavings of notifications with suggestion requests are not modelled; each handler is one atomic update of the list.
