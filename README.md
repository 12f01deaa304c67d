# Country admin table

A model of the state logic of the country administration table
(`src/components/admin/table/data-table.tsx`). The component keeps four
pieces of state: the list of country records, the ids of the ticked rows,
the delete confirmation (open flag, ids to delete, single or bulk) and the
create/edit form (open flag, mode, draft record). Its event handlers change
that state; they are modelled as the methods of the class
`Table.DataTable`, one method per handler, each run as one atomic step.
The pure parts are functions with lemmas:
- the slug derivation `generateSlug`;
- the header checkbox flags;
- the list transformations the handlers apply (next id, new record,
  record-wise edit, delete filter, untick filter).

Files:

- `js_string.dfy` (module `JsString`): the JavaScript whitespace class
  shared by `\s` and `trim`, `trim` itself, and `toLowerCase` over a
  tabulated range of characters.
- `slug.dfy` (module `Slug`): `generateSlug`, one function per stage
  (lower-case, NFD, mark removal, `đ`/`Đ` replacement, class filter,
  whitespace-run substitution, trim), with a canonical decomposition table
  for the lower-case letters of Latin-1, ă, ĩ, ơ, ũ, ư and the Vietnamese
  block U+1EA1-U+1EF9, which covers every letter of the Vietnamese alphabet
  (`đ` has its own replacement).
- `countries.dfy` (module `Countries`): the record type, the list
  operations, the sample rows, and the record-list invariant (unique
  positive ids, trimmed non-blank names, slugs equal to the slug of the
  name) with one preservation lemma per kind of change.
- `data_table.dfy` (module `Table`): the dialog records, the header
  checkbox flags and the `DataTable` class.

The model keeps these behaviours of the code, which a reader might not
expect:
- the final `trim` of the slug removes whitespace, not hyphens, so a
  leading or trailing hyphen survives;
- saving an edit for an id no row carries changes nothing and raises no
  error (`Countries.EditAbsent`);
- ticking a row appends its id without checking whether it is already
  there;
- a single delete leaves the deleted id in the selection
  (`Table.DanglingSelection` runs the handlers: untick the header, tick
  the first row, delete it from its menu, tick all remaining rows but the last, and the header
  flag shows all ticked although the last row is not).

The save handler tests a blank name as "all whitespace". The source tests
whether `trim` yields the empty string, and `JsString.TrimEmptyIff` proves
the two tests agree.

## Model

| member | source | states |
|---|---|---|
| JsString.Trim | src/components/admin/table/data-table.tsx:127 | `trim` shortens and leaves no whitespace at either end |
| JsString.TrimSlice | src/components/admin/table/data-table.tsx:127 | what `trim` keeps is a contiguous slice of the input, and everything cut off on either side is whitespace |
| JsString.TrimNoEdges | src/components/admin/table/data-table.tsx:127 | a string with no whitespace at either end is its own trim |
| JsString.TrimEmptyIff | src/components/admin/table/data-table.tsx:178 | `!name.trim()` holds exactly when the name is all whitespace (both directions) |
| JsString.SpaceClass | src/components/admin/table/data-table.tsx:125-127 | the whitespace of `\s` and `trim` is exactly the 25 WhiteSpace and LineTerminator code points, none of them an ASCII letter, digit or hyphen |
| JsString.LowerChar | src/components/admin/table/data-table.tsx:120 | the lower-case form of one character: no ASCII capital and no `Đ` comes out, and a character without a tabulated lower-case form is kept |
| JsString.ToLowerCase | src/components/admin/table/data-table.tsx:120 | same length; every character is replaced by its lower-case form, and no ASCII capital and no `Đ` remains |
| Slug.Decompose | src/components/admin/table/data-table.tsx:121 | a character decomposes to a base followed only by combining marks; the base is the character itself or an ASCII letter; slug characters and whitespace are their own decomposition |
| Slug.Nfd | src/components/admin/table/data-table.tsx:121 | `normalize("NFD")` without canonical reordering (see "## Left out"): never shorter, and nothing appears that is not in the input, an ASCII lower-case letter or a combining mark; `NfdChar` and `NfdAppend` say the model decomposes each character in place |
| Slug.StripMarks | src/components/admin/table/data-table.tsx:122 | no combining mark survives, nothing grows, and every character left comes from the input; `StripMarksCount` and `StripMarksAppend` say every other character survives, in order |
| Slug.NfdChar | src/components/admin/table/data-table.tsx:121 | a single character normalises to its canonical decomposition, as Unicode NFD does for a lone character; with `NfdAppend`, the model replaces every character of the name by its decomposition, in place |
| Slug.NfdAppend | src/components/admin/table/data-table.tsx:121 | in the model, normalising a concatenation concatenates the normalised parts (Unicode NFD may reorder marks across the join; see "## Left out") |
| Slug.StripMarksCount | src/components/admin/table/data-table.tsx:122 | every combining mark is gone; every other character survives as often as it occurred |
| Slug.StripMarksAppend | src/components/admin/table/data-table.tsx:122 | mark removal keeps order: removing marks from a concatenation concatenates the results |
| Slug.ReplaceChar | src/components/admin/table/data-table.tsx:123-124 | `replace(/x/g, y)`: same length, every `x` becomes `y`, every other character stays in place |
| Slug.KeepAllowed | src/components/admin/table/data-table.tsx:125 | only characters of `[a-z0-9\s-]` remain and nothing grows; `KeepAllowedCount` and `KeepAllowedAppend` say which survive and in what order |
| Slug.KeepAllowedAppend | src/components/admin/table/data-table.tsx:125 | the class filter keeps order: filtering a concatenation concatenates the filtered parts |
| Slug.KeepAllowedCount | src/components/admin/table/data-table.tsx:125 | a character of `[a-z0-9\s-]` survives as often as it occurred, any other character is gone |
| Slug.KeepAllowedIdentity | src/components/admin/table/data-table.tsx:125 | text already inside the class passes the filter unchanged |
| Slug.Collapse | src/components/admin/table/data-table.tsx:126 | no whitespace survives the substitution |
| Slug.CollapseSpaces | src/components/admin/table/data-table.tsx:126 | `replace(/\s+/g, "-")`: no whitespace survives, the text does not grow, and text without whitespace is unchanged |
| Slug.CollapseRun | src/components/admin/table/data-table.tsx:126 | a whole whitespace run, of any length, yields a single hyphen |
| Slug.CollapseWord | src/components/admin/table/data-table.tsx:126 | a stretch without whitespace passes through unchanged |
| Slug.CollapseTwoWords | src/components/admin/table/data-table.tsx:126 | two words around one space come out joined by one hyphen |
| Slug.CollapseSlug | src/components/admin/table/data-table.tsx:125-126 | after the class filter, the substitution yields slug characters only |
| Slug.GenerateSlug | src/components/admin/table/data-table.tsx:118-128 | the slug consists of `a-z`, `0-9` and `-` only, so it holds no whitespace |
| Slug.GenerateSlugIdempotent | src/components/admin/table/data-table.tsx:118-128 | the slug of a slug is the slug itself |
| Slug.SlugFixed | src/components/admin/table/data-table.tsx:118-128 | every string of slug characters is its own slug |
| Slug.UpperDReplacementIsDead | src/components/admin/table/data-table.tsx:120-124 | the `Đ` replacement never changes anything, because lower-casing ran first and decomposition and mark removal introduce no `Đ` |
| Slug.FinalTrimIsDead | src/components/admin/table/data-table.tsx:126-127 | the final `trim` never changes anything: it removes whitespace, and none is left |
| Slug.WordSlug | src/components/admin/table/data-table.tsx:118-128 | a name that folds to one word has that word as its slug |
| Slug.WordsSlug | src/components/admin/table/data-table.tsx:118-128 | a name that folds to two words around a space has them joined by a hyphen as its slug |
| Slug.DSlug | src/components/admin/table/data-table.tsx:118-128 | the slug of "Đi" is "di": lower-casing gives `đ`, which decomposition leaves alone and the `đ` replacement turns into `d` |
| Slug.VietNamSlug | src/components/admin/table/data-table.tsx:48-52 | the slug of "Việt Nam" is "viet-nam", as the first sample row records |
| Countries.Ids | src/components/admin/table/data-table.tsx:132 | the id column, one per row, in row order |
| Countries.MaxId | src/components/admin/table/data-table.tsx:185 | `Math.max(...ids, 0)`: at least 0, at least every id, and 0 or an id of some row |
| Countries.NewCountry | src/components/admin/table/data-table.tsx:183-188 | the new record's id is above every id in the table, and it is 1 or one more than an existing id; its name is the trimmed input, its slug the slug of that name, its date the given day |
| Countries.EditCountries | src/components/admin/table/data-table.tsx:192-203 | same length and order; ids and dates kept; rows with the draft id get the trimmed name and its slug; all other rows unchanged |
| Countries.EditAbsent | src/components/admin/table/data-table.tsx:192-203 | an edit for an id no row carries leaves the list identical |
| Countries.RemoveIds | src/components/admin/table/data-table.tsx:167 | no remaining row carries a listed id, and the list does not grow |
| Countries.RemoveIdsCount | src/components/admin/table/data-table.tsx:167 | a row with a listed id is gone; any other row survives exactly as often as it occurred |
| Countries.RemoveIdsAppend | src/components/admin/table/data-table.tsx:167 | the delete filter keeps relative order: filtering a concatenation concatenates the filtered parts |
| Countries.RemoveIdsNone | src/components/admin/table/data-table.tsx:167 | a delete listing no id of the table keeps every row |
| Countries.RemoveFirst | src/components/admin/table/data-table.tsx:167 | with unique ids, deleting the first row's id removes exactly that row |
| Countries.Without | src/components/admin/table/data-table.tsx:142 | unticking removes every occurrence of the id and keeps every other id as often as it was there |
| Countries.WithoutAppend | src/components/admin/table/data-table.tsx:142 | unticking keeps the order of the remaining ids |
| Countries.CreateWellFormed | src/components/admin/table/data-table.tsx:183-189 | a create with a non-blank name keeps ids unique and rows well formed |
| Countries.EditWellFormed | src/components/admin/table/data-table.tsx:192-203 | an edit with a non-blank name keeps ids unique and rows well formed |
| Countries.RemoveWellFormed | src/components/admin/table/data-table.tsx:167 | a delete keeps ids unique and rows well formed |
| Countries.MockDataWellFormed | src/components/admin/table/data-table.tsx:47-84 | the six sample rows (the constant `Countries.MockData`) satisfy the invariant: ids 1-6 are unique, names are trimmed, and each stored slug is the slug of its name |
| Table.IsAllSelected | src/components/admin/table/data-table.tsx:214 | the header `checked` flag: it needs a non-empty table and a non-empty selection |
| Table.IsIndeterminate | src/components/admin/table/data-table.tsx:215-216 | the header dash: it needs some tick and excludes the `checked` flag |
| Table.IsChecked | src/components/admin/table/data-table.tsx:280 | a row shows ticked exactly when some entry of the selection is its id |
| Table.DraftOf | src/components/admin/table/data-table.tsx:158-162 | the form's draft copies the row's id, name and date, and without a row it is the empty draft the form resets to |
| Table.FlagsExclusive | src/components/admin/table/data-table.tsx:214-216 | the header checkbox is never ticked and dashed at once |
| Table.AllSelectedIffAllChecked | src/components/admin/table/data-table.tsx:214 | with no id ticked twice and only row ids ticked, the header flag holds exactly when the table is non-empty and every row is ticked (both directions) |
| Table.Saved | src/components/admin/table/data-table.tsx:183-203 | a create appends exactly one record at the end, keeps every earlier record, and gives it an id above all others, the trimmed name, its slug and the given day; an edit keeps the length |
| Table.SavedWellFormed | src/components/admin/table/data-table.tsx:178-203 | saving a non-blank draft keeps the record-list invariant |
| Table.DataTable.constructor | src/components/admin/table/data-table.tsx:87-100 | the sample rows, no ticks, both dialogs closed, and the invariant holds |
| Table.DataTable.SelectAll | src/components/admin/table/data-table.tsx:130-136 | ticking sets the selection to the ids in row order, so every row is ticked and the header flag holds whenever there are rows; unticking empties it; nothing else changes |
| Table.DataTable.SelectCountry | src/components/admin/table/data-table.tsx:138-144 | ticking appends the id with no presence check, unticking removes every occurrence; the row's checkbox then shows the requested state and no other row's checkbox changes |
| Table.DataTable.OpenDeleteDialog | src/components/admin/table/data-table.tsx:146-152 | the confirmation opens with the given ids and kind; nothing else changes |
| Table.DataTable.OpenCountryDialog | src/components/admin/table/data-table.tsx:154-164 | the form opens in the given mode on the row's id, name and date, or on id 0 and empty text without a row |
| Table.DataTable.ConfirmDelete | src/components/admin/table/data-table.tsx:166-173 | exactly the rows with a listed id go; the confirmation resets to closed, no ids, single; the selection is cleared only after a bulk delete; the invariant is kept |
| Table.DataTable.ConfirmCountryAction | src/components/admin/table/data-table.tsx:175-212 | a blank name changes nothing; otherwise the list becomes the saved list and the form resets to closed, create, empty draft; the selection and the delete confirmation never change; the invariant is kept |
| Table.DataTable.SaveDraft | src/components/admin/table/data-table.tsx:183-211 | past the blank test, the list becomes the saved list, the form resets to closed, create, empty draft, the selection and the delete confirmation stay, and the invariant is kept |
| Table.DataTable.SetDeleteDialogOpen | src/components/admin/table/data-table.tsx:339 | only the confirmation's open flag changes; its ids and kind stay |
| Table.DataTable.CancelDelete | src/components/admin/table/data-table.tsx:357 | the confirmation closes and keeps its ids and kind |
| Table.DataTable.SetCountryDialogOpen | src/components/admin/table/data-table.tsx:371 | only the form's open flag changes; mode and draft stay |
| Table.DataTable.SetDraftName | src/components/admin/table/data-table.tsx:390-395 | only the draft's name changes |
| Table.DataTable.CancelCountryDialog | src/components/admin/table/data-table.tsx:403-409 | the form resets to closed, create, empty draft |
| Table.SelectAllThenClear | src/components/admin/table/data-table.tsx:130-136 | ticking the header and then unticking it leaves nothing ticked and the records unchanged |
| Table.DanglingSelection | src/components/admin/table/data-table.tsx:138-173 | on a table with unique ids and at least two rows: untick the header, tick the first row, delete it from its own menu, tick every remaining row but the last; the row is gone, its id is still ticked, and the header flag shows all ticked although the last row is not |
| Table.TickAndDeleteFirst | src/components/admin/table/data-table.tsx:138-173 | a single delete of the only ticked row removes that row and leaves its id as the whole selection |
| Table.TickAllButLast | src/components/admin/table/data-table.tsx:138-144 | ticking the rows one by one appends their ids in row order and changes no record |
| Table.BlankNameScenario | src/components/admin/table/data-table.tsx:178-181 | on any table, saving a create form whose name is only spaces leaves the records, the ticks and the delete confirmation unchanged and the form open on that draft |

## Left out

- Unicode tables: `toLowerCase` is modelled only for ASCII, Latin-1, U+0100-U+012F, Ũ, Ơ, Ư and the Vietnamese block U+1EA0-U+1EF9. NFD is modelled for lower-case Latin-1, ă, ĩ, ơ, ũ, ư and the lower-case Vietnamese block. Every other character is left unchanged by both. The full Unicode case-mapping and decomposition tables are not part of this model.
- The decomposition table keeps U+2000 and U+2001 as themselves, while Unicode normal form D maps them to U+2002 and U+2003. All four are whitespace and become the same hyphen, so no slug changes.
- Slug.Nfd, Slug.NfdAppend: canonical reordering of combining marks is not modelled. Each character is replaced by its decomposition in place, so "ê" (U+00EA) followed by U+0323 gives "e", U+0302, U+0323, where Unicode NFD gives "e", U+0323, U+0302 (combining class 220 before 230). No slug changes: marks in U+0300-U+036F are removed by the next step (line 122), and every other mark by the class filter (line 125).
- Strings are sequences of Unicode scalar values. JavaScript strings are UTF-16 code units: they can hold lone surrogates, and the class filter at line 125 (a regular expression without the `u` flag) sees a character above U+FFFF as two units. No slug changes, because each such unit, and each such character, is outside `[a-z0-9\s-]` and is removed there.
- Ids are JavaScript numbers, that is doubles: the `Math.max(...) + 1` at line 185 is exact only below 2^53. The model uses unbounded integers.
- `getCurrentDate` reads the system clock; the day of a create is the `today` parameter of `ConfirmCountryAction`.
- `formatDate` depends on locale-dependent date formatting; it only feeds the display and is not modelled.
- `console.log` is not modelled. The `alert` on a blank name is modelled as the handler returning with the state unchanged.
- The JSX rendering, the UI widgets and the icons are not modelled. The handlers they invoke are modelled: the row and header checkboxes, the menu items, the cancel buttons, the dialogs' `onOpenChange`, the name field's `onChange` and the confirm buttons.
- The disabled confirm button (line 415) is not a separate member. It applies the same blank test that `ConfirmCountryAction` applies first.
- React's batching of state updates and stale closures are not modelled; each handler is one atomic state change.
- The optional fields of the record interface are modelled as always present, which every row the table holds satisfies.
