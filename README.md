# Phonebook store, search and pagination in Dafny

This project models the core of a single-user phonebook: the `Phonebook`
store (`src/phonebook.py`), which keeps contact records in an in-memory list
mirrored by a CSV file, searches them by field criteria, and the `chunk`
helper (`src/misc.py`) that splits the list into pages for display.

- `Records` (records.dfy): a record is a map from field name to string; the
  seven field names are fixed, in order (`ID`, `Имя`, `Отчество`, `Фамилия`,
  `Организация`, `Рабочий телефон`, `Личный телефон`). The CSV file is a
  sequence of rows of values, header first. Writing a record lays out its
  values in field order; reading zips the header with a row. The two are
  proved inverse, so the loaded list equals the written one.
- `Matching` (matching.dfy): criteria normalisation, the per-field
  comparison, the `all(...)` match predicate and `Filter`, the specification
  of the search loop, with the properties of the result.
- `Store` (phonebook.dfy): the `Phonebook` class. `records` is the list;
  the ghost field `fileRows` is the file. `Valid()` says the file holds
  exactly the header and the rows of `records`. `Add`, `Edit` and `Search`
  follow the source step by step. The source has one search loop for the
  strict mode (`==`) and one for the loose mode (`in`); the model has one
  loop whose comparison `Matching.Holds` picks `==` or `in` by the flag.
- `Menu` (menu.dfy): the rules the menu screens of `src/program.py` apply
  around the store: new ID = `len(records) + 1`, edit ID in `1..len(records)`,
  values at most 16 characters, the edited record keeps its ID.
- `Misc` (misc.dfy): `chunk` as a recursive function on sequences, with its
  flatten round-trip, page sizes, page count and page contents.

Lower-casing is Python's Unicode-aware `str.lower`. It is a parameter
`lower: string -> string` of every search member. Nothing proved depends
on what it does to characters, not even that it is idempotent.

Where the documented design and the code differ, the model follows the code:

- In case-sensitive mode the code does not lower-case the criterion but still
  lower-cases the record value (`src/phonebook.py:43`, `:50`, `:55`). A strict
  case-sensitive search for `"Ivan"` therefore does not find a record whose
  first name is `"Ivan"`, while a strict case-sensitive search for `"ivan"`
  does. The design expects the opposite. `Matching.IvanCapitalisedStrictSearch`,
  `Matching.IvanLowerCaseStrictSearch` and
  `Matching.CaseSensitiveStrictNeedsLowerCase` state the behaviour as written.
- `add` does not reload the list from the file, and `edit` does not reload it
  either. For records whose values are all strings, `Phonebook.FileAgrees`
  proves that a reload would give the same list. The menu stores the ID as an
  `int` (`src/program.py:85`, `:142`), so for the program as written a reload
  gives the same list only up to `str` of each ID.
- `add` does not check value lengths; only the input screen does
  (`src/program.py:89`, `:146`). So the length rule is a precondition of
  `Menu.AddContact` and `Menu.EditContact`, not of `Phonebook.Add`.
- `edit` uses Python list indexing: ID 0 overwrites the last record and
  negative IDs count from the end. Only an index outside the list fails
  (`IndexError`). `Phonebook.Edit` models this; the `1..len(records)` rule
  is the menu's (`src/program.py:123`).
- Loading does not compare the file header with the field list.

## Model

| member | source | states |
|---|---|---|
| `Records.FieldNamesShape` | src/phonebook.py:10 | there are seven field names and no two are equal |
| `Records.ZipAt` | src/phonebook.py:18-20 | zipping distinct header names with a row gives a map on exactly those names, name i mapped to value i |
| `Records.RecordRoundTrip` | src/phonebook.py:25-27 | writing a well-formed record and reading its row back gives the same record |
| `Records.RowRoundTrip` | src/phonebook.py:18-20 | reading a full row gives a well-formed record that is written back as the same row |
| `Records.LoadAfterWrite` | src/phonebook.py:32-35 | a file written from well-formed records is readable and loads back to exactly those records, in order |
| `Records.WriteAfterLoad` | src/phonebook.py:18-20 | the records loaded from a well-formed file are well-formed and writing them back reproduces the file |
| `Matching.Filter` | src/phonebook.py:47-56 | the search result is never longer than the record list |
| `Matching.FilterMembership` | src/phonebook.py:49-56 | a record is in the result iff it is in the store and every applied criterion holds for it |
| `Matching.FilterCount` | src/phonebook.py:49-56 | each matching record appears in the result as often as in the store, and a non-matching one not at all |
| `Matching.FilterIsSubsequence` | src/phonebook.py:49-56 | the result is a subsequence of the records, in store order |
| `Matching.FilterMonotone` | src/phonebook.py:47-56 | if every record matching one way also matches another way, the first result is a subsequence of the second |
| `Matching.BlankCriteriaReturnAll` | src/phonebook.py:42-56 | with every criterion None or empty, the search returns all records in order |
| `Matching.StrictWithinLoose` | src/phonebook.py:47-56 | the strict result is a subsequence of the non-strict result for the same criteria |
| `Matching.ExtraCriterionNarrows` | src/phonebook.py:42-56 | filling in one more blank criterion with a non-empty value yields a subsequence of the previous result |
| `Matching.CaseSensitiveStrictNeedsLowerCase` | src/phonebook.py:43-50 | a strict case-sensitive search for a value that no string lower-cases to returns nothing |
| `Matching.IvanLooseSearch` | src/phonebook.py:42-56 | a loose case-insensitive search for "iv" finds the record with first name "Ivan" |
| `Matching.IvanCapitalisedStrictSearch` | src/phonebook.py:42-50 | a strict case-sensitive search for "Ivan" does not find the record with first name "Ivan" |
| `Matching.IvanLowerCaseStrictSearch` | src/phonebook.py:42-50 | a strict case-sensitive search for "ivan" finds the record with first name "Ivan" |
| `Store.PythonIndex` | src/phonebook.py:31 | a Python list index in range addresses a position below the length, congruent to it modulo the length |
| `Store.Phonebook.constructor` | src/phonebook.py:8-20 | with no file, no records and a header-only file; with a file, the records are the file's data rows; both valid |
| `Store.Phonebook.FileAgrees` | src/phonebook.py:18-35 | in a valid store, reloading the file yields exactly the in-memory records |
| `Store.Phonebook.Add` | src/phonebook.py:22-27 | records become old records plus the new one; the file gains exactly that record's row; file and list still agree |
| `Store.Phonebook.Edit` | src/phonebook.py:29-35 | in-range index: that position replaced, length and other records kept, file rewritten as header plus all records; out of range: nothing changes; ID 0 overwrites the last record |
| `Store.Phonebook.Search` | src/phonebook.py:37-58 | the result is the filter of the records: a subsequence in store order, containing a record iff it matches every non-blank criterion, each matching record as often as the store holds it; the store is not changed |
| `Menu.DecimalString` | src/program.py:85 | the ID text is non-empty decimal digits without a leading zero, denoting the ID |
| `Menu.NewRecord` | src/program.py:85-91 | the built record is well-formed, its ID is the given number and the other fields hold the entered values in order |
| `Menu.IdsAreUnique` | src/program.py:83-85 | when each ID is its 1-based position, no two records share an ID |
| `Menu.AppendKeepsIds` | src/program.py:85-93 | appending a record numbered len(records)+1 keeps every ID equal to its position |
| `Menu.ReplaceKeepsIds` | src/program.py:142-150 | replacing record i by one numbered i+1 keeps every ID equal to its position |
| `Menu.AddContact` | src/program.py:85-93 | the new record is numbered len(records)+1 and appended; IDs that are positions stay positions |
| `Menu.EditContact` | src/program.py:121-150 | for 0 < id <= len(records), record id is replaced by one with the same ID; IDs that are positions stay positions |
| `Misc.Chunk` | src/misc.py:4-7 | every page is non-empty and at most `size` long; `size` defaults to 10 |
| `Misc.ChunkFlatten` | src/misc.py:4-7 | for size >= 1, joining the pages gives back the list in order |
| `Misc.ChunkFullPages` | src/misc.py:5-7 | every page but the last has exactly `size` elements |
| `Misc.ChunkAt` | src/misc.py:6-7 | page i is the slice from i*size to min((i+1)*size, length) |
| `Misc.ChunkCount` | src/misc.py:6-7 | for size >= 1, there are no pages iff the list is empty, and the page count is the ceiling of length/size |
| `Misc.ChunkDegenerate` | src/misc.py:4-7 | an empty list gives no pages (default size 10), and size 0 gives no pages whatever the list |

## Left out

- The bytes of the CSV file: UTF-8, quoting and escaping by Python's `csv` module, newline handling and the file path. The file is a sequence of rows of values.
- I/O failures (unreadable or unwritable file); every write is taken to succeed.
- Store.Phonebook.constructor: requires an existing file to start with the canonical header and every data row to have seven values. `DictReader`'s handling of an empty file, a different header, short or long rows and blank lines is not modelled.
- Store.Phonebook.Add and Store.Phonebook.Edit: require a record with exactly the seven fields. A record with extra keys makes `DictWriter` raise `ValueError` after the list was already changed; that path is not modelled.
- Store.Phonebook.Add and Store.Phonebook.Edit: a record with fewer than seven keys is accepted by the source, and `DictWriter` writes `""` for each missing field, so the list and a reload then disagree. The requirement of all seven fields leaves this case out.
- Aliasing: `add` stores the caller's own dict (`src/phonebook.py:24`) and `search` returns the stored dicts (`:51`, `:56`). A caller that later mutates one of them changes the list without touching the file. Records here are immutable values, so the model does not capture this sharing.
- Store.Phonebook.Search: requires every non-blank criterion to name a field. The `KeyError` raised for an unknown field, which depends on `all`'s short-circuit order, is not modelled.
- The in-memory ID of a record added or edited by the menu is a Python `int` (`src/program.py:85`, `:142`) until the file is reloaded, which yields the string; every value, ID included, is a string here, so the list-equals-reload property holds only up to `str` of the ID for the program as written.
- `lower`: Unicode case mapping is not modelled; it is an arbitrary function.
- Misc.Chunk: a negative size, which makes `islice` raise `ValueError`, is excluded by the type `nat`. Pages are sequences rather than tuples.
- The menu front end of `src/program.py`: prompts, screen clearing, recursive navigation, page browsing, and parsing of the typed ID (`startswith("-")`, `isdigit`). Its search call at `src/program.py:220` passes one argument to the three-argument `search` and is not modelled.
- `src/config.py`: reading the settings file. Its clamps (page size reset to 10 below 1, column width at least 16) appear only as `size >= 1` in the `Chunk` lemmas and the fixed 16-character limit.
- `src/input_handler.py`, `main.py` and `src/main.py` are earlier stubs with empty bodies and are not part of this model.
