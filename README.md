# BookWorm catalogue rules in Dafny

BookWorm (`run.py`) is a command-line book catalogue. It keeps one Google
Sheets worksheet per user, with one row per book: Title, Author, Year
Published, Genre. Most of the program is I/O: sheet calls, an HTTP lookup,
prompts and terminal output. This project models the deterministic rules
inside that I/O:

- **Field validation.** The rules `add_book` and `update_book` apply to
  each answer, and their `while True` retry loops. A field takes the first
  entry that is not refused. The four fields are read one after another from
  a single stream of entries.
- **The update merge.** An empty answer keeps the current cell. The
  finished update is always four values, written to columns 1 to 4.
- **Account-creation validation.** The username, password and
  confirmation loop of `create_user`.
- **The search filters.** By title, author and genre, case-insensitive, in
  sheet order.
- **Pagination.** Six items per page. This covers the page count and slice
  arithmetic, and the navigation loops of `display_search` (0-based,
  choices hidden at the edges) and `display_books` (1-based, moves
  clamped).
- **The ISBN row.** The row built from a Google Books `volumeInfo` record.

Each `input()` answer is modelled as the next element of a `seq<String>`.
When the sequence runs out, that stands for end of input. `create_user`
catches that and cancels. `add_book` and `update_book` do not catch it, so
their outcome is `RowOutOfInput`. In the navigation loops the session just
stops, because the program would be waiting at the prompt. The prompt of
`display_search` is an `inquirer` list that does not wrap around. Its
answer is modelled as a cursor position, and a position past the end stays
on the last choice.

Modules: `Text` (string helpers), `Validation`, `Account`, `Catalog`
(records and search), `Paging`, `Isbn`.

### Where the rules differ from the program's own messages

- When a field is refused, `add_book` prints "Minimum 2 alphanumeric
  characters" (run.py:202). `update_book` prints "at least 2 alphanumeric
  characters" (run.py:378-379). But the length counts spaces, and only
  spaces are removed before `isalnum`. So `"a "` is accepted and `"  "` is
  refused (`Validation.RuleExamples`).
- `update_book` refuses a non-digit year with a message asking for "a
  4-digit year (YYYY)" (run.py:375-376). Yet any digit string of two or more
  characters is stored, and `"99"` is accepted.
- `add_book` never asks for four digits. It stores an empty year, refuses
  non-digits, and sends a digit string through the general rule. So `"7"`
  is refused and `"12345"` is stored.
- The ISBN path applies no validation. A record without a date is stored
  with the year `"Unkn"` (`Isbn.IsbnYearNotDigits`).

## Model

| member | source | states |
|---|---|---|
| `Text.RemoveSpacesIsAlnum` | run.py:197 | `value.replace(" ", "").isalnum()` holds exactly when some character is not a space and every character is a space or alphanumeric |
| `Text.ContainsIffOccurs` | run.py:449 | the scanning substring test (Python `in`) holds exactly when the query occurs at some index of the field |
| `Text.LowerIdempotent` | run.py:449 | lower-casing twice is lower-casing once |
| `Validation.AddFieldRule` | run.py:197-203 | for Title, Author and Genre in `add_book`, an entry is stored exactly when it has at least 2 characters (spaces count) and is alphanumeric apart from spaces; the entry is stored as typed; any other entry is refused with the "minimum 2 alphanumeric" message |
| `Validation.AddYearRule` | run.py:192-199 | for the year in `add_book`, "" is stored as "", a non-digit entry is refused as an invalid year, and a digit string is stored exactly when it has at least 2 characters |
| `Validation.RuleExamples` | run.py:192-199 | "a " is accepted, "  " is refused, "7" is refused, "12345" is accepted, and in `update_book` "99" is accepted as a year while a non-digit year is refused |
| `Validation.UpdateFieldRule` | run.py:368-382 | in `update_book`, an empty answer keeps the current cell (an `IndexError` when the row has no such cell); a non-empty answer is stored as typed exactly when it has at least 2 characters, is alphanumeric apart from spaces and, for the year, is all digits; a non-digit year gets the year message |
| `Validation.FirstAcceptedIsFirst` | run.py:190-203 | the value a retry loop settles on is decided by the first entry that is not refused, and every earlier entry was refused; if no entry decides, the input ran out |
| `Validation.ReadField` | run.py:190-203 | the `while True` loop over the entries gives exactly the first-accepted result, counted from where the previous field stopped |
| `Validation.FillRow` | run.py:189-203 | the loop over the four fields reads each field's retry loop in order from one stream of entries and builds the row value by value |
| `Validation.RowValuesAccepted` | run.py:189-199 | every value of a completed row is what some entry was accepted as for that field |
| `Validation.AddBook` | run.py:186-205 | the row passed to `append_row` has exactly four values, and each is the accepted value of an entry for its field |
| `Validation.AddedRowValid` | run.py:189-199 | a completed add row meets the rules: non-year values have at least 2 characters and are alphanumeric apart from spaces; the year is empty or a digit string of at least 2 characters |
| `Validation.UpdateBook` | run.py:363-384 | the update is exactly four values, written to columns 1 to 4 in field order; nothing is written if the loop did not complete |
| `Validation.UpdateMerge` | run.py:366-382 | every value of a completed update is either the current cell, kept by an empty answer, or a typed answer that meets the rules (a year must be digits) |
| `Account.CheckRound` | run.py:52-67 | a username shorter than 4 is refused before any password check; the round passes exactly when the username has at least 4 characters, the password at least 8, and the confirmation matches |
| `Account.CreateUser` | run.py:45-71 | the `while True` loop of `create_user` gives the specified outcome: the first passing round's pair, or cancellation when the input ends |
| `Account.AcceptedIsValid` | run.py:51-67 | an accepted pair has a username of at least 4 and a password of at least 8 characters, and was entered as username, password, matching confirmation |
| `Account.ShortUsernamesSkipped` | run.py:51-56 | a too-short username costs one entry; no password is asked for |
| `Account.ValidRoundAccepted` | run.py:57-67 | a passing username, password, confirmation triple ends the loop with that pair |
| `Account.RejectedRoundSkipped` | run.py:57-65 | a short or unconfirmed password throws away the whole round, and the loop asks for a username again |
| `Catalog.FilterAppend` | run.py:447-455 | the filter distributes over concatenation, so matches keep the sheet order |
| `Catalog.FilterMembers` | run.py:447-455 | a book is in the filtered list exactly when some record that passes the test maps to it as (title, author, genre, year) |
| `Catalog.SearchMembers` | run.py:447-455 | a book is in a search result exactly when some record whose chosen column contains the lower-cased query maps to it |
| `Catalog.FilterLength` | run.py:447-455 | the result is never longer than the records; it keeps every record when all pass and is empty when none pass |
| `Catalog.FilterSameKeep` | run.py:449 | two tests that agree on every record select the same books |
| `Catalog.CaseInsensitiveQuery` | run.py:449 | only the lower-cased query matters |
| `Catalog.FilterSameMatches` | run.py:449 | two queries with the same lower-case form find the same books |
| `Catalog.CollectMatches` | run.py:447-455 | the loop over the records appends exactly the records that pass, in sheet order, as books |
| `Catalog.Search` | run.py:440-460 | an empty query gives no result; otherwise the result is exactly the filtered books; a non-empty result goes to the paging display, an empty one to the "no books found" message |
| `Paging.PageCount` | run.py:396 | `(n + 5) // 6` is the least page count holding n items at six per page |
| `Paging.Page` | run.py:400-402 | a page in range has between 1 and 6 items |
| `Paging.PagesFromCover` | run.py:400-402 | the pages from page p on concatenate to the items from position 6p on |
| `Paging.PagesFromShape` | run.py:396-402 | there are `PageCount - p` pages from page p on, the j-th being page p + j |
| `Paging.AllPages` | run.py:394-402 | the pages in order concatenate back to the whole list, there are `PageCount` of them, and each has 1 to 6 items |
| `Paging.Offered` | run.py:420-424 | "Previous page" is offered exactly when not on page 0, "Next page" exactly when not on the last page, and "Quit" always |
| `Paging.Select` | run.py:426-430 | the prompt answers with one of the offered choices |
| `Paging.Answer` | run.py:420-437 | an answer never moves past the last page or before page 0, because those choices are not offered there |
| `Paging.SearchSession` | run.py:398-437 | a session visits at least one page, the one it starts on |
| `Paging.SearchSessionInRange` | run.py:398-437 | every page `display_search` visits is in `[0, num_pages - 1]` |
| `Paging.SearchMovesByOne` | run.py:432-437 | each Next or Previous moves by exactly one page, and each visit after the first used one answer |
| `Paging.DisplaySearch` | run.py:390-437 | the loop prints exactly the pages of the specified session, each with 1 to 6 items, and reports whether it ended with Quit |
| `Paging.InventoryPage` | run.py:596-602 | a page has at most 6 rows, and a page numbered within `total_pages` has at least one |
| `Paging.InventoryPageIsPage` | run.py:594-600 | `display_books` counts pages with `(n + 5) // 6`, like `display_search`, and its 1-based page k is the 0-based page k - 1 |
| `Paging.InventoryStep` | run.py:612-617 | Next and Previous are clamped, so the page stays in `[1, total_pages]` |
| `Paging.InventorySession` | run.py:593-619 | a session visits at least one page, the one it starts on |
| `Paging.InventorySessionInRange` | run.py:593-619 | every page `display_books` visits is in `[1, total_pages]` |
| `Paging.DisplayBooks` | run.py:583-619 | the page loop prints exactly the pages of the specified session, each with 1 to 6 rows; with no records the page loop does not run |
| `Isbn.YearOf` | run.py:245 | the year is at most 4 characters: the first 4 of the date, or the whole date if shorter, or "Unkn" when there is no date |
| `Isbn.IsbnRowShape` | run.py:243-249 | the row is [title, authors joined with ", ", the date cut to its first four characters, categories joined with ", "]; a missing title is the only failure; missing authors or categories read "Unknown" and a missing date "Unkn" |
| `Isbn.AuthorsJoined` | run.py:244 | names are joined with ", " between consecutive names |
| `Isbn.SingleName` | run.py:244-246 | a single author or category is stored as given |
| `Isbn.IsbnYearNotDigits` | run.py:245-249 | the ISBN row is not validated: with no date, the year "Unkn" is not a digit string |

## Left out

- Google Sheets calls (`append_row`, `find`, `delete_rows`, `update_cell`, `row_values`, `get_all_records`, `add_worksheet`). Their behaviour lives in the gspread library. The update is modelled as the list of cell writes it issues, and the current cells as a given sequence. `remove_book` and the find-by-title lookup of `update_book` are not modelled.
- Credentials and sheet setup at import time (run.py:15-32). These are foreign calls.
- `login` and Argon2 hashing and verification. These are cryptographic library calls; `create_user` is modelled up to the validated (username, password) pair.
- The Google Books HTTP request, its JSON parsing and its exception-driven retry (run.py:230-272). This is network I/O. The row mapping starts from the `volumeInfo` record.
- Terminal output: `print`, screen clears, `cprint`, `tabulate` rendering, `time.sleep`, the title screen, and the "Page x/y" line shown only when there is more than one page.
- Menu dispatch in `main`, `main_menu`, `add_book_menu`, `search_menu` and `search_choice`. This is plain dispatch.
- The "add another book? (y/n)" prompts. In `add_book` both 'y' and 'n' end the function, because 'y' only leaves the prompt loop (run.py:210-217). This is UI flow.
- The outer `while True` of `display_books`. It fetches the records again every time the page loop does not run, so with zero records it loops forever. `Paging.DisplayBooks` models one fetch.
- Unicode. `str.lower`, `isalnum` and `isdigit` are modelled on ASCII letters and digits only.
- Record values are all strings. gspread can return numbers for numeric cells, for example the year; this is where `record['Year Published'] or ''` matters.
- `Validation.UpdateBook` does not model which sheet row is written, because `find` decides that.
- `Paging.DisplaySearch` requires a non-empty list. Its only callers (run.py:456, 479, 502) pass one.
