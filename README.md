# Fiji CRM API: client table and lead import, in Dafny

This project models the two pieces of logic in the Fiji CRM API repository.

1. **The client table behind the CRUD endpoints** (`main.py`). The `clients`
   table is a class `ClientStore.ClientTable` holding a `map<int, Record>`
   from the primary key to the row's eight nullable string columns. Its
   methods are the four endpoints:
   - `GetClients` lists every row.
   - `AddClient` stores the body's columns under a fresh key.
   - `UpdateClient` writes the fields the body set, one after another, onto the row.
   - `DeleteClient` removes the row.

   Every write either commits or is rolled back, so a failed write leaves
   the map as it was. The request body is the pydantic model `Client`. Each
   optional field is either left out (`Unset`) or given, possibly as null.
   `name` is required, so it is always set.
2. **The spreadsheet-row mapping of the import script**
   (`import_excel_to_api.py`). These are pure functions in `LeadImport`:
   `GetIsland`, `ContactPersonOf`, `PhoneOf`, `EmailOf` and `ClientDataOf`. They
   rest on `PyStrings`, which models the Python `str` operations the script
   uses on ASCII text: substring `in`, `strip()`, `split("-")` and `split()`.

Three behaviours of the code that the model keeps:
- An empty `name` is accepted on create. The field only has to be present.
- An unknown id on update or delete does not reach the client as "not
  found". The handler's own `except Exception` catches that error and
  re-raises it as a server error. The model keeps only the outcome:
  `Error.ClientNotFound` beside `Error.StorageError`, with no status codes.
- The database's id policy is not modelled. `AddClient` promises only that
  the new key is held by no live row.

A failed commit is an input: the write methods take a `commitOk` flag, which
stands for the storage layer's answer.

## Model

| member | source | states |
|---|---|---|
| `ClientStore.Record` | main.py:14-24 | a stored `ClientDB` row without its key: the eight nullable string columns |
| `ClientStore.ClientBody` | main.py:29-38 | the pydantic `Client` body: `name` is a required string; `id` and the other columns are each left out or given, possibly as null |
| `ClientStore.With` | main.py:77 | `setattr` on a row: the named column takes the new value and every other column keeps its value |
| `ClientStore.NewRecord` | main.py:58 | the created row holds each column the body gave, null for each column it left out, and `name` as given |
| `ClientStore.SetFieldsOf` | main.py:76 | every pair the update loop visits is a column the body actually set, with the value it set |
| `ClientStore.SetFields` | main.py:76 | `dict(exclude_unset=True, exclude={"id"})`: every pair is a column the body set with the value it set, no column appears twice, and every column the body set appears |
| `ClientStore.SetFieldsOfDistinct` | main.py:76 | the set fields name each column at most once |
| `ClientStore.SetFieldsOfComplete` | main.py:76 | every column the body set appears among the set fields |
| `ClientStore.Patched` | main.py:76-77 | the row after the `setattr` loop has written a list of pairs: the last pair's column holds its value, and a column no pair names keeps its old value |
| `ClientStore.PatchedStep` | main.py:76-77 | one more turn of the loop writes the next pair onto the row left by the earlier turns |
| `ClientStore.PatchedColumns` | main.py:76-77 | after the `setattr` loop, each written column holds its value and each column not written is unchanged |
| `ClientStore.Overlay` | main.py:76-77 | reference meaning of an update: a column the body set takes the body's value, every other column keeps the old one |
| `ClientStore.PatchedColumnIsOverlay` | main.py:76-77 | after the `setattr` loop over the set fields, each column holds what the overlay says |
| `ClientStore.PatchedIsOverlay` | main.py:76-77 | running the `setattr` loop over the set fields gives exactly the overlay |
| `ClientStore.ApplySetFields` | main.py:76-77 | the `setattr` loop over the set fields leaves the row equal to the overlay of the body on the old row |
| `ClientStore.BodyIdIgnored` | main.py:58-76 | the body's `id` changes neither the created row, nor the list of fields an update writes, nor the updated row |
| `ClientStore.ClientTable.constructor` | main.py:26 | a freshly created table has no rows |
| `ClientStore.ClientTable.GetClients` | main.py:45-52 | the listing has one entry per row, each entry is a live key with its row, all keys differ, and nothing is modified |
| `ClientStore.ClientTable.NextId` | main.py:16 | the key given to a new row is held by no live row |
| `ClientStore.ClientTable.AddClient` | main.py:54-67 | on commit: returns a fresh key and the row built from the body, adds exactly that row and keeps every other row; on a failed commit: storage error and the table is unchanged |
| `ClientStore.ClientTable.UpdateClient` | main.py:69-85 | unknown id: not-found error, table unchanged; failed commit: storage error, table unchanged; otherwise the row under that key becomes the overlay, the key stays, every other row is unchanged, and the updated row is returned |
| `ClientStore.ClientTable.DeleteClient` | main.py:87-101 | unknown id: not-found error, table unchanged; failed commit: storage error, table unchanged; otherwise exactly that key is removed and "Client deleted" is returned |
| `ClientStore.DeleteTwice` | main.py:91-99 | once a delete has gone through, deleting the same id again fails as not found, and the table has lost exactly that row |
| `ClientStore.CreateThenList` | main.py:45-67 | creating a client in an empty table and then listing returns exactly that one row, with the body's columns |
| `PyStrings.IsSpace` | import_excel_to_api.py:34 | `isspace()` for ASCII: tab, line feed, vertical tab, form feed, carriage return, the separators 0x1C to 0x1F, and space |
| `PyStrings.IsDigit` | import_excel_to_api.py:33 | `isdigit()` for ASCII: the characters `0` to `9` |
| `PyStrings.Contains` | import_excel_to_api.py:20-24 | `sub in s` holds exactly when `sub` occurs at some offset of `s` |
| `PyStrings.ContainsChar` | import_excel_to_api.py:32-34 | for a one-character needle, `in` is plain membership |
| `PyStrings.LeadingSpaces` | import_excel_to_api.py:30 | the count of leading whitespace: every character before it is whitespace, and the character at it is not |
| `PyStrings.TrailingStart` | import_excel_to_api.py:30 | where the trailing whitespace begins: every character from it on is whitespace, and the one before it is not |
| `PyStrings.Strip` | import_excel_to_api.py:30 | `strip()` is "" for an all-whitespace string; otherwise it is the piece between the leading and the trailing whitespace, and that piece neither starts nor ends with whitespace |
| `PyStrings.StripUnpads` | import_excel_to_api.py:30 | stripping whitespace padding from a piece without whitespace ends gives back that piece |
| `PyStrings.StripUnpadded` | import_excel_to_api.py:30 | a string without whitespace at either end is its own `strip()` |
| `PyStrings.StripIdempotent` | import_excel_to_api.py:30 | stripping twice gives the same result as stripping once |
| `PyStrings.ContainsStripped` | import_excel_to_api.py:30-31 | a needle without whitespace at its ends occurs in `s` exactly when it occurs in `s.strip()` |
| `PyStrings.IndexOf` | import_excel_to_api.py:32 | the offset of the first occurrence of a character |
| `PyStrings.Split` | import_excel_to_api.py:32 | `split(sep)` gives at least one piece, no piece holds the separator, and the first piece is the text before the first separator (or the whole string when there is none) |
| `PyStrings.JoinSplit` | import_excel_to_api.py:32 | joining the pieces of `split(sep)` with the separator gives back the string |
| `PyStrings.TakeWord` | import_excel_to_api.py:34 | the longest whitespace-free prefix of a string |
| `PyStrings.Words` | import_excel_to_api.py:34 | every word of `split()` is non-empty and holds no whitespace |
| `PyStrings.TakeWordOfWord` | import_excel_to_api.py:34 | a whitespace-free string is its own longest whitespace-free prefix |
| `PyStrings.TakeWordBeforeSpace` | import_excel_to_api.py:34 | a word ends at the first whitespace character |
| `PyStrings.WordsOfSpaces` | import_excel_to_api.py:34 | a string of whitespace only has no words |
| `PyStrings.WordsOfWord` | import_excel_to_api.py:34 | a non-empty whitespace-free string is one word, so `split()` never cuts between two non-whitespace characters |
| `PyStrings.WordsAtSpace` | import_excel_to_api.py:34 | `split()` cuts at every whitespace character: the words of `a + [sp] + b` are the words of `a` followed by those of `b` |
| `PyStrings.WordsCover` | import_excel_to_api.py:34 | every non-whitespace character of the string lies in some word |
| `PyStrings.WordsKeepOrder` | import_excel_to_api.py:34 | the words run together are exactly the non-whitespace characters of the string, in order |
| `LeadImport.GetIsland` | import_excel_to_api.py:19-25 | the island is one of "Yasawa", "Nadi", "Denarau", "Mamanuca" and "" |
| `LeadImport.GetIslandFirstMatch` | import_excel_to_api.py:19-24 | the keys are tried in order, and the island paired with the first key that occurs is returned |
| `LeadImport.GetIslandNoMatch` | import_excel_to_api.py:20-25 | the island is "" exactly when none of the five keys occurs |
| `LeadImport.ManaWins` | import_excel_to_api.py:20-21 | a name containing both "Mana" and "Radisson" maps to "Yasawa" |
| `LeadImport.IslandIgnoresPadding` | import_excel_to_api.py:30-31 | computing the island from the unstripped Lead Name gives the same result as computing it from the stripped name |
| `LeadImport.PhoneOf` | import_excel_to_api.py:33 | the phone holds only digits and is no longer than the contact text |
| `LeadImport.PhoneAppend` | import_excel_to_api.py:33 | the phone of two pieces is the phone of the first followed by that of the second, so the digits keep their order |
| `LeadImport.PhoneKeepsDigits` | import_excel_to_api.py:33 | a string of digits of any length is kept whole, so the `len(c) <= 10` test never removes a digit |
| `LeadImport.PhoneDropsNonDigits` | import_excel_to_api.py:33 | a contact text without digits gives an empty phone |
| `LeadImport.ContactPersonOf` | import_excel_to_api.py:32 | "" when there is no `-`; otherwise the stripped text before the first `-`, which contains no `-` |
| `LeadImport.WordsWith` | import_excel_to_api.py:34 | the list comprehension keeps only words of the list that contain the character, and keeps every word that does |
| `LeadImport.WordsWithOne` | import_excel_to_api.py:34 | a single word is kept exactly when it contains the character |
| `LeadImport.WordsWithAppend` | import_excel_to_api.py:34 | filtering two lists run together gives the two filtered lists run together, so the kept words keep their order |
| `LeadImport.WordsWithFirst` | import_excel_to_api.py:34 | when some word contains the character, the filtered list is non-empty and starts with the first such word |
| `LeadImport.EmailOf` | import_excel_to_api.py:34 | "" when there is no `@`; otherwise the first whitespace-separated word containing `@`, which contains `@` and no whitespace; the `[0]` index is always defined |
| `LeadImport.ClientDataOf` | import_excel_to_api.py:29-38 | the name is the stripped Lead Name; the island is the one of the unstripped Lead Name, which is also the one of the stripped name; contact person, phone and email come from the contact text; sales manager, goal and notes are copied unchanged |

## Left out

- The SQLAlchemy engine, session, `create_all`, `db.refresh`, and the SQLite file: persistence is a library and file I/O. Only the abstract table is modelled, and a failed commit is the `commitOk` input.
- FastAPI routing, HTTP status codes, pydantic validation and serialisation, and `from_attributes`: framework glue. A body that fails validation never reaches the handlers. The `ClientBody` datatype is the validated body.
- Concurrent requests: the database serialises them, and each method is one request.
- ClientStore.ClientTable.GetClients: does not state the order of the rows, because the query has no `ORDER BY` and the order is up to the database.
- ClientStore.ClientTable.NextId: states only that the new key is held by no live row. The database's allocation policy is not modelled, and it may reuse the largest key after that row is deleted.
- Reading the workbook (`read_excel`, `fillna`), `requests.post`, `time.sleep`, `print` and `exit`: file and network I/O. The loop over the rows only posts each row's `client_data` and is left out with them. A row is the five column strings, already defaulted to "".
- Python's Unicode rules for `isdigit`, `isspace`, `split()` and `strip()`: only ASCII digits and ASCII whitespace are modelled.
