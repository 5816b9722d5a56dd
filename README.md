# Farmer registration: a verified model of the store

The application registers farmers against a two-level administrative
hierarchy. A **Woreda** (district) holds **Kebeles** (sub-districts). Users
log in and then take one of four pages:

- **Manage**: add Woredas and Kebeles, rename, move and delete them.
- **Upload**: load `(Woreda, Kebele)` pairs from a spreadsheet.
- **Register**: register a farmer under a Woreda and Kebele picked from the hierarchy.
- **View**: list farmers, all of them or one Woreda's, newest first, and edit or delete them.

The model consists of:

- **The four tables.** `users`, `woredas`, `kebeles` and `farmers` are Dafny
  datatypes. `Db` is one snapshot of all four tables. `Models.Valid` holds
  the schema's constraints:
  - usernames are unique;
  - Woreda names are unique;
  - primary keys are unique;
  - every Kebele's `woreda_id` names an existing Woreda.
- **Every write of the pages.** Each is a function from the old `Db` to the
  new one, or to an `Error` that leaves the tables unchanged. These live in
  `Hierarchy`, `Farmers` and `Accounts`. A lemma proves that each write
  keeps `Valid`.
- **The `Store` class.** It holds the tables as fields that its methods
  update in place. Two methods keep the source's loops:
  - `Store.ImportSheet`, the import loop over the spreadsheet rows;
  - `Store.AddKebeleLines`, the bulk Kebele loop over the lines of the text.

  The cascade of a Woreda delete is modelled differently from the source.
  The source loops over `woreda.kebeles` and deletes each row. The model
  uses `Store.KebelesOutside`, a module-level method. It walks the whole
  Kebele table and keeps the Kebeles of the other Woredas. Both reach the
  same Kebele table, the one `Hierarchy.DeleteWoreda` describes.

  Each method is proved to leave exactly the tables the corresponding
  function describes, and to keep the constraints.
- **The session.** `Session.SessionState` holds the `logged_in` and
  `username` flags and the edit-form flags. Its methods set and clear them,
  and `Route` is the gate in `main`.

Files:

- `common.dfy`: Option, Result, order-preserving filter, unique keys.
- `models.dfy`: the records, `Db` and the schema constraints.
- `text.dfy`: Python's `str.strip`, `str.isspace` and `str.split('\n')`.
- `hierarchy.dfy`: import, add, bulk add, cascade delete, rename, move, and the Kebele drop-down.
- `farmers.dfy`: farmer registration, edit, delete and listing, and the snapshot property.
- `accounts.dfy`: user registration and the login check.
- `session.dfy`: the session class.
- `store.dfy`: the store class.

Three behaviours of the code that the model keeps as written:

- **Skipped rows.** The import skips a row exactly when one of its two cells is NaN (`pd.isna`, app.py:288-289). A cell that pandas reads as NaN is a key absent from the row's map. Such cells include an empty cell and a cell holding one of pandas' default NA strings, such as `NA`, `N/A`, `NULL`, `null`, `None`, `nan` or `#N/A`. Every other cell is imported as its text, whatever that text is.
- **Repeated rows.** Importing the same rows twice is not idempotent. Every complete row appends a Kebele, repeats included (app.py:300-302).
- **Empty Woreda names on rename.** Only "Save New Woreda" refuses an empty name. Renaming a Woreda to the empty text goes through (app.py:101-103).

## Model

| member | source | states |
|---|---|---|
| Models.Valid | models.py:10-29 | the schema constraints: user ids and usernames unique, Woreda ids and names unique, Kebele ids unique and every Kebele's `woreda_id` naming a Woreda, farmer ids unique, and every id below its table's counter |
| Models.EmptyDb | models.py:37-38 | the freshly created tables are empty and satisfy every schema constraint |
| Models.KebelesOf | models.py:18 | a Woreda's `kebeles` are exactly the Kebele rows whose `woreda_id` is its id |
| Models.KebeleInExactlyOneWoreda | models.py:24-25 | in a valid database each Kebele lies in the `kebeles` of one Woreda and of no other |
| Models.DuplicateKebeleNamesAllowed | models.py:23 | a second Kebele with an existing Kebele's name under the same Woreda keeps every constraint: Kebele names are not unique |
| Text.IsSpace | app.py:81 | the characters Python's `str.strip()` removes: those `str.isspace()` accepts |
| Text.Strip | app.py:81-82 | the stripped name has no whitespace at either end and is no longer than the line |
| Text.LeadingSpaceSpec | app.py:81-82 | the cut prefix is all whitespace and the first character kept is not whitespace |
| Text.TrailingSpaceSpec | app.py:81-82 | the cut suffix is all whitespace, the last character kept is not whitespace, and everything is cut exactly when the line is blank |
| Text.StripRemovesOnlyOuterSpace | app.py:81-82 | the stripped name is a slice of the line with only whitespace cut off at the two ends, and it is empty exactly when the line is blank |
| Text.StripIdempotent | app.py:82 | stripping a stripped name changes nothing |
| Text.SplitLines | app.py:80 | splitting on line feeds gives at least one piece, and no piece holds a line feed |
| Text.JoinSplitLines | app.py:80 | joining the pieces with line feeds gives back the text, so the split loses nothing |
| Text.SplitJoinLines | app.py:80 | pieces without line feeds, once joined, split back into the same pieces |
| Hierarchy.FindWoreda | app.py:293 | the lookup by exact name returns a Woreda of that name, and returns nothing exactly when no Woreda has the name |
| Hierarchy.FindWoredaUnique | app.py:293 | with unique names, the lookup returns the one Woreda of that name |
| Hierarchy.WoredaIndex | app.py:95 | the lookup by id finds a row with that id, and finds nothing exactly when no Woreda has it |
| Hierarchy.KebeleIndex | app.py:111 | the lookup by id finds a row with that id, and finds nothing exactly when no Kebele has it |
| Hierarchy.RowEntry | app.py:286-290 | a row gives a pair exactly when both its Woreda and Kebele cells are present, and the pair holds those two cells |
| Hierarchy.AddEntry | app.py:292-302 | one row creates a Woreda only when none has the name, always appends one Kebele with the next id and the row's Kebele name under a Woreda of the row's Woreda name, and leaves the earlier rows and other tables alone |
| Hierarchy.ImportRows | app.py:285-304 | the row loop leaves users and farmers alone, keeps the earlier Woredas and Kebeles as a prefix, and grows the Kebele table by the number of complete rows |
| Hierarchy.ImportSheet | app.py:276-280 | an upload is rejected with MissingColumns, before any row is written, exactly when the `Woreda` or the `Kebele` column is missing |
| Hierarchy.AddEntryKeepsValid | app.py:293-302 | adding one row keeps Woreda names and ids unique and every Kebele's `woreda_id` pointing at a Woreda |
| Hierarchy.ImportRowsKeepsValid | app.py:285-304 | importing any rows into a valid database keeps it valid, however often a Woreda name repeats |
| Hierarchy.Entries | app.py:285-290 | at most one entry per row, rows with a missing cell dropped; `Hierarchy.ImportRowsAppendsOneKebelePerEntry` states what each entry adds |
| Hierarchy.ImportRowsAppendsOneKebelePerEntry | app.py:300-304 | the k-th new Kebele comes from the k-th complete row: it has the next consecutive id, the row's Kebele name, and the id of the Woreda carrying the row's Woreda name |
| Hierarchy.ImportRowsWoredaNames | app.py:293-298 | after an import, the Woreda names are the old names plus the Woreda names of the complete rows |
| Hierarchy.ImportCreatesEachNewNameOnce | app.py:293-298 | the Woreda table grows by exactly the number of distinct row Woreda names it did not already hold |
| Hierarchy.ImportSkipsIncompleteRows | app.py:289-290 | importing the rows leaves the same tables as importing only the complete rows, so a row with a missing cell changes nothing |
| Hierarchy.AddEntryToExisting | app.py:293-302 | a row whose Woreda name already exists creates no Woreda and only appends its Kebele, with the next id, under that Woreda |
| Hierarchy.AddEntryTwice | app.py:293-302 | the same entry added twice reuses the Woreda of the first time and appends a second Kebele of the same name under it |
| Hierarchy.AddEntryNames | app.py:293-298 | adding one entry adds exactly its Woreda name to the set of Woreda names |
| Hierarchy.ImportKeepsDuplicateRows | app.py:300-302 | the same row twice gives two Kebeles with the same name under the same Woreda, and at most one new Woreda |
| Hierarchy.AddWoreda | app.py:62-69 | an empty name gives EmptyName, and a name already taken gives DuplicateName; otherwise exactly one Woreda with that name and a fresh id is appended, the Woreda counter advances, and every other table and counter stays |
| Hierarchy.AddWoredaKeepsValid | app.py:64 | a successful add keeps the constraints, including unique Woreda names |
| Hierarchy.KebeleNames | app.py:80-82 | the bulk form yields at most one name per line; `Hierarchy.KebeleNamesOfNonBlankLines` states exactly which |
| Hierarchy.KebeleNamesOfNonBlankLines | app.py:80-82 | the bulk form yields one name per non-blank line, in the order of the lines, each the stripped line, repeated lines repeated |
| Hierarchy.KebeleNamesAreStrippedLines | app.py:80-82 | a bulk name is exactly the non-empty stripped form of some line, and has no whitespace at either end |
| Hierarchy.AppendKebeles | app.py:80-83 | the Kebele table grows by exactly one row per name and keeps its earlier rows as a prefix, the Kebele id counter advances by the number of names, and the other tables stay as they were |
| Hierarchy.AppendKebelesContents | app.py:80-83 | the appended rows are one Kebele per name, in the order of the names, with consecutive fresh ids, all under the given Woreda |
| Hierarchy.AddKebeles | app.py:77-87 | empty text, or no Woreda with the selected name, writes nothing and reports NothingToAdd |
| Hierarchy.AppendKebelesKeepsValid | app.py:80-83 | appending Kebeles under an existing Woreda keeps the constraints |
| Hierarchy.AppendKebeleLinesSpec | app.py:80-82 | the k-th non-blank line becomes, stripped, the k-th new Kebele with id `nextKebeleId + k`; only the Kebele table and its counter change |
| Hierarchy.AddKebelesSpec | app.py:78-83 | a successful bulk add appends, under the Woreda with the selected name, exactly one Kebele per non-blank line, in line order, named by the stripped line and with consecutive fresh ids; only the Kebele table and its counter change, and the constraints hold after it |
| Hierarchy.DeleteWoreda | app.py:155-160 | the Woreda is removed, and so is every Kebele whose `woreda_id` is its id; the other Woredas and Kebeles stay, and the Kebele count drops by the number of its Kebeles |
| Hierarchy.DeleteWoredaKeepsValid | app.py:155-160 | the cascade delete keeps the constraints: no Kebele is left pointing at the deleted Woreda |
| Hierarchy.DeleteWithoutCascadeDangles | app.py:157-158 | deleting only the Woreda row, while it still has Kebeles, would break the foreign key |
| Hierarchy.DeleteKebele | app.py:172-175 | exactly the Kebele with that id is removed, and nothing else changes |
| Hierarchy.DeleteKebeleKeepsValid | app.py:172-175 | deleting a Kebele keeps the constraints |
| Hierarchy.RenameWoreda | app.py:101-103 | an unknown id gives NotFound, and a name held by another Woreda gives DuplicateName; otherwise the Woreda carries the new name, every other Woreda stays, and every other table and every counter stays |
| Hierarchy.RenameWoredaKeepsValid | app.py:102 | a successful rename keeps Woreda names unique and every Kebele attached |
| Hierarchy.EditKebele | app.py:121-125 | an unknown Kebele or parent name gives NotFound; otherwise the Kebele gets the new name and the id of the Woreda with the selected name, every other Kebele stays, and every other table and every counter stays |
| Hierarchy.EditKebeleKeepsValid | app.py:122-124 | moving or renaming a Kebele keeps the constraints |
| Hierarchy.KebeleChoices | app.py:197-205 | no Woreda chosen, or an unknown Woreda, offers no Kebele |
| Hierarchy.KebeleChoicesAreChildren | app.py:200 | the drop-down offers exactly the names of the Kebeles whose `woreda_id` is the chosen Woreda's id |
| Farmers.Choose | app.py:201 | a drop-down selects nothing exactly when it has no options, and otherwise selects one of its options |
| Farmers.KebeleChoice | app.py:196-205 | the selected Kebele is one of the chosen Woreda's Kebele names, and nothing is selected exactly when it has none |
| Farmers.RegisterFarmer | app.py:210-245 | refused with MissingField exactly when the name, phone, Woreda or Kebele is empty; otherwise appends one row with the next id holding the chosen names as text, the given username as `registered_by`, and the given time; only the farmer table and its counter change |
| Farmers.RegisterFarmerKeepsValid | app.py:212-221 | registration keeps farmer ids unique |
| Farmers.RegisteredFarmerNamesAKebeleOfItsWoreda | app.py:190-221 | a farmer registered through the page names an existing Woreda and one of that Woreda's Kebeles, at the time of registration |
| Farmers.NoKebeleNoRegistration | app.py:200-211 | under a Woreda without Kebeles no farmer can be registered |
| Farmers.FarmerIndex | app.py:336 | the lookup by id finds a farmer with that id, and finds nothing exactly when there is none |
| Farmers.EditFarmer | app.py:355-360 | an unknown id gives NotFound; otherwise the farmer with that id gets the new name, phone, Woreda and Kebele and no other change, and no other table changes |
| Farmers.EditFarmerKeepsIdentity | app.py:356-359 | an edit keeps every farmer's id, `registered_by` and timestamp, and leaves every other farmer as it was |
| Farmers.EditFarmerKeepsValid | app.py:356-360 | an edit keeps farmer ids unique |
| Farmers.DeleteFarmer | app.py:396-398 | exactly the farmer with that id is removed, and nothing else changes |
| Farmers.DeleteFarmerKeepsValid | app.py:396-398 | deleting a farmer keeps the constraints |
| Farmers.SelectFarmers | app.py:323-325 | "All" selects every farmer; any other selection selects exactly the farmers whose Woreda text equals it |
| Farmers.InsertNewestFirst | app.py:327 | inserting into a newest-first list keeps it newest-first and adds exactly that farmer |
| Farmers.ListFarmers | app.py:323-327 | the listing is newest first and holds exactly the table's farmers of the selected Woreda, or all of them for "All" |
| Farmers.SortNewestFirst | app.py:327 | the result is newest first and is a permutation of the input |
| Farmers.ListFarmersSpec | app.py:323-327 | the listing is newest first; it holds each selected farmer exactly as often as the table does and no other row; "All" lists the whole table |
| Farmers.ApplyKeepsFarmers | models.py:31-32 | any single hierarchy change keeps the constraints and leaves the farmer table as it was |
| Farmers.HierarchyChangesKeepFarmers | models.py:31-32 | any sequence of imports, adds, renames, moves and deletes in the hierarchy keeps the constraints and leaves every farmer record unchanged |
| Farmers.FarmerKeepsRegisteredNames | models.py:31-32 | a registered farmer, and every listing, survives any hierarchy change unchanged, old Woreda and Kebele names included |
| Accounts.FindUser | auth.py:8-10 | the lookup by username finds a user of that name, and finds nothing exactly when there is none |
| Accounts.RegisterUser | auth.py:12-17 | a taken username gives DuplicateUsername and writes nothing; otherwise exactly one user with that name and hash is appended with the next id; only the user table and its counter change |
| Accounts.RegisterUserKeepsValid | models.py:11 | registration keeps usernames and user ids unique |
| Accounts.LoginUser | auth.py:19-32 | login fails for an unknown username, and succeeds only when a user of that name has a hash the checker accepts |
| Accounts.LoginChecksTheNamedUser | auth.py:23-32 | with unique usernames, login succeeds exactly when that user's stored hash accepts the password |
| Accounts.RegisterThenLogin | auth.py:12-32 | a user who has just registered can log in with a password the stored hash accepts |
| Session.SessionState.constructor | app.py:51-54 | a new session is logged out and has no edit form open |
| Session.SessionState.Route | app.py:417-435 | the login page is shown exactly when nobody is logged in; otherwise the selected page, with the session's username |
| Session.SessionState.Login | app.py:29-36 | the session logs in exactly when the credentials check succeeds, and then remembers the username; a failed login changes nothing |
| Session.SessionState.Logout | app.py:437-440 | after logout every request gets the login page and the username is cleared |
| Session.SessionState.OpenWoredaEdit | app.py:151-154 | opening a Woreda form closes the Kebele form, so at most one is open |
| Session.SessionState.OpenKebeleEdit | app.py:168-171 | opening a Kebele form closes the Woreda form, so at most one is open |
| Session.SessionState.CloseWoredaEdit | app.py:105-108 | Save or Cancel closes the Woreda form and keeps at most one form open |
| Session.SessionState.CloseKebeleEdit | app.py:127-130 | Save or Cancel closes the Kebele form and keeps at most one form open |
| Session.SessionState.OpenFarmerEdit | app.py:391-393 | the edit button opens the form of that farmer |
| Session.SessionState.CloseFarmerEdit | app.py:362-365 | Save or Cancel closes the farmer form |
| Session.SessionState.OpenForm | app.py:94-113 | a form is shown only for a flagged row that still exists, with the Woreda form taking precedence over the Kebele form |
| Store.Store.constructor | models.py:37-38 | the store starts with empty tables that satisfy every constraint |
| Store.Store.ImportEntry | app.py:292-302 | one complete row updates the tables in place exactly as `Hierarchy.AddEntry` describes; the constraints hold after it |
| Store.Store.ImportSheet | app.py:275-304 | the loop over the rows leaves exactly the tables of `Hierarchy.ImportRows`, or reports MissingColumns and writes nothing; the constraints hold after it |
| Store.Store.AddWoreda | app.py:62-69 | the same result and tables as `Hierarchy.AddWoreda`, and the constraints hold after it |
| Store.Store.AddKebeleLine | app.py:81-82 | a line that strips to nothing writes nothing; otherwise one Kebele named by the stripped line, with the next id, is appended under the Woreda, which must exist; the constraints hold after it |
| Store.Store.AddKebeleLines | app.py:80-82 | the loop over the lines leaves exactly the tables of `Hierarchy.AppendKebeles` applied to the non-blank stripped lines; the constraints hold after it |
| Store.Store.AddKebeles | app.py:77-87 | the loop over the lines leaves exactly the tables of `Hierarchy.AddKebeles`, and the constraints hold after it |
| Store.KebelesOutside | app.py:157-158 | a walk over the whole Kebele table keeps exactly the Kebeles of other Woredas, in their order; this is the table the source's per-Kebele deletes leave |
| Store.Store.DeleteWoreda | app.py:155-160 | the loop over the Kebeles, then the Woreda delete, leave exactly the tables of `Hierarchy.DeleteWoreda`; the constraints hold after it |
| Store.Store.DeleteKebele | app.py:172-175 | leaves exactly the tables of `Hierarchy.DeleteKebele`, and the constraints hold after it |
| Store.Store.RenameWoreda | app.py:101-103 | the same result and tables as `Hierarchy.RenameWoreda`, and the constraints hold after it |
| Store.Store.EditKebele | app.py:121-125 | the same result and tables as `Hierarchy.EditKebele`, and the constraints hold after it |
| Store.Store.RegisterFarmer | app.py:210-221 | the same result and tables as `Farmers.RegisterFarmer`, and the constraints hold after it |
| Store.Store.EditFarmer | app.py:355-360 | the same result and tables as `Farmers.EditFarmer`, and the constraints hold after it |
| Store.Store.DeleteFarmer | app.py:396-398 | leaves exactly the tables of `Farmers.DeleteFarmer`, and the constraints hold after it |
| Store.Store.RegisterUser | auth.py:12-17 | the same result and tables as `Accounts.RegisterUser`, and the constraints hold after it |

## Left out

- **Rendering.** Streamlit widgets, columns, messages, `st.rerun`, `st.stop`, spinners and balloons are UI. A drop-down is modelled only by the option it returns (`Farmers.Choose`).
- **Spreadsheet parsing.** pandas' reading of the uploaded file is a library call. A sheet is given as its header and its rows of text cells. A cell that pandas reads as NaN is an absent key. pandas reads an empty cell as NaN, and also a cell whose whole text is one of its default NA strings: `''`, `#N/A`, `#N/A N/A`, `#NA`, `-1.#IND`, `-1.#QNAN`, `-NaN`, `-nan`, `1.#IND`, `1.#QNAN`, `<NA>`, `N/A`, `NA`, `NULL`, `NaN`, `None`, `n/a`, `nan` and `null`. That conversion is part of parsing and is not modelled. Numeric or date cells, which the source would store as non-text names, are not modelled.
- **Excel append and downloads.** The append of each registration to `exports/farmer_registrations.xlsx`, the template download and the CSV download with its `strftime` formatting are file I/O and formatting.
- **Password hashing.** bcrypt hashing and checking are outside the model. Registration receives the hash, and login receives the checker as a function parameter. The debug `print`s of `login_user` are left out.
- **Timestamps.** `datetime.now()` and the `utcnow` default are clocks. A timestamp is an integer passed in by the caller.
- **Ids.** The database's choice of primary keys is not part of this model (`database.py` is not part of this model). Ids come from a per-table counter that only grows. As a result the model never reuses the id of a deleted row.
- **Transactions.** The database session, commits and the per-Woreda commit inside the import loop are left out. Each modelled write is atomic. A failure halfway through an import is not modelled. In the source, the commit after each new Woreda (app.py:297) commits the whole session. Such a failure therefore leaves committed the Woredas created so far, and also every Kebele added before the last new Woreda. Concurrent sessions are not modelled either.
- Store.KebelesOutside: per-row deletes. The source deletes the Woreda's Kebeles one at a time through `woreda.kebeles` (app.py:157-158), inside one session. The model computes the remaining Kebele table in a single pass and assigns it once. The intermediate states of the source's loop, and the order in which it deletes, are not modelled; only the final table is.
- **Constraint violations.** A duplicate Woreda name or username raises an uncaught database error in the source. In the model it is an `Error` result that writes nothing.
- Hierarchy.EditKebele: unknown parent name. If the selected parent name matches no Woreda, the source fails on a missing row. The model returns NotFound and writes nothing.
- Farmers.EditFarmer: empty drop-downs. When the chosen Woreda has no Kebeles, the farmer form's Kebele drop-down returns None (app.py:349-352), and Save stores NULL as the Kebele (app.py:359). When farmers exist but every Woreda has been deleted, the Woreda drop-down has no options and returns None too (app.py:344-347), and Save stores NULL as the Woreda (app.py:358). The model takes the Woreda and the Kebele as text and does not represent NULL in either.
- Farmers.ListFarmersSpec: equal timestamps. SQL leaves the order of farmers with equal timestamps unspecified, and the contract does not fix it.
- **Display order and layout.** The manage page lists Woredas by name, and each Woreda's Kebeles by name. The farmer form pre-selects the current Woreda and Kebele. These are display only.
- **Falsy ids.** The source tests the edit flags by Python truthiness, under which an id of 0 counts as no form. The model uses an optional id, so it does not reproduce that quirk. Ids start at 1, so the quirk does not arise.
- **Flags and saves not composed.** A session's flags and the store's writes are separate objects in the model. The way a Save button both writes a row and clears its flag is not composed into one step.
