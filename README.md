# Skin-scan logger: store, entry form and sorted view

A small React Native app records skin-scan entries in one local SQLite table,
`scanned_data`. This project models three parts of it in Dafny and proves
what each promises:

- **The store** (`database.js`): `createTable`, `insertData`, `fetchData`,
  `deleteData` and `updateData` over an `INTEGER PRIMARY KEY AUTOINCREMENT`
  table. It also covers the column encoding that insert and update share.
  The table is the class `Database.ScanStore`:
  - `rows` maps each id to the thirteen data columns.
  - `lastId` is the table's `sqlite_sequence` entry, the largest id ever handed out.
  - A ghost set `issued` records every id handed out. It is used to prove that ids are never reused.
  - A statement can be rejected with "no such table" (the table has not been created) or SQLITE_FULL (the largest rowid, 2^63 - 1, has been used). The completion callback runs only on success.
- **The entry form** (`HomeScreen.js` and `HomeScreen.tsx`): the form record,
  the id of the entry being edited, the fetched entries, and the handlers.
  - The two screens are modelled separately (`HomeScreenJs`, `HomeScreenTsx`) because they decode stored flags differently: `=== 1` against `Boolean(...)`.
  - The `.tsx` screen also refuses to submit a form without a body-part name or a risk.
- **The sorted view** (`StoredEntriesScreen.tsx`): the entries sorted by
  timestamp, newest or oldest first.
  - `filterEntries` copies the list into an array and sorts the copy in place. The model does the same with an insertion sort on an `array`.
  - That sort is proved equal to a functional stable sort, `SortedView`. The view's permutation, order and stability properties are proved about `SortedView`.
  - The screen's invariant is that the view always equals `SortedView(entries, filterOption)`.

Modelling choices:
- `Records.Form` is the form record (`ScannedData`). `Records.Columns` and `Records.Row` are a stored row.
- The self-exam field is `string | number | boolean` in the source. It is kept as the variant `Scalar = Bool | Num | Str` and is never normalised.
- The clock (`Date.now()`) is an integer parameter `now`.
- The delete confirmation dialog is a boolean parameter `confirmed`.
- The image picker's result is the pair of parameters `canceled` and `assets`.

Files: `records.dfy`, `database.dfy`, `home_screen_js.dfy`,
`home_screen_tsx.dfy`, `stored_entries.dfy`.

## Model

| member | source | states |
|---|---|---|
| Records.EmptyForm | HomeScreen.js:126-143 | The default record: no id, empty image, all five flags false, every text field "", self-exam "1", and the timestamp is the clock value. The initial `formData` (HomeScreen.js:36-50) and the `.tsx` clearForm (HomeScreen.tsx:147-164) are the same record. |
| Records.Toggled | HomeScreen.js:149-151 | The named flag is negated. Every other flag, every text field, the id, the image and the timestamp are unchanged. |
| Records.ToggleTwice | HomeScreen.js:149-151 | Toggling the same field twice gives back the original form. |
| Records.Changed | HomeScreen.js:145-147 | The named text field holds the typed text, so the self-exam field becomes a string (HomeScreen.tsx:324-325). Every other field and every flag is unchanged. |
| Database.NumberText | database.js:158 | `toString()` of an integer: non-empty, with a leading minus sign exactly for negative numbers, and decimal digits everywhere else. `Database.NumberTextInjective` shows that the text determines the number. |
| Database.NumberTextInjective | database.js:158 | `toString()` of an integer self-exam value determines the integer: equal texts mean equal numbers. |
| Database.SelfExamText | database.js:154-158 | A boolean is stored as "1" when true and "0" when false. A string is stored as itself. |
| Database.SelfExamEncodings | database.js:154-158 | true → "1", false → "0", 1 → "1", 0 → "0", "maybe" → "maybe". The string "true" is not stored like the boolean true. |
| Database.FlagColumn | database.js:146-149 | `flag ? 1 : 0`. Through `Database.Encode`, every stored flag is 0 or 1 and is 1 exactly when the flag is true. `HomeScreenJs.FlagRoundTrip` reads it back. |
| Database.Encode | database.js:141-159 | Every stored flag is 0 or 1, and a flag column is 1 exactly when the form's flag is true. Insert and update both bind this encoding (database.js:184-202). |
| Database.EncodeIgnoresId | database.js:136-140 | The draft's id is not among the columns, so it never affects what is stored. |
| Database.Updated | database.js:179-183 | `UPDATE ... WHERE id = ?` leaves the set of ids unchanged. It gives the matching row the new columns, leaves every other row unchanged, and leaves the table unchanged when no row matches. |
| Database.ListsLength | database.js:164-168 | A listing from `SELECT *` (each stored row exactly once, as stored) has as many entries as the table has rows. An empty table gives an empty listing. |
| Database.ListingsArePermutations | database.js:166 | Any two listings of the same table hold the same rows. Only their order is unspecified. |
| Database.ScanStore.constructor | database.js:106-109 | An opened database file that does not yet have the table. |
| Database.ScanStore.CreateTable | database.js:111-131 | `CREATE TABLE IF NOT EXISTS`: the first call creates an empty table. Later calls change nothing and lose no rows. |
| Database.ScanStore.InsertData | database.js:133-162 | Without the table the insert fails with "no such table". When every rowid has been used it fails with SQLITE_FULL. On either error nothing changes. Otherwise exactly one row, `Encode(d)`, is added under id `lastId + 1`. That id was free and is greater than every id ever issued, deleted ones included. Every other row is unchanged. |
| Database.ScanStore.FetchData | database.js:164-168 | Succeeds exactly when the table exists. The result lists every stored row exactly once, in encoded form (flags as integers), in no promised order. |
| Database.ScanStore.DeleteData | database.js:170-174 | Removes exactly the row with that id. A missing id leaves the rows unchanged without error. The id counter is unchanged, so the id is never reused. |
| Database.ScanStore.UpdateData | database.js:176-206 | The rows become `Updated(rows, id, Encode(d))`: the matching row is overwritten and keeps its id. A missing id changes nothing and is not an error. The id counter is unchanged. |
| Database.FirstEntry | database.js:111-168 | On a fresh database: creating the table twice, inserting a form and fetching returns exactly one row, with id 1 and the encoded form. |
| HomeScreenJs.IsOne | HomeScreen.js:113-116 | `value === 1`, how this screen reads a flag column. `HomeScreenJs.FlagRoundTrip` shows it inverts `Database.FlagColumn`. `HomeScreenTsx.FlagReadersAgree` shows it agrees with `Boolean(...)` exactly on 0 and 1. |
| HomeScreenJs.EditedForm | HomeScreen.js:107-124 | For every row, whatever its flag columns hold: a flag loads as true exactly when its column holds 1. The image, the five text columns, the timestamp and the self-exam text are copied unchanged. The form carries no id. When the flags are 0/1, re-encoding the loaded form gives back the stored columns. |
| HomeScreenJs.FlagRoundTrip | HomeScreen.js:113-116 | Writing a boolean as `b ? 1 : 0` and reading it with `=== 1` gives back the boolean. |
| HomeScreenJs.SaveThenEdit | HomeScreen.js:107-124 | Saving any form and loading the stored row gives back the form, except that the id is dropped and the self-exam value comes back as the text it was stored as. |
| HomeScreenJs.SaveThenEditText | HomeScreen.js:107-124 | A form without an id whose self-exam value is a string comes back unchanged from saving and loading. |
| HomeScreenJs.ResaveKeepsTable | HomeScreen.js:72-77 | Opening a stored row for editing and submitting it unchanged leaves the table as it was. |
| HomeScreenJs.Screen.constructor | HomeScreen.js:31-50 | The initial state: the default form, no entry being edited, no entries. |
| HomeScreenJs.Screen.LoadData | HomeScreen.js:65-69 | The entries become a listing of the stored rows. A rejected fetch keeps the old entries. |
| HomeScreenJs.Screen.ClearForm | HomeScreen.js:126-143 | The form becomes the default record and editing stops. |
| HomeScreenJs.Screen.HandleEdit | HomeScreen.js:107-124 | The form becomes the decoded row and `editingId` becomes the row's id. |
| HomeScreenJs.Screen.HandleChange | HomeScreen.js:145-147 | Only the named field changes, to the typed text. |
| HomeScreenJs.Screen.ToggleBoolean | HomeScreen.js:149-151 | Only the named flag changes. |
| HomeScreenJs.Screen.HandleAddOrUpdate | HomeScreen.js:71-85 | Updates the row being edited, or inserts the form when nothing is being edited. Success reloads the entries and clears the form. A rejected statement leaves the rows, the form, `editingId` and the entries unchanged. An update or a rejected statement leaves the id counter and the issued ids unchanged. A successful insert issues exactly the one new id. |
| HomeScreenJs.Screen.HandleDelete | HomeScreen.js:87-105 | Deletes only when confirmed, then reloads the entries. Cancel changes neither the rows nor the entries. A delete rejected for lack of the table keeps the entries, because the callback never runs. The form, the id counter and the issued ids are never touched. |
| HomeScreenJs.DeleteWhileEditing | HomeScreen.js:71-105 | Editing an entry, deleting it and then submitting removes the row for good. The submit still succeeds and clears the form, so the edit is silently lost. |
| HomeScreenTsx.Truthy | HomeScreen.tsx:138-142 | `Boolean(value)` on a number: false exactly for 0. `HomeScreenTsx.FlagReadersAgree` relates it to the `.js` reading. |
| HomeScreenTsx.EditedForm | HomeScreen.tsx:135-145 | For every item, whatever its flag columns hold: a flag loads as true exactly when its column is non-zero. The id, the image, the five text columns, the timestamp and the self-exam text are kept through the spread. Re-encoding an item whose flags are 0/1 gives back its columns. |
| HomeScreenTsx.FlagReadersAgree | HomeScreen.tsx:138-142 | `=== 1` and `Boolean(...)` read a stored flag the same way if and only if it is 0 or 1. |
| HomeScreenTsx.EditorsAgreeOnStoredRows | HomeScreen.tsx:135-145 | On rows the store wrote, both screens load the same form, apart from the id that only the `.tsx` screen keeps. |
| HomeScreenTsx.EditorsDisagreeOnTwo | HomeScreen.tsx:138 | A stored 2 loads as false on the `.js` screen and true on the `.tsx` screen. Saving again writes 0 from one screen and 1 from the other. |
| HomeScreenTsx.Complete | HomeScreen.tsx:95 | The validation guard, which rejects a falsy body-part name or a falsy risk, lets the form through exactly when both texts are non-empty, because the empty string is the only falsy string. `HomeScreenTsx.FillingRequiredFields` states what it means for the form. |
| HomeScreenTsx.FillingRequiredFields | HomeScreen.tsx:95-98 | A cleared form is always refused. After a body-part name and a risk are typed into it, it is accepted exactly when both typed texts are non-empty. |
| HomeScreenTsx.Screen.constructor | HomeScreen.tsx:55-73 | The initial state: the default form, no entry being edited, no entries. |
| HomeScreenTsx.Screen.LoadData | HomeScreen.tsx:88-92 | The entries become a listing of the stored rows. A rejected fetch keeps the old entries. |
| HomeScreenTsx.Screen.ClearForm | HomeScreen.tsx:147-164 | The form becomes the default record (self-exam "1") and editing stops. |
| HomeScreenTsx.Screen.HandleEdit | HomeScreen.tsx:135-145 | The form becomes the decoded item. `editingId` becomes the item's id, or none when the item has no id. |
| HomeScreenTsx.Screen.HandleChange | HomeScreen.tsx:166-168 | Only the named field of the previous state changes, to the typed text. |
| HomeScreenTsx.Screen.ToggleBoolean | HomeScreen.tsx:170-175 | Only the named flag of the previous state changes. |
| HomeScreenTsx.Screen.PickImage | HomeScreen.tsx:177-191 | A cancelled pick or an empty asset list changes nothing. Otherwise only the image text changes: it becomes the first asset's base64 text when there is one, and "" when that text is missing. |
| HomeScreenTsx.Screen.HandleAddOrUpdate | HomeScreen.tsx:94-113 | Refuses (None) exactly when the body-part name or the risk is empty, and then nothing changes. Otherwise it updates the row being edited or inserts the form. Success reloads the entries and clears the form. A rejected statement leaves the screen as it was. A refusal, an update or a rejected statement leaves the id counter and the issued ids unchanged. A successful insert issues exactly the one new id. |
| HomeScreenTsx.Screen.HandleDelete | HomeScreen.tsx:115-133 | Deletes only when confirmed, then reloads the entries. Cancel changes neither the rows nor the entries. A delete rejected for lack of the table keeps the entries. The form, the id counter and the issued ids are never touched. |
| StoredEntries.Comparator | StoredEntriesScreen.tsx:72-78 | The two comparators passed to `sort`, written out: `b - a` on the timestamps for "latest", `a - b` for "oldest". It is the reference that `StoredEntries.KeyMatchesComparator` proves `Key` against. |
| StoredEntries.Key | StoredEntriesScreen.tsx:70-79 | The sort key for the chosen order: the negated timestamp for "latest", the timestamp for "oldest". `StoredEntries.KeyMatchesComparator` ties it to the source's comparators. |
| StoredEntries.KeyMatchesComparator | StoredEntriesScreen.tsx:72-78 | The comparator (`b - a` for "latest", `a - b` for "oldest" on the timestamps) equals the difference of the keys. So `a` sorts before `b` exactly when the comparator is negative, and two entries tie exactly when their timestamps are equal. |
| StoredEntries.InsertIsStable | StoredEntriesScreen.tsx:71-79 | Inserting one entry keeps the relative order of the entries that share any timestamp, and puts the new entry behind them. |
| StoredEntries.SortedViewPermutes | StoredEntriesScreen.tsx:67-83 | The view holds exactly the input entries, as a multiset and in number. |
| StoredEntries.SortedViewOrdered | StoredEntriesScreen.tsx:70-79 | Along the view the comparator's key never decreases. |
| StoredEntries.OrderedByTimestamp | StoredEntriesScreen.tsx:70-79 | In key order, "latest" means non-increasing timestamps and "oldest" means non-decreasing timestamps. |
| StoredEntries.SortedViewStable | StoredEntriesScreen.tsx:71-79 | For every timestamp, the entries carrying it appear in the view in their input order. |
| StoredEntries.SortedViewSpec | StoredEntriesScreen.tsx:67-83 | The view is a permutation of the input, ordered by timestamp in the chosen direction and stable on ties. |
| StoredEntries.InsertInPlace | StoredEntriesScreen.tsx:71-79 | One pass of the in-place sort over the copy: the array prefix becomes the previous prefix with the next entry inserted, and the rest of the array is untouched. |
| StoredEntries.FilterEntries | StoredEntriesScreen.tsx:67-83 | Sorting the copy in place gives exactly `SortedView(data, option)`. The input sequence is a value and cannot change. |
| StoredEntries.Screen.constructor | StoredEntriesScreen.tsx:43-47 | No entries, an empty view, order "latest". |
| StoredEntries.Screen.LoadEntries | StoredEntriesScreen.tsx:49-65 | On focus the entries become a listing of the stored rows (a rejected fetch keeps them). The view is rebuilt, so it equals the sorted entries. |
| StoredEntries.Screen.SetFilterOption | StoredEntriesScreen.tsx:57-59 | Changing the order keeps the entries and rebuilds the view in the new order. |
| StoredEntries.Screen.HandleDelete | StoredEntriesScreen.tsx:85-103 | Deletes only when confirmed, then reloads the entries and the view. Cancel changes neither the rows nor the entries. A delete rejected for lack of the table keeps the entries. The order and the issued ids are kept. |
| StoredEntries.Screen.ShowsNoEntries | StoredEntriesScreen.tsx:191-192 | "No stored entries found." is shown exactly when there are no entries. |

## Left out

- Connection handling: `openDb` reopens the database file on every call (database.js:106-109). The model keeps one store object and does not model SQL text or its parsing. A failure to open the file is not modelled.
- Concurrency: every store call and every handler is one sequential step. The source does not await `createTable` before the first `loadData` on mount (HomeScreen.js:61-62). The `.js` handlers read a possibly stale `formData` (HomeScreen.js:146,150). Neither interleaving is modelled.
- The mount effects themselves (permission prompt, `createTable`, first `loadData`) are not a separate member. Their parts are modelled as `CreateTable` and `LoadData`.
- UI I/O: `Alert` dialogs, the image library, the permission prompt, navigation, rendering and styles. The delete confirmation and the picker's result are parameters.
- The `.js` `pickImage` (HomeScreen.js:153-164) is not modelled. It is image-library I/O, and its state update has no guard for an empty asset list. The `.tsx` version is modelled as `HomeScreenTsx.Screen.PickImage`.
- Dates and floats: `Date.now()` is a parameter. `new Date(t).getTime()` is modelled as the stored integer timestamp itself. Invalid dates (NaN keys) and values beyond the JavaScript date range are not modelled, although StoredEntriesScreen.tsx:36 types the timestamp as a string.
- Database.NumberTextInjective: a numeric self-exam value is modelled as an integer only. Non-integral numbers and their `toString()` forms are not modelled.
- Database.NumberText: numbers are unbounded integers here. JavaScript prints integers of magnitude 10^21 or more in exponent form (`"1e+21"`), and has no exact integers beyond 2^53. The model prints every integer in plain decimal, so it matches the source only below 10^21 in magnitude, and exactly only up to 2^53.
- `toString()` on a null or undefined self-exam value would throw. It is not modelled because the form never produces it.
- Records.Changed: `handleChange` and `toggleBoolean` accept any field name in the source. They are modelled for the text fields and the flag fields that the render code actually passes.
- StoredEntries.FilterEntries: its contract is the equality with `SortedView`. The permutation, order and stability properties are stated once, in `StoredEntries.SortedViewSpec`, about that function.
- StoredEntriesScreen.js and DetailsScreen.js only fetch and render. They are not part of this model.
- The commented-out block at database.js:1-103 duplicates the live code and is not modelled.
- Base64 validity of the image text is never checked by the source and is not modelled.
