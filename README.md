# Electricity meter ledger — a Dafny model

This project models the core of the electricity-meter application. The
server (`server/index.js`) keeps three things:

- a `meters` table, one row per meter, holding its current and last reading;
- a `meter_readings_history` table, one row per reading, where each row
  stores its `difference` from the reading before it;
- a `location_types` table, whose `meter_numbers` column is a comma-joined
  list of the meters at that location.

The model covers these parts of the application:

- **The append path.** A reader submits a reading. The meter's projection
  shifts, and one history row is appended.
- **The correction path.** A past reading is rewritten. Its difference is
  recomputed against its chronological predecessor. Every later reading of
  the meter is then replayed in time order, and the meter's
  `current_reading` is set when nothing came later.
- **Adding and deleting meters.** This includes keeping the comma-joined
  lists in step, updating a meter's kind-specific fields, and the display
  labels of the meter listing.
- **The role gate and the user rules.**
- **Client decisions in the React components:**
  - the 24-hour edit window and the edit buttons;
  - the display-unit toggle and the edit payload;
  - meter de-duplication and the submit guard of the reader view;
  - the case-insensitive location suggestions of the add-meter form.

Modules, one concept each:

| module | file | contents |
|---|---|---|
| `Results` | results.dfy | `Option`, the request outcomes `Outcome`, `Result` |
| `Sequences` | sequences.dfy | `Filter`, `Dedup`, and `UpdateWhere`/`DeleteWhere`/`FindFirst` (the SQL `UPDATE`/`DELETE`/`SELECT ... LIMIT 1` on a table), primary-key predicates |
| `Csv` | csv.dfy | JavaScript `split(',')` and `join(',')` and their round trips |
| `Text` | text.dfy | truthiness, `x \|\| ''`, `toLowerCase`, `includes` |
| `Ledger` | ledger.dfy | meters and readings, the append and correction paths as functions on the tables, the ledger invariant |
| `Catalog` | catalog.dfy | location types and the membership lists, the listing and its labels, the meter update |
| `Identity` | identity.dfy | roles, `authorize`, the user-creation, update and deletion rules |
| `Server` | server.dfy | class `Database` holding the four tables; each request handler is a method that rewrites them in place |
| `HistoryModal` | history_modal.dfy | `canEdit` and the edit buttons |
| `MeterEditor` | meter_editor.dfy | the meter edit form of the data-manager view |
| `ReaderForm` | reader_form.dfy | the reader view's meter list and submit guard |
| `AddMeterForm` | add_meter_form.dfy | the add-meter form's handlers |

Handlers are all-or-nothing. Each `Database` method computes the new tables
and assigns them only on success. A refused, missing or failed request
therefore leaves every table as it was, which models the transaction's
rollback.

Calls the model replaces with parameters:

- The clock (`NOW()`, `new Date()`) is an integer parameter.
- An uploaded photo's URL is an opaque optional string.
- Readings are exact reals.
- bcrypt is the constructor `Hashed`.

Two behaviours of the code look unintended; the model keeps them as written:

- The location type of a deleted meter is looked up by name only.
- A correction refreshes `current_reading` only. The meter's `difference`
  and `last_reading` stay stale.

## Model

| member | source | states |
|---|---|---|
| Ledger.AppendShiftsProjection | server/index.js:349-367 | On the found meter row: the difference is the value minus `current_reading` (the value itself when unset); `last_*` takes the old `current_*`; `current_*` takes the new value, time and photo; the row's projection is consistent afterwards; rows of other meters are untouched |
| Ledger.AppendKeepsLedger | server/index.js:350-374 | Appending a reading later than all readings of the meter keeps that meter's ledger invariant: each difference is measured against the chronological predecessor, times are distinct, and the projection holds the tail's value |
| Ledger.LatestBeforeSpec | server/index.js:416-419 | The predecessor query finds a reading exactly when the meter has a strictly earlier reading, and none of those is later than the one found |
| Ledger.CorrectionDifference | server/index.js:421-428 | The target's new difference is the new value minus the predecessor's value, or the new value when there is no predecessor |
| Ledger.LaterSpec | server/index.js:437-440 | The later-readings query lists exactly the readings of the meter strictly later than the target, each once, in ascending time order |
| Ledger.LaterMember | server/index.js:437-440 | A row is listed as later exactly when it is a reading of the meter with a strictly greater time |
| Ledger.CorrectedTarget | server/index.js:416-434 | After a correction the target has the new value and the recomputed difference, and takes the new photo only when one was supplied |
| Ledger.CorrectedLater | server/index.js:437-451 | Each later reading, in time order, gets its value minus the previous one's (the first against the new value); its value and photo are kept |
| Ledger.CorrectedUntouched | server/index.js:430-451 | Rows that are neither the target nor later readings of the meter are unchanged; rows with the target's own time are among them |
| Ledger.CorrectedKeys | server/index.js:430-451 | A correction moves no row to another meter or time, and changes no value but the target's |
| Ledger.CorrectedValue | server/index.js:430-451 | After a correction a row's value is the new value for the target and the old value otherwise |
| Ledger.CorrectionReplays | server/index.js:430-440 | The later readings are the same whether queried before or after the target is rewritten |
| Ledger.ReplayAt | server/index.js:443-451 | The replay gives the row at position p its value minus the value at position p-1 (or minus the starting value) |
| Ledger.CorrectionMetersEffect | server/index.js:454-459 | Meter rows of the number take the new value as `current_reading` exactly when nothing was later; otherwise, and for other meters, rows are unchanged |
| Ledger.CorrectionKeepsLedger | server/index.js:408-459 | A correction of a reading of the meter keeps the ledger invariant: every recomputed difference matches the chronological chain, and the projection still tracks the tail |
| Ledger.MismatchedTargetBreaksChain | server/index.js:408-424 | Correcting another meter's reading through a meter's URL can break the other meter's chain, so the invariant needs the target to belong to the URL's meter |
| Server.ReplayLater | server/index.js:443-451 | The loop with a running `previousValue`, updating rows by id, computes exactly `Replay` over the later rows |
| Server.CorrectHistory | server/index.js:430-451 | The target update, the later-readings query and the loop give `Corrected`, report whether nothing was later, and keep reading ids unique |
| Server.Database.AppendReading | server/index.js:334-382 | An unknown number gives NotFound and writes nothing; otherwise the meter rows shift, one history row with the same difference and the stored meter type is appended under the next id, and the other tables are unchanged |
| Server.Database.CorrectReading | server/index.js:385-471 | Roles other than data manager and reader get Forbidden; an unknown reading id gives Failed with nothing written; otherwise the history becomes `Corrected` and `current_reading` is set only when nothing was later; the key invariant is kept |
| Server.Database.AddMeter | server/index.js:493-534 | Forbidden outside data manager and admin; an existing number gives Conflict and changes nothing; otherwise the meter row is inserted with empty fields and its number is pushed on the (location, campus) list, which is created when absent |
| Server.Database.DeleteMeter | server/index.js:540-593 | Forbidden outside data manager and admin; an unknown id gives NotFound; otherwise the meter's history rows and the meter row are deleted and its number leaves the lists of its location's name |
| Server.Database.UpdateMeter | server/index.js:640-672 | Forbidden outside data manager and admin; no row of the number gives NotFound; otherwise every row of that number takes the kind-specific update and nothing else changes |
| Server.Database.CreateUser | server/index.js:691-726 | Only admins pass; the answer is the creation verdict, and the user is appended with hashed password under the next id exactly on Ok |
| Server.Database.UpdateUser | server/index.js:755-787 | Only admins pass; the answer is the update verdict, and the supplied fields are written exactly on Ok |
| Server.Database.DeleteUser | server/index.js:740-752 | Only admins pass; the answer is the deletion verdict, and on Ok the user with that id is gone |
| Server.EnrollBound | server/index.js:508-515 | The location-type id counter grows by one exactly when a location type had to be created |
| Server.MeterWithId | server/index.js:550-557 | The meter found for deletion is a row of the table with the requested id |
| Catalog.AddMember | server/index.js:524-526 | The stored list becomes the number alone when empty, otherwise gains a comma and the number; read back, it is the old list plus the number |
| Catalog.RemoveMember | server/index.js:571-572 | What is left of a list is exactly its other numbers, none holding a comma |
| Catalog.RemoveAddedMember | server/index.js:524-572 | Removing a just-added number from a list that did not hold it gives the list back |
| Catalog.EnrollEffect | server/index.js:507-526 | An existing (name, campus) location type lists the number at the end and nothing else changes; otherwise a new one with the next id lists just the number |
| Catalog.UnenrollEffect | server/index.js:568-580 | No location type of the name: nothing changes; the first one's list emptied: every location type of that name is deleted; otherwise every one of that name, whatever its campus, is given the remaining numbers in order |
| Catalog.MeterTypeDisplay | server/index.js:183-187 | `digital` shows 數位式, `mechanical` 機械式, anything else 未設定, each in both directions |
| Catalog.TypeSpecificInfo | server/index.js:188-215 | Digital brands 1/2 show 施耐德/其他, mechanical CT codes 1/2 show 有裝電比值/沒有, other codes pass through, an empty result, a NULL result or any other type shows 未設定 |
| Catalog.ListMeters | server/index.js:181-209 | The listing holds exactly the labelled rows whose number is requested, never more rows than the table holds |
| Catalog.ListMetersCounts | server/index.js:181-209 | `IN` neither drops nor repeats rows: a requested row appears as often as in the table, any other row not at all |
| Catalog.ListDedupHarmless | server/index.js:208-209 | De-duplicating the requested numbers does not change the rows listed |
| Catalog.SplitAll | server/index.js:175 | Flattening the campus's lists fails exactly when one of them is NULL; otherwise a number is in the result exactly when some list holds it |
| Catalog.CampusSelection | server/index.js:166-177 | No location type of the campus gives NotFound, a NULL list among them Failed; otherwise the numbers are selected, and they are exactly the items of the campus's lists |
| Catalog.SelectNumbers | server/index.js:155-177 | `location` uses the list of the location type with that id (Failed when it is NULL), `campus` the lists of all its location types (Failed when one is NULL, else exactly their items); no match gives NotFound, any other type Invalid |
| Catalog.MetersListing | server/index.js:151-222 | The listing fails exactly when the selection is refused, and is otherwise the listed rows of the selected numbers |
| Catalog.MeterUpdateFields | server/index.js:646-660 | `digital` writes type, brand and unit, any other type writes type, CT value and wiring; the other branch's fields and all other columns are kept |
| Catalog.UpdateMeters | server/index.js:646-662 | Every row of the number takes the update, every other row is unchanged |
| Csv.JoinSplit | server/index.js:524-526 | Splitting a string at commas and re-joining gives the string back |
| Csv.SplitJoin | server/index.js:524-526 | Joining comma-free items and splitting gives the items back |
| Csv.ParseListJoin | client/src/components/DataManagerView.js:196 | A list of comma-free items, stored and read back, comes back unchanged (except the list holding one empty item) |
| Csv.JoinParseList | client/src/components/DataManagerView.js:196 | Reading a stored list and joining it gives the stored text back |
| Identity.Authorize | server/index.js:92-98 | A request passes exactly when the user's role is among the route's roles |
| Identity.RouteGates | server/index.js:92-98 | Corrections admit exactly data managers and readers, the catalog routes data managers and admins, the user routes admins |
| Identity.CreateVerdict | server/index.js:696-711 | Checks run in order: missing fields give Invalid, a taken name gives Conflict, a bad role gives Invalid; Ok exactly when all pass |
| Identity.CreatedUsers | server/index.js:712-719 | The new user is appended with its password hashed and every old user is kept |
| Identity.CreateThenConflict | server/index.js:701-706 | Creating a name that was just created is a conflict |
| Identity.UpdateVerdict | server/index.js:761-777 | Unknown id gives NotFound, no truthy field gives Invalid, Ok otherwise, each as an if-and-only-if |
| Identity.UpdateEffect | server/index.js:767-780 | Exactly the supplied fields of that user change (password hashed), unchecked role included; other users are untouched |
| Identity.EmptyUpdateRejected | server/index.js:767-777 | An update of an existing user with no or only empty fields is rejected |
| Identity.DeleteVerdict | server/index.js:742-746 | NotFound exactly when no user has the id, Ok exactly when one has |
| Identity.DeletedUsers | server/index.js:742 | Exactly the users with another id remain |
| HistoryModal.CanEdit | client/src/components/MeterHistoryModal.js:19-25 | Data managers may always edit; anyone else exactly when the reading time is known and at most 24 hours have passed |
| HistoryModal.CanEditBoundary | client/src/components/MeterHistoryModal.js:24 | Exactly 24 hours is editable, one millisecond more is not |
| HistoryModal.CanEditMonotone | client/src/components/MeterHistoryModal.js:23-24 | Editable after some elapsed time implies editable after any smaller one, future-dated readings included |
| HistoryModal.WindowBindsAdmins | client/src/components/MeterHistoryModal.js:20-24 | Past the window admins and readers may not edit, data managers may |
| HistoryModal.AdminButtonRefused | client/src/components/MeterHistoryModal.js:19-25 | An admin sees the button on a fresh reading that the correction route refuses to admins |
| HistoryModal.EditButtons | client/src/components/MeterHistoryModal.js:55-57 | A record shows the edit button exactly when `canEdit` holds for its time |
| MeterEditor.ToggleUnit | client/src/components/DataManagerView.js:141-148 | An absent unit is appended at the end; a present one is removed everywhere and the others are kept; the unit is present afterwards exactly when it was absent |
| MeterEditor.ToggleKeepsOrder | client/src/components/DataManagerView.js:143-144 | Removing a unit keeps the other units in their relative order |
| MeterEditor.ToggleTwice | client/src/components/DataManagerView.js:143-146 | Toggling an absent unit twice gives back the original list |
| MeterEditor.ToggleDisplayUnit | client/src/components/DataManagerView.js:141-148 | Only the unit list of the form changes |
| MeterEditor.EditPayload | client/src/components/DataManagerView.js:153-163 | `digital` sends type, brand and joined units; any other type sends type, CT value and wiring; the two sets never mix |
| MeterEditor.EditedInfoOf | client/src/components/DataManagerView.js:193-199 | Missing fields become ''; a missing or empty unit column becomes the empty list, and the list joins back to the stored text |
| MeterEditor.SelectMeter | client/src/components/DataManagerView.js:190-201 | No result exactly when no meter has the id; otherwise the form of a meter with that id |
| MeterEditor.UnitsRoundTrip | client/src/components/DataManagerView.js:159-196 | Comma-free units saved joined and split on selection come back unchanged |
| MeterEditor.EditRoundTrip | client/src/components/DataManagerView.js:153-199 | Selecting a meter and saving unchanged writes back the fields of its branch as they were, NULLs as '' |
| ReaderForm.DedupMeters | client/src/components/ReaderView.js:70-73 | One meter per distinct number, in first-occurrence order, each the first meter with that number |
| ReaderForm.DedupMetersUnique | client/src/components/ReaderView.js:70-73 | No two kept meters share a number |
| ReaderForm.DedupMetersComplete | client/src/components/ReaderView.js:70-73 | Every number of the response is kept, and the list is never longer than the response |
| ReaderForm.DedupMetersFirst | client/src/components/ReaderView.js:70-73 | Each kept meter is a response meter with no earlier meter of the same number |
| ReaderForm.DedupMetersOrder | client/src/components/ReaderView.js:70-73 | Kept meters follow the order in which their numbers first occur |
| ReaderForm.DedupMetersDistinct | client/src/components/ReaderView.js:70-73 | With distinct numbers the list is kept as it is |
| ReaderForm.Submit | client/src/components/ReaderView.js:84-94 | Nothing is sent exactly when no meter is selected or the reading is empty; otherwise the selected meter's number and the reading |
| Text.Contains | client/src/components/AddMeterForm.js:39 | `includes` holds exactly when the text occurs at some position |
| AddMeterForm.Suggestions | client/src/components/AddMeterForm.js:34-45 | Empty input or no campus gives none; every suggestion is a location-type name containing the input ignoring case, and every such name is suggested |
| AddMeterForm.NamesFilter | client/src/components/AddMeterForm.js:38-40 | Filtering then naming equals the element-by-element list of matching names |
| AddMeterForm.SuggestionsInOrder | client/src/components/AddMeterForm.js:38-40 | The suggestions are the matching names in location-type order |
| AddMeterForm.SuggestionsIgnoreCase | client/src/components/AddMeterForm.js:39 | Inputs equal up to case give the same suggestions |
| AddMeterForm.ExactNameSuggested | client/src/components/AddMeterForm.js:39 | Typing a location type's name in any case suggests it |
| AddMeterForm.ChangeLocation | client/src/components/AddMeterForm.js:34-45 | The location becomes the input and the suggestions are recomputed; nothing else changes |
| AddMeterForm.ClickSuggestion | client/src/components/AddMeterForm.js:47-50 | The location becomes the suggestion and the list is emptied |
| AddMeterForm.ChangeCampus | client/src/components/AddMeterForm.js:15-32 | The location is cleared; only a changed campus runs the effect; no campus empties the types; a fetch loads them; a failed fetch keeps them and shows the banner |
| AddMeterForm.SuggestionsFollowCampus | client/src/components/AddMeterForm.js:15-45 | After a new campus's types load, typing suggests exactly that campus's matching names |
| AddMeterForm.NoCampusNoSuggestions | client/src/components/AddMeterForm.js:15-44 | With no campus chosen nothing is suggested, whatever was loaded before |
| AddMeterForm.ClickedSuggestionIsName | client/src/components/AddMeterForm.js:38-50 | Clicking an offered suggestion puts a location type's name into the form and closes the list |

## Left out

- HTTP plumbing is left out because it is not part of what is modelled. This covers Express routing, CORS, status codes, response bodies, the error middleware and `authenticateToken`. A route's result is an `Outcome`, and the role of the signed-in user is a parameter.
- JWT signing and checking, bcrypt and `/test-bcrypt` are left out as foreign cryptographic calls. A stored password is `Hashed(plain)`, and login is not modelled.
- The mysql2 pool, SQL text, transaction isolation and concurrent requests are left out, because concurrency is out of scope. Each handler is atomic, and the append path, which has no transaction, is modelled as atomic as well.
- The table queries are written out in the model:
  - `affectedRows` counts matched rows;
  - MySQL's case-insensitive collation is not modelled, so strings compare exactly;
  - SQL NULL is `None`;
  - a NULL `location` in `meters` is modelled as the empty string, which the delete path treats the same (`if (locationName)`).
- multer uploads and photo URLs are left out, and so is `NOW()`. A photo is an opaque optional string, and the time is a parameter.
- `parseFloat` and JavaScript number coercion are left out: readings are exact reals, and time differences are integers of milliseconds.
- Ledger.LatestBefore: ties between readings with equal times are resolved, where the database leaves them unspecified, by the first row in table order for the predecessor and by table order for the later readings. When times are distinct per meter, which is what the invariant lemmas assume, the choice is immaterial.
- Text.Lower: lower-cases only the letters A to Z. `toLowerCase` also folds other scripts, and the model does not capture that.
- Campus creation and deletion (server/index.js:595-688) are left out. They are plain multi-table inserts and deletes outside the ledger.
- The legacy `GET /meters`, the commented-out listing block, the `/login`, `/campuses`, `/location-types` and history read routes, and `GET /users` are left out. They only read.
- client/src/App.js and client/src/components/AdminView.js are not part of this model: they are view switching, the offline queue, and forwarding to the modelled user routes.
- AddMeterForm's `handleSubmit` is left out, because it forwards to the parent and resets the form. Also left out: the order in which asynchronous fetches complete, React rendering, and the alerts.
- ReaderForm.Submit: does not model the multipart form encoding or the request itself, only what is sent.
- Catalog.AddMember: the read-back round trip is stated for numbers that are non-empty and contain no comma. A number containing a comma splits into several list items. An empty number added to an empty list is stored as `''` and reads back as no items. The add-meter route (server/index.js:498) validates neither, and the model leaves those cases unstated.
- Catalog.ListMeters: the query has no `ORDER BY` (server/index.js:181-205), so the order of the listed rows is the database's. The model lists them in table order, and no property depends on that order.
- Ledger.CorrectionKeepsLedger: the invariant is proved only when the corrected reading belongs to the meter in the URL. The route fetches the target by its id alone (server/index.js:408), and `Ledger.MismatchedTargetBreaksChain` shows that a mismatched target breaks the other meter's chain.
- HistoryModal.CanEdit: a reading time the browser cannot parse is `None`, standing for the NaN comparison, which is false.
