# School records: store, transfer screen and WhatsApp link

A Dafny model of three parts of a school-administration record keeper.

1. **The server's student-record store.** The server is an Express app over SQLite. Its tables are modelled as sequences of rows in key order, held in the fields of the class `StudentStore.Store`. The handlers in the model are:
   - the batch transfer of students to a target class and education year;
   - the parent-phone check;
   - student create, which inserts the parent rows;
   - student update, which upserts the parent rows by presence;
   - start-up seeding of the default education year;
   - the start-up repair that keeps one mother and one father row per student;
   - the strict `is_shared` coercion of an announcement update;
   - the photo and attachment replacement, which happens only on upload;
   - the class roster query with its joins and ordering.
2. **The WhatsApp popup (`WhatsApp`).** Covers the phone-number cleaning, the `wa.me` link, the default greeting, and the closed popup that renders nothing.
3. **The transfer screen (`TransferScreen`).** Covers the selection toggle, select-all, the year change that forgets the chosen class, the guard on sending, the reset after success, and the target's display name.

Modules, one per file:
- `Js` holds JSON values, truthiness and the regular-expression character classes.
- `Sequences` holds subsequence and distinctness.
- `RequestRules` holds the checks on request inputs.
- `StoreTables` holds the rows and the effect of each SQL statement.
- `ClassListing` holds the roster query.
- `StudentStore` holds the database value, each handler's effect on it, and the `Store` class.
- `WhatsApp` and `TransferScreen` model the two client components.

Each handler method of `Store` states its new state as a function of the old one, for example `Contents() == Created(old(Contents()), form, upload)`. Lemmas then show what that function guarantees. The database stays well formed: keys are increasing and below their AUTOINCREMENT counters, year labels are unique, and the parent tables hold one row per student where that constraint exists. The written records read back as submitted.

Notes on the model:
- SQLite checks a NOT NULL column only on rows a statement writes. An UPDATE aimed at a missing id therefore succeeds and changes 0 rows. The student update handler then still upserts the parent rows for that id. `UpdateResult` and `Updated` model exactly this.
- The parent tables are declared with UNIQUE(student_id). A database file created by an older schema may lack it, and that is why the start-up repair exists. `Store.parentsKeyed` says which case holds. The constraint can only refuse the create-time insert. That insert is run without a callback, so its failure is not handled at all. In the model the refused insert leaves the table and the counter as they were. An update of an id no student has yet still writes parent rows for it, so a later create of that id reads back those older rows rather than the submitted ones (`CreatedKeepsEarlierParents`).
- The per-id transfer updates and the parent-row lookups of the update handler log their errors. The parent-row INSERT, UPDATE and DELETE statements are run without a callback, so their errors are not handled. In neither case does the reply depend on the error. None of these statements can fail in the model, except the refused insert above.
- A value bound to `WHERE id = ?` is compared with an INTEGER PRIMARY KEY, so SQLite applies NUMERIC affinity to it. A submitted id `"5"` therefore moves student 5, and `true` is bound as 1 (`StoreTables.BoundIdMatches`).
- The status toggle of the student detail page sends only `{ is_active }`. Under the code modelled here, that update violates NOT NULL on `first_name` and is refused with status 500 (`UpdateResult`).
- `ORDER BY last_name, first_name` uses SQLite's BINARY collation, which compares code points. Rows with equal keys may come in any order. The model fixes one order, and its contract promises only sortedness and the exact rows.

## Model

| member | source | states |
|---|---|---|
| RequestRules.PhonePatternExact | server/index.js:273 | the anchored pattern `^[0-9+\s\-\(\)]*$` matches a string iff every character is a digit, `+`, JS whitespace, `-`, `(` or `)` |
| RequestRules.CheckParentPhones | server/index.js:273-279 | rejects the mother's phone iff it is non-empty with a character outside the class; rejects the father's phone only when the mother's passes; accepts iff both are absent, empty or well formed |
| RequestRules.MatchesPhonePattern | server/index.js:273 | definition: `phoneRegex.test`, a left-to-right match of the anchored character class; `PhonePatternExact` states what it accepts |
| RequestRules.LetterInPhoneRejected | server/index.js:722-725 | a mother's phone holding an ASCII letter anywhere is refused with the mother's message, whatever the father's phone |
| RequestRules.LetterInFatherPhoneRejected | server/index.js:722-728 | a father's phone holding an ASCII letter anywhere is refused with the father's message once the mother's phone passes |
| RequestRules.IsSharedFlag | server/index.js:456 | `is_shared` is stored true iff the input is strictly `true`, `1` or `'true'`; every such input is truthy |
| RequestRules.ValidateTransfer | server/index.js:679-685 | rejects with the id message iff `student_ids` is not a non-empty array; rejects with the target message iff the ids pass but a target is null or 0; on success the plan carries exactly the submitted ids and targets |
| StoreTables.BoundIdMatches | server/index.js:689-691 | definition: `WHERE id = ?` with the bound value under NUMERIC affinity: a number as itself, a boolean as 1 or 0, a text as the number it spells, `null` never |
| StoreTables.TextIdAddressesKey | server/index.js:689-691 | a submitted id written as the key's decimal text moves that student to the targets, as a number would |
| StoreTables.BoundIdMatchesOne | server/index.js:689-691 | a submitted value, number, boolean or text, addresses at most one key under SQLite's comparison rules |
| StoreTables.TransferOne | server/index.js:689-695 | one prepared UPDATE keeps every key, changes no column but class and year, gives every addressed row the targets, and leaves every other row unchanged |
| StoreTables.TransferAll | server/index.js:688-696 | definition: the prepared statement run once per submitted value, in list order; `TransferAllEffect` states its effect |
| StoreTables.TransferAllEffect | server/index.js:688-696 | after the batch, each student addressed by some submitted value has the target class and year with every other column kept, and every other student is unchanged |
| StoreTables.ContactOf | server/index.js:298-302 | definition: the contact columns bound from the form, with an empty or absent guardian flag stored as 0 |
| StoreTables.OverwriteFor | server/index.js:765-772 | the UPDATE overwrites name and contact columns of exactly the student's rows and keeps every row's id and owner |
| StoreTables.DeleteFor | server/index.js:781-783 | the DELETE leaves exactly the rows of other students, so the student has no row left |
| StoreTables.DeleteForIncreasing | server/index.js:782 | deleting keeps the remaining keys in order |
| StoreTables.DeleteForOnePerStudent | server/index.js:782 | deleting keeps at most one row per student |
| StoreTables.ParentOf | server/index.js:327-328 | the joined parent record is a row of the table owned by the student, and is absent iff the student has no row |
| StoreTables.UpsertParent | server/index.js:757-783 | definition: the update handler's per-parent branch; `UpsertByPresence`, `UpsertThenRead` and `UpsertKeepsTable` state its effect |
| StoreTables.UpsertByPresence | server/index.js:757-783 | filled name with rows: those rows are overwritten, others untouched, keys kept; filled name without rows: exactly one row is appended; empty or absent name: the student's rows are deleted and no other row |
| StoreTables.UpsertThenRead | server/index.js:757-812 | after the upsert the student's record reads back the submitted name and contact, or nothing for an empty name; every other student's record reads as before |
| StoreTables.OverwriteRead | server/index.js:765-772 | after the overwrite the student's record carries the new values and other students' records are unchanged |
| StoreTables.AppendRead | server/index.js:774-778 | an inserted row for a student without rows is that student's record, one for a student with rows does not change that record, and other students' records are unchanged |
| StoreTables.DeleteRead | server/index.js:782 | deleting one student's rows leaves every other student's record unchanged |
| StoreTables.UpsertKeepsTable | server/index.js:757-812 | the upsert keeps keys increasing and below the advanced counter, and a table with one row per student keeps that property |
| StoreTables.ParentOnCreate | server/index.js:298-311 | definition: the create handler's insert for a filled name, refused by UNIQUE(student_id) where present; `ParentOnCreateSpec` states its effect |
| StoreTables.ParentOnCreateSpec | server/index.js:298-311 | the create-time insert keeps keys in order, keeps a keyed table at one row per student, gives a student without rows exactly the submitted record (none for an empty name), leaves the record of a student with rows as it was, and leaves other students' records alone |
| StoreTables.KeepMinRows | server/index.js:186-188 | the kept rows are exactly the rows holding their student's smallest id |
| StoreTables.KeepMinRowsIncreasing | server/index.js:186-188 | the repair keeps the surviving keys in order |
| StoreTables.MinRowFor | server/index.js:187 | every student with rows has a row of smallest id among its rows |
| StoreTables.Deduplicated | server/index.js:186-192 | definition: `DELETE ... WHERE id NOT IN (SELECT MIN(id) ... GROUP BY student_id)`; `DeduplicatedSpec` states its effect |
| StoreTables.DeduplicatedSpec | server/index.js:186-192 | after the repair each student has at most one row, the survivor holds the student's minimum id, and exactly the students that had rows still have one |
| StoreTables.DeduplicatedBelow | server/index.js:186-192 | the repair keeps every key below the counter |
| StoreTables.DeduplicatedIdempotent | server/index.js:186-192 | running the repair a second time changes nothing |
| StoreTables.KeepUniqueUnchanged | server/index.js:186-192 | a table with one row per student is left as it is |
| StoreTables.CountLabelUnique | server/index.js:45 | with unique labels, a label occurs once if present and not at all otherwise |
| StoreTables.SeedYear | server/index.js:183 | definition: `INSERT OR IGNORE` of the default year against UNIQUE(year); `SeedYearSpec` states its effect |
| StoreTables.SeedYearSpec | server/index.js:183 | after the seed exactly one row carries `'2025-2026'`; labels stay unique, keys in order; seeding again changes neither table nor counter |
| StoreTables.StudentOf | server/index.js:318-333 | the detail lookup returns a row with the requested id, and nothing iff no row has it |
| StoreTables.StudentOfAt | server/index.js:318-333 | with keys in order, a row's id reads back that very row |
| StoreTables.AppendStudentSpec | server/index.js:283-295 | inserting with the counter's id keeps keys increasing and below the advanced counter, and the new id reads back the inserted row |
| StoreTables.UpdatedStudent | server/index.js:733-745 | definition: the updated row, whose photo is set only with an upload; `PhotoOnlyWithUpload` states the rule |
| StoreTables.UpdateStudentRows | server/index.js:733-750 | definition: `UPDATE students SET ... WHERE id = ?`, rewriting the one row with the requested id; `UpdateStudentRowsSpec` states its effect |
| StoreTables.UpdateStudentRowsSpec | server/index.js:733-750 | the update keeps the key column, the addressed student reads back as the updated row, every other row is unchanged, and every other id reads back as before |
| StoreTables.PhotoOnlyWithUpload | server/index.js:742-745 | the photo changes only when a file is uploaded, and the id never changes |
| StoreTables.UpdatedEvent | server/index.js:586-593 | definition: the updated event, whose attachment is set only with an upload; `EventFileOnlyWithUpload` states the rule |
| StoreTables.UpdateEventRows | server/index.js:586-597 | the UPDATE keeps every key and every event's plan, writes the submitted date, name and description into the addressed event, and leaves every other event unchanged |
| StoreTables.EventFileOnlyWithUpload | server/index.js:590-593 | an event's attachment changes iff it is the addressed event and a file was uploaded, and then to that file |
| StoreTables.UpdateAnnouncementRows | server/index.js:458-463 | the UPDATE keeps every key and every announcement's class and year, writes the submitted title, event date, sharing flag, shared date and notes into the addressed announcement, and leaves every other announcement unchanged |
| ClassListing.Listable | server/index.js:253 | definition: `WHERE s.class_id = ? AND s.is_active = 1` |
| ClassListing.Joined | server/index.js:244-253 | definition: the two LEFT JOINs over the listable students; `JoinedMembers` and `JoinedOneRowEach` state its rows |
| ClassListing.RowsFor | server/index.js:251-252 | a student's join partners are exactly the table's rows owned by it |
| ClassListing.Partners | server/index.js:251-252 | a LEFT JOIN pairs a student with each row it owns, or with one NULL row when it owns none |
| ClassListing.Somes | server/index.js:251-252 | each owned row becomes a present join partner, and nothing else does |
| ClassListing.JoinStudent | server/index.js:251-252 | a student's result rows are exactly its mother partners crossed with its father partners |
| ClassListing.WithEachFather | server/index.js:252 | one mother partner yields a row with each father partner |
| ClassListing.JoinedMembers | server/index.js:246-253 | a row is in the join iff it pairs an active student of the class with one of its mother partners and one of its father partners |
| ClassListing.RowsForOne | server/index.js:251-252 | with one row per student, a student's partners are its record or nothing |
| ClassListing.PartnersOne | server/index.js:251-252 | with one row per student, the join pairs a student with exactly its record or one NULL row |
| ClassListing.OneRowEach | server/index.js:253 | the one-row-per-student roster has at most as many rows as there are students |
| ClassListing.JoinedOneRowEach | server/index.js:251-253 | once both parent tables hold one row per student, the join yields exactly one row per active student of the class, with its records |
| ClassListing.LexLeqTotal | server/index.js:254 | BINARY collation orders any two strings |
| ClassListing.LexLeqReflexive | server/index.js:254 | every string collates at most equal to itself |
| ClassListing.LexLeqAntisymmetric | server/index.js:254 | strings that collate both ways are equal |
| ClassListing.LexLeqTransitive | server/index.js:254 | the collation is transitive |
| ClassListing.NameLeqTotal | server/index.js:254 | the (last name, first name) order relates any two rows |
| ClassListing.NameLeqTransitive | server/index.js:254 | the (last name, first name) order is transitive |
| ClassListing.InsertByNameSpec | server/index.js:254 | inserting into a sorted roster keeps it sorted and adds exactly the one row |
| ClassListing.SortByNameSpec | server/index.js:254 | the sort orders rows by last then first name and is a permutation |
| ClassListing.ClassList | server/index.js:244-254 | definition: the join sorted by last and first name; `ClassListSpec` states its properties |
| ClassListing.ClassListSpec | server/index.js:244-254 | the roster is sorted, has exactly the join's rows with their multiplicities, holds a row iff it pairs a listable student with its partners, and with one parent row per student has one row per active student |
| ClassListing.ListedIffListable | server/index.js:253 | a student appears in its class roster iff its class matches and it is active |
| StudentStore.Initialized | server/index.js:183-192 | definition: the start-up seed followed by the repair of both parent tables; `InitializedSpec` states its effect |
| StudentStore.InitializedSpec | server/index.js:183-192 | after start-up the database stays well formed, `'2025-2026'` occurs exactly once, both parent tables hold one row per student, and a second start changes nothing |
| StudentStore.CreateResult | server/index.js:273-295 | the create succeeds iff both phones pass and the NOT NULL columns are given, and then replies with the counter's id; a failed phone check is refused with that check's error (400), and otherwise missing NOT NULL columns are refused as a store failure (500) |
| StudentStore.CreatedKeepsEarlierParents | server/index.js:298-311 | a parent row already held by the new id, left by an earlier update of an id no student had, is still that id's record after the create |
| StudentStore.Created | server/index.js:283-311 | definition: the database after a successful create; `CreatedWellFormed` and `CreatedReadsBack` state its properties |
| StudentStore.CreatedWellFormed | server/index.js:283-311 | a create keeps the database well formed |
| StudentStore.CreatedReadsBack | server/index.js:283-311 | after a create the new id reads back the submitted student and parents (none for an empty name), and no other student's parent record changes |
| StudentStore.UpdateResult | server/index.js:722-754 | the update succeeds iff both phones pass and the NOT NULL columns are given or no row has the id; a failed phone check is refused with that check's error (400), and otherwise an existing row without its NOT NULL columns is refused as a store failure (500) |
| StudentStore.Updated | server/index.js:733-812 | definition: the database after a successful update; `UpdatedWellFormed`, `UpdatedStudentReadsBack` and `UpdatedParentsReadBack` state its properties |
| StudentStore.UpdatedWellFormed | server/index.js:733-812 | an update keeps the database well formed |
| StudentStore.UpdatedStudentReadsBack | server/index.js:733-750 | after an update the student reads back as updated, every other id reads back as before, and an id without a row changes no student |
| StudentStore.UpdatedParentsReadBack | server/index.js:757-812 | after an update each parent record reads back as submitted or absent, and no other student's parent records change |
| StudentStore.StudentOfMissingUnchanged | server/index.js:733-750 | an update aimed at an id without a row changes no student |
| StudentStore.Store.Open | server/index.js:17-24 | the opened store holds exactly the database file's tables and counters |
| StudentStore.Store.InitDatabase | server/index.js:183-192 | the new state is the seeded and repaired database, and the store stays valid |
| StudentStore.Store.Transfer | server/index.js:676-709 | a rejected request changes no student; an accepted one overwrites the class and year of exactly the students the submitted values address and reports the number of submitted ids |
| StudentStore.Store.CreateStudent | server/index.js:264-316 | the reply is `CreateResult`; a refusal writes nothing; a success leaves the database `Created` from the old one |
| StudentStore.Store.UpdateStudent | server/index.js:712-817 | the reply is `UpdateResult`; a refusal writes nothing; a success leaves the database `Updated` from the old one |
| StudentStore.Store.UpdateAnnouncement | server/index.js:452-471 | refused iff the announcement exists and the title is missing; otherwise the row is rewritten with the strict `is_shared` coercion and the reply is the number of changed rows |
| StudentStore.Store.UpdateEvent | server/index.js:582-605 | refused iff the event exists and date or name is missing; otherwise the row is rewritten, the attachment only on upload, and the reply is the number of changed rows |
| StudentStore.Store.ListClass | server/index.js:244-262 | the roster is sorted by name and holds exactly the joined rows, one per active student once the parent tables are repaired |
| WhatsApp.CleanPhoneNumber | src/components/WhatsAppPopup.tsx:21 | definition: the whitespace removal followed by the removal of everything but digits and `+`; the lemmas below state its properties |
| WhatsApp.KeepDialableAppend | src/components/WhatsAppPopup.tsx:21 | cleaning distributes over concatenation |
| WhatsApp.CleanIsOneFilter | src/components/WhatsAppPopup.tsx:21 | stripping whitespace and then non-dialable characters equals one filter keeping digits and `+` |
| WhatsApp.CleanAlphabet | src/components/WhatsAppPopup.tsx:21 | every character of the cleaned number is an ASCII digit or `+` |
| WhatsApp.KeepDialableAlphabet | src/components/WhatsAppPopup.tsx:21 | the filter keeps only digits and `+` |
| WhatsApp.CleanCounts | src/components/WhatsAppPopup.tsx:21 | the cleaned number holds each digit and `+` as often as the input does, and nothing else |
| WhatsApp.KeepDialableCounts | src/components/WhatsAppPopup.tsx:21 | the filter keeps each kept character's multiplicity |
| WhatsApp.CleanIsSubsequence | src/components/WhatsAppPopup.tsx:21 | the cleaned number is a subsequence of the input |
| WhatsApp.KeepDialableIsSubsequence | src/components/WhatsAppPopup.tsx:21 | the filter keeps the input's order |
| WhatsApp.CleanNoLonger | src/components/WhatsAppPopup.tsx:21 | the cleaned number is no longer than the input |
| WhatsApp.CleanFixesExactlyDialable | src/components/WhatsAppPopup.tsx:21 | cleaning returns the input unchanged iff it holds only digits and `+` |
| WhatsApp.KeepDialableIdentity | src/components/WhatsAppPopup.tsx:21 | the filter returns a digits-and-`+` input unchanged |
| WhatsApp.CleanIdempotent | src/components/WhatsAppPopup.tsx:21 | cleaning twice equals cleaning once |
| WhatsApp.WhatsAppUrl | src/components/WhatsAppPopup.tsx:22 | definition: `https://wa.me/` and the cleaned number; `UrlDialsCleanNumber` states what it dials |
| WhatsApp.UrlDialsCleanNumber | src/components/WhatsAppPopup.tsx:22 | the link is `https://wa.me/` followed by exactly the cleaned number |
| WhatsApp.DefaultMessage | src/components/WhatsAppPopup.tsx:24 | definition: the greeting template with the contact and student names |
| WhatsApp.DefaultMessageInjective | src/components/WhatsAppPopup.tsx:24 | two equal greetings with the same contact name have the same student name, and conversely |
| WhatsApp.Popup | src/components/WhatsAppPopup.tsx:19-36 | a closed popup renders nothing; an open one shows the given names and number, links to the cleaned number, pre-fills the default message for those names, and copies the number as given |
| WhatsApp.CopiedMatchesDialled | src/components/WhatsAppPopup.tsx:21-34 | the copied text equals the dialled number iff the number has only digits and `+` |
| TransferScreen.Without | src/components/StudentTransfer.tsx:69 | definition: `prev.filter(id => id !== studentId)`; `WithoutSpec` states its result |
| TransferScreen.WithoutSpec | src/components/StudentTransfer.tsx:69 | the filter drops every occurrence of the id and keeps all other ids, with their multiplicities, in order |
| TransferScreen.WithoutAppend | src/components/StudentTransfer.tsx:69 | the filter distributes over concatenation |
| TransferScreen.WithoutAbsent | src/components/StudentTransfer.tsx:69 | filtering an absent id changes nothing |
| TransferScreen.WithoutShorter | src/components/StudentTransfer.tsx:69 | the filter never lengthens the selection, and shortens it when the id is present |
| TransferScreen.WithoutDistinct | src/components/StudentTransfer.tsx:69 | the filter keeps a repetition-free selection repetition-free |
| TransferScreen.Toggled | src/components/StudentTransfer.tsx:66-71 | definition: remove the id when selected, append it otherwise; the toggle lemmas below state its properties |
| TransferScreen.ToggleSelectedRemoves | src/components/StudentTransfer.tsx:66-71 | toggling a selected id removes it entirely, keeps the others in order and shortens the selection |
| TransferScreen.ToggleTwiceRestores | src/components/StudentTransfer.tsx:68-70 | toggling an unselected id appends it, and toggling it again restores the selection |
| TransferScreen.ToggleKeepsDistinct | src/components/StudentTransfer.tsx:66-71 | toggling keeps a repetition-free selection repetition-free |
| TransferScreen.SelectAllResult | src/components/StudentTransfer.tsx:74-80 | clears when the selection is as long as the list; otherwise selects every student's id in list order |
| TransferScreen.SelectAllThenClear | src/components/StudentTransfer.tsx:74-80 | select-all from a partial selection selects every student, and pressing it again clears |
| TransferScreen.FindFirst | src/components/StudentTransfer.tsx:118-119 | `find` returns the first matching index, or nothing when no element matches |
| TransferScreen.TargetClassName | src/components/StudentTransfer.tsx:117-121 | empty iff the class or the year is not among the loaded ones; otherwise the name of the first matching class, a space and the first matching year in parentheses |
| TransferScreen.GuardMatchesServer | src/components/StudentTransfer.tsx:83-94 | the screen sends a request iff the server's validation accepts it, and the server's plan is exactly the selection and targets |
| TransferScreen.TransferView.constructor | src/components/StudentTransfer.tsx:12-20 | the screen starts with nothing selected, no targets and the dialog closed |
| TransferScreen.TransferView.SelectStudent | src/components/StudentTransfer.tsx:66-72 | the selection becomes its toggle by the id |
| TransferScreen.TransferView.SelectAll | src/components/StudentTransfer.tsx:74-80 | the selection becomes the select-all result |
| TransferScreen.TransferView.ChangeYear | src/components/StudentTransfer.tsx:60-64 | the target year is set and the target class reset, so no transfer can be sent until a class is chosen |
| TransferScreen.TransferView.ChooseClass | src/components/StudentTransfer.tsx:222 | the target class is set |
| TransferScreen.TransferView.TargetClassesLoaded | src/components/StudentTransfer.tsx:50-58 | the loaded classes replace the target list |
| TransferScreen.TransferView.AskConfirmation | src/components/StudentTransfer.tsx:253 | the confirmation dialog opens |
| TransferScreen.TransferView.CancelConfirmation | src/components/StudentTransfer.tsx:285 | the confirmation dialog closes |
| TransferScreen.TransferView.TargetName | src/components/StudentTransfer.tsx:117-121 | the displayed target is `TargetClassName` of the loaded lists and the chosen ids, so empty iff the class or the year is not loaded |
| TransferScreen.TransferView.HandleTransfer | src/components/StudentTransfer.tsx:82-115 | no request unless both targets are set and a student is selected; a sent request is the selection and targets; success resets selection, targets and dialog; failure changes nothing |

## Left out

- The Express routing, JSON and multipart parsing, CORS, static files and `app.listen` are not modelled. A handler's decoded fields are its parameters, and absent or `null` is `None`. An uploaded file appears only as its stored name, given as an `Option<string>`. multer's disk storage and the UUID file names are not modelled.
- SQLite itself is not modelled beyond the effect of each statement on rows in key order. Also not modelled:
  - type affinity beyond `StoreTables.BoundIdMatches`: a text stored in an INTEGER column, such as a parent row whose `student_id` is `'abc'`, is not represented;
  - the `created_at` column;
  - the CREATE TABLE statements, since the model starts from tables that exist;
  - the asynchronous callback order, since each handler is one sequential transition.
- `StoreTables.ParentOf`: when a student has several parent rows, the detail read is taken to return the first in key order. SQLite leaves the row order of that join unspecified.
- Every other endpoint is not part of this model: education years, classes, talents, notes, guardians, guidance plans, announcement create and delete, and event create and delete.
- `TransferScreen.TransferView.HandleTransfer` leaves out the HTTP request itself, the alerts, the `transferring` and `loading` flags, and the `fetchData` refresh after success. The outcome of the request is a parameter.
- Students, years and classes are loaded over HTTP. These loads appear only as the constructor's arguments and `TargetClassesLoaded`.
- `WhatsApp.Popup`:
  - does not model `encodeURIComponent` of the greeting, nor the `?text=` suffix that `window.open` receives;
  - does not model the clipboard write itself, only the text it writes;
  - omits `onClose`.
- `WhatsApp.DefaultMessageInjective` is about the greeting's structure. The greeting itself is the literal template, `WhatsApp.DefaultMessage`.
- JSON numbers are modelled as integers, so a fractional id or target is not represented.
- The transfer targets are `Option<int>`. A string or boolean target, which the handler accepts and SQLite stores, is not represented either.
- `StoreTables.BoundIdMatches`: a text id matches only when it is the key's canonical decimal text. SQLite would also convert spellings such as `"05"`, `"+5"`, `"5.0"` or `" 5"`, and the model takes those to match nothing. Arrays and objects, which node-sqlite3 does not bind as numbers, are taken to match nothing too.
- `StudentStore.Store.ListClass`, `StudentStore.Store.UpdateStudent`, `StudentStore.Store.UpdateAnnouncement` and `StudentStore.Store.UpdateEvent` take the URL's `:classId`, `:studentId` or `:id` as a number. The routes pass it as URL text, which the same NUMERIC affinity converts. A non-numeric or non-canonical URL id is not represented.
- A statement run without a callback that fails raises an error that nothing handles. The model does not capture what that does to the server process.
