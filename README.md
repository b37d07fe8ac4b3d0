# DarkClockAPI clock store: the tree reconciler

DarkClockAPI keeps "clocks" (segmented progress trackers) for web sites in
three SQLite tables:

- `SiteClocks` holds one row per site: `id` and `name`.
- `ClockGroups` holds one row per group: `id`, `website_id` and `title`.
- `Clocks` holds one row per clock: `id`, `group_id`, `title`, `totalSegments`, `filledSegments` and `color`.

`id` is the primary key of every table. Clients never write rows. They
submit a whole nested document: a site, its groups, and each group's
clocks.

`ClockData.insert` reconciles the tables with that document:

1. It lower-cases every id.
2. It upserts the site row.
3. It deletes every stored group of the site that the document no longer lists. Each such group's clocks are deleted before the group row.
4. It upserts the listed groups.
5. For each listed group in turn, it deletes the stored clocks the group no longer lists and upserts the rest.

`ClockData.get` rebuilds the nested document from the rows. It drops the
`website_id` and `group_id` link columns.

The project is organised in modules:

- `Text` is ASCII lower-casing.
- `Documents` holds the nested document and `sanitizeIds` as a function.
- `Tables` holds the three tables and the row operations of the SQLite wrapper.
  - Tables are maps keyed by the primary key, plus the rowid order of the group and clock rows. The model assumes that a `select` without `ORDER BY` returns rows in rowid order (see "## Left out").
  - A log records every statement that takes effect.
  - An `INSERT` of an id already present fails with `DuplicateKey`.
- `Reconciler` has one function per loop or branch of `insert`, plus `get`, in the source's order.
  - The first failing insert ends the call.
  - Writes already made stay in place.
- `ClockData` is the store as a class whose fields are the tables. Its methods run the source's loops in place and are proved equal to the `Reconciler` functions.
- `Frame`, `Convergence` and `Failures` hold the properties of `insert`:
  - `Frame`: what insert leaves alone.
  - `Convergence`: what it achieves, idempotence, and the round trip through `get`.
    Idempotence and the round trip hold for documents whose ids are unique after lower-casing.
    They do not hold for a document that lists an owned clock twice with different fields.
    Each entry is compared with the row read before the loop, so every insert writes the clock again and flips it between the two entries (`Convergence.RepeatedClockInsertFlips`).
  - `Failures`: which documents make it fail.

## Model

| member | source | states |
|---|---|---|
| Text.LowerChar | data/ClockData.js:96 | the lower-cased character is never an upper-case ASCII letter; other characters are unchanged; A–Z shift by the distance from 'A' to 'a' |
| Text.Lower | data/ClockData.js:96 | `toLowerCase`: same length; every character is lower-cased; the result is lower-case; a lower-case string is unchanged |
| Documents.Sanitized | data/ClockData.js:95-104 | sanitizeIds lower-cases the site id and every group and clock id. It changes no name, title or other field, and no list length or order. It is the identity on a document already lower-case |
| ClockData.ClockData.SanitizeIds | data/ClockData.js:95-104 | the nested loops over groups and clocks return exactly `Sanitized(data)` |
| Tables.Restrict | data/ClockData.js:154 | keeps exactly the elements of the list that lie in the set, and keeps them distinct |
| Tables.RestrictOrder | data/ClockData.js:154 | the kept elements stay in the order of the list, so the removal loops and `get` follow rowid order |
| Tables.RestrictNothing | data/ClockData.js:154 | restricting to a set that holds none of the elements leaves the empty list |
| Tables.SelectSite | data/ClockData.js:110-112 | getSite: the row with this id, or nothing when no row has it |
| Tables.SiteGroups | data/ClockData.js:118-120 | getClockGroups: exactly the group rows whose `website_id` is the site, unchanged |
| Tables.SelectGroupIds | data/ClockData.js:118-120 | the ids getClockGroups returns: distinct, and exactly the groups of the site |
| Tables.GroupClocks | data/ClockData.js:126-128 | getClocks: exactly the clock rows whose `group_id` is the group, unchanged |
| Tables.SelectClockIds | data/ClockData.js:126-128 | the ids getClocks returns: distinct, and exactly the clocks of the group |
| Tables.InsertSite | data/SqliteCRUD.js:26-32 | an INSERT into SiteClocks fails without effect when the id is a primary key already. Otherwise it adds the row and logs it |
| Tables.InsertGroup | data/SqliteCRUD.js:26-32 | INSERT into ClockGroups: a duplicate key fails without effect. Otherwise it adds the row, appends it to rowid order, and logs it |
| Tables.InsertClock | data/SqliteCRUD.js:26-32 | INSERT into Clocks: a duplicate key fails without effect. Otherwise it adds the row, appends it to rowid order, and logs it |
| Tables.UpdateSiteName | data/SqliteCRUD.js:57-62 | `UPDATE … SET name WHERE id`: sets only `name` of the matching row and nothing else |
| Tables.UpdateGroupTitle | data/SqliteCRUD.js:57-62 | `UPDATE … SET title WHERE id`: sets only the title. It keeps `website_id`, the keys, the rowid order and every other row |
| Tables.UpdateClock | data/SqliteCRUD.js:57-62 | sets the four data columns of the matching clock. It keeps `group_id`, the keys, the rowid order and every other row |
| Tables.DeleteGroup | data/SqliteCRUD.js:70-74 | `DELETE … WHERE id` on ClockGroups removes exactly that row, and it leaves the store valid |
| Tables.DeleteClock | data/SqliteCRUD.js:70-74 | `DELETE … WHERE id` on Clocks removes exactly that row |
| Tables.DeleteGroupClocks | data/SqliteCRUD.js:70-74 | `DELETE … WHERE group_id` removes exactly the clocks of that group, leaving the others unchanged |
| Reconciler.RemovedIds | data/ClockData.js:154 | the ids removed are exactly the stored ids the document does not list, without repeats |
| Reconciler.NothingRemoved | data/ClockData.js:154 | when the document lists every stored id, nothing is removed |
| Reconciler.InsertSiteStep | data/ClockData.js:133-147 | a missing site row is inserted with the document's id and name. A row with a different name gets only `name` updated. An equal name writes nothing. Groups and clocks are untouched |
| ClockData.ClockData.InsertSite | data/ClockData.js:133-147 | the store method has the state and log of `InsertSiteStep` |
| Reconciler.RemoveGroups | data/ClockData.js:155-158 | the removal loop of insertGroups keeps the store valid and the site rows unchanged |
| Reconciler.RemoveGroupsRows | data/ClockData.js:155-158 | after the removal loop, the removed groups and every clock of theirs are gone. All other group and clock rows are unchanged |
| ClockData.ClockData.RemoveGroups | data/ClockData.js:155-158 | the loop leaves the store `Reconciler.RemoveGroups` describes |
| Reconciler.GroupRemovalLog | data/ClockData.js:155-158 | per removed group, in order: first the delete of its clocks, then the delete of its row |
| Reconciler.RemoveGroupsLog | data/ClockData.js:155-158 | the removal loop issues exactly `GroupRemovalLog`: a group's clocks are deleted before the group row |
| Reconciler.UpsertGroup | data/ClockData.js:159-175 | a group the site did not own is inserted with `website_id` set to the site. It fails if the id is taken. An owned group with a different title gets only its title updated. Otherwise nothing is written |
| Reconciler.UpsertGroups | data/ClockData.js:159-175 | the upsert loop leaves sites and clocks unchanged and keeps the store valid |
| ClockData.ClockData.UpsertGroups | data/ClockData.js:159-175 | the loop ends in the store, log and error of `Reconciler.UpsertGroups`, returning at the first failing insert |
| Reconciler.InsertGroupsStep | data/ClockData.js:152-176 | insertGroups keeps the store valid and the site rows unchanged |
| ClockData.ClockData.InsertGroups | data/ClockData.js:152-176 | the two loops of insertGroups end in the state, log and error of `InsertGroupsStep` |
| Reconciler.RemoveClocks | data/ClockData.js:185-187 | the clock removal loop keeps the store valid and the site and group rows unchanged |
| Reconciler.RemoveClocksRows | data/ClockData.js:185-187 | after the clock removal loop, the removed clocks are gone and every other clock row is unchanged |
| ClockData.ClockData.RemoveClocks | data/ClockData.js:185-187 | the loop leaves the store `Reconciler.RemoveClocks` describes |
| Reconciler.ClockRemovalLog | data/ClockData.js:185-187 | one delete by id per removed clock, in order |
| Reconciler.RemoveClocksLog | data/ClockData.js:185-187 | the clock removal loop issues exactly `ClockRemovalLog` |
| Reconciler.UpsertClock | data/ClockData.js:188-212 | a clock the group did not own is inserted with `group_id` and all its fields. It fails if the id is taken. An owned clock is updated exactly when title, filledSegments, totalSegments or color differs (the predicate `Reconciler.Differs`, data/ClockData.js:200-203), and then all four are written. Otherwise nothing is written |
| Reconciler.UpsertClocks | data/ClockData.js:188-213 | the clock upsert loop leaves sites and groups unchanged and keeps the store valid |
| ClockData.ClockData.UpsertClocks | data/ClockData.js:188-213 | the loop ends in the store, log and error of `Reconciler.UpsertClocks`, returning at the first failing insert |
| Reconciler.SyncGroupClocks | data/ClockData.js:183-213 | one pass of the outer loop of insertClocks leaves sites and groups unchanged |
| ClockData.ClockData.SyncGroupClocks | data/ClockData.js:183-213 | the pass ends in the state, log and error of `Reconciler.SyncGroupClocks` |
| Reconciler.InsertClocksStep | data/ClockData.js:181-215 | insertClocks leaves sites and groups unchanged and keeps the store valid |
| ClockData.ClockData.InsertClocks | data/ClockData.js:181-215 | the loop over the groups ends in the state, log and error of `InsertClocksStep` |
| Reconciler.Insert | data/ClockData.js:82-89 | insert keeps the store valid |
| ClockData.ClockData.Insert | data/ClockData.js:82-89 | the method leaves the store, log and error of `Reconciler.Insert` on the old store |
| Reconciler.Get | data/ClockData.js:70-80 | get returns a document exactly when a site row has the id as given; otherwise it fails. The document carries that id and the stored name. Groups and clocks are read through `Reconciler.GroupView` and `Reconciler.ClockView`, which drop `website_id` and `group_id` (data/ClockData.js:75,77) |
| ClockData.ClockData.Get | data/ClockData.js:70-80 | the loops of get return exactly `Reconciler.Get` of the store |
| ClockData.ClockData.GroupClockViews | data/ClockData.js:76-77 | the clocks of one group, read and stripped of `group_id`, are exactly those of `Reconciler.GroupView` |
| Frame.KeptGroupClocks | data/ClockData.js:126-128 | a group whose clocks were left alone reads back the same clocks |
| Frame.KeptSiteGroups | data/ClockData.js:118-120 | a site whose groups were left alone reads back the same groups |
| Frame.UpsertClockKeeps | data/ClockData.js:191-212 | one clock upsert touches only a row of its group. The only row it can add is the clock's own |
| Frame.UpsertClocksKeeps | data/ClockData.js:188-213 | the clock upserts of a group touch only that group's rows. New rows have ids the group lists |
| Frame.SyncGroupClocksKeeps | data/ClockData.js:183-213 | a pass of insertClocks touches only the rows of its group |
| Frame.InsertClocksKeeps | data/ClockData.js:181-215 | insertClocks touches only the clocks of the groups it is given |
| Frame.UpsertGroupKeeps | data/ClockData.js:161-174 | one group upsert touches only a group row of the site. The only row it can add is the group's own |
| Frame.UpsertGroupsKeeps | data/ClockData.js:159-175 | the group upserts touch only the site's groups. New rows have ids the document lists |
| Frame.InsertGroupsStepKeeps | data/ClockData.js:152-176 | insertGroups touches only the site's group rows and the clocks of the site's groups |
| Frame.InsertKept | data/ClockData.js:82-89 | insert, failing or not, sets only the site's own row. It keeps every group row of another site and every clock outside the site's groups and the listed groups |
| Frame.InsertKeepsOthers | data/ClockData.js:82-89 | insert, failing or not, keeps every other site row and every group of another site. It also keeps the clocks of every group that is neither listed nor one of the site's groups |
| Frame.InsertGroupsStepRemoves | data/ClockData.js:152-158 | insertGroups removes an unlisted group of the site, with all of its clocks, whether or not it fails later |
| Frame.InsertDeletesAbsentGroup | data/ClockData.js:152-158 | a group of the site that the document does not list is gone afterwards, with all of its clocks |
| Convergence.UpsertClockEffect | data/ClockData.js:191-212 | a successful clock upsert gives the clock the row the document asks for and keeps every other row |
| Convergence.UpsertClocksEffect | data/ClockData.js:188-213 | after a successful clock upsert loop over clocks with distinct ids, every listed clock has exactly the row the document asks for |
| Convergence.SyncGroupClocksEffect | data/ClockData.js:183-213 | after a successful pass over clocks with distinct ids, the group's clocks are exactly the listed ones, with the document's fields |
| Convergence.InsertClocksEffect | data/ClockData.js:181-215 | after a successful insertClocks of groups with distinct ids, each listing clocks with distinct ids, every listed group owns exactly its listed clocks |
| Convergence.UpsertGroupEffect | data/ClockData.js:161-174 | a successful group upsert gives the group the row the document asks for and keeps every other row |
| Convergence.UpsertGroupsEffect | data/ClockData.js:159-175 | after a successful group upsert loop over groups with distinct ids, every listed group belongs to the site with the document's title |
| Convergence.InsertGroupsStepEffect | data/ClockData.js:152-176 | after a successful insertGroups with distinct group ids, the site owns exactly the listed groups, with their titles |
| Convergence.InsertConverges | data/ClockData.js:82-89 | after a successful insert of a document with unique ids, the store holds the lower-cased document: the site row, exactly its groups and exactly their clocks |
| Convergence.UpsertGroupsQuiet | data/ClockData.js:159-175 | when every group is owned with an equal title, the loop writes nothing |
| Convergence.UpsertClocksQuiet | data/ClockData.js:188-213 | when every clock is owned with equal fields, the loop writes nothing |
| Convergence.InsertClocksQuiet | data/ClockData.js:181-215 | when every group already owns exactly its clocks with equal fields, insertClocks writes nothing |
| Convergence.InsertIdempotent | data/ClockData.js:82-89 | inserting a document the store already holds issues no statement and changes nothing |
| Convergence.InsertTwice | data/ClockData.js:82-89 | for a document with unique ids after lower-casing, a second insert of the same document issues no insert, update or delete and returns the same store |
| Convergence.RepeatedClockPass | data/ClockData.js:183-212 | a group that lists one of its clocks twice passes without error, and the clock ends with the last entry that differs from the row read before the loop |
| Convergence.RepeatedClockFlips | data/ClockData.js:183-212 | with two differing entries for one clock, each pass writes the entry the store does not hold, so two passes flip the clock and flip it back |
| Convergence.InsertSettledGroups | data/ClockData.js:82-89 | inserting a document whose site name and group titles are already stored, where the site owns exactly the listed groups and no other, runs only the clock passes |
| Convergence.InsertSettledGroup | data/ClockData.js:82-89 | inserting a one-group document whose site name and group title are already stored, where the site owns that group and no other, runs only that group's clock pass |
| Convergence.RepeatedClockInsertFlips | data/ClockData.js:82-89 | insert is not idempotent for a one-group document that lists one stored clock twice with differing fields: the first and second inserts both succeed and leave the clock with different rows |
| Convergence.GetGroups | data/ClockData.js:73-76 | get lists each group of the site exactly once, as its stored view |
| Convergence.GroupViewClocks | data/ClockData.js:76-77 | get lists each clock of a group exactly once, as its stored row without `group_id`, and lists no other clock |
| Convergence.GroupViewHeld | data/ClockData.js:76-77 | a group whose clocks are held reads back exactly those clocks, field for field |
| Convergence.GetHeld | data/ClockData.js:70-80 | get on a held document returns it up to the order of groups and clocks, with unique ids |
| Convergence.InsertThenGet | data/ClockData.js:70-89 | for a document with unique ids after lower-casing, get with the lower-cased id after a successful insert returns the sanitized document, minus the link columns, up to order |
| Failures.UpsertGroupsFails | data/ClockData.js:159-175 | the group loop fails at a group the site did not own whose id is taken, either before the loop or by an earlier entry |
| Failures.InsertGroupsStepFails | data/ClockData.js:152-176 | insertGroups fails on an unowned group whose id is already a row or is repeated earlier |
| Failures.GroupOfOtherSiteFails | data/ClockData.js:161-167 | insert fails when a listed group id belongs to another site |
| Failures.RepeatedNewGroupFails | data/ClockData.js:159-167 | insert fails when two listed groups share an id after lower-casing that the site did not own |
| Failures.UpsertClocksFails | data/ClockData.js:188-199 | the clock loop fails at a clock the group did not own whose id is taken by then |
| Failures.SyncGroupClocksFails | data/ClockData.js:183-199 | a pass fails on an unowned clock whose id is already a row or is repeated earlier |
| Failures.InsertClocksStepTakenFails | data/ClockData.js:181-199 | insertClocks fails on a clock whose row belongs to none of the groups processed up to and including its own |
| Failures.InsertClocksStepRepeatFails | data/ClockData.js:181-199 | insertClocks fails on a clock id that no row has, that no earlier group lists, and that its group lists twice |
| Failures.InsertGroupsStepClocks | data/ClockData.js:155-158 | insertGroups keeps exactly the clock rows whose group it does not remove: those survive unchanged, and every clock row left afterwards is one of them |
| Failures.ClockOfOtherGroupFails | data/ClockData.js:181-199 | insert fails when a listed clock belongs to a group that it keeps and that comes later in the list or is not listed. A clock can move only to a group listed after its old one, or out of a dropped group |
| Failures.RepeatedNewClockFails | data/ClockData.js:188-199 | insert fails when a group lists twice a clock id that no row has and that no earlier group of the document lists. If an earlier group lists it, that group's pass inserts it first, and the later group's pass then finds the clock owned and writes nothing |
| Failures.SucceededHasNoSharedClock | data/ClockData.js:188-199 | a successful insert of a document with unique ids lists no clock id under two groups |
| Failures.MixedCaseGetMisses | data/ClockData.js:70-72 | in a store whose site ids are all lower-case, insert keeps them lower-case, so get with an upper-case letter in the id finds no site |

## Left out

- Transactions are not modelled (`beginTransaction`/`commitTransaction`, data/ClockData.js:84,88). The model has no rollback: a failing insert keeps the writes made before it. It returns the error in place of the source's rejected promise. The source never issues ROLLBACK (`rollbackTransaction`, data/SqliteCRUD.js:113-115, is never called). A failed insert leaves its transaction open, so its writes are uncommitted: visible on that connection and discarded when the connection closes. A later insert on the same connection then fails at `BEGIN`. The lemmas that hold "failing or not" (`Frame.InsertKept`, `Frame.InsertKeepsOthers`, `Frame.InsertDeletesAbsentGroup`) describe the model's state after the call, which is that uncommitted state.
- Async sequencing and promises are not modelled. Every statement is a synchronous step, in the source's order.
- `checkForTables`, the table DDL and `ensureColumnExists` are not modelled. The schema is fixed by the datatypes, with `id` as the key of every map.
- `getSites` is a bare select of all site rows. `close` only closes the connection. Neither is modelled.
- The SQLite wrapper is replaced by the in-memory tables. SQL text, placeholders, `promisify` and the unseen sqlite3 library are not modelled.
- index.js (a demo script) and the HTTP, SSE and authentication layers are not part of this model.
- Text.LowerChar, Text.Lower: fold only ASCII A–Z. JavaScript's `toLowerCase` also folds other Unicode letters.
- Documents.Sanitized: returns a new document. It does not mutate the caller's document in place. Nor does the model copy `website_id`/`group_id` onto the caller's objects (data/ClockData.js:160,189).
- Reconciler.UpsertClock: loose `!=` is modelled as plain inequality. A missing colour and a NULL colour are both `None`. Other JavaScript coercions between numbers and strings are not modelled.
- Failures: the NOT NULL constraints on `name` and `title` (data/ClockData.js:43,48,53) are not modelled. Neither is a failing `BEGIN`. In the model, only a duplicate-key INSERT can fail.
- Documents: every document has `clockGroups` and `clocks` lists and a `title`. Missing fields or wrongly typed fields are not modelled. `totalSegments` and `filledSegments` are integers, whereas the typedef (data/ClockData.js:23-24) allows any JavaScript number. A fractional value, which SQLite would store as REAL despite the INTEGER affinity, is not modelled.
- Tables: rows come back in insertion order, which is SQLite's rowid order for these tables without `ORDER BY`. SQLite does not promise this order.
