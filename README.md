# Visitor register: local store, visit list, form handlers and sync endpoint

This project models the core of a front-desk visitor register in Dafny, and proves properties of the model. The core has three parts:

- **Local record store** (`js/db.js`, class `VisitorDB`). It is a browser IndexedDB database with two object stores:
  - `visitors`, keyed by `idNumber`;
  - `visits`, keyed by an auto-incremented integer `id`.
- **Client handlers** (`js/app.js`):
  - registering a visitor together with a visit;
  - listing visits with a search term and a status filter;
  - editing and updating a visit;
  - marking egress;
  - deleting an item from a visit;
  - duplicating a visit;
  - the HTML escaping used when the client renders records.
- **Central sync endpoint** (`backend/src/controllers/syncController.js`). It upserts a batch `{visitors, visits}` into two relational tables inside one transaction, then commits or rolls back.

## Layout

| file | module | what it holds |
|---|---|---|
| `wrappers.dfy` | `Wrappers` | `Option`, `Result` |
| `text.dfy` | `Text` | JavaScript `trim`, ASCII `toLowerCase`, `includes`, code-unit string order |
| `seqs.dfy` | `Seqs` | `filter`, ascending integer keys, the newest-first sort |
| `records.dfy` | `Records` | `Item`, `Visitor`, `Visit` (every field optional, as in a JS object), the `{...a, ...b}` merge |
| `local_store.dfy` | `LocalStore` | `VisitorDB` as a class over two maps and the key generator |
| `visit_list.dfy` | `VisitList` | the join, filters and sort of `filterVisits` |
| `forms.dfy` | `Forms` | `escapeHtml`, item collection, update-form validation, `splice`, the duplicate draft |
| `app.dfy` | `Client` | the application class: handlers over a `VisitorDB` and the current selection |
| `sync_server.dfy` | `SyncServer` | the tables, the per-record upserts, the batch, and the `Authority` class |

## Modelling choices

- **Visit fields.** A visit is a record of `Option` fields. `None` is a property that is absent, `null` or `undefined`. `{...visit, ...updates}` takes each field from `updates` when it is present there with a non-null value.
- **Visit keys.** The visits store follows the key generator of the Indexed Database API 3.0, section 2.11:
  - the current number starts at 1;
  - a record without `id` takes the current number, and the request fails once that number exceeds 2^53;
  - an explicit numeric key at or above the current number moves the generator past it.
- **Store order.** `getAll`, cursors and index lookups return records in ascending key order. The model states this order for each read.
- **Visitors.** A visitor is stored with `idNumber`, `fullName` and `cellNumber`.
- **Times.** Times are integers (milliseconds). Rendering and durations are left out.
- **Handler inputs.** DOM form values, the clock (`new Date()`) and row contents are parameters of the handlers.
- **Handler results.** Each handler returns a `Result`. The error value stands for the message the handler shows. `ScriptError` covers two cases: a `TypeError` on a missing property, and a `DataError` that IndexedDB raises for an `undefined` or `null` key.
- **Sync endpoint.** The two loops are `while` loops over the record arrays. Each upsert is a pure function on the tables. A failure restores the snapshot taken when the transaction began. A visit in the request body is a `VisitIn`. Its `items` field tells a left-out value, which the column default turns into `[]`, from an explicit `null`, which the NOT NULL column rejects.

Two behaviours of the code are worth stating up front:

- **`updateVisit` can create a record.** The code at `js/db.js:110-128` has no not-found check and does not protect `ingressTime` or `visitorId`: it spreads whatever updates it is given over the stored visit and writes the result with `put`. A third argument passed by a caller is ignored. When no visit is stored under the id, the written record is the updates alone; having no `id`, it is filed under a newly generated key (the generator's current number), not under that id. `LocalStore.VisitorDB.UpdateVisit` and `Records.MergeOverwritesIdentity` state this. `Client.App.HandleListEgress` shows a consequence: egress on a missing id adds a record that holds only an egress time.
- **Visitor key on the server.** The visitors migration (`backend/src/database/migrations/20231208180536-create-visitors-table.js:6-14`) uses a surrogate integer key. The model follows the Sequelize model instead (`backend/src/models/visitor.js:5-9`), which `sequelize.sync()` applies: `idNumber` is the primary key.

## Model

| member | source | states |
|---|---|---|
| LocalStore.VisitorDB.constructor | js/db.js:2-46 | A fresh database has empty `visitors` and `visits` stores, and its key generator is at 1. |
| LocalStore.AfterExplicitKey | js/db.js:34 | An explicit key never lowers the generator. A key at or above its value moves it to the key (capped at 2^53) plus one. |
| LocalStore.StoreRecordSound | js/db.js:34 | A successful add or put keeps every key below the generator and every visit under its own id. It touches no other key. It adds exactly the key it used, and a generated key is fresh and above every held key. `add` never overwrites. |
| LocalStore.VisitorDB.AddVisitor | js/db.js:48-58 | `put` keyed by `idNumber` replaces or inserts that visitor, leaves the visits alone, and resolves with the record it was given. |
| LocalStore.VisitorDB.GetVisitor | js/db.js:60-70 | Resolves with the visitor stored under the id number, or nothing exactly when there is none. |
| LocalStore.VisitorDB.SearchVisitors | js/db.js:72-96 | Returns exactly the visitors whose lower-cased name contains the lower-cased query, or whose id number contains the query as given. They come in ascending `idNumber` order, as a cursor walks them. |
| LocalStore.VisitorDB.Store | js/db.js:98-108 | One `add` or `put` request: the store and generator become those of the store-a-record rule, or stay unchanged when the request fails. |
| LocalStore.VisitorDB.AddVisit | js/db.js:98-108 | An id-less visit gets the generator's current number, which is fresh and above every held key. The request fails only once the generator passes 2^53, and an explicit id fails only when already present. No existing visit changes, and a failure changes nothing. |
| LocalStore.VisitorDB.UpdateVisit | js/db.js:110-128 | Puts `{...stored, ...updates}` and resolves with it. For a stored id this replaces exactly that visit. For an absent id the updates alone are stored under the generator's current number, which then advances by one, and the resolved object lacks that key. No key disappears. |
| LocalStore.VisitorDB.UpdateVisitItems | js/db.js:130-153 | Rejects with not found when the visit is missing. Otherwise it replaces only that visit's `items`. |
| LocalStore.AllVisits | js/db.js:175-193 | `getAll` returns every stored visit once, in ascending id order. |
| LocalStore.VisitorDB.GetAllVisits | js/db.js:175-193 | Returns exactly the stored visits, once each, in ascending id order. |
| LocalStore.VisitorDB.GetActiveVisits | js/db.js:155-173 | Returns exactly the stored visits without an egress time, in ascending id order. |
| LocalStore.VisitorDB.GetVisitHistory | js/db.js:195-206 | The `visitorId` index returns exactly that visitor's visits, in ascending id order. |
| LocalStore.VisitorDB.GetVisit | js/db.js:208-218 | Resolves with the visit stored under the id, whose `id` is that key, or nothing exactly when there is none. |
| LocalStore.InKeyOrder | js/db.js:175-193 | Reading values along increasing keys gives every stored value and only those, and visits come in ascending id order. |
| LocalStore.AscendingIdsAsPairwise | js/db.js:175-193 | Ascending id order is the pairwise relation "earlier id is smaller". |
| Records.MergeIdentities | js/db.js:119 | Spreading over an absent visit gives the updates alone. Spreading no updates changes nothing. |
| Records.MergeIdempotent | js/db.js:119 | Applying the same updates twice equals applying them once. |
| Records.MergeAssociative | js/db.js:119 | Two successive updates equal one update with the later fields layered over the earlier ones. |
| Records.MergeOverwritesIdentity | js/db.js:119 | The merge does not protect `ingressTime` or `visitorId`: updates carrying them replace them. |
| Records.MergeKeepsIdentity | js/app.js:637-640 | Updates without `id`, `visitorId` and `ingressTime`, such as the update form's, keep all three. |
| Text.TrimStart | js/app.js:619-629 | The result is a suffix of the input, drops only white space and line terminators, and does not start with one. |
| Text.TrimEnd | js/app.js:619-629 | The result is a prefix of the input, drops only white space and line terminators, and does not end with one. |
| Text.TrimEmptyIff | js/app.js:631 | `!value.trim()` holds exactly when every character is white space or a line terminator. |
| Text.Lower | js/db.js:82 | Lower-casing keeps the length. |
| Text.IncludesEmpty | js/app.js:489 | Every string includes the empty string. |
| Text.BelowIrreflexive | js/db.js:76 | Cursor key order: no string is below itself. |
| Text.BelowTransitive | js/db.js:76 | Cursor key order is transitive. |
| Text.BelowTotal | js/db.js:76 | Any two different strings are ordered one way or the other. |
| Text.Least | js/db.js:77 | Gives a key of a non-empty key set that comes before every other key in string order. |
| LocalStore.ExtendInIdOrder | js/db.js:80-91 | Taking the least remaining key next keeps the results in ascending `idNumber` order, before every key not yet visited. |
| Text.LeastExists | js/db.js:76 | A non-empty key set has a least key, which the cursor visits first. |
| Seqs.Filter | js/app.js:477 | Filtering never lengthens a list. |
| Seqs.FilterMembership | js/app.js:477 | An element survives the filter exactly when it was present and passes the test. |
| Seqs.FilterPartition | js/app.js:480-487 | Filtering by a test and by its negation together gives a permutation of the input. |
| Seqs.FilterKeepsOrder | js/db.js:161-163 | Filtering preserves any pairwise order of the input. |
| Seqs.SortedKeys | js/db.js:181 | Lists an integer key set strictly ascending, each key once. |
| Seqs.SortNewestFirst | js/app.js:499 | The sorted list is a permutation of the input with no visit ranked above a later one. A missing ingress time ranks last. |
| Seqs.SortStable | js/app.js:443 | The sort is stable: the visits with any one ingress time come out in the order they went in. |
| Seqs.InsertStable | js/app.js:443 | Insertion puts the new visit before the visits ranked equal to it, which all came later in the input, and disturbs no other equal-time group. |
| Seqs.InsertNewestFirst | js/app.js:499 | Inserting into a newest-first list keeps it newest first and adds exactly that element. |
| VisitList.JoinMembership | js/app.js:463-477 | A joined row exists exactly for a listed visit whose `visitorId` is stored, and it carries that visitor. |
| VisitList.JoinConcat | js/app.js:474-477 | The join is computed visit by visit. |
| VisitList.JoinAgrees | js/app.js:463-472 | The join depends only on the visitors the visits refer to. |
| VisitList.OutcomeFromLookups | js/app.js:463-477 | A lookup map that agrees with the store on every referenced visitor gives the same listing. |
| VisitList.OutcomeFails | js/app.js:463-467 | Any visit without `visitorId`, in any position, makes `filterVisits` fail. |
| VisitList.StatusFilterExact | js/app.js:480-487 | 'active' keeps exactly the visits without egress, and 'egressed' exactly those with one. Together the two lists are a permutation of the input. |
| VisitList.StatusFilterOther | js/app.js:454-487 | Any other status value, including 'all' (the default for an empty selection), keeps every row in place. |
| VisitList.ListRowsExact | js/app.js:451-507 | A row is listed exactly when its visit is stored, its visitor is found, and it passes the status and the lower-cased search on name, id number or cell number (an empty term passes everything). Each row appears as often as it occurs, and the list is newest first. |
| VisitList.ListRowsSkipsOrphans | js/app.js:477 | Corrected listing: a visit without `visitorId` is dropped like any other visit with no visitor, and the rest of the list is unchanged. |
| VisitList.OrphanBlanksList | js/app.js:463-505 | As written, one visit without `visitorId` empties a list that would otherwise show a visit. |
| VisitList.LaterVisitListedFirst | js/app.js:499 | A visitor's 11:00 visit is listed before their 09:00 visit. |
| Forms.EscapeHtmlCharwise | js/app.js:426-434 | Because `&` is replaced first, no entity is escaped twice: each input character becomes exactly its own entity, and a falsy argument gives ''. |
| Forms.ReplaceChainConcat | js/app.js:428-433 | The five replacements act on each part of a string separately. |
| Forms.ReplaceChainChar | js/app.js:428-433 | The five replacements turn each character into its entity. |
| Forms.EscapeHtmlSafe | js/app.js:426-434 | The escaped text contains no `<`, `>`, `"` or `'`. |
| Forms.EscapeHtmlPlain | js/app.js:426-434 | Text free of the five special characters comes back unchanged. |
| Forms.EscapeHtmlRoundTrip | js/app.js:426-434 | Decoding the five entities gives back the original text. |
| Forms.UnescapeEscaped | js/app.js:426-434 | Decoding the characterwise escaped text gives back the characters. |
| Forms.EscapedSafe | js/app.js:428-433 | No character of the characterwise escaped text is `<`, `>`, `"` or `'`. |
| Forms.EscapedPlain | js/app.js:428-433 | Text free of the five special characters escapes to itself. |
| Forms.UnescapeEntity | js/app.js:428-433 | An entity decodes back to its character, whatever follows it. |
| Forms.CollectItemsData | js/app.js:239-255 | Keeps the item rows, in order, whose name and identifier are both non-empty, and no others. |
| Forms.TrimItems | js/app.js:618-622 | Trims each item row's three fields, one output row per input row. |
| Forms.UpdateValidation | js/app.js:631-633 | With a visit selected, the update form is refused exactly when the purpose is blank or some item has a blank name, identifier or type. |
| Forms.UpdateAccepted | js/app.js:635-649 | An accepted form sends the selected visit's id, only the trimmed purpose and items, and a visitor keeping the selection's `idNumber` rather than the form's. |
| Forms.RowsFilledIff | js/app.js:631 | Every trimmed item is complete exactly when no field of any row is blank. |
| Forms.SpliceStart | js/app.js:765 | `splice` resolves its start index within the list's bounds. |
| Forms.SpliceOneRule | js/app.js:764-765 | An index inside the list removes exactly that item. An index past the end removes nothing. A negative index counts from the end, and one below minus the length removes the first item. |
| Forms.DuplicateDraft | js/app.js:790-797 | The draft has no id, arrives now, and is active. It has the same visitor, purpose and items, and restoring the three reset fields gives back the original. |
| Client.App.constructor | js/app.js:2-27 | The application starts with nothing selected. |
| Client.App.LoadVisitorList | js/app.js:436-449 | Hands every stored visit to the renderer once (as many as are stored), newest first. The sort is stable, so visits with equal ingress times keep the ascending id order that `getAll` returned. The renderer, which skips a visit whose visitor is missing, is not part of this model. |
| Client.App.LookupVisitors | js/app.js:463-472 | Fails exactly when some visit lacks `visitorId`. Otherwise it holds the stored visitor for every referenced id number that exists, and nothing else. |
| Client.App.FilterVisits | js/app.js:451-507 | The outcome is the as-written listing over the stored visits in key order: the joined, filtered, newest-first rows, or a failure if any visit lacks `visitorId`. |
| Client.App.HandleVisitorRegistration | js/app.js:191-237 | Adds the visitor only if that id number is new, so an existing visitor keeps their details. It then adds an active visit for that id number with the collected items, under the generator's current number, which advances by one. It fails only when the key generator is exhausted, and then the visits and the generator are unchanged while the visitor stays added. |
| Client.App.EditVisit | js/app.js:509-524 | Selects the stored visit with its visitor. A missing visit or visitor fails and keeps the previous selection. |
| Client.App.ViewVisitorCard | js/app.js:699-754 | Selects the visit with whatever the visitor lookup returned, then fails unless a visitor and items exist. A missing visit or `visitorId` fails and keeps the previous selection. |
| Client.App.HandleUpdateVisit | js/app.js:607-659 | A form that fails validation changes nothing. An accepted one merges the trimmed purpose and items into the selected visit and changes nothing else, including visitors. |
| Client.App.HandleCardEgress | js/app.js:661-682 | Without a selected visitor nothing changes. Otherwise the selected visit gets the egress time, even if it was already egressed. |
| Client.App.HandleListEgress | js/app.js:684-697 | Stamps the egress time on a stored visit and leaves the generator alone. For an absent id it adds a record holding only that egress time under the generator's current number, which advances by one; once the generator is exhausted nothing changes. |
| Client.App.DeleteVisitorItem | js/app.js:756-777 | A missing or egressed visit changes nothing. Otherwise it removes the item as `splice(index, 1)` does and keeps the rest of the visit. It then reopens the card: that selects the updated visit when it has a `visitorId`, and keeps the previous selection otherwise. |
| Client.App.DuplicateVisit | js/app.js:779-826 | Selects a new active draft without id for the same visitor and stores nothing. A missing visitor gives 'Visit or visitor data not found'. |
| SyncServer.UpsertVisitor | backend/src/controllers/syncController.js:11-13 | A visitor upsert succeeds exactly when its three NOT NULL columns are present, and keeps the table constraints. |
| SyncServer.UpsertVisit | backend/src/models/visit.js:6-35 | A visit upsert succeeds exactly when `visitorId`, `purpose` and `ingressTime` are present, `items` is not an explicit `null` (a left-out `items` defaults to `[]`), and the visitor exists. It keeps the table constraints, and an id-less visit goes under a fresh counter value. |
| SyncServer.VisitorsOutcome | backend/src/controllers/syncController.js:11-13 | The visitors loop succeeds exactly when every visitor is complete. It changes only the visitors table, whose keys become the old keys plus the batch's. |
| SyncServer.VisitorsLastWriteWins | backend/src/controllers/syncController.js:11-13 | After the loop, each id number holds the last batch record with it, and other visitors are unchanged. |
| SyncServer.LastVisitorExists | backend/src/controllers/syncController.js:11-13 | Each id number named in a batch has a last record. |
| SyncServer.VisitsOutcome | backend/src/controllers/syncController.js:16-18 | The visits loop succeeds exactly when every visit is complete (no NOT NULL column missing or null, `items` not `null`) and references a stored visitor. It never removes a visit or lowers the counter. |
| SyncServer.VisitsLastWriteWins | backend/src/controllers/syncController.js:16-18 | For visits with ids: each id holds the last batch record with it, others are unchanged, no other key appears, and the counter ends past every batch id. |
| SyncServer.LastVisitExists | backend/src/controllers/syncController.js:16-18 | Each id named in a batch has a last record. |
| SyncServer.SyncSucceedsIff | backend/src/controllers/syncController.js:5-36 | A batch commits exactly when both arrays are present, every record is complete, and each visit's visitor is stored or sent in the same batch in any position, because all visitors are upserted first. |
| SyncServer.UnknownVisitorRollsBack | backend/src/models/visit.js:11-17 | One visit whose visitor is neither stored nor sent rolls back the whole batch. |
| SyncServer.VisitorsKeepValid | backend/src/controllers/syncController.js:11-13 | The visitors loop keeps the table constraints. |
| SyncServer.VisitsKeepValid | backend/src/controllers/syncController.js:16-18 | The visits loop keeps the table constraints, foreign key included. |
| SyncServer.SyncKeepsValid | backend/src/controllers/syncController.js:5-36 | A committed batch keeps the table constraints. |
| SyncServer.SyncIdempotent | backend/src/controllers/syncController.js:11-18 | Posting a committed batch again, when every visit carries its id, commits and changes nothing. |
| SyncServer.Authority.constructor | backend/src/models/visitor.js:5-9 | The tables start empty. |
| SyncServer.Authority.Rollback | backend/src/controllers/syncController.js:28 | The tables return to the snapshot taken when the transaction began. |
| SyncServer.Authority.SyncData | backend/src/controllers/syncController.js:5-36 | On commit the tables are the batch applied in order and the reply is 200, success. On any failure, including a missing array, the tables are exactly as before and the reply is 500, 'Error synchronizing data'. |

## Left out

- Rendering, alerts, modals, page changes and live durations are left out. This covers `renderVisitorList`, `calculateDuration`, `updateLiveDurations`, `showPage`, `showAlert`, `createUpdateItemRow` and `addItemRow`; they only touch the DOM.
- The DOM lookups that can throw in `editVisit` (a missing form or field) are left out. The model assumes the page is complete.
- The earlier `filterVisits` (`js/app.js:93-129`) is left out. The later definition at `js/app.js:451` replaces it in the class.
- The app-level `searchVisitors` (`js/app.js:181-189`) is left out as a rendering path. The store operation it calls is modelled as `LocalStore.VisitorDB.SearchVisitors`.
- Client sync (`syncWithBackend`, `startSync`, `js/app.js:828-869`) is left out: it is fetch and timer plumbing. The server side is modelled.
- `init` and `ensureDB` are left out (database opening and upgrades, and promise wiring). Each store request is one atomic step.
- The visitor record's extra `purpose` field, written at registration, is left out, as are `lastSync`, `createdAt` and `updatedAt`. Nothing in the core reads them.
- Text.Lower: lower-cases ASCII letters only; full Unicode case mapping is not modelled.
- Text.Below: compares characters as units. JavaScript compares UTF-16 code units, which differs for characters outside the Basic Multilingual Plane.
- Seqs.SortNewestFirst: ranks a visit without ingress time last, and the visits client-side carry one `None` for both an absent and a `null` time. In the source the two differ. A `null` time is the epoch (`new Date(null)` is 0), so it is an ordinary number that ranks oldest, equal to a real time of 0 and above negative times. An absent time gives `NaN`, the comparator then returns `NaN`, which `Array.prototype.sort` treats as equal, and leaves the order implementation-defined because the comparator is no longer consistent. The model's order therefore matches the source when every real time is positive; an absent time leaves any order permitted, the model's included. The sort itself is stable, as ECMAScript requires since 2019: `Seqs.SortStable` proves that visits with equal times keep their input order.
- Merge is a shallow, field-wise spread. Fields outside the modelled record are not represented.
- Records.Merge: a property that `updates` carries explicitly as `null` or `undefined` overrides the base in JavaScript, but the model keeps the base's value, because `None` stands for absent, `null` and `undefined` alike. No caller in the modelled code passes such a property.
- SyncServer.UpsertVisit: writes the whole row. Column-wise `ON DUPLICATE KEY UPDATE` details and per-dialect behaviour are not modelled.
- Column width limits (`STRING(50)`, 32-bit `INTEGER`) and their truncation or errors are dialect-dependent, so they are not modelled.
- Authority.Rollback: also restores the auto-increment counter. Some databases keep a counter advanced across a rollback.
- The `timestamp` and `error` fields of the JSON reply are left out (a clock value and a driver message).
- Opening the transaction (`syncController.js:7`) can fail outside the `try`. That path is left out.
- Migrations, `index.js`, routes and configuration are left out: they are schema DDL and server setup.

## Findings

| source | as written | input that shows it | evidently intended | confidence | as-written member | corrected member |
|---|---|---|---|---|---|---|
| js/app.js:463-477 | The visitor lookup loop calls `getVisitor(visit.visitorId)` for every visit, including one without `visitorId`. IndexedDB rejects an `undefined` key with a `DataError`, the `catch` renders an empty list, and every other visit disappears from the page. | A stored visit `{id: 1, visitorId: 'A', ...}` whose visitor exists, next to a record `{id: 2, egressTime: t}` such as the one `handleListEgress` creates for an unknown id. | Skip the visit, as line 477 drops visits whose visitor was not found. | medium, not executed | VisitList.OrphanBlanksList | VisitList.ListRowsSkipsOrphans |
