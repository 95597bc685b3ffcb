# Article store sync and news pipeline, modelled in Dafny

This project models the two pieces of logic in a news-aggregation site and proves
properties about them.

- **The sync endpoint** (`POST /api/sync`) takes a batch of article records from the
  local pipeline. It checks the shared API key and the payload. Then it inserts or
  updates each record in the `articles` table, keyed by id. It deletes every row
  whose `created_at` is more than 14 days old, and returns the insert, update and
  delete counts.
- **The two read queries** the pages use. One lists the 50 newest rows by
  `created_at`. The other looks one row up by id.
- **The local pipeline's bookkeeping** (`backend/main.py`). It drops stored
  articles older than 30 days, skips scraped items whose URL is already stored,
  turns each AI rewrite into a record with a fresh `<secs>-<idx>` id, and saves the
  new records ahead of the old ones.

Files:

- `wrappers.dfy`: `Option`.
- `article_store.dfy` (module `ArticleStore`): the table as `map<string, Row>`, with
  the pure functions that state how it changes: `Upsert`, `Reconcile` (the whole
  loop), and `Expire` (the retention cleanup). `ArticleTable` is a class whose
  methods are the endpoint's four SQL statements.
- `sync_route.dfy` (module `SyncRoute`): `Sync` gives the response and the new table
  as a function of the old table. `Post` and `ReconcileBatch` run the handler step
  by step on an `ArticleTable`, and their contracts prove they agree with `Sync`.
- `article_reads.dfy` (module `ArticleReads`): `getAllArticles` and `getArticleById`.
- `news_pipeline.dfy` (module `NewsPipeline`): the retention filter, id generation,
  de-duplication, the record-building loop and the whole run.

Parameters stand in for the environment:

- `now` is the clock.
- `expectedKey` is `SYNC_API_KEY`.
- `Fault` says which storage statement throws, if any.
- `queryFails` makes a read query throw.
- `DateLib` holds `strptime`, `int()` and `fromtimestamp`.
- `ai` and `clock` give, for each position, the AI rewrite and the `time.time()`
  reading.

Two error paths answer differently from what a reader might expect:

- A body that is not JSON, or is JSON `null`, makes `request.json()` or
  `body.articles` throw. That happens inside the handler's `try`, so the code
  answers 500, not 400. The model follows the code (`Body.Unparsable`).
- An empty `SYNC_API_KEY` is falsy, so it counts as unset: the answer is 500, not
  401 (`KeyConfigured`).

Other behaviour the model keeps as written:

- The sync loop does not de-duplicate within a batch. A repeated id becomes an
  update of the row its first occurrence inserted.
- The pipeline de-duplicates scraped items only against stored URLs. Two scraped
  items with the same URL are both processed (`NewArticlesIsSubsequence` and
  `SelectedPositionsExact` select positions, not items).
- `if rewritten:` also skips an empty rewrite object.
- The `published_at` formats lose " %z" and "Z" and turn "T" into a space before use, but the text does
  not. So an ISO text with a `T` can only match if `strptime` accepts it under the
  rewritten formats.
- A stored entry that is not an object survives the retention filter. It then makes
  `a.get("original_url")` raise, so the run ends without saving (`Crashed`).

## Model

| member | source | states |
|---|---|---|
| `ArticleStore.Upsert` | frontend/src/app/api/sync/route.ts:51-84 | an existing id gets the record's eight fields and keeps its `created_at`; a new id gets one new row stamped `now`; every other row is unchanged |
| `ArticleStore.Reconcile` | frontend/src/app/api/sync/route.ts:35-85 | after the loop, `inserted + updated` equals the batch length |
| `ArticleStore.Step` | frontend/src/app/api/sync/route.ts:51-84 | one record adds one to `inserted` if its id was not stored and to `updated` otherwise, leaving the other counter alone; the table becomes `Upsert` of the record, so other rows and an existing `created_at` are kept |
| `ArticleStore.ReconcileKeys` | frontend/src/app/api/sync/route.ts:38-85 | the loop adds exactly the batch's ids to the table's keys |
| `ArticleStore.ReconcileInserted` | frontend/src/app/api/sync/route.ts:51-84 | `inserted` is the number of distinct batch ids the table did not hold; `updated` is the rest of the batch |
| `ArticleStore.ReconcileSize` | frontend/src/app/api/sync/route.ts:72-84 | the table grows by exactly `inserted` rows |
| `ArticleStore.ReconcileCreatedAt` | frontend/src/app/api/sync/route.ts:58-70 | an update never changes `created_at`; an inserted row has `created_at = now` |
| `ArticleStore.ReconcileUntouched` | frontend/src/app/api/sync/route.ts:38-85 | a row whose id is not in the batch is left exactly as it was |
| `ArticleStore.ReconcileLastWins` | frontend/src/app/api/sync/route.ts:38-85 | a row named in the batch holds the fields of the id's last occurrence |
| `ArticleStore.RepeatedIdIsUpdate` | frontend/src/app/api/sync/route.ts:51-84 | a record whose id occurred earlier in the batch counts as an update, never an insert |
| `ArticleStore.UpsertIdempotent` | frontend/src/app/api/sync/route.ts:56-71 | syncing the same record twice leaves the table as syncing it once |
| `ArticleStore.Expire` | frontend/src/app/api/sync/route.ts:88-91 | a row survives the cleanup iff `created_at >= now - 14 days`, unchanged |
| `ArticleStore.ExpiredIds` | frontend/src/app/api/sync/route.ts:88-91 | the deleted ids are exactly those with `created_at` strictly before the cutoff |
| `ArticleStore.ExpireCount` | frontend/src/app/api/sync/route.ts:88-92 | rows before = rows kept + rows deleted |
| `ArticleStore.ArticleTable.constructor` | frontend/src/app/api/sync/route.ts:2 | the table starts with the given rows |
| `ArticleStore.ArticleTable.Exists` | frontend/src/app/api/sync/route.ts:52-56 | the `SELECT` finds a row iff the id is stored |
| `ArticleStore.ArticleTable.UpdateRow` | frontend/src/app/api/sync/route.ts:58-70 | the `UPDATE` rewrites the eight fields of that row only |
| `ArticleStore.ArticleTable.InsertRow` | frontend/src/app/api/sync/route.ts:74-82 | the `INSERT` adds one row with the nine fields and `created_at = now` |
| `ArticleStore.ArticleTable.DeleteOlderThan` | frontend/src/app/api/sync/route.ts:88-92 | the `DELETE` leaves `Expire(rows, cutoff)` and returns the number of expired rows |
| `SyncRoute.KeyConfigured` | frontend/src/app/api/sync/route.ts:10 | `!expectedKey` treats an unset and an empty key alike (see `UnsetKeyRejected`) |
| `SyncRoute.Sync` | frontend/src/app/api/sync/route.ts:4-108 | every failure is a 400, 401 or 500; a 400 or 401, and any unauthorized call, leaves the table unchanged; a success reports `total` as the non-empty batch's length |
| `SyncRoute.SyncSucceedsIff` | frontend/src/app/api/sync/route.ts:4-108 | the call succeeds iff the key is set and matches, the batch is a non-empty array, and no statement throws |
| `SyncRoute.UnsetKeyRejected` | frontend/src/app/api/sync/route.ts:7-15 | an unset or empty server key gives 500 whatever the caller sent, and the table is unchanged |
| `SyncRoute.WrongKeyRejected` | frontend/src/app/api/sync/route.ts:17-22 | a caller key that differs gives 401, and the table is unchanged |
| `SyncRoute.BadPayloadRejected` | frontend/src/app/api/sync/route.ts:24-32 | a missing, non-array or empty `articles` gives 400, and the table is unchanged |
| `SyncRoute.SyncCounts` | frontend/src/app/api/sync/route.ts:35-99 | on success `inserted + updated == total == articles.length`, `inserted` counts the new ids, and `deleted` is the number of rows removed |
| `SyncRoute.SyncedRow` | frontend/src/app/api/sync/route.ts:38-92 | after success, a batch id holds its last occurrence's fields; if its old `created_at` was already past the window it is deleted even though it was just updated; an inserted row is never deleted |
| `SyncRoute.SyncedUntouchedRow` | frontend/src/app/api/sync/route.ts:87-92 | after success, a row the batch does not mention is kept unchanged iff it is not expired |
| `SyncRoute.PartialFailureKeepsPrefix` | frontend/src/app/api/sync/route.ts:38-107 | when record `k`'s statement throws, the result is 500 and records `0..k-1` stay written |
| `SyncRoute.SyncRecord` | frontend/src/app/api/sync/route.ts:51-84 | the `SELECT` then `UPDATE` or `INSERT` of one record changes the table and the counters as one `Step` does |
| `SyncRoute.ReconcilePrefix` | frontend/src/app/api/sync/route.ts:38-85 | running the loop over the first `k` records leaves the table and counters of `Reconcile` of that prefix |
| `SyncRoute.ReconcileBatch` | frontend/src/app/api/sync/route.ts:35-85 | the loop leaves the table and counters of `Reconcile`, or stops at the failing record with the prefix written |
| `SyncRoute.Post` | frontend/src/app/api/sync/route.ts:4-108 | the handler's response and resulting table are those of `Sync` |
| `ArticleReads.NewestId` | frontend/src/lib/db.ts:22 | the next row listed has a `created_at` no older than any other remaining row |
| `ArticleReads.NewestOf` | frontend/src/lib/db.ts:17-23 | the listing has `min(50, rows)` entries, each a table row projected to its nine fields |
| `ArticleReads.NewestDistinct` | frontend/src/lib/db.ts:17-23 | the listing names no row twice |
| `ArticleReads.NewestSorted` | frontend/src/lib/db.ts:22 | the listing is in non-increasing `created_at` order |
| `ArticleReads.NewestComplete` | frontend/src/lib/db.ts:22-23 | no row left out is newer than a listed row |
| `ArticleReads.GetAllArticles` | frontend/src/lib/db.ts:15-30 | at most 50 rows, exactly `min(50, rows)` when the query works, and `[]` when it throws |
| `ArticleReads.ListingIsNewestPage` | frontend/src/lib/db.ts:15-30 | the listing shown is distinct, newest first, and complete |
| `ArticleReads.GetArticleById` | frontend/src/lib/db.ts:32-47 | returns the row with that id, or `null` if there is none or the query throws |
| `ArticleReads.ListedArticlesResolve` | frontend/src/lib/db.ts:15-47 | every listed article is found by its id with the same fields |
| `ArticleReads.SyncedArticleReadable` | frontend/src/app/api/sync/route.ts:72-92 | after a successful sync, an inserted article can be read back by id with its last-sent fields |
| `NewsPipeline.FirstMatch` | backend/main.py:47-52 | a date found is what `strptime` gives for one of the formats |
| `NewsPipeline.FirstMatchPrecedence` | backend/main.py:45-52 | formats are tried in list order and the first success wins; no date iff every format fails |
| `NewsPipeline.ParsePublished` | backend/main.py:45-52 | the inner loop returns the first format's success on the first 25 characters |
| `NewsPipeline.Head` | backend/main.py:49 | `s[:25]` is the prefix of exactly 25 characters, or the whole string when it is shorter |
| `NewsPipeline.BeforeDash` | backend/main.py:57 | `split("-")[0]` is the prefix up to the first dash, with no dash in it |
| `NewsPipeline.PublishedDate` | backend/main.py:45-52 | a date comes only from a present, non-empty `published_at`, parsed by one of the three formats |
| `NewsPipeline.IdDate` | backend/main.py:55-60 | the id fallback dates an entry iff it has an id whose text before the first dash reads as an integer that converts to a time |
| `NewsPipeline.DateArticle` | backend/main.py:44-60 | the filter's dating steps for one stored object compute `ArticleDate` |
| `NewsPipeline.ArticleDate` | backend/main.py:44-60 | the `published_at` date is used when a format matched; only otherwise the id prefix |
| `NewsPipeline.Keep` | backend/main.py:62-68 | an entry is kept unless it is an object dated strictly before the cutoff (see `DroppedOnlyIfDatedBefore`) |
| `NewsPipeline.Cleaned` | backend/main.py:38-73 | the filter never lengthens the list |
| `NewsPipeline.CleanedIsSubsequence` | backend/main.py:41-66 | the kept list is the input at strictly increasing positions |
| `NewsPipeline.KeptPositionsExact` | backend/main.py:62-68 | a position is kept iff its entry passes the keep test |
| `NewsPipeline.DroppedOnlyIfDatedBefore` | backend/main.py:55-68 | an entry is dropped iff it is an object, was dated, and that date is strictly before the cutoff; an entry dated at the cutoff, an undatable one, and a non-object are kept |
| `NewsPipeline.CleanedIdempotent` | backend/main.py:34-73 | filtering twice with the same cutoff equals filtering once |
| `NewsPipeline.CleanupOldArticles` | backend/main.py:34-73 | the loop returns the filtered list and `removed_count + len(cleaned) == len(articles)` |
| `NewsPipeline.Decimal` | backend/main.py:118 | `str(n)` is a non-empty string of digits |
| `NewsPipeline.DecimalInjective` | backend/main.py:118 | different numbers print differently |
| `NewsPipeline.MakeId` | backend/main.py:118 | the text before the id's first dash is the creation time in seconds, which the retention filter's id fallback reads back |
| `NewsPipeline.MakeIdDistinct` | backend/main.py:118 | equal ids `<secs>-<idx>` have equal indices and seconds |
| `NewsPipeline.Processed` | backend/main.py:106-130 | the loop makes at most one record per new item |
| `NewsPipeline.ProcessedInOrder` | backend/main.py:106-130 | record `i` is built from the `i`-th item whose rewrite is usable |
| `NewsPipeline.UsablePositionsIncreasing` | backend/main.py:106 | those items are taken in scrape order |
| `NewsPipeline.Usable` | backend/main.py:115 | a rewrite is used iff the call returned a non-empty object |
| `NewsPipeline.MakeRecord` | backend/main.py:117-127 | the record carries the generated id and the scraped item's `original_url` |
| `NewsPipeline.ProcessedMembers` | backend/main.py:106-130 | the records are exactly those built from items whose rewrite is usable |
| `NewsPipeline.ProcessedAllUsable` | backend/main.py:106-130 | with every rewrite usable, there is one record per new item |
| `NewsPipeline.ProcessedIdsDistinct` | backend/main.py:106-130 | the ids generated in one run are present and pairwise distinct |
| `NewsPipeline.RecordFallbacks` | backend/main.py:117-127 | a record has exactly the nine keys; title, summary, content and category fall back to `original_title`, "", the scraped content and "MACRO"; url, image, source and date come from the scraped item |
| `NewsPipeline.BuildProcessed` | backend/main.py:103-130 | the loop builds the records in scrape order, skipping missing or empty rewrites |
| `NewsPipeline.ExistingUrls` | backend/main.py:86 | the set holds exactly the `original_url` of each retained article, and nothing else |
| `NewsPipeline.NewArticles` | backend/main.py:93 | an item is selected iff it was scraped and its URL is not among the stored ones; the selection is never longer than the scrape |
| `NewsPipeline.NewArticlesIsSubsequence` | backend/main.py:93 | the selection is the scraped list at strictly increasing positions, so scrape order and repeats are kept |
| `NewsPipeline.SelectedPositionsExact` | backend/main.py:93 | a scraped position is selected iff its URL is not stored |
| `NewsPipeline.RunPipeline` | backend/main.py:75-133 | for AI results that are `None` or objects, the run crashes iff a retained entry is not an object; otherwise it saves the new records followed by the retained articles |
| `NewsPipeline.SavedRecordsAreNew` | backend/main.py:86-133 | no saved new record repeats the URL of a retained article |

## Left out

- The companion `GET` on the sync route returns a fixed liveness payload. It is not modelled.
- Two overlapping sync calls can race between the id check and the write. The model runs one call at a time.
- One `now` serves the whole sync call. Postgres evaluates `NOW()` per statement, and subtracting `INTERVAL '14 days'` can differ from 14×86400 seconds across a daylight-saving change. Neither is modelled.
- Record fields are strings, and `category` is optional. The handler does not validate a record. A record with missing or non-string fields may be stored with NULL or converted values, or its statement may throw if a column rejects it. The model covers only the throwing case, through `Fault`. A batch element that is not an object is likewise covered only by `Fault`.
- The 500 response's `details` text (the exception message) and all console logging are not modelled.
- `ArticleReads.GetAllArticles`: when rows share a `created_at`, the database may return them in any order. `NewestOf` picks one such order, and its lemmas state only what every order satisfies.
- Date parsing (`strptime`, `int()`, `fromtimestamp`) and `datetime.now()` are parameters. Their formats and local-time conversion are not modelled.
- `time.time()` is read once per built record, as a natural number of seconds. A negative clock is not modelled.
- Stored pipeline entries are objects with string values, or some non-object. Non-string JSON values inside an object are not modelled.
- File I/O (`load_existing_articles`, `json.dump`), the scraper, and the Ollama calls are inputs to the model. So are the progress messages.
- NewsPipeline.RunPipeline: the AI result is taken to be `None` or an object with string values. The call parses whatever JSON the model returns. A truthy result that is not an object (a non-empty array or string, a non-zero number, `true`) passes `if rewritten:`, and then `rewritten.get` raises. That ends the run with nothing saved, not even the cleaned list. The crash characterisation in `RunPipeline` does not cover this case. A non-string value inside the object, `null` included, is stored as it is (`null` bypasses the `.get` default). Neither case is modelled.
