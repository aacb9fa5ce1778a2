# News aggregator core, modelled in Dafny

This project models the back end of a small news aggregator. The back end pulls top headlines per
category from NewsAPI into an `article` table, lists them through a JSON API, and lets a reader
bookmark them. Five modules make up the model:

- `Wrappers` (wrappers.dfy): `Option` and `Result`.
- `Timestamps` (timestamps.dfy): the time values the table stores.
  - A timestamp is a whole number of seconds since 1970-01-01, limited to the years a Python `datetime` can hold.
  - The module converts between seconds and the civil calendar.
  - It parses NewsAPI's `publishedAt` exactly as `datetime.strptime(s, '%Y-%m-%dT%H:%M:%SZ')` does.
  - It renders a timestamp as `datetime.isoformat()` does.
- `Models` (models.dfy): the table and its rows.
  - The `Article` row, the defaults of a new row, and the table's constraints: the primary key, a unique url, a non-null title.
  - `to_dict`.
  - A `Database` class whose `articles` field the sync pass and the bookmark handler update in place.
- `Fetcher` (fetcher.dfy): `fetch_and_store_articles`, one sync pass over the seven categories.
  - Pure functions (`ItemStep`, `RunItems`, `CategoryStep`, `RunCategories`, `SyncPass`) say what a pass does to the table and to the returned count.
  - The imperative method `FetchAndStoreArticles` performs the pass on a `Database` and is proved to leave exactly the state `SyncPass` describes.
  - Lemmas then prove what a pass guarantees: storage, deduplication, provenance, retention, idempotence.
- `App` (app.dfy): the HTTP handlers.
  - The listing, with its filters, its newest-first order, the lazy warm-up on an empty table, and its error answers.
  - The distinct categories and sources.
  - The bookmark handler, as a method on the `Database`.

Behaviour the model follows from the code:

- **Missing keys in an item.**
  - A NewsAPI item without a `url` key, or with a non-empty url and no `title` key, raises at the empty-field check. That check is outside the per-item `try`, so the rest of that category is abandoned (`AbortsCategory`).
  - Any other missing key raises inside the per-item `try`, and only that item is skipped.
  - A `source` object that has other keys but no `name` raises inside the per-item `try`, so the item is skipped.
  - An empty `source` object is falsy and gives a null source.
- **Timestamps.**
  - `strptime` accepts one- or two-digit fields, a space-padded day, and lower-case `t`/`z`, because the pattern is compiled case-insensitively.
  - Any value `strptime` rejects becomes the time of the pass.
  - One instant `now` stands for every `utcnow()` of a pass or a request.
- **New keys.** A new row gets the key SQLite gives a table whose integer primary key is not `AUTOINCREMENT`: one more than the largest key present.
- **The keyword filter.** It is `lower(title) LIKE lower('%q%')`.
  - `lower` folds only ASCII letters.
  - `%` and `_` in the keyword are not escaped, so they act as wildcards (`UnderscoreMatchesAnyTitle`).
  - For a keyword without them, the filter is a case-folded substring test (`KeywordIsSubstring`).
- **The `days` parameter.**
  - When it is absent, or is not an integer, `days` is 7.
  - `days=0` switches the date filter off.
  - A cutoff that falls outside the years 1 to 9999 raises while it is computed, and the answer is a 500. This happens for a large `days`, and for a large negative one.
- **`article_id`.** A missing or zero `article_id` is a 400. An unknown one is a 404.

- **The result of a pass.** `fetch_and_store_articles` returns only the count of articles added. Per-category failures are logged, not returned.
- **A stale row still in the feed.** The sweep runs after the categories. A row older than seven days blocks a fetched item with the same url, and is then deleted. The next pass stores the item again as a new row, with a fresh `created_at`, and counts it (`StaleRowReinserted`).

## Model

| member | source | states |
|---|---|---|
| Timestamps.FromSeconds | backend/models.py:28 | every representable instant has a valid calendar date and time that converts back to it |
| Timestamps.ToSecondsInRange | backend/models.py:13 | every valid calendar date and time of years 1 to 9999 is a representable instant |
| Timestamps.ParseTimestamp | backend/fetcher.py:53-58 | a value `strptime` accepts is a representable instant |
| Timestamps.Pad2Value | backend/models.py:28 | a two-digit rendered field reads back as the number it renders |
| Timestamps.Pad4Value | backend/models.py:28 | the four-digit year field reads back as the year |
| Timestamps.ParseRendered | backend/fetcher.py:53-55 | the NewsAPI pattern parses a rendered date and time plus `Z` to the instant it denotes |
| Timestamps.ParseIsoFormat | backend/models.py:28 | `isoformat()` followed by `Z` parses back, under the fetcher's pattern, to the same instant |
| Timestamps.IsoFormatInjective | backend/models.py:28 | two instants with the same `isoformat()` are equal |
| Models.NewArticle | backend/models.py:13-18 | a new row is not bookmarked, is created now, has no key yet, and defaults `published_at` to now |
| Models.FirstIndex | backend/fetcher.py:47 | `.first()` finds a row exactly when one matches, and it is the earliest match |
| Models.MaxId | backend/models.py:7 | the largest key is at least every key, is 0 or held by a row, and is never negative |
| Models.InsertedWellFormed | backend/models.py:7-9 | inserting a row with a fresh url under the next key keeps keys and urls unique and stores the url |
| Models.Select | backend/app.py:138 | a filtered query returns exactly the rows that satisfy the filter, and no more rows than the table has |
| Models.SelectAll | backend/fetcher.py:89-92 | a filter every row satisfies returns the whole table in order |
| Models.SelectWellFormed | backend/models.py:7-9 | any selection of a well-formed table keeps keys and urls unique |
| Models.SameIdSameRow | backend/models.py:7 | in a well-formed table the key identifies one row |
| Models.SameUrlSameRow | backend/models.py:9 | in a well-formed table the url identifies one row |
| Models.RemoveIds | backend/fetcher.py:94-97 | deleting by key keeps exactly the rows whose key is not deleted, and keeps the constraints |
| Models.WithBookmark | backend/app.py:149-154 | setting the flag changes only that row's `is_bookmarked`, and keeps the constraints |
| Models.DictOf | backend/models.py:20-34 | the dictionary has the twelve keys, each holding its column, with nulls for absent values |
| Models.ToDictInjective | backend/models.py:20-34 | two rows with the same `to_dict()` are the same row |
| Models.Database.constructor | backend/models.py:6 | a new table is empty and well-formed |
| Models.Database.FindByUrl | backend/fetcher.py:47 | the lookup by url finds a row exactly when the table holds that url, and returns that row |
| Models.Database.IndexOfId | backend/app.py:145 | the lookup by key finds a row exactly when the table holds that key |
| Models.Database.Insert | backend/fetcher.py:71-72 | add and commit append the row under the next key and keep the table well-formed |
| Models.Database.SetBookmark | backend/app.py:149-154 | the table becomes `WithBookmark` of the old one and stays well-formed |
| Models.Database.DeleteIds | backend/fetcher.py:94-97 | the loop leaves exactly `RemoveIds` of the old table |
| Fetcher.PublishedAt | backend/fetcher.py:53-58 | the parsed time when `strptime` accepts a non-empty value, otherwise now; always representable |
| Fetcher.DeleteOldArticles | backend/fetcher.py:87-104 | a committed sweep leaves exactly the bookmarked or recent rows; a failed one changes nothing |
| Fetcher.StaleIdsSelectStale | backend/fetcher.py:89-97 | deleting the keys of the selected stale rows leaves exactly the retained rows |
| Fetcher.StoreItems | backend/fetcher.py:41-80 | the item loop leaves the table and count that `RunItems` specifies |
| Fetcher.FetchAndStoreArticles | backend/fetcher.py:12-111 | an empty key raises and changes nothing; otherwise the table and returned count are those of `SyncPass` |
| Fetcher.AbortFreezes | backend/fetcher.py:41-43 | after an item raises at the empty-field check, the later items of that category change nothing |
| Fetcher.RunItemsGrows | backend/fetcher.py:71-73 | the item loop only appends rows, and the count grows by the number appended |
| Fetcher.RunItemsAborted | backend/fetcher.py:41-43 | a category is abandoned exactly when one of its items raises at the empty-field check |
| Fetcher.RunItemsStoresOffers | backend/fetcher.py:41-73 | every reached item with a non-empty url and title and its keys present has its url stored after the loop |
| Fetcher.RunItemsUnchanged | backend/fetcher.py:47-50 | when the table already holds every offered url, the loop inserts nothing and counts nothing |
| Fetcher.RunItemsWellFormed | backend/fetcher.py:41-80 | the item loop keeps keys and urls unique |
| Fetcher.RunItemsKept | backend/fetcher.py:41-80 | the item loop adds no row older than a cutoff that no fetched item is older than |
| Fetcher.RunItemsProvenance | backend/fetcher.py:60-73 | every appended row is built from a reached, storable item, under the category being walked |
| Fetcher.DroppingSkippedItem | backend/fetcher.py:42-50 | removing an item the loop skips (empty field, missing key, known url) does not change the outcome |
| Fetcher.RunCategoriesGrows | backend/fetcher.py:25-84 | the category loop only appends rows, and the count grows by the number appended |
| Fetcher.RunCategoriesWellFormed | backend/fetcher.py:25-84 | the category loop keeps keys and urls unique |
| Fetcher.SkippedCategory | backend/fetcher.py:36-38 | a category whose response is not ok or raised changes nothing |
| Fetcher.RunCategoriesStoresOffers | backend/fetcher.py:25-84 | every url any category offered is in the table after the category loop |
| Fetcher.RunCategoriesUnchanged | backend/fetcher.py:47-50 | when every offered url is already stored, the category loop leaves table and count unchanged |
| Fetcher.RunCategoriesKept | backend/fetcher.py:25-84 | the category loop adds no row older than a cutoff that no fetched item is older than |
| Fetcher.RunCategoriesProvenance | backend/fetcher.py:25-84 | every appended row is built from an item of some category's response |
| Fetcher.SyncPassWellFormed | backend/fetcher.py:12-111 | a pass keeps keys and urls unique |
| Fetcher.SyncPassCount | backend/fetcher.py:19 | with the sweep rolled back, a pass keeps every row in place and the count is the number of rows appended |
| Fetcher.SyncPassRetention | backend/fetcher.py:87-97 | after a pass every row is bookmarked or at most seven days old, and every such row of the old table survives |
| Fetcher.SyncPassNewRows | backend/fetcher.py:60-73 | every new row comes from some category's response, carries one of the seven categories, is not bookmarked and is created now |
| Fetcher.SyncPassStoresOffers | backend/fetcher.py:25-84 | with the sweep rolled back, the table holds every url any category offered |
| Fetcher.SecondPassAddsNothing | backend/fetcher.py:47-50 | when no row of the table and no item the responses offer is older than seven days, a second pass over the same responses at the same instant adds nothing and leaves the table unchanged |
| Fetcher.StaleRowReinserted | backend/fetcher.py:47-97 | without the first condition a second pass is not a no-op: a stale row whose url the feed still offers is swept by the first pass, and the second pass stores the item again as a new row and counts it |
| Fetcher.FirstCategoryWins | backend/fetcher.py:25-73 | the first category and item offering a new url decide the only row with that url |
| App.LowerAppend | backend/app.py:101 | folding the pattern `'%' + keyword + '%'` folds each part on its own |
| App.LowerIdempotent | backend/app.py:101 | folding a folded text changes nothing |
| App.LowerKeepsWildcards | backend/app.py:101 | a keyword has LIKE wildcards exactly when its folded form has them |
| App.PercentMatchesAll | backend/app.py:101 | the pattern `%` matches every text |
| App.LeadingPercent | backend/app.py:101 | a leading `%` lets the rest of the pattern match any suffix |
| App.LiteralThenPercent | backend/app.py:101 | a literal pattern followed by `%` matches exactly the texts it prefixes |
| App.KeywordIsSubstring | backend/app.py:100-101 | for a keyword without wildcards, the title filter holds exactly when the folded keyword occurs in the folded title |
| App.UnderscoreMatchesAnyTitle | backend/app.py:100-101 | the unescaped keyword `_` matches every non-empty title |
| App.InsertNewest | backend/app.py:89 | inserting into a newest-first list keeps it newest-first and is a permutation |
| App.SortNewestFirst | backend/app.py:89 | the ordering is newest-first and a permutation of its input |
| App.ListingResponse | backend/app.py:106-123 | the answer is a 500 exactly when `days` is non-zero and the cutoff falls outside the years 1 to 9999; otherwise it is the matching rows, newest first |
| App.ListingExact | backend/app.py:89-110 | the listing is newest-first and holds exactly the matching rows, each as often as in the table |
| App.ListingFilters | backend/app.py:92-108 | a row is listed exactly when it passes the keyword, category, source and `days` filters, with 7 days by default and 0 switching it off |
| App.DistinctValues | backend/app.py:127-128 | the distinct non-empty values of a column, each once |
| App.Categories | backend/app.py:125-128 | every non-empty category in the table, each once, and nothing else |
| App.Sources | backend/app.py:130-133 | every non-empty source in the table, each once, and nothing else |
| App.CategoriesAfterSync | backend/fetcher.py:10 | when every row of the table carries one of the seven fixed categories or none, so does every row after a pass, and `/api/categories` lists only those |
| App.HandleBookmarks | backend/app.py:135-155 | GET lists the bookmarked rows; 400 for a missing or zero key, 404 for an unknown one; otherwise only that row's flag changes and the row is returned |
| App.FlaggedTouchesOneRow | backend/app.py:145-154 | a bookmark update changes only the flag of the row with that key |
| App.FlaggedIdempotent | backend/app.py:149-154 | repeating a POST or DELETE changes nothing more |
| App.PostThenDelete | backend/app.py:149-152 | a DELETE after a POST restores a row that was not bookmarked |
| App.BookmarksAfterUpdate | backend/app.py:137-154 | after POST the row is among the bookmarks; after DELETE it is not |
| App.GetArticles | backend/app.py:69-123 | an empty table is filled by one pass first; a missing key answers 500; otherwise the listing of the resulting table |
| App.ToDictsInjective | backend/app.py:111 | two row lists with the same JSON list are the same rows in the same order |

## Left out

- The NewsAPI HTTP client is not modelled. Its answer for each category is the parameter `fetch`, which also stands for a call that raises.
- The instant of the pass or request is not modelled. It is the parameter `now`.
- Logging is not modelled.
- The background scheduler, application start-up, routing of static files and the front end are not modelled.
- SQLAlchemy session handling (`session.remove()`, per-item transactions) is not modelled. Each committed insert is one `Inserted` step, and a failed sweep is the parameter `sweepFails`.
- An insert that fails at commit time is not modelled. The only database faults modelled are those of the retention sweep.
- Column length limits (`String(256)` and the like) are not enforced: SQLite does not enforce them either.
- Sub-second precision is not modelled: every timestamp is a whole second. `isoformat()` of a value with microseconds is not modelled, because the model never produces one.
- Non-ASCII digits, which `strptime`'s `\d` also accepts, are not modelled.
- Turning the `days` query string into an integer is left to the caller: the model receives `Option<int>`, with `None` for a missing or non-integer value.
- A request body that is not JSON, or an `article_id` that is not an integer, is not modelled.
- SQLite does not fix the order of rows with equal `published_at`; the model keeps them in table order.
- JSON text encoding is not modelled: `Serialize` stops at the dictionaries and lists that `jsonify` would encode.
- App.GetArticles: an exception from a pass other than the missing key is not modelled, because in the pass every per-category and sweep fault is caught and logged.
