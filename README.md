# SORA incremental sync — a Dafny model

This project models the data pipeline of the SORA web application
(`sora.py`). The pipeline keeps a local SQLite table `fields` up to date
with the Monetary Authority of Singapore's Domestic Interest Rates service,
then lets the user query the table by a range of years. The model covers
four parts:

- **Catch-up decision** (`load_db`). The newest stored `end_of_day` is
  compared with the newest remote one. An empty table gets an unrestricted
  fetch. A table that is behind gets a fetch of the inclusive range
  `[stored newest, remote newest]`. Otherwise nothing happens. Fetched rows
  are cleaned and appended.
- **Paginated fetch** (`extract_data`). The first request has no offset.
  Further requests use offsets 100, 200, … while the offset is below the
  reported total. Pages are concatenated in fetch order.
- **Cleaning** (`transform_data`). A row is kept only if all six fields are
  truthy and its date is not already stored. A second pass drops any row
  that holds a float NaN.
- **Year query** (`build_sidebar`). The query keeps a row when
  `str(Y1) <= end_of_day <= str(Y2+1)` holds as text.

Modules, one per component:

- `seqs.dfy` (`Seqs`): an order-preserving `Filter` and its lemmas.
- `text.dfy` (`Text`): text order as Python and SQLite compare strings, and
  `str(n)` for integers.
- `records.dfy` (`Records`): the row, its field values, Python truthiness,
  `SELECT max(end_of_day)`.
- `remote.dfy` (`Remote`): the remote collection, one request, and the
  `Extract` loop.
- `transform.dfy` (`Transform`): the two cleaning passes and the
  `TransformData` loop.
- `store.dfy` (`Store`): the `Database` class (`InitDb`, `Load`), the
  decision `Decide`, the function `Synced` that defines one sync, and the sync theorems.
- `query.dfy` (`Query`): the `BETWEEN` test, the projection, and the
  "+1" lemma.

The remote service is a `Server` value holding its records in the order
`sort=end_of_day asc` returns them; the lemmas about order require that
order to be strictly ascending (`SortedDates`). A request is a `Range`
(unrestricted, or inclusive text bounds) plus an offset. Its answer is the selected records at positions `[offset, offset+100)`
and their total count. The probe with `sort=end_of_day desc` reads the first
record, that is the greatest date, which the model takes as `MaxDate` of the
records.

The functions `Decide`, `Synced`, `Cleaned`, `Matching`, `InYearRange`
and `SelectYears` define the pipeline. The methods `Extract`, `TransformData`
and `Database.Load` are proved equal to them. The lemmas below state what the
pipeline guarantees.

Behaviour of the code that the model keeps as it is:

- The composite rates are not optional: the code rejects a row when any of
  the six fields is falsy (`None`, empty text, or zero).
- Nothing rejects a batch whose dates collide with stored ones: the table
  stays duplicate-free only through the cleaning stage (see
  `SyncedNoDuplicateDates`).
- An empty cleaned batch is still passed to `executemany`; the table is
  unchanged by it.
- Paging stops when the next offset is no longer below the reported total.
- A failed request is not retried.

## Model

| member | source | states |
|---|---|---|
| Records.MaxDateIsMax | sora.py:117 | `max(end_of_day)` is NULL exactly for an empty table; otherwise it is a stored date and no stored date exceeds it in text order |
| Remote.PagesAdjoin | sora.py:89-94 | a page at an offset below the total holds `min(100, total - offset)` records, and it and the next page together are exactly the selected records from that offset on, without gap or overlap |
| Remote.Extract | sora.py:78-96 | the concatenated pages are exactly the selected records in order; the request offsets are 0, 100, 200, …, every one after the first below the total, `max(1, ceil(total/100))` of them |
| Remote.MatchingMembers | sora.py:82-83 | with `between[end_of_day]` a record is fetched iff it lies within the inclusive bounds; without it every record is fetched |
| Remote.NarrowerRangeSelectsFewer | sora.py:83 | raising the lower bound of the range selects no record the wider range did not |
| Transform.TransformData | sora.py:99-109 | the loop and the comprehension return the one-filter result; it is an order-preserving subsequence of the fetched rows and holds a row iff all six fields are truthy, none is NaN and its date is not stored |
| Transform.CleanedIsOneFilter | sora.py:105-108 | the truthiness-and-new-date pass followed by the NaN pass is a single filter by "clean and not stored" |
| Transform.CleanedMembers | sora.py:104-108 | a row is returned iff it was fetched, all six fields are truthy, none is a float NaN, and its date is not in the table; one bad field rejects the row |
| Transform.CleanedIsSubsequence | sora.py:102-108 | the returned rows are a subsequence of the fetched rows, in fetched order |
| Transform.CleanedRowsAdmitted | sora.py:100-108 | every returned row is clean and its date was not stored before the call |
| Transform.CleanedKeepsDistinct | sora.py:103-106 | rows of the batch are not compared with each other, but a batch with distinct dates comes back with distinct dates |
| Transform.CleanedNothingAdmitted | sora.py:105 | when every clean fetched row has a stored date, nothing is returned |
| Transform.CleanedAllClean | sora.py:103-108 | against an empty table, a batch of clean rows is returned whole |
| Store.DecideCases | sora.py:120-125 | no stored date: unrestricted fetch; stored newest date strictly below the remote newest: fetch of the inclusive range `[stored, remote]`; otherwise no fetch |
| Store.SyncedAppendsCleanRows | sora.py:127-129 | the sync only appends: the old table is a prefix of the new one, and each appended row is clean, fetched from the source, and of a date not stored before |
| Store.SyncedKeepsClean | sora.py:105-108 | a table of clean rows stays clean after the sync |
| Store.SyncedNoDuplicateDates | sora.py:83 | distinct table dates and distinct remote dates give distinct table dates after the sync |
| Store.RefetchedBoundDropped | sora.py:100-105 | the stored newest date, re-fetched as the inclusive lower bound, is not appended again |
| Store.NoOpWhenCurrent | sora.py:122-125 | when the remote newest date is not after the stored newest date, the table is unchanged |
| Store.SecondFetchFindsNothingNew | sora.py:117-123 | after one sync, every clean record in the range a second sync would fetch has its date already stored |
| Store.SyncedKeepsSorted | sora.py:80-83 | a table in strictly ascending date order, synced from a collection in strictly ascending date order, stays in strictly ascending date order: every appended date lies above the stored newest date |
| Store.SyncedIdempotent | sora.py:112-129 | a second sync against the same remote collection leaves the table unchanged, even when the newest remote rows were rejected and are fetched again |
| Store.FullCatchUp | sora.py:120-121 | an empty table synced from a source of clean records becomes exactly that source, in order, across all pages |
| Store.Database.constructor | sora.py:60-61 | a connection to a database file without the table |
| Store.Database.InitDb | sora.py:64-75 | `CREATE TABLE IF NOT EXISTS`: afterwards the table exists and its rows are those before the call (none when it was just created) |
| Store.Database.Load | sora.py:112-129 | the table becomes `Synced(old table, server)`; the old rows stay a prefix; the outcome is `NoTable` iff the table is missing, `NoSourceData` iff the probe finds no record, `AlreadyCurrent` iff the decision is to fetch nothing, and otherwise `Appended` with the number of rows added |
| Query.YearRangeExact | sora.py:162 | for an ISO date and four-digit bounds, `str(Y1) <= date <= str(Y2+1)` as text holds iff the year of the date is in `[Y1, Y2]` |
| Query.SelectYearsExact | sora.py:162 | over a table of ISO dates the query returns exactly the rows of years `Y1..Y2`, in table order, projected onto `end_of_day, sora, sora_index` and the chosen composite columns |
| Query.SelectYearsAscending | sora.py:162 | over a table in ascending date order (as `SyncedKeepsSorted` keeps it), the query's rows come back in ascending date order |

## Left out

- HTTP and JSON: `requests.get` and the decoding of `result.records` and `result.total` become the `Fetch` function over a `Server` value. A failed request or a malformed payload raises in the source before anything is written. The model has no failing requests.
- The shared `API_PARAMETERS` dictionary: each request takes its range and offset explicitly. The source lets an `offset` or `between` entry from an earlier call leak into later ones. The model does not capture that.
- The SQLite connection, `@st.cache`, `commit` and `check_same_thread=False`: the table is a sequence field of the `Database` class, and `executemany` is one sequence append. Concurrency is not modelled.
- An `end_of_day` that the source delivers as `None` or NaN is represented by the empty text. Either way the row is dropped, by the truthiness pass or by the NaN pass. A numeric `end_of_day` is not modelled; the source could not compare it with a text date anyway.
- Field values are `Missing`, text, a real number, or NaN. No floating-point arithmetic is modelled.
- `display_data`, the pandas frames and `pd.to_datetime`, and the sidebar widgets that choose the years and the columns are not modelled. Neither are `build_metric`, `download_data`, `create_chart` and `main`, which only present data.
- A `SELECT` without `ORDER BY` is taken to return rows in insertion order; the ascending order of the query's rows then rests on `SyncedKeepsSorted`.
- Store.Database.constructor: models only a database file without the table. The file `sora.db` is assumed to be written only by `init_db` and `load_db`; that is what makes every stored row clean (`Valid()`) when it is opened again.
- Query.YearRangeExact: stated for `1000 <= Y1 <= 9999` and `999 <= Y2 <= 9998`, where `str(Y1)` and `str(Y2+1)` have four digits. Outside these bounds the text test differs: for `Y2 = 9999` the bound `"10000"` excludes every date of year 9999.
- Query.SelectYearsExact: stated under the same four-digit bounds.
- Store.SyncedKeepsSorted: requires the remote records strictly ascending by date, one record per date. The source sorts the service's answer (`sort=end_of_day asc`) but never checks the stored order.
- Store.SyncedNoDuplicateDates: requires the remote records' dates to be distinct. The source copies any duplicate the service itself holds.
- Remote.Extract: each response is modelled as a full slice of 100 records (fewer only at the end). A service that returned short pages would leave gaps the model does not show.
