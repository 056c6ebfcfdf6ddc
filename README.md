# Incremental BTC/USD bar store — a Dafny model

This project models the core of a small BTC/USD market-data collector. Its
centre is the incremental updater `download_incremental_data`. The updater
reads the latest timestamp in a CSV store. It fetches bars from one hour
before that timestamp up to now. If nothing usable is stored, it fetches from
`days_back` days ago instead. Minute bars are fetched in 7-day chunks, and a
chunk that raises is skipped. The fetched rows are deduplicated on their
timestamp, keeping the first occurrence, and sorted. Only rows strictly
newer than the stored maximum are kept. They are merged with the stored
rows: a duplicate timestamp keeps the stored row, and the result is sorted
ascending. Then the file is rewritten, or the updater reports "already up
to date". `update_all_data` runs the updater on the minute store and on the
daily store. The two one-shot downloaders share the same chunk loop:
`download_btc_data` fetches 90 days of minute bars, and the enhanced
downloader fetches minute and daily bars and tags each row with its
resolution.

Modules, one file each:

- `Series` (`series.dfy`) covers timestamped rows and the operations on them:
  first-occurrence deduplication, ascending sort by timestamp, the strict
  "newer than" filter, merging new rows into stored ones, and the maximum
  timestamp. Predicates describe a well-formed series: distinct timestamps,
  strictly increasing order, and the first row carrying each timestamp.
- `Chunking` (`chunking.dfy`) covers the 7-day windows that tile a fetch
  range. `FetchChunks` is the chunk loop as a method. It is proved against
  `Windows` (the requested ranges) and `Collect` (the chunks kept).
- `DailyUpdater` (`daily_updater.dfy`) holds the store file, the outcome of a
  run, and `Reconcile`, the updater as a function of the store, the clock and
  the provider. The methods `DownloadIncremental` and `UpdateAllData` are
  proved equal to it.
- `DownloadBtc` (`download_btc_data.dfy`) is the 90-day minute downloader.
- `DownloadExtended` (`download_btc_data_extended.dfy`) holds the minute
  downloader, the daily downloader and `save_data`.

Timestamps are integers counting seconds. `HOUR` is 3600 and `DAY` is 86400.
The market-data provider is a function parameter `fetch(lo, hi)`. It returns
`None` when the request raises and `Some(rows)` otherwise, with the rows in
the order the provider gives them. The clock reading `now` is a parameter.

Behaviour of the source that the model keeps as written:

- The store is overwritten in place by `to_csv` (daily_updater.py:139), not
  atomically. The model has no partial writes, so this makes no difference
  inside it.
- The whole file is rewritten on every write. When the store exists but
  gives no usable latest timestamp (unreadable, no `timestamp` column, or
  empty), the fetched rows replace it, and `Reconcile` does the same.
- The daily path of the enhanced downloader (download_btc_data_extended.py:74-107)
  neither deduplicates nor sorts the provider's rows. `DownloadDailyData`
  keeps them exactly as returned.

## Model

| member | source | states |
|---|---|---|
| Series.MaxTs | src/data_collection/daily_updater.py:25 | the maximum is a stored timestamp and bounds every row |
| Series.DedupFirst | src/data_collection/daily_updater.py:102 | keep-first deduplication leaves every timestamp of the input exactly once |
| Series.SortByTs | src/data_collection/daily_updater.py:103 | sorting by timestamp is a permutation of its input |
| Series.DedupAndSort | src/data_collection/daily_updater.py:102-103 | the deduplicated, sorted batch is strictly increasing and has exactly the input's timestamps |
| Series.NewerThan | src/data_collection/daily_updater.py:125 | every row the filter keeps is an input row strictly newer than the latest stored timestamp |
| Series.Merge | src/data_collection/daily_updater.py:132-134 | the merged series is strictly increasing and its timestamps are the union of the stored and new ones |
| Series.DedupAfterSpec | src/data_collection/daily_updater.py:102 | keep-first deduplication after a set of already-seen timestamps leaves each remaining timestamp exactly once: the first row that carries it, drawn from the input |
| Series.SortByTsSpec | src/data_collection/daily_updater.py:103 | sorting by timestamp is a permutation into ascending order, strictly increasing when the timestamps are distinct |
| Series.SortedPermutationUnique | src/data_collection/daily_updater.py:134 | two strictly increasing arrangements of the same rows are equal, so an unstable sort gives the same result once timestamps are distinct |
| Series.DedupAndSortSpec | src/data_collection/daily_updater.py:102-103 | the fetched batch after dedup and sort is strictly increasing, keeps every timestamp, holds the first fetched row for each, and is drawn from the batch |
| Series.NewerThanSpec | src/data_collection/daily_updater.py:125 | the strict filter keeps exactly the rows whose timestamp exceeds the latest stored one, and is empty iff every row is at or before it |
| Series.NewerThanStrict | src/data_collection/daily_updater.py:125 | filtering a strictly increasing series keeps it strictly increasing |
| Series.MergeSpec | src/data_collection/daily_updater.py:132-134 | the merged series is strictly increasing, covers the union of timestamps, keeps the stored row on a clash and otherwise the first new row |
| Series.MergeAppends | src/data_collection/daily_updater.py:132-134 | when every new row is later than every stored row, merging appends the new rows after the sorted stored rows, nothing dropped |
| Chunking.Windows | src/data_collection/daily_updater.py:65-82 | no window is requested iff the range is empty; otherwise the first window starts at the range start and the last ends at its end |
| Chunking.Collect | src/data_collection/daily_updater.py:69-80 | at most one chunk per window is kept, and no kept chunk is empty |
| Chunking.Flatten | src/data_collection/daily_updater.py:85 | the concatenation starts with the first kept chunk, rows in their order |
| Chunking.FetchChunks | src/data_collection/daily_updater.py:62-82 | the chunk loop requests exactly the 7-day windows of the range and keeps exactly the non-empty chunks of the fetches that did not raise, in order |
| Chunking.WindowsTile | src/data_collection/daily_updater.py:65-67 | the windows are contiguous, start at the range start, end at its end, are non-empty and at most 7 days long, all but the last exactly 7 days; none for an empty range |
| Chunking.WindowsCover | src/data_collection/daily_updater.py:65-82 | every instant in the range lies in exactly one requested window |
| Chunking.WindowsStartAfter | src/data_collection/daily_updater.py:65-67 | no window reaches outside the requested range |
| Chunking.WindowsCount | src/data_collection/daily_updater.py:65-67 | the number of requests is the range length divided by 7 days, rounded up |
| Chunking.CollectSpec | src/data_collection/daily_updater.py:69-80 | every kept chunk is non-empty and is exactly what some window's fetch returned; every window that yielded rows is kept; nothing is kept iff no window yielded |
| Chunking.FailureIsolation | src/data_collection/daily_updater.py:79-80 | a window whose fetch raises costs only its own rows: the chunks of every other window are kept, in order |
| Chunking.CollectAppend | src/data_collection/daily_updater.py:76-77 | the chunks of two consecutive runs of windows are the chunks of each, concatenated |
| Chunking.FlattenSpec | src/data_collection/daily_updater.py:85 | concatenating chunks gives exactly their rows, and is empty only when there are no chunks |
| Chunking.CombinedChunksSpec | src/data_collection/download_btc_data.py:67-71 | the combined chunk data is strictly increasing, every row is the first fetched row for its timestamp, and it was returned by a window that yielded |
| DailyUpdater.FetchStart | src/data_collection/daily_updater.py:40-53 | with a stored latest timestamp the fetch starts exactly one hour before it, so that row is fetched again; otherwise it starts `days_back` days before now |
| DailyUpdater.Fetched | src/data_collection/daily_updater.py:61-99 | on the minute path a fetch that produced anything produced at least one row |
| DailyUpdater.FetchedOrigin | src/data_collection/daily_updater.py:61-95 | every fetched row was returned by a requested window whose fetch yielded rows |
| DailyUpdater.FetchedComplete | src/data_collection/daily_updater.py:61-95 | every row of every requested window that yielded rows is among the fetched rows, so a raising window does not keep the others' rows out |
| DailyUpdater.ReconcileRows | src/data_collection/daily_updater.py:101-136 | once rows are in hand the updater never fails; it reports up to date only with a stored series, and whatever it writes is strictly increasing |
| DailyUpdater.Reconcile | src/data_collection/daily_updater.py:31-150 | whatever a run writes is strictly increasing and adds at least one row |
| DailyUpdater.LatestTimestamp | src/data_collection/daily_updater.py:17-28 | a latest timestamp exists iff the store is a readable table with a `timestamp` column and at least one row; it is the greatest stored timestamp |
| DailyUpdater.DownloadIncremental | src/data_collection/daily_updater.py:31-150 | the method requests exactly the planned windows and ends in the outcome `Reconcile` specifies |
| DailyUpdater.UpdateAllData | src/data_collection/daily_updater.py:153-188 | reports success iff both the minute update (7 days back) and the daily update (30 days back), each at its own clock reading, succeed; each store changes only when its update wrote |
| DailyUpdater.FetchRange | src/data_collection/daily_updater.py:40-67 | the fetch starts one hour before the latest stored timestamp, or `days_back` days before now, and ends at now; minute bars come in tiled 7-day windows, anything else in one request |
| DailyUpdater.FailsIffNothingFetched | src/data_collection/daily_updater.py:84-99 | the updater fails iff no requested window returned rows |
| DailyUpdater.WrittenIsSeries | src/data_collection/daily_updater.py:118-139 | whatever the updater writes is a strictly increasing series and adds at least one row |
| DailyUpdater.BootstrapWritesFetch | src/data_collection/daily_updater.py:135-136 | with no usable store, the updater writes the deduplicated, sorted fetch: every fetched timestamp once, first fetched row each |
| DailyUpdater.UpToDateIffNothingNewer | src/data_collection/daily_updater.py:125-129 | with a stored latest timestamp and a non-empty fetch, the store is reported up to date iff no fetched row is strictly newer; that case is never a failure |
| DailyUpdater.MergeKeepsExisting | src/data_collection/daily_updater.py:118-134 | a write keeps every stored timestamp with its first stored row; every written row later than the stored maximum is the first fetched row for its timestamp; nothing else is added, and `added` counts exactly the distinct newer timestamps |
| DailyUpdater.NewerRowsWritten | src/data_collection/daily_updater.py:125-134 | when the updater merges into a stored series, every fetched timestamp strictly newer than the stored maximum is in the written file, even over a store with duplicate timestamps |
| DailyUpdater.MergeRowCount | src/data_collection/daily_updater.py:132-141 | over a duplicate-free store the written file is exactly the sorted stored rows followed by the fetched rows newer than the stored maximum, so it has stored + added rows; the stored rows are unchanged when already ascending |
| DailyUpdater.SecondRunWritesNothing | src/data_collection/daily_updater.py:118-129 | after a write, a run whose provider returns no row newer than the latest row now stored either fails or is up to date, and leaves the store unchanged |
| DailyUpdater.BoundaryOverlap | src/data_collection/daily_updater.py:125-134 | a store ending at T, given rows at T − 30 min, T and T + 15 min, gains exactly the T + 15 min row and keeps its own row at T |
| DownloadBtc.DownloadBtcData | src/data_collection/download_btc_data.py:16-71 | requests the 7-day windows of the last 90 days; succeeds iff some window yielded rows, and then writes the combined chunks deduplicated and sorted |
| DownloadBtc.BtcRange | src/data_collection/download_btc_data.py:24-25 | the 90-day range is tiled by 13 windows |
| DownloadExtended.TagRows | src/data_collection/download_btc_data_extended.py:64 | tagging keeps every row's timestamp, bar and position, and every tagged row carries the tag |
| DownloadExtended.DownloadMinuteData | src/data_collection/download_btc_data_extended.py:18-71 | requests the 7-day windows of the last `days` days; returns rows iff some window yielded, namely the deduplicated, sorted chunks tagged "minute" |
| DownloadExtended.MinuteDataSpec | src/data_collection/download_btc_data_extended.py:52-66 | a minute result is non-empty, strictly increasing, tagged "minute" on every row, and is therefore always saved |
| DownloadExtended.MinuteRange | src/data_collection/download_btc_data_extended.py:18-24 | the default 30-day minute range is tiled by five windows |
| DownloadExtended.DownloadDailyData | src/data_collection/download_btc_data_extended.py:74-107 | returns rows iff the single request returned a non-empty batch, namely that batch row for row, tagged "daily" |
| DownloadExtended.SaveData | src/data_collection/download_btc_data_extended.py:110-124 | writes, and reports True, iff the data is present and non-empty; otherwise writes nothing |

## Left out

- The market-data provider's internals are not modelled. `yf.Ticker(...).history` is the `fetch` parameter, and any exception it raises is `None`.
- Reading and writing CSV files are not modelled. A store is a `StoreFile` value: missing, unreadable, without a `timestamp` column, or a table of rows. The updated store is returned, not written.
- DownloadIncremental: assumes `to_csv` succeeds. A write that raises and reaches the outer handler (daily_updater.py:148-150) is not modelled. Neither is a crash that leaves a partial file, which the non-atomic overwrite allows.
- DownloadIncremental: other exceptions the outer handler would catch are not modelled, such as a timestamp column that `to_datetime` cannot parse on the second read (daily_updater.py:120-122). The store is read once.
- DownloadIncremental: the clock is read twice in the source (lines 50 and 53). The model uses a single `now` per call. `UpdateAllData` passes each of its two calls its own reading.
- Time zones are not modelled. The source strips the zone from `latest - 1 hour` and compares it with a local `datetime.now()`. The model treats every timestamp as one integer clock.
- The derived columns `Returns`, `Price_Range` and `VWAP` are floating-point arithmetic. A bar is an opaque payload of type `T`.
- The renaming of the index column to `timestamp` is not modelled, because rows carry their timestamp directly.
- Console output is not modelled, including statistics, sample rows and progress messages.
- Not part of this model: `create_summary_report`, the `main` functions, the data-directory setup in `update_all_data`, `setup_project.py` and `update_data.py`.
