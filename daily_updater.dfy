/** The incremental updater: read the latest stored timestamp, fetch from
    one hour before it (or from `days_back` days ago when nothing usable is
    stored) up to now, deduplicate and sort the fetched rows, keep only the
    rows strictly newer than the stored maximum, merge them after the stored
    rows and rewrite the store; or report "already up to date" without
    writing. */
module DailyUpdater {
  import opened Series
  import opened Chunking

  /** The CSV file at a store path, as the updater can see it. */
  datatype StoreFile<T> =
    | Missing                      // the file does not exist
    | Unreadable                   // reading or parsing it raises
    | NoTimestampColumn            // it parses but has no `timestamp` column
    | Table(rows: seq<Row<T>>)     // its rows, in file order (maybe none)

  /** What one call of the updater ends in. */
  datatype Outcome<T> =
    | Failed                                      // returns False, writes nothing
    | UpToDate                                    // returns True, writes nothing
    | Written(contents: seq<Row<T>>, added: nat)  // returns True, rewrites the file
  {
    predicate Succeeded()
    {
      !Failed?
    }
  }

  /** The interval string for which the fetch is split into windows. */
  const MINUTE_INTERVAL: string := "1m"

  /** `get_latest_data_date`: the greatest stored timestamp, or None when the
      file is missing, unreadable, lacks a `timestamp` column or is empty. */
  function LatestTimestamp<T>(store: StoreFile<T>): (latest: Option<int>)
    ensures latest.Some? <==> store.Table? && store.rows != []
    ensures latest.Some? ==> latest.value in TsSet(store.rows)
    ensures latest.Some? ==> forall r :: r in store.rows ==> r.ts <= latest.value
  {
    if store.Table? && store.rows != [] then Some(MaxTs(store.rows)) else None
  }

  /** One hour before the latest stored timestamp, or `daysBack` days before now. */
  function FetchStart(latest: Option<int>, daysBack: int, now: int): (start: int)
    ensures latest.Some? ==> start < latest.value && latest.value - start == HOUR
    ensures latest.None? && daysBack >= 0 ==> start <= now && now - start == daysBack * DAY
  {
    if latest.Some? then latest.value - HOUR else now - daysBack * DAY
  }

  /** The windows requested of the provider: the 7-day chunks of
      [start, now) for minute bars, one window for any other interval. */
  function Requests<T>(store: StoreFile<T>, interval: string, daysBack: int, now: int): seq<Window>
  {
    var start := FetchStart(LatestTimestamp(store), daysBack, now);
    if interval == MINUTE_INTERVAL then Windows(start, now) else [Window(start, now)]
  }

  /** The fetched rows before any processing, or None when the fetch
      produced nothing usable: no chunk kept for minute bars, or the single
      request raised for other intervals. */
  function Fetched<T>(store: StoreFile<T>, interval: string, daysBack: int, now: int,
                      fetch: Fetcher<T>): (fetched: Option<seq<Row<T>>>)
    ensures interval == MINUTE_INTERVAL && fetched.Some? ==> fetched.value != []
  {
    var start := FetchStart(LatestTimestamp(store), daysBack, now);
    if interval == MINUTE_INTERVAL then
      var chunks := Collect(Windows(start, now), fetch);
      FlattenSpec(chunks);
      if chunks == [] then None
      else
        assert chunks[0] in chunks;
        Some(Flatten(chunks))
    else fetch(start, now)
  }

  /** What the updater does with a non-empty batch of fetched rows. */
  function ReconcileRows<T>(store: StoreFile<T>, fetched: seq<Row<T>>): (outcome: Outcome<T>)
    ensures !outcome.Failed?
    ensures outcome.UpToDate? ==> LatestTimestamp(store).Some?
    ensures outcome.Written? ==> StrictlyIncreasing(outcome.contents)
  {
    var deduped := DedupAndSort(fetched);
    var latest := LatestTimestamp(store);
    if latest.Some? then
      var newer := NewerThan(deduped, latest.value);
      if newer == [] then UpToDate else Written(Merge(store.rows, newer), |newer|)
    else
      Written(deduped, |deduped|)
  }

  /** `download_incremental_data`, as a function of the store, the clock
      reading and the provider. */
  function Reconcile<T>(store: StoreFile<T>, interval: string, daysBack: int, now: int,
                        fetch: Fetcher<T>): (outcome: Outcome<T>)
    ensures outcome.Written? ==> StrictlyIncreasing(outcome.contents) && outcome.added >= 1
  {
    var fetched := Fetched(store, interval, daysBack, now, fetch);
    if fetched.None? || fetched.value == [] then Failed
    else
      WrittenIsSeries(store, fetched.value);
      ReconcileRows(store, fetched.value)
  }

  /** The store after a call: rewritten only on Written. */
  function StoreAfter<T>(store: StoreFile<T>, outcome: Outcome<T>): StoreFile<T>
  {
    if outcome.Written? then Table(outcome.contents) else store
  }

  // ---------------------------------------------------------------------
  // The operations
  // ---------------------------------------------------------------------

  /** `download_incremental_data(csv_file, interval, days_back)`: returns the
      windows it requested and how it ended. */
  method DownloadIncremental<T>(store: StoreFile<T>, interval: string, daysBack: int, now: int,
                                fetch: Fetcher<T>)
    returns (requested: seq<Window>, outcome: Outcome<T>)
    ensures requested == Requests(store, interval, daysBack, now)
    ensures outcome == Reconcile(store, interval, daysBack, now, fetch)
  {
    var latest := LatestTimestamp(store);
    var start := FetchStart(latest, daysBack, now);
    var newData: seq<Row<T>>;
    if interval == MINUTE_INTERVAL {
      var allData;
      requested, allData := FetchChunks(start, now, fetch);
      if allData == [] {
        return requested, Failed;
      }
      newData := Flatten(allData);
    } else {
      requested := [Window(start, now)];
      var daily := fetch(start, now);
      if daily.None? {
        // the request raised; the outer handler reports failure
        return requested, Failed;
      }
      newData := daily.value;
    }
    if newData == [] {
      return requested, Failed;
    }
    outcome := ReconcileRows(store, newData);
  }

  /** `update_all_data`: update the minute store (7 days back when empty)
      and the daily store (30 days back), and report whether both succeeded.
      Each update reads the clock itself, so each gets its own reading. */
  method UpdateAllData<T>(minuteStore: StoreFile<T>, dailyStore: StoreFile<T>,
                          minuteNow: int, dailyNow: int,
                          minuteFetch: Fetcher<T>, dailyFetch: Fetcher<T>)
    returns (allOk: bool, minuteAfter: StoreFile<T>, dailyAfter: StoreFile<T>)
    ensures allOk <==>
      Reconcile(minuteStore, MINUTE_INTERVAL, 7, minuteNow, minuteFetch).Succeeded() &&
      Reconcile(dailyStore, "1d", 30, dailyNow, dailyFetch).Succeeded()
    ensures minuteAfter ==
      StoreAfter(minuteStore, Reconcile(minuteStore, MINUTE_INTERVAL, 7, minuteNow, minuteFetch))
    ensures dailyAfter == StoreAfter(dailyStore, Reconcile(dailyStore, "1d", 30, dailyNow, dailyFetch))
  {
    var successCount := 0;
    var _, minute := DownloadIncremental(minuteStore, MINUTE_INTERVAL, 7, minuteNow, minuteFetch);
    if minute.Succeeded() {
      successCount := successCount + 1;
    }
    var _, daily := DownloadIncremental(dailyStore, "1d", 30, dailyNow, dailyFetch);
    if daily.Succeeded() {
      successCount := successCount + 1;
    }
    allOk := successCount == 2;
    minuteAfter := StoreAfter(minuteStore, minute);
    dailyAfter := StoreAfter(dailyStore, daily);
  }

  // ---------------------------------------------------------------------
  // The fetch range
  // ---------------------------------------------------------------------

  /** The fetch starts exactly one hour before the latest stored timestamp,
      or `daysBack` days before now when none exists, and ends at now; minute
      bars are requested in contiguous windows of at most seven days that
      tile that range (none when it is empty), anything else in one request. */
  lemma FetchRange<T>(store: StoreFile<T>, interval: string, daysBack: int, now: int)
    ensures var latest := LatestTimestamp(store);
      var start := if latest.Some? then latest.value - HOUR else now - daysBack * DAY;
      var rs := Requests(store, interval, daysBack, now);
      && (interval == MINUTE_INTERVAL ==> Tiles(rs, start, now) && |rs| == ChunkCount(now - start))
      && (interval != MINUTE_INTERVAL ==> rs == [Window(start, now)])
  {
    if interval == MINUTE_INTERVAL {
      var start := FetchStart(LatestTimestamp(store), daysBack, now);
      WindowsTile(start, now);
      WindowsCount(start, now);
    }
  }

  /** The updater fails exactly when no requested window yields a row: a
      window that raises or comes back empty is skipped, and any other
      window's rows are enough to succeed. */
  lemma FailsIffNothingFetched<T>(store: StoreFile<T>, interval: string, daysBack: int, now: int,
                                  fetch: Fetcher<T>)
    ensures var rs := Requests(store, interval, daysBack, now);
      Reconcile(store, interval, daysBack, now, fetch).Failed? <==>
        forall i :: 0 <= i < |rs| ==> !Yields(fetch, rs[i])
  {
    var start := FetchStart(LatestTimestamp(store), daysBack, now);
    var rs := Requests(store, interval, daysBack, now);
    var fetched := Fetched(store, interval, daysBack, now, fetch);
    if interval == MINUTE_INTERVAL {
      CollectSpec(rs, fetch);
      FlattenSpec(Collect(rs, fetch));
    } else {
      assert rs[0] == Window(start, now);
    }
    if fetched.Some? && fetched.value != [] {
      assert !ReconcileRows(store, fetched.value).Failed?;
    }
  }

  // ---------------------------------------------------------------------
  // What a write puts in the store
  // ---------------------------------------------------------------------

  /** Whatever the store held, what gets written is strictly increasing in
      timestamp, and at least one row is reported added. */
  lemma WrittenIsSeries<T>(store: StoreFile<T>, fetched: seq<Row<T>>)
    requires fetched != []
    ensures ReconcileRows(store, fetched).Written? ==>
      StrictlyIncreasing(ReconcileRows(store, fetched).contents) &&
      ReconcileRows(store, fetched).added >= 1
  {
    var deduped := DedupAndSort(fetched);
    DedupAndSortSpec(fetched);
    var latest := LatestTimestamp(store);
    if latest.Some? {
      var newer := NewerThan(deduped, latest.value);
      if newer != [] {
        MergeSpec(store.rows, newer);
      }
    } else {
      assert fetched[0] in fetched;
      InTsSet(fetched, fetched[0]);
      assert deduped != [];
    }
  }

  lemma {:induction false} TsSetSize<T>(s: seq<Row<T>>)
    requires DistinctTs(s)
    ensures |TsSet(s)| == |s|
  {
    if s != [] {
      HeadBeforeTail(s);
      TsSetSize(s[1..]);
      assert s == [s[0]] + s[1..];
      TsSetCons(s[0], s[1..]);
    }
  }

  /** With no usable store, the whole deduplicated, sorted fetch is written:
      every fetched timestamp once, carried by its first row in fetch order. */
  lemma BootstrapWritesFetch<T>(store: StoreFile<T>, fetched: seq<Row<T>>)
    requires LatestTimestamp(store).None? && fetched != []
    ensures ReconcileRows(store, fetched).Written?
    ensures var c := ReconcileRows(store, fetched).contents;
      && ReconcileRows(store, fetched).added == |c|
      && TsSet(c) == TsSet(fetched)
      && (forall x :: x in c ==> FirstWithTs(fetched, x.ts) == Some(x))
      && multiset(c) <= multiset(fetched)
  {
    DedupAndSortSpec(fetched);
  }

  /** With a stored latest timestamp L, nothing is written exactly when no
      fetched row is strictly newer than L. */
  lemma UpToDateIffNothingNewer<T>(store: StoreFile<T>, fetched: seq<Row<T>>)
    requires LatestTimestamp(store).Some?
    ensures ReconcileRows(store, fetched) == UpToDate <==>
      forall x :: x in fetched ==> x.ts <= LatestTimestamp(store).value
    ensures !ReconcileRows(store, fetched).Failed?
  {
    var latest := LatestTimestamp(store).value;
    var deduped := DedupAndSort(fetched);
    DedupAndSortSpec(fetched);
    NewerThanSpec(deduped, latest);
    if forall x :: x in deduped ==> x.ts <= latest {
      forall x | x in fetched ensures x.ts <= latest {
        InTsSet(fetched, x);
        var y :| y in deduped && y.ts == x.ts;
      }
    } else {
      var y :| y in deduped && y.ts > latest;
      assert y in multiset(fetched);
    }
  }

  /** With a stored latest timestamp L: every row the merge appends is
      strictly newer than L and is the first fetched row with its timestamp;
      every stored timestamp survives, carried by the first stored row with
      it (existing rows win); no row is invented; and `added` counts the
      distinct fetched timestamps newer than L. */
  lemma MergeKeepsExisting<T>(store: StoreFile<T>, fetched: seq<Row<T>>)
    requires LatestTimestamp(store).Some?
    requires ReconcileRows(store, fetched).Written?
    ensures var latest := LatestTimestamp(store).value;
      var c := ReconcileRows(store, fetched).contents;
      && TsSet(store.rows) <= TsSet(c)
      && (forall x :: x in c && x.ts <= latest ==> FirstWithTs(store.rows, x.ts) == Some(x))
      && (forall x :: x in c && x.ts > latest ==> FirstWithTs(fetched, x.ts) == Some(x))
      && (forall x :: x in c ==> x.ts <= latest || x.ts in TsSet(fetched))
      && multiset(c) <= multiset(store.rows) + multiset(fetched)
      && ReconcileRows(store, fetched).added == |TsSet(NewerThan(DedupAndSort(fetched), latest))|
  {
    var latest := LatestTimestamp(store).value;
    var e := store.rows;
    var deduped := DedupAndSort(fetched);
    var newer := NewerThan(deduped, latest);
    var c := Merge(e, newer);
    DedupAndSortSpec(fetched);
    NewerThanSpec(deduped, latest);
    NewerThanStrict(deduped, latest);
    MergeSpec(e, newer);
    StrictIsDistinct(newer);
    TsSetSize(newer);
    forall x | x in c && x.ts > latest
      ensures FirstWithTs(fetched, x.ts) == Some(x)
    {
      assert x.ts !in TsSet(e);
      FirstWithTsSome(newer, x.ts);
      var y := FirstWithTs(newer, x.ts).value;
      assert y in deduped;
    }
    forall x | x in c ensures x.ts <= latest || x.ts in TsSet(fetched) {
      InTsSet(c, x);
      if x.ts !in TsSet(e) {
        var y :| y in newer && y.ts == x.ts;
        InTsSet(deduped, y);
      }
    }
    forall x | x in c && x.ts <= latest
      ensures FirstWithTs(e, x.ts) == Some(x)
    {
      InTsSet(c, x);
    }
    assert multiset(newer) <= multiset(fetched);
  }

  /** Row-count arithmetic: when the stored rows have distinct timestamps,
      the written series is the stored rows (sorted) followed by the new
      rows, so it has |stored| + added rows; when they were already sorted
      they form its prefix unchanged. */
  lemma MergeRowCount<T>(store: StoreFile<T>, fetched: seq<Row<T>>)
    requires LatestTimestamp(store).Some?
    requires DistinctTs(store.rows)
    requires ReconcileRows(store, fetched).Written?
    ensures var c := ReconcileRows(store, fetched).contents;
      && |c| == |store.rows| + ReconcileRows(store, fetched).added
      && c[..|store.rows|] == SortByTs(store.rows)
      && (Ascending(store.rows) ==> c[..|store.rows|] == store.rows)
      && c == SortByTs(store.rows) + NewerThan(DedupAndSort(fetched), LatestTimestamp(store).value)
  {
    var latest := LatestTimestamp(store).value;
    var e := store.rows;
    var deduped := DedupAndSort(fetched);
    var newer := NewerThan(deduped, latest);
    DedupAndSortSpec(fetched);
    NewerThanSpec(deduped, latest);
    NewerThanStrict(deduped, latest);
    assert AllBefore(e, newer);
    MergeAppends(e, newer);
    SortByTsSpec(e);
    var c := Merge(e, newer);
    assert c == SortByTs(e) + newer;
    assert c[..|e|] == SortByTs(e);
  }

  // ---------------------------------------------------------------------
  // Running twice
  // ---------------------------------------------------------------------

  /** Every fetched row was returned by a requested window whose fetch
      yielded rows: the updater invents no rows. */
  lemma FetchedOrigin<T>(store: StoreFile<T>, interval: string, daysBack: int, now: int,
                         fetch: Fetcher<T>)
    requires Fetched(store, interval, daysBack, now, fetch).Some?
    ensures var rs := Requests(store, interval, daysBack, now);
      forall x :: x in Fetched(store, interval, daysBack, now, fetch).value ==>
        exists i :: 0 <= i < |rs| && Yields(fetch, rs[i]) && x in fetch(rs[i].lo, rs[i].hi).value
  {
    var rs := Requests(store, interval, daysBack, now);
    var start := FetchStart(LatestTimestamp(store), daysBack, now);
    if interval == MINUTE_INTERVAL {
      FlattenCollectOrigin(rs, fetch);
    } else {
      assert rs == [Window(start, now)];
      forall x | x in Fetched(store, interval, daysBack, now, fetch).value
        ensures 0 <= 0 < |rs| && Yields(fetch, rs[0]) && x in fetch(rs[0].lo, rs[0].hi).value
      {
      }
    }
  }

  /** The converse of FetchedOrigin: every row of every requested window
      whose fetch yielded rows is among the fetched rows, so a window that
      raises does not keep the other windows' rows out. */
  lemma FetchedComplete<T>(store: StoreFile<T>, interval: string, daysBack: int, now: int,
                           fetch: Fetcher<T>)
    ensures var rs := Requests(store, interval, daysBack, now);
      var fetched := Fetched(store, interval, daysBack, now, fetch);
      forall i :: 0 <= i < |rs| && Yields(fetch, rs[i]) ==>
        fetched.Some? && forall x :: x in fetch(rs[i].lo, rs[i].hi).value ==> x in fetched.value
  {
    var rs := Requests(store, interval, daysBack, now);
    var start := FetchStart(LatestTimestamp(store), daysBack, now);
    if interval == MINUTE_INTERVAL {
      var chunks := Collect(rs, fetch);
      CollectSpec(rs, fetch);
      FlattenSpec(chunks);
      forall i | 0 <= i < |rs| && Yields(fetch, rs[i])
        ensures chunks != [] && fetch(rs[i].lo, rs[i].hi).value in chunks
      {
      }
    } else {
      assert rs == [Window(start, now)];
    }
  }

  /** Nothing newer is lost: when the updater merges into a stored series,
      every fetched timestamp strictly newer than the stored maximum is in
      the written file, whether or not the stored rows are duplicate-free. */
  lemma NewerRowsWritten<T>(store: StoreFile<T>, fetched: seq<Row<T>>)
    requires LatestTimestamp(store).Some?
    requires ReconcileRows(store, fetched).Written?
    ensures var latest := LatestTimestamp(store).value;
      forall x :: x in fetched && x.ts > latest ==> x.ts in TsSet(ReconcileRows(store, fetched).contents)
  {
    var latest := LatestTimestamp(store).value;
    var deduped := DedupAndSort(fetched);
    var newer := NewerThan(deduped, latest);
    DedupAndSortSpec(fetched);
    NewerThanSpec(deduped, latest);
    MergeSpec(store.rows, newer);
    forall x | x in fetched && x.ts > latest
      ensures x.ts in TsSet(ReconcileRows(store, fetched).contents)
    {
      InTsSet(fetched, x);
      var y :| y in deduped && y.ts == x.ts;
      InTsSet(newer, y);
    }
  }

  /** Idempotence: after a run that wrote, a second run whose provider
      returns no row newer than the latest row now stored writes nothing;
      it reports "up to date" when it fetched anything, and fails (without
      writing) otherwise. */
  lemma SecondRunWritesNothing<T>(store: StoreFile<T>, interval: string, daysBack: int, now: int,
                                  fetch: Fetcher<T>,
                                  interval2: string, daysBack2: int, now2: int, fetch2: Fetcher<T>)
    requires Reconcile(store, interval, daysBack, now, fetch).Written?
    requires var c := Reconcile(store, interval, daysBack, now, fetch).contents;
      c != [] &&
      forall lo, hi, x :: fetch2(lo, hi).Some? && x in fetch2(lo, hi).value ==> x.ts <= MaxTs(c)
    ensures var after := StoreAfter(store, Reconcile(store, interval, daysBack, now, fetch));
      var second := Reconcile(after, interval2, daysBack2, now2, fetch2);
      && (second == Failed || second == UpToDate)
      && StoreAfter(after, second) == after
  {
    var c := Reconcile(store, interval, daysBack, now, fetch).contents;
    var after := Table(c);
    var latest := LatestTimestamp(after);
    assert latest == Some(MaxTs(c));
    var fetched2 := Fetched(after, interval2, daysBack2, now2, fetch2);
    if fetched2.Some? && fetched2.value != [] {
      var rows := fetched2.value;
      var rs := Requests(after, interval2, daysBack2, now2);
      FetchedOrigin(after, interval2, daysBack2, now2, fetch2);
      forall x | x in rows ensures x.ts <= latest.value {
        var i :| 0 <= i < |rs| && Yields(fetch2, rs[i]) && x in fetch2(rs[i].lo, rs[i].hi).value;
      }
      UpToDateIffNothingNewer(after, rows);
    }
  }

  /** The boundary case of the one-hour overlap: with a store ending at T,
      fetched rows at T - 30 min, T and T + 15 min append exactly the row at
      T + 15 min. */
  lemma BoundaryOverlap<T>(t: int, stored: T, a: T, b: T, c: T)
    ensures ReconcileRows(Table([Row(t, stored)]), [Row(t - 1800, a), Row(t, b), Row(t + 900, c)])
      == Written([Row(t, stored), Row(t + 900, c)], 1)
  {
    BoundaryReconcile(t, stored, a, b, c);
    BoundaryMerge(t, stored, c);
  }

  lemma BoundaryReconcile<T>(t: int, stored: T, a: T, b: T, c: T)
    ensures ReconcileRows(Table([Row(t, stored)]), [Row(t - 1800, a), Row(t, b), Row(t + 900, c)])
      == Written(Merge([Row(t, stored)], [Row(t + 900, c)]), 1)
  {
    var fetched := [Row(t - 1800, a), Row(t, b), Row(t + 900, c)];
    var e := [Row(t, stored)];
    calc {
      ReconcileRows(Table(e), fetched);
      { BoundaryLatest(t, stored);
        BoundaryFetchSorted(t, a, b, c);
        BoundaryNewer(t, a, b, c);
        ReconcileRowsNewer(Table(e), fetched); }
      Written(Merge(e, NewerThan(DedupAndSort(fetched), t)), |NewerThan(DedupAndSort(fetched), t)|);
      { BoundaryFetchSorted(t, a, b, c);
        BoundaryNewer(t, a, b, c); }
      Written(Merge(e, [Row(t + 900, c)]), 1);
    }
  }

  lemma BoundaryMerge<T>(t: int, stored: T, c: T)
    ensures Merge([Row(t, stored)], [Row(t + 900, c)]) == [Row(t, stored), Row(t + 900, c)]
  {
    var e := [Row(t, stored)];
    var last := [Row(t + 900, c)];
    assert DistinctTs(e) && StrictlyIncreasing(last) && AllBefore(e, last);
    MergeAppends(e, last);
    assert e + last == [Row(t, stored), Row(t + 900, c)];
  }

  lemma BoundaryLatest<T>(t: int, stored: T)
    ensures LatestTimestamp(Table([Row(t, stored)])) == Some(t)
  {
    assert MaxTs([Row(t, stored)]) == t;
  }

  /** With a stored latest timestamp and some strictly newer fetched row,
      the updater writes the merge of the stored rows and the newer rows. */
  lemma ReconcileRowsNewer<T>(store: StoreFile<T>, fetched: seq<Row<T>>)
    requires LatestTimestamp(store).Some?
    requires NewerThan(DedupAndSort(fetched), LatestTimestamp(store).value) != []
    ensures var newer := NewerThan(DedupAndSort(fetched), LatestTimestamp(store).value);
      ReconcileRows(store, fetched) == Written(Merge(store.rows, newer), |newer|)
  {
  }

  lemma BoundaryFetchSorted<T>(t: int, a: T, b: T, c: T)
    ensures var fetched := [Row(t - 1800, a), Row(t, b), Row(t + 900, c)];
      DedupAndSort(fetched) == fetched
  {
    var fetched := [Row(t - 1800, a), Row(t, b), Row(t + 900, c)];
    assert StrictlyIncreasing(fetched);
    StrictIsDistinct(fetched);
    DedupAfterDistinct(fetched, {});
    SortAscendingIsIdentity(fetched);
  }

  lemma BoundaryNewer<T>(t: int, a: T, b: T, c: T)
    ensures NewerThan([Row(t - 1800, a), Row(t, b), Row(t + 900, c)], t) == [Row(t + 900, c)]
  {
    var fetched := [Row(t - 1800, a), Row(t, b), Row(t + 900, c)];
    var last := [Row(t + 900, c)];
    assert fetched[1..] == [Row(t, b)] + last;
    assert ([Row(t, b)] + last)[1..] == last;
    assert last[1..] == [];
    assert NewerThan(last, t) == last;
    assert NewerThan([Row(t, b)] + last, t) == last;
  }
}
