/** The enhanced downloader: minute bars for the last `days` days fetched in
    7-day windows and deduplicated, daily bars for the last `days` days in a
    single request, each row tagged with its resolution, and a save step
    that writes only non-empty data. */
module DownloadExtended {
  import opened Series
  import opened Chunking

  const MINUTE_TAG: string := "minute"
  const DAILY_TAG: string := "daily"

  /** A bar with the `data_type` column added. */
  datatype Tagged<T> = Tagged(bar: T, dataType: string)

  /** `df['data_type'] = tag`: every row keeps its timestamp and bar and gets
      the tag. */
  function TagRows<T>(rows: seq<Row<T>>, tag: string): (tagged: seq<Row<Tagged<T>>>)
    ensures |tagged| == |rows|
    ensures forall i :: 0 <= i < |rows| ==>
      tagged[i].ts == rows[i].ts && tagged[i].payload == Tagged(rows[i].payload, tag)
    ensures forall x :: x in tagged ==> x.payload.dataType == tag
  {
    if rows == [] then []
    else [Row(rows[0].ts, Tagged(rows[0].payload, tag))] + TagRows(rows[1..], tag)
  }

  /** `download_minute_data(days)`: the windows requested, and the tagged
      rows, or None when no window yielded anything. */
  method DownloadMinuteData<T>(days: int, now: int, fetch: Fetcher<T>)
    returns (requested: seq<Window>, minuteData: Option<seq<Row<Tagged<T>>>>)
    ensures requested == Windows(now - days * DAY, now)
    ensures minuteData.Some? <==> exists i :: 0 <= i < |requested| && Yields(fetch, requested[i])
    ensures minuteData.Some? ==>
      minuteData.value == TagRows(DedupAndSort(Flatten(Collect(requested, fetch))), MINUTE_TAG)
  {
    var endDate := now;
    var startDate := endDate - days * DAY;
    var allData;
    requested, allData := FetchChunks(startDate, endDate, fetch);
    assert allData == [] <==> !exists i :: 0 <= i < |requested| && Yields(fetch, requested[i]) by {
      CollectSpec(requested, fetch);
    }
    if allData == [] {
      return requested, None;
    }
    var rows := DedupAndSort(Flatten(allData));
    minuteData := Some(TagRows(rows, MINUTE_TAG));
  }

  /** `download_daily_data(days)`: one request for [now - days, now); the
      rows as returned, tagged, or None when it raised or came back empty. */
  function DownloadDailyData<T>(days: int, now: int, fetch: Fetcher<T>)
    : (dailyData: Option<seq<Row<Tagged<T>>>>)
    ensures dailyData.Some? <==> Yields(fetch, Window(now - days * DAY, now))
    ensures dailyData.Some? ==>
      var rows := fetch(now - days * DAY, now).value;
      |dailyData.value| == |rows| &&
      forall i :: 0 <= i < |rows| ==>
        dailyData.value[i] == Row(rows[i].ts, Tagged(rows[i].payload, DAILY_TAG))
  {
    var fetched := fetch(now - days * DAY, now);
    if fetched.Some? && fetched.value != [] then Some(TagRows(fetched.value, DAILY_TAG))
    else None
  }

  /** `save_data(data, filename, data_dir)`: whether it wrote, and what. */
  function SaveData<X>(data: Option<seq<X>>): (result: (bool, Option<seq<X>>))
    ensures result.0 <==> data.Some? && data.value != []
    ensures result.0 ==> result.1 == data
    ensures !result.0 ==> result.1 == None
  {
    if data.Some? && data.value != [] then (true, data) else (false, None)
  }

  /** Tagging keeps the timestamps, so it keeps a series strictly increasing. */
  lemma TagKeepsOrder<T>(rows: seq<Row<T>>, tag: string)
    requires StrictlyIncreasing(rows)
    ensures StrictlyIncreasing(TagRows(rows, tag))
  {
  }

  /** When some requested window yielded rows, the minute result is
      strictly increasing, every row is tagged "minute", and it is not
      empty: so saving it always writes. */
  lemma MinuteDataSpec<T>(ws: seq<Window>, fetch: Fetcher<T>)
    requires exists i :: 0 <= i < |ws| && Yields(fetch, ws[i])
    ensures var tagged := TagRows(DedupAndSort(Flatten(Collect(ws, fetch))), MINUTE_TAG);
      && StrictlyIncreasing(tagged)
      && (forall x :: x in tagged ==> x.payload.dataType == MINUTE_TAG)
      && tagged != []
      && SaveData(Some(tagged)).0
  {
    var rows := DedupAndSort(Flatten(Collect(ws, fetch)));
    CombinedNonEmpty(ws, fetch);
    TagKeepsOrder(rows, MINUTE_TAG);
  }

  /** Some window yielded rows, so the combined minute rows are not empty. */
  lemma CombinedNonEmpty<T>(ws: seq<Window>, fetch: Fetcher<T>)
    requires exists i :: 0 <= i < |ws| && Yields(fetch, ws[i])
    ensures DedupAndSort(Flatten(Collect(ws, fetch))) != []
  {
    var chunks := Collect(ws, fetch);
    var flat := Flatten(chunks);
    assert flat != [] by {
      CollectSpec(ws, fetch);
      FlattenSpec(chunks);
    }
    InTsSet(flat, flat[0]);
  }

  /** The default minute range of 30 days is tiled by five windows. */
  lemma MinuteRange(now: int)
    ensures Tiles(Windows(now - 30 * DAY, now), now - 30 * DAY, now)
    ensures |Windows(now - 30 * DAY, now)| == 5
  {
    WindowsTile(now - 30 * DAY, now);
    WindowsCount(now - 30 * DAY, now);
  }
}
