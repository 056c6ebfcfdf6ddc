/** The one-shot downloader: fetch the last 90 days of minute bars in 7-day
    windows, skipping windows that fail, and save the combined,
    deduplicated, sorted rows; fail without writing when no window
    yielded anything. */
module DownloadBtc {
  import opened Series
  import opened Chunking

  /** The range downloaded, in days before now. */
  const LOOKBACK_DAYS: int := 90

  /** `download_btc_data()`: the windows requested, whether it succeeded, and
      the rows written to the output file (None when nothing is written). */
  method DownloadBtcData<T>(now: int, fetch: Fetcher<T>)
    returns (requested: seq<Window>, ok: bool, written: Option<seq<Row<T>>>)
    ensures requested == Windows(now - LOOKBACK_DAYS * DAY, now)
    ensures ok <==> exists i :: 0 <= i < |requested| && Yields(fetch, requested[i])
    ensures ok <==> written.Some?
    ensures written.Some? ==> written.value == DedupAndSort(Flatten(Collect(requested, fetch)))
  {
    var endDate := now;
    var startDate := endDate - LOOKBACK_DAYS * DAY;
    var allData;
    requested, allData := FetchChunks(startDate, endDate, fetch);
    assert allData == [] <==> !exists i :: 0 <= i < |requested| && Yields(fetch, requested[i]) by {
      CollectSpec(requested, fetch);
    }
    if allData == [] {
      return requested, false, None;
    }
    var btcData := DedupAndSort(Flatten(allData));
    ok, written := true, Some(btcData);
  }

  /** The requested range is [now - 90 days, now), covered by thirteen
      contiguous windows of at most seven days. */
  lemma BtcRange(now: int)
    ensures Tiles(Windows(now - LOOKBACK_DAYS * DAY, now), now - LOOKBACK_DAYS * DAY, now)
    ensures |Windows(now - LOOKBACK_DAYS * DAY, now)| == 13
  {
    WindowsTile(now - LOOKBACK_DAYS * DAY, now);
    WindowsCount(now - LOOKBACK_DAYS * DAY, now);
  }
}
