/** Splitting a requested time range into windows the market-data provider
    accepts (at most seven days of minute bars per request), and the loop
    that fetches those windows one after another, skipping any window whose
    fetch raises and any window that comes back empty. */
module Chunking {
  import opened Series

  const HOUR: int := 3600
  const DAY: int := 86400

  /** The longest window requested in one call for minute bars. */
  const MAX_WINDOW: int := 7 * DAY

  /** The half-open interval [lo, hi) of one request, in UTC seconds. */
  datatype Window = Window(lo: int, hi: int)

  /** The provider, seen from the caller: the rows it returns for [lo, hi),
      or None when the request raises. */
  type Fetcher<T> = (int, int) -> Option<seq<Row<T>>>

  function Min(a: int, b: int): int
  {
    if a <= b then a else b
  }

  /** The windows the chunk loop requests for [start, end), in order. */
  function Windows(start: int, end: int): (ws: seq<Window>)
    ensures ws == [] <==> start >= end
    ensures ws != [] ==> ws[0].lo == start && ws[|ws| - 1].hi == end
    decreases end - start
  {
    if start < end then
      var hi := Min(start + MAX_WINDOW, end);
      [Window(start, hi)] + Windows(hi, end)
    else []
  }

  /** The chunks kept by the loop: the rows of every window whose fetch
      succeeded with at least one row, in window order. */
  function Collect<T>(ws: seq<Window>, fetch: Fetcher<T>): (chunks: seq<seq<Row<T>>>)
    ensures |chunks| <= |ws|
    ensures forall c :: c in chunks ==> c != []
  {
    if ws == [] then []
    else Kept(fetch(ws[0].lo, ws[0].hi)) + Collect(ws[1..], fetch)
  }

  /** What one fetch contributes: nothing when it raised or came back empty. */
  function Kept<T>(r: Option<seq<Row<T>>>): seq<seq<Row<T>>>
  {
    if r.Some? && r.value != [] then [r.value] else []
  }

  /** True when fetching `w` succeeds with at least one row. */
  predicate Yields<T>(fetch: Fetcher<T>, w: Window)
  {
    fetch(w.lo, w.hi).Some? && fetch(w.lo, w.hi).value != []
  }

  /** pandas' `concat` of the kept chunks. */
  function Flatten<T>(chunks: seq<seq<Row<T>>>): (rows: seq<Row<T>>)
    ensures chunks != [] ==> chunks[0] <= rows
  {
    if chunks == [] then [] else chunks[0] + Flatten(chunks[1..])
  }

  /** `ws` tiles [start, end): none when the range is empty; otherwise the
      first starts at `start`, the last ends at `end`, each starts where the
      previous one ended, each is non-empty and at most MAX_WINDOW long, and
      all but the last are exactly MAX_WINDOW long. */
  ghost predicate Tiles(ws: seq<Window>, start: int, end: int)
  {
    && (ws == [] <==> start >= end)
    && (ws != [] ==> ws[0].lo == start && ws[|ws| - 1].hi == end)
    && (forall i :: 0 <= i < |ws| ==> ws[i].lo < ws[i].hi <= ws[i].lo + MAX_WINDOW)
    && (forall i :: 0 <= i < |ws| - 1 ==> ws[i].hi == ws[i + 1].lo)
    && (forall i :: 0 <= i < |ws| - 1 ==> ws[i].hi - ws[i].lo == MAX_WINDOW)
  }

  /** The instant `t` lies in the window. */
  predicate Contains(w: Window, t: int)
  {
    w.lo <= t < w.hi
  }

  /** Number of windows needed for a span: the ceiling of span / MAX_WINDOW. */
  function ChunkCount(span: int): nat
  {
    if span <= 0 then 0 else (span + MAX_WINDOW - 1) / MAX_WINDOW
  }

  // ---------------------------------------------------------------------
  // The loop
  // ---------------------------------------------------------------------

  /** `while current_date < end_date`: request [current, min(current + 7
      days, end)), keep the chunk when it succeeded and is non-empty, move
      on to the window's end. Returns the windows requested, in order, and
      the chunks kept. */
  method FetchChunks<T>(start: int, end: int, fetch: Fetcher<T>)
    returns (requested: seq<Window>, allData: seq<seq<Row<T>>>)
    ensures requested == Windows(start, end)
    ensures allData == Collect(requested, fetch)
  {
    requested, allData := [], [];
    var current := start;
    while current < end
      invariant requested + Windows(current, end) == Windows(start, end)
      invariant allData == Collect(requested, fetch)
      decreases end - current
    {
      var chunkEnd := Min(current + MAX_WINDOW, end);
      var chunk := fetch(current, chunkEnd);
      if chunk.Some? && chunk.value != [] {
        allData := allData + [chunk.value];
      }
      var w := Window(current, chunkEnd);
      assert Windows(current, end) == [w] + Windows(chunkEnd, end);
      assert requested + Windows(current, end) == (requested + [w]) + Windows(chunkEnd, end);
      CollectOne(w, fetch);
      CollectAppend(requested, [w], fetch);
      requested := requested + [w];
      current := chunkEnd;
    }
  }

  // ---------------------------------------------------------------------
  // The windows
  // ---------------------------------------------------------------------

  /** The loop terminates having tiled [start, end) exactly. */
  lemma {:induction false} WindowsTile(start: int, end: int)
    ensures Tiles(Windows(start, end), start, end)
    decreases end - start
  {
    if start < end {
      var hi := Min(start + MAX_WINDOW, end);
      WindowsTile(hi, end);
      var ws := Windows(start, end);
      var rest := Windows(hi, end);
      assert ws == [Window(start, hi)] + rest;
      forall i | 0 <= i < |ws| ensures ws[i].lo < ws[i].hi <= ws[i].lo + MAX_WINDOW {
        if i > 0 { assert ws[i] == rest[i - 1]; }
      }
      forall i | 0 <= i < |ws| - 1
        ensures ws[i].hi == ws[i + 1].lo && ws[i].hi - ws[i].lo == MAX_WINDOW
      {
        if i > 0 {
          assert ws[i] == rest[i - 1] && ws[i + 1] == rest[i];
        } else {
          assert rest != [];
        }
      }
    }
  }

  /** Every instant of [start, end) lies in exactly one requested window. */
  lemma {:induction false} WindowsCover(start: int, end: int, t: int)
    requires start <= t < end
    ensures exists i :: 0 <= i < |Windows(start, end)| && Contains(Windows(start, end)[i], t)
    ensures forall i, j ::
      (0 <= i < |Windows(start, end)| && 0 <= j < |Windows(start, end)| &&
       Contains(Windows(start, end)[i], t) && Contains(Windows(start, end)[j], t)) ==> i == j
    decreases end - start
  {
    var ws := Windows(start, end);
    var hi := Min(start + MAX_WINDOW, end);
    var rest := Windows(hi, end);
    assert ws == [Window(start, hi)] + rest;
    // every later window starts at or after `hi`
    WindowsStartAfter(hi, end);
    if t < hi {
      assert Contains(ws[0], t);
    } else {
      WindowsCover(hi, end, t);
      var k :| 0 <= k < |rest| && Contains(rest[k], t);
      assert ws[k + 1] == rest[k];
    }
    forall i, j | 0 <= i < |ws| && 0 <= j < |ws| && Contains(ws[i], t) && Contains(ws[j], t)
      ensures i == j
    {
      if i > 0 { assert ws[i] == rest[i - 1]; }
      if j > 0 { assert ws[j] == rest[j - 1]; }
      if i > 0 && j > 0 {
        WindowsCover(hi, end, t);
      }
    }
  }

  lemma {:induction false} WindowsStartAfter(start: int, end: int)
    ensures forall w :: w in Windows(start, end) ==> start <= w.lo && w.hi <= end
    decreases end - start
  {
    if start < end {
      var hi := Min(start + MAX_WINDOW, end);
      WindowsStartAfter(hi, end);
      assert Windows(start, end) == [Window(start, hi)] + Windows(hi, end);
    }
  }

  /** The number of requests is the ceiling of (end - start) / 7 days. */
  lemma {:induction false} WindowsCount(start: int, end: int)
    ensures |Windows(start, end)| == ChunkCount(end - start)
    decreases end - start
  {
    if start < end {
      var hi := Min(start + MAX_WINDOW, end);
      WindowsCount(hi, end);
      if end - start <= MAX_WINDOW {
        assert hi == end;
        assert (end - start + MAX_WINDOW - 1) / MAX_WINDOW == 1;
      } else {
        var span := end - start;
        assert hi == start + MAX_WINDOW;
        DivStep(span - MAX_WINDOW + MAX_WINDOW - 1);
      }
    }
  }

  lemma DivStep(a: int)
    requires a >= 0
    ensures (a + MAX_WINDOW) / MAX_WINDOW == a / MAX_WINDOW + 1
  {
  }

  // ---------------------------------------------------------------------
  // The kept chunks
  // ---------------------------------------------------------------------

  lemma CollectOne<T>(w: Window, fetch: Fetcher<T>)
    ensures Collect([w], fetch) == Kept(fetch(w.lo, w.hi))
  {
    assert [w][1..] == [];
  }

  lemma {:induction false} CollectAppend<T>(a: seq<Window>, b: seq<Window>, fetch: Fetcher<T>)
    ensures Collect(a + b, fetch) == Collect(a, fetch) + Collect(b, fetch)
  {
    if a == [] {
      assert a + b == b;
    } else {
      assert (a + b)[0] == a[0];
      assert (a + b)[1..] == a[1..] + b;
      CollectAppend(a[1..], b, fetch);
    }
  }

  /** The kept chunks are exactly the non-empty results of the windows that
      succeeded: no kept chunk is empty, every window that yielded rows
      contributes them, and nothing is kept iff no window yielded rows. */
  lemma {:induction false} CollectSpec<T>(ws: seq<Window>, fetch: Fetcher<T>)
    ensures forall c :: c in Collect(ws, fetch) ==> c != []
    ensures forall c :: c in Collect(ws, fetch) ==>
      exists i :: 0 <= i < |ws| && fetch(ws[i].lo, ws[i].hi) == Some(c)
    ensures forall i :: 0 <= i < |ws| && Yields(fetch, ws[i]) ==>
      fetch(ws[i].lo, ws[i].hi).value in Collect(ws, fetch)
    ensures Collect(ws, fetch) == [] <==> forall i :: 0 <= i < |ws| ==> !Yields(fetch, ws[i])
  {
    if ws != [] {
      CollectSpec(ws[1..], fetch);
      var rest := Collect(ws[1..], fetch);
      var k := Kept(fetch(ws[0].lo, ws[0].hi));
      assert Collect(ws, fetch) == k + rest;
      forall c | c in Collect(ws, fetch)
        ensures exists i :: 0 <= i < |ws| && fetch(ws[i].lo, ws[i].hi) == Some(c)
      {
        if c in k {
          assert fetch(ws[0].lo, ws[0].hi) == Some(c);
        } else {
          assert c in rest;
          var i :| 0 <= i < |ws[1..]| && fetch(ws[1..][i].lo, ws[1..][i].hi) == Some(c);
          assert ws[1..][i] == ws[i + 1];
        }
      }
      forall i | 0 <= i < |ws| && Yields(fetch, ws[i])
        ensures fetch(ws[i].lo, ws[i].hi).value in Collect(ws, fetch)
      {
        if i > 0 { assert ws[1..][i - 1] == ws[i]; }
      }
      if Collect(ws, fetch) == [] {
        forall i | 0 <= i < |ws| ensures !Yields(fetch, ws[i]) {
          if i > 0 { assert ws[1..][i - 1] == ws[i]; }
        }
      }
    }
  }

  /** A fetch that raises costs only its own window: if one window's fetch
      fails instead, the loop still keeps exactly what every other window
      yielded, in order. */
  lemma {:induction false} FailureIsolation<T>(ws: seq<Window>, fetch: Fetcher<T>, failing: Fetcher<T>, k: int)
    requires 0 <= k < |ws|
    requires failing(ws[k].lo, ws[k].hi) == None
    requires forall i :: 0 <= i < |ws| && i != k ==>
      failing(ws[i].lo, ws[i].hi) == fetch(ws[i].lo, ws[i].hi)
    ensures Collect(ws, failing) == Collect(ws[..k], fetch) + Collect(ws[k + 1..], fetch)
  {
    var rest := ws[1..];
    if k == 0 {
      forall i | 0 <= i < |rest|
        ensures failing(rest[i].lo, rest[i].hi) == fetch(rest[i].lo, rest[i].hi)
      {
        assert rest[i] == ws[i + 1];
      }
      CollectAgree(rest, failing, fetch);
      assert ws[..0] == [];
      assert ws[1..] == rest;
    } else {
      forall i | 0 <= i < |rest| && i != k - 1
        ensures failing(rest[i].lo, rest[i].hi) == fetch(rest[i].lo, rest[i].hi)
      {
        assert rest[i] == ws[i + 1];
      }
      assert rest[k - 1] == ws[k];
      FailureIsolation(rest, fetch, failing, k - 1);
      assert rest[k..] == ws[k + 1..];
      assert rest[..k - 1] == ws[..k][1..];
      assert ws[..k][0] == ws[0];
      assert failing(ws[0].lo, ws[0].hi) == fetch(ws[0].lo, ws[0].hi);
    }
  }

  lemma {:induction false} CollectAgree<T>(ws: seq<Window>, f: Fetcher<T>, g: Fetcher<T>)
    requires forall i :: 0 <= i < |ws| ==> f(ws[i].lo, ws[i].hi) == g(ws[i].lo, ws[i].hi)
    ensures Collect(ws, f) == Collect(ws, g)
  {
    if ws != [] {
      forall i | 0 <= i < |ws[1..]| ensures f(ws[1..][i].lo, ws[1..][i].hi) == g(ws[1..][i].lo, ws[1..][i].hi) {
        assert ws[1..][i] == ws[i + 1];
      }
      CollectAgree(ws[1..], f, g);
    }
  }

  /** Concatenating chunks: every row comes from some chunk, and the rows are
      exactly the chunks' rows. */
  lemma {:induction false} FlattenSpec<T>(chunks: seq<seq<Row<T>>>)
    ensures chunks != [] && chunks[0] != [] ==> Flatten(chunks) != []
    ensures (forall c :: c in chunks ==> c != []) ==> (Flatten(chunks) == [] <==> chunks == [])
    ensures forall x :: x in Flatten(chunks) ==> exists c :: c in chunks && x in c
    ensures forall x, c :: c in chunks && x in c ==> x in Flatten(chunks)
  {
    if chunks != [] {
      FlattenSpec(chunks[1..]);
      assert Flatten(chunks) == chunks[0] + Flatten(chunks[1..]);
      assert forall c :: c in chunks <==> c == chunks[0] || c in chunks[1..];
      if forall c :: c in chunks ==> c != [] {
        assert chunks[0] in chunks;
      }
    }
  }

  /** Combining the kept chunks and removing duplicates: the result is
      strictly increasing, keeps for each timestamp the first row in
      concatenation order, and holds only rows some requested window
      actually returned. */
  lemma CombinedChunksSpec<T>(ws: seq<Window>, fetch: Fetcher<T>)
    ensures StrictlyIncreasing(DedupAndSort(Flatten(Collect(ws, fetch))))
    ensures forall x :: x in DedupAndSort(Flatten(Collect(ws, fetch))) ==>
      FirstWithTs(Flatten(Collect(ws, fetch)), x.ts) == Some(x)
    ensures forall x :: x in DedupAndSort(Flatten(Collect(ws, fetch))) ==>
      exists i :: 0 <= i < |ws| && Yields(fetch, ws[i]) && x in fetch(ws[i].lo, ws[i].hi).value
    ensures multiset(DedupAndSort(Flatten(Collect(ws, fetch)))) <= multiset(Flatten(Collect(ws, fetch)))
  {
    var chunks := Collect(ws, fetch);
    var rows := Flatten(chunks);
    DedupAndSortSpec(rows);
    FlattenSpec(chunks);
    CollectSpec(ws, fetch);
    FlattenCollectOrigin(ws, fetch);
    forall x | x in DedupAndSort(rows)
      ensures x in rows
    {
      assert x in multiset(DedupAndSort(rows));
    }
  }

  /** Every row of the combined chunks was returned by a requested window
      whose fetch yielded rows. */
  lemma FlattenCollectOrigin<T>(ws: seq<Window>, fetch: Fetcher<T>)
    ensures forall x :: x in Flatten(Collect(ws, fetch)) ==>
      exists i :: 0 <= i < |ws| && Yields(fetch, ws[i]) && x in fetch(ws[i].lo, ws[i].hi).value
  {
    var chunks := Collect(ws, fetch);
    FlattenSpec(chunks);
    CollectSpec(ws, fetch);
    forall x | x in Flatten(chunks)
      ensures exists i :: 0 <= i < |ws| && Yields(fetch, ws[i]) && x in fetch(ws[i].lo, ws[i].hi).value
    {
      var c :| c in chunks && x in c;
      var i :| 0 <= i < |ws| && fetch(ws[i].lo, ws[i].hi) == Some(c);
      assert Yields(fetch, ws[i]);
    }
  }
}
