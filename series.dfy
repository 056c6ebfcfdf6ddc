/** Rows of a BTC/USD price series keyed by their timestamp, and the pure
    row-level steps every downloader applies to them: drop duplicate
    timestamps keeping the first row, sort ascending, keep only rows newer
    than a low-water mark, merge a stored series with newer rows, and take
    the latest stored timestamp. */
module Series {

  datatype Option<+T> = None | Some(value: T)

  /** One bar: its instant in UTC seconds, and the rest of the bar (OHLCV and
      whatever columns ride along) as an opaque payload. */
  datatype Row<T> = Row(ts: int, payload: T)

  /** The timestamps present in a sequence of rows. */
  ghost function TsSet<T>(s: seq<Row<T>>): set<int>
  {
    set r | r in s :: r.ts
  }

  ghost predicate DistinctTs<T>(s: seq<Row<T>>)
  {
    forall i, j :: 0 <= i < j < |s| ==> s[i].ts != s[j].ts
  }

  /** The series invariant: timestamps strictly increase, so none repeats. */
  ghost predicate StrictlyIncreasing<T>(s: seq<Row<T>>)
  {
    forall i, j :: 0 <= i < j < |s| ==> s[i].ts < s[j].ts
  }

  ghost predicate Ascending<T>(s: seq<Row<T>>)
  {
    forall i, j :: 0 <= i < j < |s| ==> s[i].ts <= s[j].ts
  }

  /** Every row of `a` is strictly older than every row of `b`. */
  ghost predicate AllBefore<T>(a: seq<Row<T>>, b: seq<Row<T>>)
  {
    forall x, y :: x in a && y in b ==> x.ts < y.ts
  }

  /** The first row of `s`, in sequence order, whose timestamp is `t`. */
  ghost function FirstWithTs<T>(s: seq<Row<T>>, t: int): Option<Row<T>>
  {
    if s == [] then None
    else if s[0].ts == t then Some(s[0])
    else FirstWithTs(s[1..], t)
  }

  // ---------------------------------------------------------------------
  // Dropping duplicate timestamps, keeping the first occurrence
  // ---------------------------------------------------------------------

  /** Drops every row whose timestamp is in `seen` or occurred earlier in `s`. */
  function DedupAfter<T>(s: seq<Row<T>>, seen: set<int>): seq<Row<T>>
  {
    if s == [] then []
    else if s[0].ts in seen then DedupAfter(s[1..], seen)
    else [s[0]] + DedupAfter(s[1..], seen + {s[0].ts})
  }

  /** pandas' `df[~df.index.duplicated(keep='first')]` and
      `drop_duplicates(subset=['timestamp'], keep='first')`. */
  function DedupFirst<T>(s: seq<Row<T>>): (r: seq<Row<T>>)
    ensures DistinctTs(r)
    ensures TsSet(r) == TsSet(s)
  {
    DedupAfterSpec(s, {});
    DedupAfter(s, {})
  }

  // ---------------------------------------------------------------------
  // Sorting by timestamp
  // ---------------------------------------------------------------------

  function Insert<T>(x: Row<T>, s: seq<Row<T>>): seq<Row<T>>
  {
    if s == [] then [x]
    else if x.ts <= s[0].ts then [x] + s
    else [s[0]] + Insert(x, s[1..])
  }

  /** pandas' `sort_index()` / `sort_values('timestamp')`. Every caller sorts
      rows whose timestamps are already distinct, so which sorting algorithm
      is used does not matter (see SortedPermutationUnique). */
  function SortByTs<T>(s: seq<Row<T>>): (r: seq<Row<T>>)
    ensures multiset(r) == multiset(s)
  {
    if s == [] then []
    else
      var rest := SortByTs(s[1..]);
      InsertMultiset(s[0], rest);
      assert s == [s[0]] + s[1..];
      Insert(s[0], rest)
  }

  /** The "remove duplicates and sort" step applied to freshly fetched rows. */
  function DedupAndSort<T>(s: seq<Row<T>>): (r: seq<Row<T>>)
    ensures StrictlyIncreasing(r)
    ensures TsSet(r) == TsSet(s)
  {
    SortByTsSpec(DedupFirst(s));
    SortByTs(DedupFirst(s))
  }

  /** `new_data[new_data['timestamp'] > latest_date]`: the strict filter. */
  function NewerThan<T>(s: seq<Row<T>>, latest: int): (r: seq<Row<T>>)
    ensures forall x :: x in r ==> x in s && x.ts > latest
  {
    if s == [] then []
    else (if s[0].ts > latest then [s[0]] else []) + NewerThan(s[1..], latest)
  }

  /** Existing rows followed by newer rows, duplicate timestamps dropped
      keeping the first (so an existing row wins), then sorted. */
  function Merge<T>(existing: seq<Row<T>>, newer: seq<Row<T>>): (r: seq<Row<T>>)
    ensures StrictlyIncreasing(r)
    ensures TsSet(r) == TsSet(existing) + TsSet(newer)
  {
    TsSetAppend(existing, newer);
    DedupAndSort(existing + newer)
  }

  /** The latest timestamp of a non-empty sequence of rows. */
  function MaxTs<T>(s: seq<Row<T>>): (m: int)
    requires s != []
    ensures m in TsSet(s)
    ensures forall r :: r in s ==> r.ts <= m
  {
    if |s| == 1 then s[0].ts
    else
      var rest := MaxTs(s[1..]);
      assert forall r :: r in s[1..] ==> r in s;
      assert s[1] in s[1..];
      if s[0].ts >= rest then s[0].ts else rest
  }

  // ---------------------------------------------------------------------
  // Small facts used throughout
  // ---------------------------------------------------------------------

  lemma InTsSet<T>(s: seq<Row<T>>, x: Row<T>)
    requires x in s
    ensures x.ts in TsSet(s)
  {
  }

  lemma {:induction false} FirstWithTsSome<T>(s: seq<Row<T>>, t: int)
    ensures FirstWithTs(s, t).Some? <==> t in TsSet(s)
    ensures FirstWithTs(s, t).Some? ==>
      FirstWithTs(s, t).value in s && FirstWithTs(s, t).value.ts == t
  {
    if s != [] {
      FirstWithTsSome(s[1..], t);
      assert TsSet(s) == {s[0].ts} + TsSet(s[1..]) by {
        assert forall r :: r in s <==> r == s[0] || r in s[1..];
      }
    }
  }

  /** Looking a timestamp up in `a + b` finds it in `a` when `a` has it. */
  lemma {:induction false} FirstWithTsAppend<T>(a: seq<Row<T>>, b: seq<Row<T>>, t: int)
    ensures t in TsSet(a) ==> FirstWithTs(a + b, t) == FirstWithTs(a, t)
    ensures t !in TsSet(a) ==> FirstWithTs(a + b, t) == FirstWithTs(b, t)
  {
    if a == [] {
      assert a + b == b;
    } else {
      assert (a + b)[1..] == a[1..] + b;
      FirstWithTsAppend(a[1..], b, t);
      assert TsSet(a) == {a[0].ts} + TsSet(a[1..]) by {
        assert forall r :: r in a <==> r == a[0] || r in a[1..];
      }
    }
  }

  lemma DistinctCons<T>(x: Row<T>, s: seq<Row<T>>)
    requires DistinctTs(s) && x.ts !in TsSet(s)
    ensures DistinctTs([x] + s)
  {
    forall i, j | 0 <= i < j < |[x] + s|
      ensures ([x] + s)[i].ts != ([x] + s)[j].ts
    {
      if i == 0 {
        assert ([x] + s)[j] == s[j - 1];
        InTsSet(s, s[j - 1]);
      }
    }
  }

  lemma StrictCons<T>(x: Row<T>, s: seq<Row<T>>)
    requires StrictlyIncreasing(s)
    requires forall y :: y in s ==> x.ts < y.ts
    ensures StrictlyIncreasing([x] + s)
  {
    forall i, j | 0 <= i < j < |[x] + s|
      ensures ([x] + s)[i].ts < ([x] + s)[j].ts
    {
      if i == 0 {
        assert ([x] + s)[j] == s[j - 1];
      }
    }
  }

  lemma AscCons<T>(x: Row<T>, s: seq<Row<T>>)
    requires Ascending(s)
    requires forall y :: y in s ==> x.ts <= y.ts
    ensures Ascending([x] + s)
  {
    forall i, j | 0 <= i < j < |[x] + s|
      ensures ([x] + s)[i].ts <= ([x] + s)[j].ts
    {
      if i == 0 {
        assert ([x] + s)[j] == s[j - 1];
      }
    }
  }

  lemma StrictIsDistinct<T>(s: seq<Row<T>>)
    requires StrictlyIncreasing(s)
    ensures DistinctTs(s) && Ascending(s)
  {
  }

  // ---------------------------------------------------------------------
  // What DedupFirst guarantees
  // ---------------------------------------------------------------------

  lemma {:induction false} DedupAfterSpec<T>(s: seq<Row<T>>, seen: set<int>)
    ensures TsSet(DedupAfter(s, seen)) == TsSet(s) - seen
    ensures DistinctTs(DedupAfter(s, seen))
    ensures multiset(DedupAfter(s, seen)) <= multiset(s)
    ensures forall x :: x in DedupAfter(s, seen) ==> FirstWithTs(s, x.ts) == Some(x)
  {
    if s != [] {
      var x, rest := s[0], s[1..];
      assert s == [x] + rest;
      assert TsSet(s) == {x.ts} + TsSet(rest) by {
        assert forall r :: r in s <==> r == x || r in rest;
      }
      if x.ts in seen {
        DedupAfterSpec(rest, seen);
        var r := DedupAfter(rest, seen);
        forall y | y in r ensures FirstWithTs(s, y.ts) == Some(y) {
          InTsSet(r, y);
        }
      } else {
        DedupAfterSpec(rest, seen + {x.ts});
        var r := DedupAfter(rest, seen + {x.ts});
        DistinctCons(x, r);
        assert TsSet([x] + r) == {x.ts} + TsSet(r) by {
          assert forall z :: z in [x] + r <==> z == x || z in r;
        }
        forall y | y in [x] + r ensures FirstWithTs(s, y.ts) == Some(y) {
          if y != x {
            assert y in r;
            InTsSet(r, y);
          }
        }
      }
    }
  }

  /** A sequence that already has distinct timestamps, none of them in
      `seen`, passes through DedupAfter unchanged. */
  lemma {:induction false} DedupAfterDistinct<T>(s: seq<Row<T>>, seen: set<int>)
    requires DistinctTs(s) && TsSet(s) !! seen
    ensures DedupAfter(s, seen) == s
  {
    if s != [] {
      assert s[0] in s;
      assert s[0].ts !in seen;
      assert TsSet(s[1..]) !! seen + {s[0].ts} by {
        forall y | y in s[1..] ensures y.ts != s[0].ts && y.ts !in seen {
          var j :| 0 <= j < |s[1..]| && s[1..][j] == y;
          assert s[j + 1] == y;
          assert y in s;
        }
      }
      DedupAfterDistinct(s[1..], seen + {s[0].ts});
    }
  }

  // ---------------------------------------------------------------------
  // What SortByTs guarantees
  // ---------------------------------------------------------------------

  lemma TsSetAppend<T>(a: seq<Row<T>>, b: seq<Row<T>>)
    ensures TsSet(a + b) == TsSet(a) + TsSet(b)
  {
    assert forall z :: z in a + b <==> z in a || z in b;
  }

  lemma TsSetCons<T>(x: Row<T>, s: seq<Row<T>>)
    ensures TsSet([x] + s) == {x.ts} + TsSet(s)
  {
    assert forall z :: z in [x] + s <==> z == x || z in s;
  }

  lemma HeadBeforeTail<T>(s: seq<Row<T>>)
    requires s != []
    ensures Ascending(s) ==> Ascending(s[1..]) && forall y :: y in s[1..] ==> s[0].ts <= y.ts
    ensures StrictlyIncreasing(s) ==>
      StrictlyIncreasing(s[1..]) && forall y :: y in s[1..] ==> s[0].ts < y.ts
    ensures DistinctTs(s) ==> DistinctTs(s[1..]) && s[0].ts !in TsSet(s[1..])
  {
    var rest := s[1..];
    forall i, j | 0 <= i < j < |rest|
      ensures rest[i] == s[i + 1] && rest[j] == s[j + 1]
    {
    }
    forall y | y in rest ensures exists k :: 1 <= k < |s| && s[k] == y {
      var k :| 0 <= k < |rest| && rest[k] == y;
      assert s[k + 1] == y;
    }
  }

  lemma {:induction false} InsertMultiset<T>(x: Row<T>, s: seq<Row<T>>)
    ensures multiset(Insert(x, s)) == multiset(s) + multiset{x}
    ensures TsSet(Insert(x, s)) == TsSet(s) + {x.ts}
  {
    if s == [] {
    } else if x.ts <= s[0].ts {
      TsSetCons(x, s);
    } else {
      assert s == [s[0]] + s[1..];
      InsertMultiset(x, s[1..]);
      TsSetCons(s[0], s[1..]);
      TsSetCons(s[0], Insert(x, s[1..]));
    }
  }

  lemma {:induction false} InsertAscending<T>(x: Row<T>, s: seq<Row<T>>)
    requires Ascending(s)
    ensures Ascending(Insert(x, s))
  {
    if s != [] && x.ts > s[0].ts {
      var y, rest := s[0], s[1..];
      HeadBeforeTail(s);
      InsertAscending(x, rest);
      InsertMultiset(x, rest);
      var ins := Insert(x, rest);
      forall z | z in ins ensures y.ts <= z.ts {
        assert z in multiset(ins);
      }
      AscCons(y, ins);
    }
  }

  lemma {:induction false} InsertStrict<T>(x: Row<T>, s: seq<Row<T>>)
    requires StrictlyIncreasing(s) && x.ts !in TsSet(s)
    ensures StrictlyIncreasing(Insert(x, s))
  {
    if s == [] {
    } else if x.ts <= s[0].ts {
      InTsSet(s, s[0]);
      StrictCons(x, s);
    } else {
      var y, rest := s[0], s[1..];
      HeadBeforeTail(s);
      TsSetCons(y, rest);
      assert s == [y] + rest;
      InsertStrict(x, rest);
      InsertMultiset(x, rest);
      var ins := Insert(x, rest);
      forall z | z in ins ensures y.ts < z.ts {
        assert z in multiset(ins);
      }
      StrictCons(y, ins);
    }
  }

  /** SortByTs is a permutation, sorted, and strictly increasing when its
      input has no duplicate timestamp. */
  lemma {:induction false} SortByTsSpec<T>(s: seq<Row<T>>)
    ensures multiset(SortByTs(s)) == multiset(s)
    ensures |SortByTs(s)| == |s|
    ensures TsSet(SortByTs(s)) == TsSet(s)
    ensures Ascending(SortByTs(s))
    ensures DistinctTs(s) ==> StrictlyIncreasing(SortByTs(s))
  {
    if s != [] {
      var x, rest := s[0], s[1..];
      assert s == [x] + rest;
      SortByTsSpec(rest);
      InsertMultiset(x, SortByTs(rest));
      InsertAscending(x, SortByTs(rest));
      TsSetCons(x, rest);
      assert |SortByTs(s)| == |multiset(SortByTs(s))|;
      if DistinctTs(s) {
        HeadBeforeTail(s);
        InsertStrict(x, SortByTs(rest));
      }
    }
  }

  /** Inserting below the head of an ascending tail leaves the tail alone. */
  lemma {:induction false} InsertAppend<T>(x: Row<T>, p: seq<Row<T>>, f: seq<Row<T>>)
    requires f != [] ==> x.ts <= f[0].ts
    ensures Insert(x, p + f) == Insert(x, p) + f
  {
    if p == [] {
      assert p + f == f;
    } else {
      assert (p + f)[0] == p[0];
      assert (p + f)[1..] == p[1..] + f;
      if x.ts > p[0].ts {
        InsertAppend(x, p[1..], f);
      }
    }
  }

  /** Sorting an already ascending sequence changes nothing. */
  lemma {:induction false} SortAscendingIsIdentity<T>(s: seq<Row<T>>)
    requires Ascending(s)
    ensures SortByTs(s) == s
  {
    if s != [] {
      SortAscendingIsIdentity(s[1..]);
    }
  }

  /** Sorting `a + f`, where `f` is ascending and strictly newer than all
      of `a`, sorts `a` and leaves `f` at the end. */
  lemma {:induction false} SortAppendNewer<T>(a: seq<Row<T>>, f: seq<Row<T>>)
    requires Ascending(f) && AllBefore(a, f)
    ensures SortByTs(a + f) == SortByTs(a) + f
  {
    if a == [] {
      assert a + f == f;
      SortAscendingIsIdentity(f);
    } else {
      assert (a + f)[0] == a[0];
      assert (a + f)[1..] == a[1..] + f;
      assert a[0] in a;
      if f != [] { assert f[0] in f; }
      SortAppendNewer(a[1..], f);
      InsertAppend(a[0], SortByTs(a[1..]), f);
    }
  }

  /** Two strictly increasing sequences holding the same rows are equal: so
      any sorting algorithm (pandas' default one is not stable) gives the
      same result as SortByTs on rows with distinct timestamps. */
  lemma {:induction false} SortedPermutationUnique<T>(a: seq<Row<T>>, b: seq<Row<T>>)
    requires StrictlyIncreasing(a) && StrictlyIncreasing(b)
    requires multiset(a) == multiset(b)
    ensures a == b
  {
    if a != [] {
      assert |a| == |multiset(a)| == |b|;
      SameHead(a, b);
      assert a == [a[0]] + a[1..] && b == [b[0]] + b[1..];
      assert multiset(a[1..]) == multiset(a) - multiset{a[0]};
      assert multiset(b[1..]) == multiset(b) - multiset{b[0]};
      HeadBeforeTail(a);
      HeadBeforeTail(b);
      SortedPermutationUnique(a[1..], b[1..]);
    }
  }

  /** Two strictly increasing sequences holding the same rows start alike. */
  lemma SameHead<T>(a: seq<Row<T>>, b: seq<Row<T>>)
    requires StrictlyIncreasing(a) && StrictlyIncreasing(b)
    requires multiset(a) == multiset(b) && a != [] && b != []
    ensures a[0] == b[0]
  {
    assert a[0] in multiset(b) && b[0] in multiset(a);
    var i :| 0 <= i < |b| && b[i] == a[0];
    var j :| 0 <= j < |a| && a[j] == b[0];
    assert a[0].ts <= b[0].ts && b[0].ts <= a[0].ts;
  }

  // ---------------------------------------------------------------------
  // Dedup-and-sort, the filter, and the merge
  // ---------------------------------------------------------------------

  /** After "remove duplicates and sort", timestamps strictly increase, every
      fetched timestamp is still present, the kept row for each timestamp is
      its first occurrence in fetch order, and no row is invented. */
  lemma DedupAndSortSpec<T>(s: seq<Row<T>>)
    ensures StrictlyIncreasing(DedupAndSort(s))
    ensures TsSet(DedupAndSort(s)) == TsSet(s)
    ensures forall x :: x in DedupAndSort(s) ==> FirstWithTs(s, x.ts) == Some(x)
    ensures multiset(DedupAndSort(s)) <= multiset(s)
  {
    DedupAfterSpec(s, {});
    SortByTsSpec(DedupFirst(s));
    forall x | x in DedupAndSort(s) ensures FirstWithTs(s, x.ts) == Some(x) {
      assert x in multiset(DedupAndSort(s));
    }
  }

  /** The filter keeps exactly the rows strictly newer than `latest`: it
      invents nothing, and it is empty exactly when no row is newer. */
  lemma {:induction false} NewerThanSpec<T>(s: seq<Row<T>>, latest: int)
    ensures forall x :: x in NewerThan(s, latest) ==> x in s && x.ts > latest
    ensures forall x :: x in s && x.ts > latest ==> x in NewerThan(s, latest)
    ensures multiset(NewerThan(s, latest)) <= multiset(s)
    ensures (forall x :: x in s ==> x.ts <= latest) <==> NewerThan(s, latest) == []
  {
    if s != [] {
      var x, rest := s[0], s[1..];
      assert s == [x] + rest;
      NewerThanSpec(rest, latest);
      var r := NewerThan(rest, latest);
      assert forall y :: y in s <==> y == x || y in rest;
      if x.ts > latest {
        assert NewerThan(s, latest) == [x] + r;
        assert forall y :: y in [x] + r <==> y == x || y in r;
      } else {
        assert NewerThan(s, latest) == r;
      }
    }
  }

  /** The filter keeps a strictly increasing sequence strictly increasing. */
  lemma {:induction false} NewerThanStrict<T>(s: seq<Row<T>>, latest: int)
    requires StrictlyIncreasing(s)
    ensures StrictlyIncreasing(NewerThan(s, latest))
  {
    if s != [] {
      var x, rest := s[0], s[1..];
      HeadBeforeTail(s);
      NewerThanStrict(rest, latest);
      NewerThanSpec(rest, latest);
      var r := NewerThan(rest, latest);
      if x.ts > latest {
        forall y | y in r ensures x.ts < y.ts {
          assert y in rest;
        }
        StrictCons(x, r);
      }
    }
  }

  /** The merged series is strictly increasing, holds every timestamp of
      both inputs, invents no row, and wherever an existing row and a new
      row share a timestamp keeps the (first) existing one. */
  lemma MergeSpec<T>(existing: seq<Row<T>>, newer: seq<Row<T>>)
    ensures StrictlyIncreasing(Merge(existing, newer))
    ensures TsSet(Merge(existing, newer)) == TsSet(existing) + TsSet(newer)
    ensures multiset(Merge(existing, newer)) <= multiset(existing) + multiset(newer)
    ensures forall x :: x in Merge(existing, newer) && x.ts in TsSet(existing) ==>
      FirstWithTs(existing, x.ts) == Some(x)
    ensures forall x :: x in Merge(existing, newer) && x.ts !in TsSet(existing) ==>
      FirstWithTs(newer, x.ts) == Some(x)
  {
    var both := existing + newer;
    DedupAndSortSpec(both);
    assert TsSet(both) == TsSet(existing) + TsSet(newer) by {
      assert forall z :: z in both <==> z in existing || z in newer;
    }
    forall x | x in Merge(existing, newer)
      ensures x.ts in TsSet(existing) ==> FirstWithTs(existing, x.ts) == Some(x)
      ensures x.ts !in TsSet(existing) ==> FirstWithTs(newer, x.ts) == Some(x)
    {
      FirstWithTsAppend(existing, newer, x.ts);
    }
  }

  /** Row-count arithmetic of the merge: when the stored rows have distinct
      timestamps and the new rows are strictly increasing and all newer,
      the merge is the sorted stored rows followed by the new rows, so its
      length is the sum; a stored series that is already sorted is then a
      prefix of the result, unchanged. */
  lemma MergeAppends<T>(existing: seq<Row<T>>, newer: seq<Row<T>>)
    requires DistinctTs(existing) && StrictlyIncreasing(newer)
    requires AllBefore(existing, newer)
    ensures Merge(existing, newer) == SortByTs(existing) + newer
    ensures |Merge(existing, newer)| == |existing| + |newer|
    ensures Ascending(existing) ==> Merge(existing, newer) == existing + newer
  {
    var both := existing + newer;
    assert DistinctTs(both) by {
      forall i, j | 0 <= i < j < |both| ensures both[i].ts != both[j].ts {
        if j < |existing| {
          assert both[i] == existing[i] && both[j] == existing[j];
        } else if i >= |existing| {
          assert both[i] == newer[i - |existing|] && both[j] == newer[j - |existing|];
        } else {
          assert both[i] in existing && both[j] in newer;
        }
      }
    }
    DedupAfterDistinct(both, {});
    SortAppendNewer(existing, newer);
    SortByTsSpec(existing);
    if Ascending(existing) {
      SortAscendingIsIdentity(existing);
    }
  }
}
