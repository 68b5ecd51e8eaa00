/** Pages of a listing, followed from cursor to cursor. */
module ListingLaws {
  import opened Text
  import opened Paths
  import opened ObjectState
  import opened IndexLaws
  import Reference

  // ---- one page ----

  /** A limit from 1 to 1000 is used as it is; any other becomes the nearer of the two. */
  lemma ClampIs(limit: int)
    ensures 1 <= limit <= 1000 ==> Clamp(limit) == limit
    ensures limit < 1 ==> Clamp(limit) == 1
    ensures limit > 1000 ==> Clamp(limit) == 1000
  {
  }

  lemma AscendingSlice(ks: seq<string>, lo: nat, hi: nat)
    requires Ascending(ks) && lo <= hi <= |ks|
    ensures Ascending(ks[lo..hi])
  {
  }

  lemma TakeOneMore(ks: seq<string>, n: nat)
    ensures |Take(ks, n + 1)| > n <==> |ks| > n
    ensures |ks| > n ==> Take(ks, n + 1)[..n] == Take(ks, n)
    ensures |ks| <= n ==> Take(ks, n + 1) == Take(ks, n)
  {
  }

  /** Asking for one key more than the limit tells exactly whether more exist. */
  lemma KeyPageIs(keys: set<string>, limit: int)
    ensures KeyPage(keys, limit) == (Take(Sorted(keys), Clamp(limit)), |keys| > Clamp(limit))
  {
    SortedFacts(keys);
    TakeOneMore(Sorted(keys), Clamp(limit));
  }

  lemma MatchingRefines(env: Env, rows: map<RowId, Row>, o: Reference.Objects, bucket: string, prefix: string,
                        cursor: string)
    requires PlainPaths(o) && Coherent(env, rows, o, bucket)
    ensures Matching(rows, bucket, prefix, cursor) == After(Reference.KeysOf(o, bucket), prefix, cursor)
  {
    var have := Matching(rows, bucket, prefix, cursor);
    var want := After(Reference.KeysOf(o, bucket), prefix, cursor);
    forall k | k in have
      ensures k in want
    {
      var id := RowId(bucket, k);
      assert id in rows;
      RowIdPathInverse(id);
      assert KeyOf(PathOf(id)[1..]) == k;
    }
    forall k | k in want
      ensures k in have
    {
      var p :| p in o && 2 <= |p| && p[0] == bucket && Visible(p) && KeyOf(p[1..]) == k;
      PathRowIdInverse(p);
      assert RowIdOf(p) == RowId(bucket, k);
    }
  }

  lemma PageKeysMatch(keys: set<string>, limit: int, k: string)
    requires k in KeyPage(keys, limit).0
    ensures k in keys
  {
    KeyPageIs(keys, limit);
    SortedFacts(keys);
    assert k in Elements(Sorted(keys));
  }

  lemma {:induction false} SummariesRefine(env: Env, rows: map<RowId, Row>, o: Reference.Objects, bucket: string,
                                           ks: seq<string>)
    requires Coherent(env, rows, o, bucket)
    requires forall k :: k in ks ==> RowId(bucket, k) in rows
    ensures SummarizeAll(rows, bucket, ks) == Reference.DescribeAll(env, o, bucket, ks)
  {
    if ks != [] {
      assert RowId(bucket, ks[0]) in rows;
      SummariesRefine(env, rows, o, bucket, ks[1..]);
    }
  }

  /** From a coherent bucket a page is the reference's page: keys, summaries, truncation and cursor. */
  lemma PageRefines(env: Env, rows: map<RowId, Row>, o: Reference.Objects, bucket: string, prefix: string,
                    limit: int, cursor: string)
    requires PlainPaths(o) && Coherent(env, rows, o, bucket)
    ensures PageOf(rows, bucket, prefix, limit, cursor) == Reference.List(env, o, bucket, prefix, limit, cursor)
  {
    var keys := Matching(rows, bucket, prefix, cursor);
    MatchingRefines(env, rows, o, bucket, prefix, cursor);
    KeyPageIs(keys, limit);
    SortedSize(keys);
    var ks := KeyPage(keys, limit).0;
    forall k | k in ks
      ensures RowId(bucket, k) in rows
    {
      PageKeysMatch(keys, limit, k);
    }
    SummariesRefine(env, rows, o, bucket, ks);
  }

  lemma SortedSize(keys: set<string>)
    ensures |Sorted(keys)| == |keys|
  {
    SortedFacts(keys);
  }

  // ---- following the cursor while the index changes ----

  /** What one call sees: the rows of the index at that moment, and the requested limit. */
  datatype Visit = Visit(rows: map<RowId, Row>, limit: int)

  /** The objects returned by following `nextCursor` over successive calls, and whether the last page
      was reached. */
  function Crawl(visits: seq<Visit>, bucket: string, prefix: string, cursor: string): (seq<Summary>, bool) {
    if visits == [] then ([], false)
    else
      var page := PageOf(visits[0].rows, bucket, prefix, visits[0].limit, cursor);
      if page.next.None? then (page.objects, true)
      else
        var (rest, done) := Crawl(visits[1..], bucket, prefix, page.next.value);
        (page.objects + rest, done)
  }

  function KeyList(ss: seq<Summary>): (ks: seq<string>)
    ensures |ks| == |ss|
    ensures forall i :: 0 <= i < |ss| ==> ks[i] == ss[i].key
  {
    if ss == [] then [] else [ss[0].key] + KeyList(ss[1..])
  }

  lemma KeyListAppend(ss: seq<Summary>, rest: seq<Summary>)
    ensures KeyList(ss + rest) == KeyList(ss) + KeyList(rest)
  {
  }

  lemma {:induction false} SummarizedKeys(rows: map<RowId, Row>, bucket: string, ks: seq<string>)
    ensures forall i :: 0 <= i < |ks| ==> SummarizeAll(rows, bucket, ks)[i] == Summarize(rows, bucket, ks[i])
    ensures KeyList(SummarizeAll(rows, bucket, ks)) == ks
  {
    if ks != [] { SummarizedKeys(rows, bucket, ks[1..]); }
  }

  ghost predicate AllAfter(ks: seq<string>, cursor: string) {
    forall i :: 0 <= i < |ks| ==> Less(cursor, ks[i])
  }

  lemma TakeFacts(sorted: seq<string>, n: nat)
    requires Ascending(sorted) && n > 0
    ensures var ks := Take(sorted, n);
            && Ascending(ks)
            && (forall k :: k in ks ==> k in sorted)
            && (forall k :: k in sorted ==> k in ks || (|sorted| > n && Less(ks[|ks| - 1], k)))
  {
    var ks := Take(sorted, n);
    assert forall i :: 0 <= i < |ks| ==> ks[i] == sorted[i];
    forall k | k in sorted
      ensures k in ks || (|sorted| > n && Less(ks[|ks| - 1], k))
    {
      var i :| 0 <= i < |sorted| && sorted[i] == k;
      assert i < |ks| ==> ks[i] == k;
    }
  }

  lemma KeyPageFacts(keys: set<string>, prefix: string, cursor: string, limit: int)
    ensures var (ks, more) := KeyPage(After(keys, prefix, cursor), limit);
            && Ascending(ks) && (more ==> ks != [])
            && (forall k :: k in ks ==> k in keys && prefix <= k && Less(cursor, k))
            && (forall k :: k in After(keys, prefix, cursor) ==> k in ks || (more && Less(ks[|ks| - 1], k)))
  {
    var all := After(keys, prefix, cursor);
    var sorted := Sorted(all);
    KeyPageIs(all, limit);
    SortedFacts(all);
    TakeFacts(sorted, Clamp(limit));
    forall k
      ensures k in sorted <==> k in all
    {
      assert k in sorted <==> k in Elements(sorted);
    }
  }

  /** The object is the row of its key in some index that was visited. */
  ghost predicate ListedFrom(visits: seq<Visit>, bucket: string, s: Summary) {
    exists v :: v in visits && RowId(bucket, s.key) in v.rows && s == SummaryOf(s.key, v.rows[RowId(bucket, s.key)])
  }

  lemma PageObjects(v: Visit, bucket: string, ks: seq<string>)
    requires forall k :: k in ks ==> RowId(bucket, k) in v.rows
    ensures forall s :: s in SummarizeAll(v.rows, bucket, ks) ==> s.key in ks && ListedFrom([v], bucket, s)
  {
    hide SummaryOf;
    var objects := SummarizeAll(v.rows, bucket, ks);
    SummarizedKeys(v.rows, bucket, ks);
    forall s | s in objects
      ensures s.key in ks && ListedFrom([v], bucket, s)
    {
      var i :| 0 <= i < |objects| && objects[i] == s;
      assert s == Summarize(v.rows, bucket, ks[i]) && ks[i] in ks && v in [v];
      SummaryKey(ks[i], v.rows[RowId(bucket, ks[i])]);
    }
  }

  lemma SummaryKey(key: string, row: Row)
    ensures SummaryOf(key, row).key == key
  {
  }

  lemma PageFacts(v: Visit, bucket: string, prefix: string, cursor: string)
    ensures
      var page := PageOf(v.rows, bucket, prefix, v.limit, cursor);
      var ks := KeyList(page.objects);
      && |ks| <= Clamp(v.limit) && Ascending(ks) && AllAfter(ks, cursor)
      && (page.truncated <==> page.next.Some?)
      && (page.next.Some? ==> ks != [] && page.next.value == ks[|ks| - 1])
      && (forall s :: s in page.objects ==> prefix <= s.key && ListedFrom([v], bucket, s))
      && (forall k :: k in Matching(v.rows, bucket, prefix, cursor) ==>
            k in ks || (page.next.Some? && Less(page.next.value, k)))
  {
    hide Less, ListedFrom, SummarizeAll, Sorted, Ascending, KeyList, KeyPage;
    var keys := Matching(v.rows, bucket, prefix, cursor);
    var ks := KeyPage(keys, v.limit).0;
    KeyPageFacts(KeysIn(v.rows, bucket), prefix, cursor, v.limit);
    KeyPageIs(keys, v.limit);
    SummarizedKeys(v.rows, bucket, ks);
    PageObjects(v, bucket, ks);
  }

  lemma AppendAscending(ks: seq<string>, rest: seq<string>, cursor: string)
    requires ks != [] && Ascending(ks) && AllAfter(ks, cursor)
    requires Ascending(rest) && AllAfter(rest, ks[|ks| - 1])
    ensures Ascending(ks + rest) && AllAfter(ks + rest, cursor)
  {
    var last := ks[|ks| - 1];
    forall i | 0 <= i < |rest|
      ensures Less(cursor, rest[i])
    {
      LessTransitive(cursor, last, rest[i]);
    }
    forall i, j | 0 <= i < |ks| && 0 <= j < |rest|
      ensures Less(ks[i], rest[j])
    {
      if i < |ks| - 1 { LessTransitive(ks[i], last, rest[j]); }
    }
  }

  /** Rows may come and go, and change, arbitrarily between calls: keys come back in strictly increasing order,
      so none repeats; each object is a row some visited index held, and carries the prefix; and once the last
      page is reached, every matching key that was present throughout has been returned. */
  lemma {:induction false} CrawlIsSafe(visits: seq<Visit>, bucket: string, prefix: string, cursor: string)
    ensures
      var (ss, done) := Crawl(visits, bucket, prefix, cursor);
      var ks := KeyList(ss);
      && Ascending(ks) && AllAfter(ks, cursor)
      && (forall s :: s in ss ==> prefix <= s.key && ListedFrom(visits, bucket, s))
      && (done ==> forall k :: Less(cursor, k) && prefix <= k && PresentThroughout(visits, bucket, k) ==> k in ks)
  {
    hide PageOf, Matching, KeyList, ListedFrom, Ascending, AllAfter;
    if visits == [] {
      NothingListed(cursor);
    } else {
      var v := visits[0];
      var page := PageOf(v.rows, bucket, prefix, v.limit, cursor);
      PageFacts(v, bucket, prefix, cursor);
      ListedFromMore(visits, bucket, page.objects);
      PresentNow(visits, bucket, prefix, cursor);
      if page.next.Some? {
        CrawlIsSafe(visits[1..], bucket, prefix, page.next.value);
        CrawlOn(visits, bucket, prefix, cursor);
      }
    }
  }

  ghost predicate PresentThroughout(visits: seq<Visit>, bucket: string, k: string) {
    forall v :: v in visits ==> RowId(bucket, k) in v.rows
  }

  lemma NothingListed(cursor: string)
    ensures KeyList([]) == [] && Ascending(KeyList([])) && AllAfter(KeyList([]), cursor)
  {
  }

  lemma ListedFromMore(visits: seq<Visit>, bucket: string, ss: seq<Summary>)
    requires visits != []
    ensures (forall s :: s in ss ==> ListedFrom([visits[0]], bucket, s)) ==>
              forall s :: s in ss ==> ListedFrom(visits, bucket, s)
    ensures forall s :: ListedFrom(visits[1..], bucket, s) ==> ListedFrom(visits, bucket, s)
  {
    assert forall v :: v in visits[1..] ==> v in visits;
    assert visits[0] in visits;
  }

  lemma PresentNow(visits: seq<Visit>, bucket: string, prefix: string, cursor: string)
    requires visits != []
    ensures forall k :: PresentThroughout(visits, bucket, k) && Less(cursor, k) && prefix <= k ==>
              k in Matching(visits[0].rows, bucket, prefix, cursor)
    ensures forall k :: PresentThroughout(visits, bucket, k) ==> PresentThroughout(visits[1..], bucket, k)
  {
    assert forall v :: v in visits[1..] ==> v in visits;
    forall k | PresentThroughout(visits, bucket, k)
      ensures k in KeysIn(visits[0].rows, bucket)
    {
      assert RowId(bucket, k) in visits[0].rows;
    }
  }

  lemma CrawlOn(visits: seq<Visit>, bucket: string, prefix: string, cursor: string)
    requires visits != []
    ensures
      var page := PageOf(visits[0].rows, bucket, prefix, visits[0].limit, cursor);
      page.next.Some? ==>
        var (rest, done) := Crawl(visits[1..], bucket, prefix, page.next.value);
        var ks, more := KeyList(page.objects), KeyList(rest);
        && Crawl(visits, bucket, prefix, cursor) == (page.objects + rest, done)
        && KeyList(page.objects + rest) == ks + more
        && (ks != [] && Ascending(ks) && AllAfter(ks, cursor) && Ascending(more) && AllAfter(more, ks[|ks| - 1]) ==>
              Ascending(ks + more) && AllAfter(ks + more, cursor))
  {
    hide PageOf, Ascending, AllAfter;
    var page := PageOf(visits[0].rows, bucket, prefix, visits[0].limit, cursor);
    if page.next.Some? {
      var rest := Crawl(visits[1..], bucket, prefix, page.next.value).0;
      var ks, more := KeyList(page.objects), KeyList(rest);
      KeyListAppend(page.objects, rest);
      if ks != [] && Ascending(ks) && AllAfter(ks, cursor) && Ascending(more) && AllAfter(more, ks[|ks| - 1]) {
        AppendAscending(ks, more, cursor);
      }
    }
  }

  // ---- enumerating a fixed index ----

  function Repeat(v: Visit, n: nat): seq<Visit> {
    if n == 0 then [] else [v] + Repeat(v, n - 1)
  }

  /** Calls needed for `n` matching keys, by counting full pages off. */
  function Calls(n: nat, limit: int): nat {
    if n <= Clamp(limit) then 1 else 1 + Calls(n - Clamp(limit), limit)
  }

  /** That is max(1, ceil(n / limit)): the only count `c` with `(c - 1) * limit < n <= c * limit`. */
  lemma {:induction false} CallsIsCeiling(n: nat, limit: int)
    ensures Calls(n, limit) >= 1
    ensures n <= Calls(n, limit) * Clamp(limit)
    ensures n > 0 ==> (Calls(n, limit) - 1) * Clamp(limit) < n
    ensures n == 0 ==> Calls(n, limit) == 1
    decreases n
  {
    var c := Clamp(limit);
    if n > c {
      CallsIsCeiling(n - c, limit);
      var rest := Calls(n - c, limit);
      assert (1 + rest) * c == c + rest * c && rest * c == c + (rest - 1) * c;
    }
  }

  lemma InRest(keys: set<string>, prefix: string, cursor: string, n: nat, k: string)
    requires 0 < n < |Sorted(After(keys, prefix, cursor))|
    ensures var sorted := Sorted(After(keys, prefix, cursor));
            k in After(keys, prefix, sorted[n - 1]) <==> k in sorted[n..]
  {
    hide Sorted, Less, Ascending;
    var all := After(keys, prefix, cursor);
    var sorted := Sorted(all);
    var last := sorted[n - 1];
    SortedFacts(all);
    assert last in Elements(sorted);
    if k in After(keys, prefix, last) {
      LessTransitive(cursor, last, k);
      assert k in Elements(sorted);
      var i :| 0 <= i < |sorted| && sorted[i] == k;
      NotBeyond(sorted, i, n - 1);
      assert sorted[n..][i - n] == k;
    }
    if k in sorted[n..] {
      var i :| 0 <= i < |sorted[n..]| && sorted[n..][i] == k;
      assert sorted[n + i] == k && k in Elements(sorted);
      AscendingPair(sorted, n - 1, n + i);
    }
  }

  lemma AscendingPair(ks: seq<string>, i: nat, j: nat)
    requires Ascending(ks) && i < j < |ks|
    ensures Less(ks[i], ks[j])
  {
  }

  lemma RestOfKeys(keys: set<string>, prefix: string, cursor: string, n: nat)
    requires 0 < n < |Sorted(After(keys, prefix, cursor))|
    ensures var sorted := Sorted(After(keys, prefix, cursor));
            Sorted(After(keys, prefix, sorted[n - 1])) == sorted[n..]
  {
    hide Sorted, After, Less;
    var sorted := Sorted(After(keys, prefix, cursor));
    var rest := After(keys, prefix, sorted[n - 1]);
    SortedFacts(After(keys, prefix, cursor));
    SortedFacts(rest);
    forall k
      ensures k in rest <==> k in Elements(sorted[n..])
    {
      InRest(keys, prefix, cursor, n, k);
    }
    assert rest == Elements(sorted[n..]);
    AscendingSlice(sorted, n, |sorted|);
    AscendingUnique(Sorted(rest), sorted[n..]);
  }

  lemma NotBeyond(ks: seq<string>, i: nat, j: nat)
    requires Ascending(ks) && i < |ks| && j < |ks| && Less(ks[j], ks[i])
    ensures j < i
  {
    LessTrichotomy(ks[i], ks[j]);
  }

  /** On an index that does not change, any requested limit enumerates exactly the matching keys in order, each
      with its row, and the last page comes with call number max(1, ceil(n / limit)), not before. */
  lemma {:induction false} FixedCrawlEnumerates(rows: map<RowId, Row>, limit: int, bucket: string, prefix: string,
                                                cursor: string, calls: nat)
    ensures
      var (ss, done) := Crawl(Repeat(Visit(rows, limit), calls), bucket, prefix, cursor);
      var sorted := Sorted(Matching(rows, bucket, prefix, cursor));
      && (done <==> calls >= Calls(|sorted|, limit))
      && (done ==> ss == SummarizeAll(rows, bucket, sorted))
    decreases calls
  {
    hide Matching, PageOf;
    var sorted := Sorted(Matching(rows, bucket, prefix, cursor));
    CallsIsCeiling(|sorted|, limit);
    if calls > 0 {
      FirstCall(rows, limit, bucket, prefix, cursor, calls);
      if |sorted| > Clamp(limit) {
        FullPage(rows, limit, bucket, prefix, cursor);
        FixedCrawlEnumerates(rows, limit, bucket, prefix, sorted[Clamp(limit) - 1], calls - 1);
        SummarizeAppend(rows, bucket, sorted[..Clamp(limit)], sorted[Clamp(limit)..]);
      }
    }
  }

  lemma {:induction false} SummarizeAppend(rows: map<RowId, Row>, bucket: string, ks: seq<string>, more: seq<string>)
    ensures SummarizeAll(rows, bucket, ks + more) == SummarizeAll(rows, bucket, ks) + SummarizeAll(rows, bucket, more)
  {
    hide Summarize;
    if ks == [] {
      assert ks + more == more;
    } else {
      assert (ks + more)[0] == ks[0];
      SummarizeAppend(rows, bucket, ks[1..], more);
      assert (ks + more)[1..] == ks[1..] + more;
    }
  }

  lemma FirstCall(rows: map<RowId, Row>, limit: int, bucket: string, prefix: string, cursor: string, calls: nat)
    requires calls > 0
    ensures
      var sorted := Sorted(Matching(rows, bucket, prefix, cursor));
      var v := Visit(rows, limit);
      Crawl(Repeat(v, calls), bucket, prefix, cursor)
      == if |sorted| <= Clamp(limit) then (SummarizeAll(rows, bucket, sorted), true)
         else var (rest, done) := Crawl(Repeat(v, calls - 1), bucket, prefix, sorted[Clamp(limit) - 1]);
              (SummarizeAll(rows, bucket, sorted[..Clamp(limit)]) + rest, done)
  {
    hide Matching, Sorted;
    var v := Visit(rows, limit);
    KeyPageIs(Matching(rows, bucket, prefix, cursor), limit);
    SortedSize(Matching(rows, bucket, prefix, cursor));
    assert Repeat(v, calls)[1..] == Repeat(v, calls - 1);
  }

  lemma FullPage(rows: map<RowId, Row>, limit: int, bucket: string, prefix: string, cursor: string)
    requires |Sorted(Matching(rows, bucket, prefix, cursor))| > Clamp(limit)
    ensures
      var sorted := Sorted(Matching(rows, bucket, prefix, cursor));
      && Sorted(Matching(rows, bucket, prefix, sorted[Clamp(limit) - 1])) == sorted[Clamp(limit)..]
      && sorted == sorted[..Clamp(limit)] + sorted[Clamp(limit)..]
  {
    hide Sorted;
    RestOfKeys(KeysIn(rows, bucket), prefix, cursor, Clamp(limit));
  }
}
