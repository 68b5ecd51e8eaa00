/** Whole-bucket totals against the pages of a listing. */
module StatsLaws {
  import opened Text
  import opened Paths
  import opened ObjectState
  import opened DiskLaws
  import opened IndexLaws
  import opened ListingLaws

  datatype Stats = Stats(objects: nat, totalBytes: nat, topFolders: nat, topFiles: nat)

  predicate HasSlash(key: string) {
    '/' in key
  }

  /** The text before the first slash. */
  function TopFolder(key: string): string {
    key[..IndexOf(key, '/')]
  }

  function SizeOf(rows: map<RowId, Row>, bucket: string, key: string): nat {
    if RowId(bucket, key) in rows then rows[RowId(bucket, key)].size else 0
  }

  /** A key is in a folder exactly when a slash divides it, and the folder is what comes before the first one. */
  lemma TopFolderIs(folder: string, rest: string)
    requires '/' !in folder
    ensures HasSlash(folder + "/" + rest) && TopFolder(folder + "/" + rest) == folder && !HasSlash(folder)
  {
    IndexOfAppend(folder, '/', rest);
    assert folder + ['/'] + rest == folder + "/" + rest;
    assert (folder + "/" + rest)[|folder|] == '/';
  }

  /** SUM over a set of keys, in whatever order the query visits them. */
  ghost function SumOver(rows: map<RowId, Row>, bucket: string, keys: set<string>): nat {
    if keys == {} then 0
    else
      var k :| k in keys;
      SizeOf(rows, bucket, k) + SumOver(rows, bucket, keys - {k})
  }

  /** The keys the aggregate query selects: it has no cursor. */
  function Selected(rows: map<RowId, Row>, bucket: string, prefix: string): set<string> {
    set k | k in KeysIn(rows, bucket) && prefix <= k
  }

  /** The aggregate query: COUNT, SUM, COUNT DISTINCT of top folders, and keys without a slash. */
  ghost function StatsOf(rows: map<RowId, Row>, bucket: string, prefix: string): Stats {
    var keys := Selected(rows, bucket, prefix);
    Stats(|keys|, SumOver(rows, bucket, keys),
          |set k | k in keys && HasSlash(k) :: TopFolder(k)|,
          |set k | k in keys && !HasSlash(k)|)
  }

  lemma {:induction false} SumAnyFirst(rows: map<RowId, Row>, bucket: string, keys: set<string>, first: string)
    requires first in keys
    ensures SumOver(rows, bucket, keys) == SizeOf(rows, bucket, first) + SumOver(rows, bucket, keys - {first})
    decreases keys
  {
    var k :| k in keys && SumOver(rows, bucket, keys) == SizeOf(rows, bucket, k) + SumOver(rows, bucket, keys - {k});
    if k != first {
      SumAnyFirst(rows, bucket, keys - {k}, first);
      SumAnyFirst(rows, bucket, keys - {first}, k);
      assert keys - {k} - {first} == keys - {first} - {k};
    }
  }

  // ---- the same totals, read off the listed objects one by one ----

  function FoldBytes(ss: seq<Summary>): nat {
    if ss == [] then 0 else ss[0].size + FoldBytes(ss[1..])
  }

  function FoldFolders(ss: seq<Summary>): set<string> {
    if ss == [] then {}
    else (if HasSlash(ss[0].key) then {TopFolder(ss[0].key)} else {}) + FoldFolders(ss[1..])
  }

  function FoldFiles(ss: seq<Summary>): nat {
    if ss == [] then 0 else (if HasSlash(ss[0].key) then 0 else 1) + FoldFiles(ss[1..])
  }

  lemma {:induction false} FoldsOverKeys(rows: map<RowId, Row>, bucket: string, ks: seq<string>)
    requires Ascending(ks)
    ensures var ss := SummarizeAll(rows, bucket, ks);
            && FoldBytes(ss) == SumOver(rows, bucket, Elements(ks))
            && FoldFolders(ss) == (set k | k in Elements(ks) && HasSlash(k) :: TopFolder(k))
            && FoldFiles(ss) == |set k | k in Elements(ks) && !HasSlash(k)|
  {
    hide HasSlash, TopFolder, Ascending;
    if ks == [] {
      assert Elements(ks) == {};
    } else {
      var k, rest := ks[0], ks[1..];
      var ss := SummarizeAll(rows, bucket, ks);
      AscendingSlice(ks, 1, |ks|);
      assert ks[1..|ks|] == rest;
      FoldsOverKeys(rows, bucket, rest);
      TailDropsHead(ks);
      assert k in Elements(ks);
      assert ss[1..] == SummarizeAll(rows, bucket, rest) && ss[0].key == k;
      SumAnyFirst(rows, bucket, Elements(ks), k);
      FoldersStep(Elements(ks), k);
      FilesStep(Elements(ks), k);
    }
  }

  lemma FoldersStep(keys: set<string>, k: string)
    requires k in keys
    ensures (set x | x in keys && HasSlash(x) :: TopFolder(x))
            == (if HasSlash(k) then {TopFolder(k)} else {}) + set x | x in keys - {k} && HasSlash(x) :: TopFolder(x)
  {
  }

  lemma FilesStep(keys: set<string>, k: string)
    requires k in keys
    ensures |set x | x in keys && !HasSlash(x)|
            == (if HasSlash(k) then 0 else 1) + |set x | x in keys - {k} && !HasSlash(x)|
  {
    var all := set x | x in keys && !HasSlash(x);
    var rest := set x | x in keys - {k} && !HasSlash(x);
    assert all == if HasSlash(k) then rest else rest + {k};
  }

  function FoldAll(ss: seq<Summary>): Stats {
    Stats(|ss|, FoldBytes(ss), |FoldFolders(ss)|, FoldFiles(ss))
  }

  /** No listing starts before the empty key, so this is the one key it cannot return. */
  lemma SelectedIs(rows: map<RowId, Row>, bucket: string, prefix: string)
    ensures Selected(rows, bucket, prefix) - {""} == Matching(rows, bucket, prefix, "")
    ensures "" in Selected(rows, bucket, prefix) <==> prefix == "" && RowId(bucket, "") in rows
  {
  }

  lemma SelectedSize(rows: map<RowId, Row>, bucket: string, prefix: string)
    ensures |Matching(rows, bucket, prefix, "")| == |Selected(rows, bucket, prefix)|
            <==> !(prefix == "" && RowId(bucket, "") in rows)
  {
    hide Matching, Selected;
    SelectedIs(rows, bucket, prefix);
    if "" !in Selected(rows, bucket, prefix) {
      assert Selected(rows, bucket, prefix) - {""} == Selected(rows, bucket, prefix);
    }
  }

  /** Following the cursor to the last page and folding over the objects of all pages gives exactly the totals the
      aggregate query reports, for every prefix and every limit, unless the whole bucket is asked for and there is a
      row under the empty key: the query counts that row, and no page can hold it. */
  lemma StatsAreListingTotals(rows: map<RowId, Row>, bucket: string, prefix: string, limit: int, calls: nat)
    requires Crawl(Repeat(Visit(rows, limit), calls), bucket, prefix, "").1
    ensures StatsOf(rows, bucket, prefix) == FoldAll(Crawl(Repeat(Visit(rows, limit), calls), bucket, prefix, "").0)
            <==> !(prefix == "" && RowId(bucket, "") in rows)
  {
    hide Matching, Selected, Crawl, FoldFolders, HasSlash;
    var keys := Matching(rows, bucket, prefix, "");
    FixedCrawlEnumerates(rows, limit, bucket, prefix, "", calls);
    SelectedIs(rows, bucket, prefix);
    SelectedSize(rows, bucket, prefix);
    SortedFacts(keys);
    FoldsOverKeys(rows, bucket, Sorted(keys));
    if keys == Selected(rows, bucket, prefix) { FoldIsStats(rows, bucket, prefix, Sorted(keys)); }
  }

  lemma FoldIsStats(rows: map<RowId, Row>, bucket: string, prefix: string, ks: seq<string>)
    requires Ascending(ks) && Elements(ks) == Selected(rows, bucket, prefix) && |ks| == |Elements(ks)|
    ensures StatsOf(rows, bucket, prefix) == FoldAll(SummarizeAll(rows, bucket, ks))
  {
    FoldsOverKeys(rows, bucket, ks);
  }

  /** After completed requests a sound index has no such row. */
  lemma NoEmptyKey(env: Env, s: State, bucket: string)
    requires Managed(env, s) && Sound(env, s.rows, ObjectsOf(s))
    ensures RowId(bucket, "") !in s.rows
  {
    EmptyKeyPath(bucket);
    ManagedPaths(env, s);
  }

  lemma EmptyKeyPath(bucket: string)
    ensures !AllPlain(PathOf(RowId(bucket, "")))
  {
    var p := PathOf(RowId(bucket, ""));
    assert p[1] == "" && p[1] in p;
  }
}
