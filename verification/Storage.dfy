/** The object layer as it runs: disk, sidecars and index changed step by step. */
module Storage {
  import opened Wrappers
  import opened Text
  import opened Paths
  import opened FileTree
  import opened ObjectState
  import opened DiskLaws
  import opened ReindexLaws
  import opened Store
  import opened ReindexProgress
  import opened WellFormed

  /** Removes `dir` and its parents up to `boundary` while they are empty: exactly the directories
      under the boundary beneath which nothing but the way down to `start` is left. */
  method RemoveEmptyParents<T>(t: Tree<T>, start: Path, boundary: Path) returns (u: Tree<T>)
    requires t.Wf() && |boundary| == 1 && boundary <= start && start !in t.files
    ensures u == t.Pruned(start)
  {
    u := t;
    var dir := start;
    assert start == start[..|start|];
    while dir != boundary && boundary < dir
      invariant boundary <= dir <= start
      invariant u == Tree(t.files, set e | e in t.dirs && !(e <= start && |dir| < |e|))
      invariant dir != start ==> start in t.dirs
      invariant forall e :: e in t.dirs && e <= start && |dir| < |e| ==> t.Prunable(e, start)
      invariant dir !in t.files
      decreases |dir|
    {
      var removal := u.Remove(dir);
      if !removal.Removed? {
        StoppedHere(t, u, start, dir);
        return;
      }
      RemovedHere(t, u, start, dir);
      u := removal.tree;
      dir := Parent(dir);
      assert start[..|dir|] == dir;
      assert dir in t.dirs by { assert t.Has(start); }
    }
    assert dir == boundary;
    PrunedAll(t, u, start);
  }

  lemma StoppedHere<T>(t: Tree<T>, u: Tree<T>, start: Path, dir: Path)
    requires t.Wf() && dir <= start && 2 <= |dir| && dir !in t.files
    requires u == Tree(t.files, set e | e in t.dirs && !(e <= start && |dir| < |e|))
    requires dir != start ==> start in t.dirs
    requires forall e :: e in t.dirs && e <= start && |dir| < |e| ==> t.Prunable(e, start)
    requires !u.Remove(dir).Removed?
    ensures u == t.Pruned(start)
  {
    if start !in t.dirs {
      assert (set e | e in t.dirs && !(e <= start && |dir| < |e|)) == t.dirs;
    } else {
      assert t.Has(start) && dir == start[..|dir|];
      assert dir == start || dir in t.dirs;
      assert u.HasEntries(dir);
      var q :| q in u.files.Keys + u.dirs && dir < q;
      assert t.Has(q) && !(q in t.dirs && q <= start);
      forall e | e in t.dirs && |e| <= |dir|
        ensures !t.Prunable(e, start)
      {
        if e <= start { assert e <= dir && e < q; }
      }
      assert u.dirs == t.Pruned(start).dirs;
    }
  }

  lemma RemovedHere<T>(t: Tree<T>, u: Tree<T>, start: Path, dir: Path)
    requires t.Wf() && dir <= start && 2 <= |dir| && dir !in t.files
    requires u == Tree(t.files, set e | e in t.dirs && !(e <= start && |dir| < |e|))
    requires u.Remove(dir).Removed?
    ensures u.Remove(dir).tree == Tree(t.files, set e | e in t.dirs && !(e <= start && |Parent(dir)| < |e|))
    ensures dir in t.dirs && t.Prunable(dir, start)
    ensures dir == start || t.Has(start) ==> start in t.dirs || t.Has(start)
  {
    forall e | e <= start && |e| == |dir|
      ensures e == dir
    {
    }
    forall q | t.Has(q) && dir < q
      ensures q in t.dirs && q <= start
    {
      assert !(q in u.files.Keys + u.dirs);
    }
  }

  lemma PrunedAll<T>(t: Tree<T>, u: Tree<T>, start: Path)
    requires |start| >= 1
    requires u == Tree(t.files, set e | e in t.dirs && !(e <= start && 1 < |e|))
    requires 1 < |start| ==> start in t.dirs
    requires forall e :: e in t.dirs && e <= start && 1 < |e| ==> t.Prunable(e, start)
    ensures u == t.Pruned(start)
  {
    if start in t.dirs {
      assert u.dirs == t.Pruned(start).dirs;
    } else {
      assert u.dirs == t.dirs;
    }
  }

  // ---- facts the steps below rest on ----

  lemma TempInMade<T>(t: Tree<T>, p: Path, tmp: Path)
    requires t.Wf() && p != [] && t.MkdirAll(Parent(p)).Some?
    requires |tmp| == |p| && Parent(tmp) == Parent(p) && !t.Has(tmp)
    ensures !t.MkdirAll(Parent(p)).value.Has(tmp)
    ensures !t.Obstructed(tmp) && p !in Prefixes(Parent(p)) && Parent(p) in Prefixes(Parent(p))
  {
    assert forall d :: d in Prefixes(Parent(p)) ==> |d| < |p|;
    assert Parent(p) == Parent(p)[..|p| - 1];
    ObstructedAbove(t, tmp);
  }

  lemma NothingWalked(env: Env, s: State, bucket: string, force: bool)
    requires s.disk.Wf() && [bucket] !in s.disk.dirs
    ensures Walked(s.disk, bucket) == {} && Refreshed(s, bucket, force) == {}
    ensures Orphans(s, bucket) == RowsOf(s.rows, bucket) && SidecarsFit(s, bucket, force)
  {
    forall p | p in s.disk.files && 2 <= |p|
      ensures p[0] != bucket
    {
      assert s.disk.Has(p) && p[..1] in s.disk.dirs;
      assert p[..1] == [p[0]];
    }
    assert Walked(s.disk, bucket) == {};
  }

  /** Without a bucket directory a reindex amounts to dropping the bucket's rows. */
  lemma ReindexedWithoutDirectory(env: Env, s: State, bucket: string, force: bool)
    requires s.disk.Wf() && [bucket] !in s.disk.dirs
    ensures Reindexed(env, s, bucket, force)
            == s.(rows := WithoutRows(s.rows, bucket))
  {
    NothingWalked(env, s, bucket, force);
    MetasAtStart(env, s);
    MetasAtEnd(env, s, bucket, force);
    forall id: RowId
      ensures id in Reindexed(env, s, bucket, force).rows <==> id in s.rows && id.bucket != bucket
      ensures id.bucket != bucket && id in s.rows ==> Reindexed(env, s, bucket, force).rows[id] == s.rows[id]
    {
      ReindexedKeys(env, s, bucket, force, id);
    }
    SameRows(Reindexed(env, s, bucket, force).rows, WithoutRows(s.rows, bucket));
  }

  function KeysSeen(files: set<Path>): set<string> {
    set p | p in files && 2 <= |p| :: KeyOf(p[1..])
  }

  lemma OneFewer(all: set<Path>, todo: set<Path>, p: Path)
    requires p in todo && todo <= all
    ensures all - (todo - {p}) == (all - todo) + {p}
  {
  }

  lemma NothingLeft(all: set<Path>, todo: set<Path>, seen: set<Path>, some: set<Path>)
    requires todo == {} && seen == all - todo && some <= all
    ensures seen == all && some * seen == some
  {
  }

  lemma OneMore(some: set<Path>, seen: set<Path>, p: Path)
    ensures some * (seen + {p}) == if p in some then some * seen + {p} else some * seen
  {
  }

  /** The row a non-forced pass skips: hashed already, and of the size the file has. */
  predicate SettledIn(existing: map<string, Row>, key: string, size: nat) {
    key in existing && existing[key].etag.Some? && existing[key].size == size
  }

  predicate NeedsRefresh(disk: Tree<Blob>, p: Path, force: bool, existing: map<string, Row>)
    requires p in disk.files && 2 <= |p|
  {
    force || !SettledIn(existing, KeyOf(p[1..]), |disk.files[p].bytes|)
  }

  lemma ToRefresh(s: State, bucket: string, force: bool, existing: map<string, Row>)
    requires forall k :: k in existing <==> RowId(bucket, k) in s.rows
    requires forall k :: k in existing ==> existing[k] == s.rows[RowId(bucket, k)]
    ensures Refreshed(s, bucket, force) <= Walked(s.disk, bucket) <= s.disk.files.Keys
    ensures forall p :: p in Walked(s.disk, bucket) ==>
              2 <= |p| && (p in Refreshed(s, bucket, force) <==> NeedsRefresh(s.disk, p, force, existing))
  {
  }

  predicate Distinct(ks: seq<string>) {
    forall i, j :: 0 <= i < j < |ks| ==> ks[i] != ks[j]
  }

  /** The indexed keys the walk did not see. */
  method CollectDeletes(existing: map<string, Row>, seen: set<string>) returns (deletes: seq<string>)
    ensures Distinct(deletes)
    ensures forall k :: k in deletes <==> k in existing && k !in seen
  {
    deletes := [];
    var todo := existing.Keys;
    while todo != {}
      invariant todo <= existing.Keys
      invariant Distinct(deletes)
      invariant forall k :: k in deletes <==> k in existing && k !in seen && k !in todo
      decreases todo
    {
      var k :| k in todo;
      todo := todo - {k};
      if k !in seen { deletes := deletes + [k]; }
    }
  }

  lemma {:induction false} DistinctIds(bucket: string, ks: seq<string>)
    requires Distinct(ks)
    ensures |IdsOf(bucket, ks)| == |ks|
  {
    if ks != [] {
      var init := ks[..|ks| - 1];
      DistinctIds(bucket, init);
      assert ks == init + [ks[|ks| - 1]];
      assert IdsOf(bucket, ks) == IdsOf(bucket, init) + {RowId(bucket, ks[|ks| - 1])};
    } else {
      assert IdsOf(bucket, ks) == {};
    }
  }

  lemma DeletesAreOrphans(s: State, bucket: string, seen: set<string>, deletes: seq<string>)
    requires s.disk.Wf() && Distinct(deletes)
    requires seen == KeysSeen(Walked(s.disk, bucket))
    requires forall k :: k in deletes <==> RowId(bucket, k) in s.rows && k !in seen
    ensures IdsOf(bucket, deletes) == Orphans(s, bucket) && |deletes| == |Orphans(s, bucket)|
  {
    DiskNames(s.disk);
    forall k
      ensures k in seen <==> PathOf(RowId(bucket, k)) in Walked(s.disk, bucket)
    {
      RowIdPathInverse(RowId(bucket, k));
      if k in seen {
        var p :| p in Walked(s.disk, bucket) && KeyOf(p[1..]) == k;
        assert PathOf(RowIdOf(p)) == p;
      }
    }
    forall id | id in Orphans(s, bucket)
      ensures id in IdsOf(bucket, deletes)
    {
      assert id == RowId(bucket, id.key) && id.key in deletes;
    }
    DistinctIds(bucket, deletes);
  }

  class ObjectStore {
    const env: Env
    const store: Tables
    var disk: Tree<Blob>
    var metas: Tree<Sidecar>

    constructor (env: Env, store: Tables)
      ensures this.env == env && this.store == store
      ensures disk == Tree(map[], {[]}) && metas == Tree(map[], {[]}) && OnDisk()
    {
      this.env, this.store := env, store;
      disk, metas := Tree(map[], {[]}), Tree(map[], {[]});
    }

    ghost function Now(): State
      reads this, store
    {
      State(disk, metas, store.objects)
    }

    /** What the operating system guarantees of both trees. */
    ghost predicate OnDisk()
      reads this
    {
      disk.Wf() && metas.Wf()
    }

    // ---- bucket directories ----

    method CreateBucketDirectory(bucket: string) returns (ok: bool)
      requires OnDisk() && Plain(bucket)
      modifies this`disk
      ensures ok <==> old(disk).MkdirAll([bucket]).Some?
      ensures disk == if ok then old(disk).MkdirAll([bucket]).value else old(disk)
      ensures OnDisk()
    {
      if disk.MkdirAll([bucket]).Some? { MakeBucketWf(disk, bucket); }
      var made := disk.MkdirAll([bucket]);
      ok := made.Some?;
      if ok { disk := made.value; }
    }

    method RemoveBucketDirectory(bucket: string) returns (ok: bool)
      requires OnDisk()
      modifies this`disk
      ensures ok <==> old(disk).RemoveIfExists([bucket]).Some?
      ensures disk == if ok then old(disk).RemoveIfExists([bucket]).value else old(disk)
      ensures OnDisk()
    {
      if disk.RemoveIfExists([bucket]).Some? { RemoveBucketWf(disk, bucket); }
      var removal := disk.Remove([bucket]);
      match removal
      case Removed(tree) => disk := tree; ok := true;
      case NotExist => ok := true;
      case Refused => ok := false;
    }

    // ---- sidecars ----

    method WriteMetaFile(p: Path, meta: Sidecar) returns (ok: bool)
      requires metas.Wf() && p != []
      modifies this`metas
      ensures ok <==> ObjectState.WriteMeta(env, old(metas), p, meta).Some?
      ensures metas == if ok then ObjectState.WriteMeta(env, old(metas), p, meta).value else old(metas)
      ensures 2 <= |p| && AllPlain(p) ==> metas.Wf()
    {
      if 2 <= |p| && AllPlain(p) { WriteMetaWf(env, metas, p, meta); }
      var contentType := SanitizeOption(env, meta.contentType);
      if contentType.None? && !meta.public && meta.etag.None? {
        var removed := metas.RemoveIfExists(p);
        ok := removed.Some?;
        if ok { metas := removed.value; }
        return;
      }
      var made := metas.MkdirAll(Parent(p));
      if made.None? { return false; }
      BlockedLeavesNoTrace(metas, p);
      metas := made.value;
      var written := metas.WriteFile(p, Sidecar(contentType, meta.public, meta.etag));
      ok := written.Some?;
      if ok { metas := written.value; }
    }

    method IndexFromDiskFile(p: Path) returns (row: Option<Row>)
      requires OnDisk() && p != [] && p in disk.files
      modifies this`metas
      ensures var r := ObjectState.IndexFromDisk(env, disk, old(metas), p);
              && row == (if r.Some? then Some(r.value.1) else None)
              && metas == if r.Some? then r.value.0 else old(metas)
      ensures 2 <= |p| ==> OnDisk()
    {
      FilePathPlain(disk, p);
      var meta := ReadMeta(metas, p);
      var blob := disk.files[p];
      if meta.etag.None? {
        meta := meta.(etag := Some(env.md5(blob.bytes)));
        var ok := WriteMetaFile(p, meta);
        if !ok { return None; }
      }
      row := Some(Row(|blob.bytes|, blob.mtime, meta.etag, meta.contentType, meta.public));
    }

    // ---- requests ----

    /** The name `CreateTemp` picks is new, in the directory of the target. */
    predicate FreshTemp(bucket: string, key: string, temp: string)
      reads this`disk
    {
      match Resolve(env.blank, key)
      case None => true
      case Some(q) =>
        var t := Parent([bucket] + q) + [temp];
        Plain(temp) && TEMP_PREFIX <= temp && !disk.Has(t) && t != [bucket] + q
    }

    method PutObject(bucket: string, key: string, upload: Upload, contentType: string, public: bool, now: int,
                     temp: string)
      returns (r: Result<string, Error>)
      requires OnDisk() && Plain(bucket) && FreshTemp(bucket, key, temp)
      modifies this`disk, this`metas, store`objects
      ensures OnDisk()
      ensures (Now(), r) == ObjectState.PutObject(env, old(Now()), bucket, key, upload, contentType, public, now)
    {
      PutWf(env, Now(), bucket, key, upload, contentType, public, now);
      var resolved := Resolve(env.blank, key);
      if resolved.None? { return Failure(InvalidKey); }
      var p := [bucket] + resolved.value;
      var stored := StoreBytes(p, upload, now, temp);
      if !stored { return Failure(IoError); }
      var etag := env.md5(upload.bytes);
      var ct := SanitizeType(env, contentType);
      var ok := WriteMetaFile(p, Sidecar(ct, public, Some(etag)));
      if !ok { return Failure(IoError); }
      store.UpsertObject(RowId(bucket, key), Row(|upload.bytes|, now, Some(etag), ct, public));
      r := Success(etag);
    }

    /** Stream to a temporary file beside the target, rename it over, and remove whatever is left of it. */
    method StoreBytes(p: Path, upload: Upload, now: int, temp: string) returns (stored: bool)
      requires disk.Wf() && p != []
      requires Plain(temp) && !disk.Has(Parent(p) + [temp]) && Parent(p) + [temp] != p
      modifies this`disk
      ensures (disk, stored) == UploadFile(old(disk), p, upload, now)
    {
      var made := disk.MkdirAll(Parent(p));
      if made.None? { return false; }
      var tmp := Parent(p) + [temp];
      TempInMade(disk, p, tmp);
      disk := Tree(made.value.files[tmp := Blob([], now)], made.value.dirs);
      stored := false;
      if upload.Body? {
        disk := Tree(disk.files[tmp := Blob(upload.bytes, now)], disk.dirs);
        var renamed := disk.Rename(tmp, p);
        if renamed.Some? {
          disk := renamed.value;
          stored := true;
        }
      }
      var cleaned := disk.RemoveIfExists(tmp);
      if cleaned.Some? { disk := cleaned.value; }
      ghost var files := made.value.files;
      assert files[tmp := Blob([], now)] - {tmp} == files;
      if upload.Body? {
        assert files[tmp := Blob([], now)][tmp := Blob(upload.bytes, now)] - {tmp} == files;
      }
    }

    method StatIndexedFile(id: RowId, p: Path) returns (r: Result<Summary, Error>)
      requires OnDisk() && p != [] && p in disk.files
      modifies this`metas, store`objects
      ensures 2 <= |p| ==> OnDisk()
      ensures (Now(), r) == ObjectState.StatIndexed(env, old(Now()), id, p)
    {
      if id in store.objects {
        var row := store.objects[id];
        if row.etag.None? {
          var etag := env.md5(disk.files[p].bytes);
          row := row.(etag := Some(etag));
          store.SetObjectETag(id, etag);
        }
        return Success(SummaryOf(id.key, row));
      }
      var derived := IndexFromDiskFile(p);
      if derived.None? { return Failure(IoError); }
      store.UpsertObject(id, derived.value);
      r := Success(SummaryOf(id.key, derived.value));
    }

    method OpenObject(bucket: string, key: string) returns (r: Result<(seq<Byte>, Summary), Error>)
      requires OnDisk()
      modifies this`metas, store`objects
      ensures OnDisk()
      ensures (Now(), r) == ObjectState.OpenObject(env, old(Now()), bucket, key)
    {
      var resolved := Resolve(env.blank, key);
      if resolved.None? { return Failure(InvalidKey); }
      var p := [bucket] + resolved.value;
      if p !in disk.files {
        if p !in disk.dirs && disk.Obstructed(p) { return Failure(IoError); }
        return Failure(NoSuchKey);
      }
      var summary := StatIndexedFile(RowId(bucket, key), p);
      match summary {
        case Failure(e) => r := Failure(e);
        case Success(v) => r := Success((disk.files[p].bytes, v));
      }
    }

    method SetPublic(bucket: string, key: string, public: bool) returns (r: Result<(), Error>)
      requires OnDisk()
      modifies this`metas, store`objects
      ensures OnDisk()
      ensures (Now(), r) == ObjectState.SetPublic(env, old(Now()), bucket, key, public)
    {
      var resolved := Resolve(env.blank, key);
      if resolved.None? { return Failure(InvalidKey); }
      var p := [bucket] + resolved.value;
      var id := RowId(bucket, key);
      if p !in disk.files { return Failure(NoSuchKey); }
      FilePathPlain(disk, p);
      var ok := WriteMetaFile(p, ReadMeta(metas, p).(public := public));
      if !ok { return Failure(IoError); }
      var row: Row;
      if id in store.objects {
        row := store.objects[id];
      } else {
        var derived := IndexFromDiskFile(p);
        if derived.None? { return Failure(IoError); }
        row := derived.value;
      }
      store.UpsertObject(id, row.(public := public));
      r := Success(());
    }

    method IsPublic(bucket: string, key: string) returns (public: bool)
      ensures public == ObjectState.IsPublic(env, Now(), bucket, key)
    {
      var resolved := Resolve(env.blank, key);
      if resolved.None? { return false; }
      var id := RowId(bucket, key);
      if id in store.objects { return store.objects[id].public; }
      public := ReadMeta(metas, [bucket] + resolved.value).public;
    }

    method DeleteObject(bucket: string, key: string) returns (r: Result<(), Error>)
      requires OnDisk()
      modifies this`disk, this`metas, store`objects
      ensures OnDisk()
      ensures (Now(), r) == ObjectState.DeleteObject(env, old(Now()), bucket, key)
    {
      DeleteWf(env, Now(), bucket, key);
      var resolved := Resolve(env.blank, key);
      if resolved.None? { return Failure(InvalidKey); }
      var p := [bucket] + resolved.value;
      var unlinked := disk.RemoveIfExists(p);
      if unlinked.None? { return Failure(IoError); }
      RemovedWf(disk, p);
      disk := RemoveEmptyParents(unlinked.value, Parent(p), [bucket]);
      var cleared := metas.RemoveIfExists(p);
      if cleared.None? { return Failure(IoError); }
      RemovedWf(metas, p);
      metas := RemoveEmptyParents(cleared.value, Parent(p), [bucket]);
      store.DeleteObject(RowId(bucket, key));
      r := Success(());
    }

    // ---- reindexing and listing ----

    /** Sidecars have been completed for some of the files a pass refreshes, and for no other file. */
    ghost predicate PartlyHealed(s: State, bucket: string, force: bool)
      reads this
    {
      exists touched :: touched <= Refreshed(s, bucket, force) && metas == MetasAfter(env, s, touched)
    }

    /** Rebuilds one bucket's rows from its directory and sidecars, visiting the files in any order.
        It fails exactly when some sidecar it has to write does not fit; then no row has changed, and every
        sidecar is as it was or has had its missing ETag filled in. */
    method ReindexBucket(bucket: string, force: bool) returns (r: Result<nat, Error>)
      requires OnDisk()
      modifies this`metas, store`objects
      ensures r.Success? <==> SidecarsFit(old(Now()), bucket, force)
      ensures r.Success? ==> Now() == Reindexed(env, old(Now()), bucket, force)
                             && r.value == |Refreshed(old(Now()), bucket, force)| + |Orphans(old(Now()), bucket)|
      ensures r.Failure? ==> store.objects == old(store.objects) && PartlyHealed(old(Now()), bucket, force)
      ensures OnDisk()
    {
      hide Refreshed, NeedsRefresh, FitSoFar, SidecarsFit, MetasAfter, UpsertAll, Collected, Orphans, Reindexed,
           KeysSeen, Tree.Wf, RowIdOf;
      ghost var s := Now();
      if [bucket] !in disk.dirs {
        var n := store.DeleteBucketObjects(bucket);
        NothingWalked(env, s, bucket, force);
        ReindexedWithoutDirectory(env, s, bucket, force);
        return Success(n);
      }
      var existing := store.IndexedObjects(bucket);
      var walked := Walked(disk, bucket);
      ghost var refreshed := Refreshed(s, bucket, force);
      ToRefresh(s, bucket, force, existing);
      var ok, seen, upserts, collected := WalkFiles(walked, force, existing, refreshed);
      MetasAtEnd(env, s, bucket, force);
      if !ok { return Failure(IoError); }
      var deletes := CollectDeletes(existing, KeysSeen(seen));
      DeletesAreOrphans(s, bucket, KeysSeen(seen), deletes);
      store.ApplyIndexChanges(bucket, upserts, deletes);
      AppliedRows(env, s, bucket, force, collected);
      r := Success(|upserts| + |deletes|);
    }

    /** Where a walk stands: sidecars written and rows collected for the files in `touched`. */
    ghost predicate WalkedSoFar(s: State, touched: set<Path>, upserts: seq<(RowId, Row)>, collected: map<RowId, Row>)
      reads this
    {
      && s.disk == disk && touched <= disk.files.Keys
      && metas.Wf() && metas == MetasAfter(env, s, touched) && FitSoFar(s, touched)
      && UpsertAll(s.rows, upserts) == s.rows + collected
      && Collected(env, s, touched, collected)
      && |upserts| == |touched|
    }

    /** `indexFromDisk` on one more file of a walk in progress, its row collected. */
    method RefreshFile(p: Path, upserts: seq<(RowId, Row)>, ghost s: State, ghost touched: set<Path>,
                       ghost collected: map<RowId, Row>)
      returns (ok: bool, more: seq<(RowId, Row)>, ghost grown: map<RowId, Row>)
      requires OnDisk() && WalkedSoFar(s, touched, upserts, collected)
      requires p in disk.files && 2 <= |p| && p !in touched
      modifies this`metas
      ensures ok <==> (NeedsHash(s.metas, p) ==> s.metas.Placeable(p))
      ensures !ok ==> metas == old(metas)
      ensures ok ==> WalkedSoFar(s, touched + {p}, more, grown)
    {
      var id := RowIdOf(p);
      more, grown := upserts, collected;
      RefreshStep(env, s, touched, p);
      CollectStep(env, s, touched, p, collected);
      var row := IndexFromDiskFile(p);
      ok := row.Some?;
      if ok {
        UpsertOneMore(s.rows, upserts, collected, id, row.value);
        more, grown := upserts + [(id, row.value)], collected[id := row.value];
      }
    }

    /** One file of the walk: skipped when its row is settled, refreshed otherwise. */
    method VisitFile(p: Path, force: bool, existing: map<string, Row>, upserts: seq<(RowId, Row)>, ghost s: State,
                     ghost refreshed: set<Path>, ghost seen: set<Path>, ghost collected: map<RowId, Row>)
      returns (ok: bool, more: seq<(RowId, Row)>, ghost grown: map<RowId, Row>)
      requires OnDisk() && WalkedSoFar(s, refreshed * seen, upserts, collected)
      requires p in disk.files && 2 <= |p| && p !in seen
      requires p in refreshed <==> NeedsRefresh(disk, p, force, existing)
      modifies this`metas
      ensures ok <==> (p in refreshed && NeedsHash(s.metas, p) ==> s.metas.Placeable(p))
      ensures !ok ==> metas == old(metas)
      ensures ok ==> WalkedSoFar(s, refreshed * (seen + {p}), more, grown)
    {
      OneMore(refreshed, seen, p);
      ok, more, grown := true, upserts, collected;
      if NeedsRefresh(disk, p, force, existing) {
        ok, more, grown := RefreshFile(p, upserts, s, refreshed * seen, collected);
      }
    }

    /** The walk over `walked`, in any order: the rows of the files that need refreshing are collected. */
    method WalkFiles(walked: set<Path>, force: bool, existing: map<string, Row>, ghost refreshed: set<Path>)
      returns (ok: bool, seen: set<Path>, upserts: seq<(RowId, Row)>, ghost collected: map<RowId, Row>)
      requires OnDisk() && refreshed <= walked <= disk.files.Keys
      requires forall p :: p in walked ==> 2 <= |p|
      requires forall p :: p in walked ==> (p in refreshed <==> NeedsRefresh(disk, p, force, existing))
      modifies this`metas
      ensures ok <==> FitSoFar(old(Now()), refreshed)
      ensures ok ==> WalkedSoFar(old(Now()), refreshed, upserts, collected) && seen == walked
      ensures OnDisk() && metas == MetasAfter(env, old(Now()), refreshed * seen)
    {
      hide NeedsRefresh, NeedsHash, FitSoFar, MetasAfter, UpsertAll, Collected, Tree.Placeable, Tree.Wf, RowIdOf;
      ghost var s := Now();
      ok, seen, upserts, collected := true, {}, [], map[];
      var todo := walked;
      WalkStarts(env, s);
      assert refreshed * seen == {};
      while todo != {}
        invariant ok && todo <= walked && seen == walked - todo
        invariant WalkedSoFar(s, refreshed * seen, upserts, collected)
        decreases todo
      {
        var p :| p in todo;
        OneFewer(walked, todo, p);
        ok, upserts, collected := VisitFile(p, force, existing, upserts, s, refreshed, seen, collected);
        if !ok {
          DoesNotFit(s, refreshed, p);
          return;
        }
        todo, seen := todo - {p}, seen + {p};
      }
      NothingLeft(walked, todo, seen, refreshed);
    }

    method HealIfUnindexed(bucket: string, prefix: string, cursor: string) returns (ok: bool)
      requires OnDisk()
      modifies this`metas, store`objects
      ensures ok <==> !NeedsHealing(old(Now()), bucket, prefix, cursor) || SidecarsFit(old(Now()), bucket, false)
      ensures ok ==> Now() == BeforeListing(env, old(Now()), bucket, prefix, cursor)
      ensures !ok ==> store.objects == old(store.objects) && PartlyHealed(old(Now()), bucket, false)
      ensures OnDisk()
    {
      ok := true;
      if cursor == "" && prefix == "" {
        if RowsOf(store.objects, bucket) == {} && Walked(disk, bucket) != {} {
          var reindexed := ReindexBucket(bucket, false);
          ok := reindexed.Success?;
        }
      }
    }

    /** One page. A first, unprefixed page of a bucket that has files but no row at all reindexes it. */
    method ListObjects(bucket: string, prefix: string, limit: int, cursor: string) returns (r: Result<Page, Error>)
      requires OnDisk()
      modifies this`metas, store`objects
      ensures r.Failure?
              <==> NeedsHealing(old(Now()), bucket, prefix, cursor) && !SidecarsFit(old(Now()), bucket, false)
      ensures r.Success? ==>
                && Now() == BeforeListing(env, old(Now()), bucket, prefix, cursor)
                && r.value == PageOf(Now().rows, bucket, prefix, limit, cursor)
      ensures r.Failure? ==> store.objects == old(store.objects) && PartlyHealed(old(Now()), bucket, false)
      ensures OnDisk()
    {
      var ok := HealIfUnindexed(bucket, prefix, cursor);
      if !ok { return Failure(IoError); }
      var page := QueryPage(bucket, prefix, limit, cursor);
      r := Success(page);
    }

    method QueryPage(bucket: string, prefix: string, limit: int, cursor: string) returns (page: Page)
      ensures page == PageOf(store.objects, bucket, prefix, limit, cursor)
    {
      var n := Clamp(limit);
      var rows := Take(Sorted(Matching(store.objects, bucket, prefix, cursor)), n + 1);
      var truncated := |rows| > n;
      if truncated { rows := rows[..n]; }
      var objects := SummarizeRows(bucket, rows);
      page := Page(objects, truncated, if truncated then Some(rows[n - 1]) else None);
    }

    method SummarizeRows(bucket: string, rows: seq<string>) returns (objects: seq<Summary>)
      ensures objects == SummarizeAll(store.objects, bucket, rows)
    {
      objects := [];
      for i := 0 to |rows|
        invariant objects == SummarizeAll(store.objects, bucket, rows[..i])
      {
        SummarizeOneMore(store.objects, bucket, rows[..i], rows[i]);
        assert rows[..i + 1] == rows[..i] + [rows[i]];
        objects := objects + [Summarize(store.objects, bucket, rows[i])];
      }
      assert rows[..|rows|] == rows;
    }
  }

  lemma {:induction false} SummarizeOneMore(rows: map<RowId, Row>, bucket: string, ks: seq<string>, k: string)
    ensures SummarizeAll(rows, bucket, ks + [k]) == SummarizeAll(rows, bucket, ks) + [Summarize(rows, bucket, k)]
  {
    if ks != [] {
      SummarizeOneMore(rows, bucket, ks[1..], k);
      assert (ks + [k])[1..] == ks[1..] + [k];
    }
  }
}
