/** What requests do to the disk, seen as the map of objects it holds. */
module DiskLaws {
  import opened Wrappers
  import opened Paths
  import opened FileTree
  import opened ObjectState
  import Reference

  /** The objects on disk: a file together with its sidecar. */
  function ObjectsOf(s: State): Reference.Objects {
    map p | p in s.disk.files && p in s.metas.files ::
      Reference.Obj(s.disk.files[p].bytes, s.disk.files[p].mtime, s.metas.files[p].contentType, s.metas.files[p].public)
  }

  /** The sidecar records the MD5 of the bytes beside it, and a content type fit for a header. */
  ghost predicate Honest(env: Env, blob: Blob, meta: Sidecar) {
    && meta.etag == Some(env.md5(blob.bytes))
    && SanitizeOption(env, meta.contentType) == meta.contentType
  }

  /** What completed requests keep of the disk: two well-formed trees without empty directories,
      holding the same files, every sidecar honest. */
  ghost predicate Managed(env: Env, s: State) {
    && s.disk.Wf() && s.metas.Wf()
    && s.disk.Tidy() && s.metas.Tidy()
    && s.metas.files.Keys == s.disk.files.Keys
    && (forall p :: p in s.disk.files ==> 2 <= |p|)
    && (forall p :: p in s.disk.files ==> Honest(env, s.disk.files[p], s.metas.files[p]))
  }

  lemma SameObjects(s: State, t: State)
    requires t.disk == s.disk && t.metas == s.metas
    ensures ObjectsOf(t) == ObjectsOf(s)
  {
  }

  lemma FileIsPlaceable<T>(t: Tree<T>, p: Path)
    requires t.Wf() && p in t.files
    ensures t.Placeable(p)
  {
    assert t.Has(p);
    forall f | f in t.files
      ensures !(f < p)
    {
      if |f| < |p| { assert p[..|f|] in t.dirs && f != p[..|f|]; }
    }
  }

  lemma WriteMetaPlaces(env: Env, metas: Tree<Sidecar>, p: Path, meta: Sidecar)
    requires metas.Wf() && 2 <= |p| && AllPlain(p) && metas.Placeable(p)
    requires meta.public || meta.etag.Some?
    ensures WriteMeta(env, metas, p, meta)
            == Some(metas.Place(p, meta.(contentType := SanitizeOption(env, meta.contentType))))
  {
    PlaceWf(metas, p, meta);
    assert forall d :: d in Prefixes(Parent(p)) ==> |d| < |p|;
    assert Parent(p) == Parent(p)[..|p| - 1];
  }

  lemma BucketPathPlain(bucket: string, q: Path)
    requires Plain(bucket) && AllPlain(q)
    ensures AllPlain([bucket] + q)
  {
  }

  ghost function Stored(s: State, p: Path, blob: Blob, meta: Sidecar, rows: map<RowId, Row>): State
    requires p != []
  {
    State(s.disk.Place(p, blob), s.metas.Place(p, meta), rows)
  }

  lemma StoredManaged(env: Env, s: State, p: Path, blob: Blob, meta: Sidecar, rows: map<RowId, Row>)
    requires Managed(env, s) && 2 <= |p| && AllPlain(p) && s.disk.Placeable(p)
    requires Honest(env, blob, meta)
    ensures s.metas.Placeable(p)
    ensures Managed(env, Stored(s, p, blob, meta, rows))
  {
    PlaceableByFiles(s.disk, p);
    PlaceableByFiles(s.metas, p);
    PlaceWf(s.disk, p, blob);
    PlaceTidy(s.disk, p, blob);
    PlaceWf(s.metas, p, meta);
    PlaceTidy(s.metas, p, meta);
  }

  lemma StoredObjects(env: Env, s: State, p: Path, blob: Blob, meta: Sidecar, rows: map<RowId, Row>)
    requires p != [] && s.metas.files.Keys == s.disk.files.Keys
    ensures ObjectsOf(Stored(s, p, blob, meta, rows))
            == ObjectsOf(s)[p := Reference.Obj(blob.bytes, blob.mtime, meta.contentType, meta.public)]
    ensures ObjectsOf(s).Keys == s.disk.files.Keys
  {
  }

  /** A complete upload: the reference's PUT, or nothing at all. */
  lemma PutRefines(env: Env, s: State, bucket: string, key: string, bytes: seq<Byte>, contentType: string,
                   public: bool, now: int)
    requires Managed(env, s) && Plain(bucket)
    ensures var (after, r) := ObjectState.PutObject(env, s, bucket, key, Body(bytes), contentType, public, now);
            && Managed(env, after)
            && (ObjectsOf(after), r) == Reference.Put(env, ObjectsOf(s), bucket, key, bytes, contentType, public, now)
            && (r.Failure? ==> after == s)
            && (r.Success? ==> after.rows == s.rows[RowId(bucket, key) := Row(|bytes|, now, Some(env.md5(bytes)),
                                                    SanitizeType(env, contentType), public)])
  {
    var resolved := Resolve(env.blank, key);
    if resolved.Some? {
      var p := [bucket] + resolved.value;
      var blob := Blob(bytes, now);
      var meta := Sidecar(SanitizeType(env, contentType), public, Some(env.md5(bytes)));
      BucketPathPlain(bucket, resolved.value);
      PlaceableByFiles(s.disk, p);
      StoredObjects(env, s, p, blob, meta, s.rows);
      if s.disk.Placeable(p) {
        UploadPlaces(s.disk, p, bytes, now);
        var row := Row(|bytes|, now, meta.etag, meta.contentType, public);
        StoredManaged(env, s, p, blob, meta, s.rows[RowId(bucket, key) := row]);
        WriteMetaPlaces(env, s.metas, p, meta);
        StoredObjects(env, s, p, blob, meta, s.rows[RowId(bucket, key) := row]);
      } else {
        UploadBlocked(s.disk, p, bytes, now);
      }
    }
  }

  lemma UploadPlaces(disk: Tree<Blob>, p: Path, bytes: seq<Byte>, now: int)
    requires disk.Wf() && p != [] && AllPlain(p) && disk.Placeable(p)
    ensures UploadFile(disk, p, Body(bytes), now) == (disk.Place(p, Blob(bytes, now)), true)
  {
    PlaceWf(disk, p, Blob(bytes, now));
    assert forall d :: d in Prefixes(Parent(p)) ==> |d| < |p|;
  }

  /** A file above, or a directory at, the target: the upload fails and leaves no trace. */
  lemma UploadBlocked(disk: Tree<Blob>, p: Path, bytes: seq<Byte>, now: int)
    requires disk.Wf() && p != [] && !disk.Placeable(p)
    ensures UploadFile(disk, p, Body(bytes), now) == (disk, false)
  {
    ObstructedAbove(disk, p);
    if !disk.Obstructed(p) {
      assert disk.Has(p);
      forall d | d in Prefixes(Parent(p))
        ensures d in disk.dirs
      {
        assert d == p[..|d|];
      }
      assert disk.dirs + Prefixes(Parent(p)) == disk.dirs;
      assert Parent(p) == p[..|p| - 1];
    }
  }

  // ---- deleting ----

  ghost function Erased(s: State, p: Path, rows: map<RowId, Row>): State
    requires p != []
  {
    State(Tree(s.disk.files - {p}, s.disk.dirs).Pruned(Parent(p)),
          Tree(s.metas.files - {p}, s.metas.dirs).Pruned(Parent(p)), rows)
  }

  lemma ErasedTree<T>(t: Tree<T>, p: Path)
    requires t.Wf() && t.Tidy() && p in t.files && p != []
    ensures var u := Tree(t.files - {p}, t.dirs).Pruned(Parent(p));
            u.Wf() && u.Tidy() && u.files == t.files - {p}
  {
    RemoveFileWf(t, p);
    PrunedWf(Tree(t.files - {p}, t.dirs), Parent(p));
    DeleteTidy(t, p);
  }

  lemma ErasedManaged(env: Env, s: State, p: Path, rows: map<RowId, Row>)
    requires Managed(env, s) && p in s.disk.files
    ensures Managed(env, Erased(s, p, rows))
    ensures ObjectsOf(Erased(s, p, rows)) == ObjectsOf(s) - {p}
  {
    ErasedTree(s.disk, p);
    ErasedTree(s.metas, p);
  }

  /** A key that is no file, in a tidy tree: absent when placeable, refused otherwise. */
  lemma RemoveAbsent<T>(t: Tree<T>, p: Path)
    requires t.Wf() && t.Tidy() && 2 <= |p| && p !in t.files
    ensures t.RemoveIfExists(p) == if t.Placeable(p) then Some(t) else None
  {
    if p in t.dirs {
      assert t.HasFileBelow(p);
      var f :| f in t.files && p < f;
      assert f in t.files.Keys + t.dirs;
    }
  }

  /** DELETE is the reference's DELETE, directories cleaned up behind it. */
  lemma DeleteRefines(env: Env, s: State, bucket: string, key: string)
    requires Managed(env, s) && Plain(bucket)
    ensures var (after, r) := ObjectState.DeleteObject(env, s, bucket, key);
            && Managed(env, after)
            && (ObjectsOf(after), r) == Reference.Delete(env, ObjectsOf(s), bucket, key)
            && (r.Failure? ==> after == s)
            && (r.Success? ==> after.rows == s.rows - {RowId(bucket, key)})
  {
    var resolved := Resolve(env.blank, key);
    if resolved.Some? {
      var p := [bucket] + resolved.value;
      PlaceableByFiles(s.disk, p);
      PlaceableByFiles(s.metas, p);
      assert ObjectsOf(s).Keys == s.disk.files.Keys;
      if p in s.disk.files {
        FileIsPlaceable(s.disk, p);
        ErasedManaged(env, s, p, s.rows - {RowId(bucket, key)});
      } else {
        RemoveAbsent(s.disk, p);
        RemoveAbsent(s.metas, p);
        PrunedNothing(s.disk, Parent(p));
        PrunedNothing(s.metas, Parent(p));
        assert ObjectsOf(s) - {p} == ObjectsOf(s);
      }
    }
  }

  // ---- aborted uploads ----

  /** A broken-off upload stores nothing, but keeps the disk tidy only when the directory the key
      lives in was already there (or is the bucket root, or could not be created at all). */
  lemma AbortKeepsTidyIff(env: Env, s: State, bucket: string, key: string, contentType: string, public: bool,
                          now: int, q: Path)
    requires Managed(env, s) && Plain(bucket) && Resolve(env.blank, key) == Some(q)
    ensures var (after, r) := ObjectState.PutObject(env, s, bucket, key, Aborted, contentType, public, now);
            var dir := Parent([bucket] + q);
            && r == Failure(IoError)
            && ObjectsOf(after) == ObjectsOf(s) && after.rows == s.rows
            && (Managed(env, after) <==> |q| == 1 || dir in s.disk.dirs || s.disk.MkdirAll(dir).None?)
  {
    var (after, r) := ObjectState.PutObject(env, s, bucket, key, Aborted, contentType, public, now);
    var p := [bucket] + q;
    var dir := Parent(p);
    BucketPathPlain(bucket, q);
    if s.disk.MkdirAll(dir).Some? {
      assert after.disk == Tree(s.disk.files, s.disk.dirs + Prefixes(dir));
      MkdirWf(s.disk, dir);
      assert dir == dir[..|dir|];
      assert dir in after.disk.dirs;
      if dir in s.disk.dirs {
        DirPrefixes(s.disk, dir);
      } else if |q| > 1 {
        assert !after.disk.HasFileBelow(dir) by { NothingBelowMissing(s.disk, dir); }
      } else {
        assert forall d :: d in Prefixes(dir) ==> |d| <= 1;
        assert forall d :: d in s.disk.dirs && s.disk.HasFileBelow(d) ==> after.disk.HasFileBelow(d);
      }
    }
  }

  lemma DirPrefixes<T>(t: Tree<T>, d: Path)
    requires t.Wf() && d in t.dirs
    ensures t.dirs + Prefixes(d) == t.dirs
  {
    forall e | e in Prefixes(d)
      ensures e in t.dirs
    {
      assert t.Has(d) && e == d[..|e|];
      assert |e| == |d| ==> e == d;
    }
  }

  lemma NothingBelowMissing<T>(t: Tree<T>, d: Path)
    requires t.Wf() && d !in t.dirs
    ensures !t.HasFileBelow(d)
  {
    forall f | f in t.files
      ensures !(d < f)
    {
      assert t.Has(f);
      if |d| < |f| { assert f[..|d|] in t.dirs && d != f[..|d|]; }
    }
  }

  lemma MkdirWf<T>(t: Tree<T>, d: Path)
    requires t.Wf() && AllPlain(d) && t.MkdirAll(d).Some?
    ensures t.MkdirAll(d).value.Wf()
  {
    var u := t.MkdirAll(d).value;
    forall n: nat | n <= |d|
      ensures d[..n] !in t.files && d[..n] in u.dirs
    {
      assert d[..n] < d || d[..n] == d;
    }
    forall q, n: nat | u.Has(q) && n < |q|
      ensures q[..n] in u.dirs
    {
      if t.Has(q) {
      } else {
        assert q == d[..|q|] && q[..n] == d[..n];
      }
    }
    forall q | u.Has(q)
      ensures AllPlain(q)
    {
      if !t.Has(q) { assert forall x :: x in q ==> x in d; }
    }
  }

  /** Deleting the key of a broken-off upload removes the directories it left behind. */
  lemma DeleteHealsAbort(env: Env, s: State, bucket: string, key: string, contentType: string, public: bool, now: int)
    requires Managed(env, s) && Plain(bucket)
    ensures var aborted := ObjectState.PutObject(env, s, bucket, key, Aborted, contentType, public, now).0;
            var (after, r) := ObjectState.DeleteObject(env, aborted, bucket, key);
            && Managed(env, after)
            && (ObjectsOf(after), r) == Reference.Delete(env, ObjectsOf(s), bucket, key)
  {
    var aborted := ObjectState.PutObject(env, s, bucket, key, Aborted, contentType, public, now).0;
    var resolved := Resolve(env.blank, key);
    DeleteRefines(env, s, bucket, key);
    if resolved.Some? && aborted != s {
      var p := [bucket] + resolved.value;
      var dir := Parent(p);
      BucketPathPlain(bucket, resolved.value);
      AbortKeepsTidyIff(env, s, bucket, key, contentType, public, now, resolved.value);
      MkdirWf(s.disk, dir);
      if dir in s.disk.dirs {
        DirPrefixes(s.disk, dir);
      } else if |resolved.value| > 1 {
        MkdirThenRemove(s.disk, p);
        RemoveAbsent(s.metas, p);
        PlaceableByFiles(s.disk, p);
        PlaceableByFiles(s.metas, p);
        PrunedNothing(s.metas, dir);
        PruneUndoesMkdir(s.disk, dir);
        assert ObjectsOf(s) - {p} == ObjectsOf(s);
      } else {
        DeleteRefines(env, aborted, bucket, key);
      }
    }
  }

  lemma ParentIsAbove(p: Path, q: Path)
    requires p != []
    ensures p < q ==> Parent(p) < q
  {
  }

  lemma MissingParent<T>(t: Tree<T>, p: Path)
    requires t.Wf() && p != [] && Parent(p) !in t.dirs
    ensures !t.Has(p) && !t.HasEntries(p)
    ensures t.Obstructed(p) <==> Parent(p) in t.files || t.Obstructed(Parent(p))
  {
    assert Parent(p) == p[..|p| - 1];
    forall q | t.Has(q)
      ensures !(Parent(p) < q)
    {
      if |p| <= |q| { assert q[..|p| - 1] in t.dirs && q[..|p| - 1] != Parent(p); }
    }
    forall q | q in t.files.Keys + t.dirs
      ensures !(p < q)
    {
      assert t.Has(q);
      ParentIsAbove(p, q);
    }
    ObstructedAbove(t, p);
  }

  lemma MkdirThenRemove<T>(t: Tree<T>, p: Path)
    requires t.Wf() && p != [] && Parent(p) !in t.dirs && t.MkdirAll(Parent(p)).Some?
    ensures var m := t.MkdirAll(Parent(p)).value;
            m.RemoveIfExists(p) == Some(m) && t.Placeable(p) && p !in t.files
  {
    MissingParent(t, p);
    assert forall d :: d in Prefixes(Parent(p)) ==> |d| < |p|;
  }

  lemma PruneUndoesMkdir<T>(t: Tree<T>, d: Path)
    requires t.Wf() && t.Tidy() && AllPlain(d) && t.MkdirAll(d).Some? && d !in t.dirs
    ensures var u := t.MkdirAll(d).value.Pruned(d);
            u.Wf() && u.Tidy() && u.files == t.files
  {
    var m := t.MkdirAll(d).value;
    var u := m.Pruned(d);
    MkdirWf(t, d);
    PrunedWf(m, d);
    assert d == d[..|d|];
    forall e | e in u.dirs && 2 <= |e|
      ensures u.HasFileBelow(e)
    {
      if e !in t.dirs {
        forall q | m.Has(q)
          ensures e < q ==> q in m.dirs && q <= d
        {
          if t.Has(q) && |e| < |q| { assert q[..|e|] in t.dirs && q[..|e|] != e; }
        }
        assert m.Prunable(e, d);
      }
      assert t.HasFileBelow(e);
      var f :| f in t.files && e < f;
      assert f in u.files;
    }
  }
}
