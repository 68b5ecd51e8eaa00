/** Buckets on disk: isolation between them, and their deletion and re-creation. */
module BucketLaws {
  import opened Wrappers
  import opened Paths
  import opened FileTree
  import opened ObjectState
  import opened DiskLaws
  import opened ReindexLaws
  import Reference

  // ---- isolation ----

  /** Nothing of `t` outside `bucket` differs from `u`. */
  ghost predicate SameElsewhere<T>(t: Tree<T>, u: Tree<T>, bucket: string) {
    forall p :: p != [] && p[0] != bucket ==>
      && (p in t.dirs <==> p in u.dirs)
      && (p in t.files <==> p in u.files)
      && (p in t.files ==> t.files[p] == u.files[p])
  }

  ghost predicate Isolated(s: State, t: State, bucket: string) {
    && SameElsewhere(s.disk, t.disk, bucket)
    && SameElsewhere(s.metas, t.metas, bucket)
    && (forall id: RowId :: id.bucket != bucket ==>
          && (id in s.rows <==> id in t.rows)
          && (id in s.rows ==> s.rows[id] == t.rows[id]))
  }

  lemma PrefixesStayInBucket(d: Path, bucket: string, e: Path)
    requires d != [] && d[0] == bucket && e in Prefixes(d)
    ensures e == [] || e[0] == bucket
  {
  }

  lemma WriteMetaIsolated(env: Env, metas: Tree<Sidecar>, p: Path, meta: Sidecar)
    requires 2 <= |p| && WriteMeta(env, metas, p, meta).Some?
    ensures SameElsewhere(metas, WriteMeta(env, metas, p, meta).value, p[0])
  {
    forall e | e in Prefixes(Parent(p))
      ensures e == [] || e[0] == p[0]
    {
      PrefixesStayInBucket(Parent(p), p[0], e);
    }
  }

  lemma UploadIsolated(disk: Tree<Blob>, p: Path, upload: Upload, now: int)
    requires 2 <= |p|
    ensures SameElsewhere(disk, UploadFile(disk, p, upload, now).0, p[0])
  {
    forall e | e in Prefixes(Parent(p))
      ensures e == [] || e[0] == p[0]
    {
      PrefixesStayInBucket(Parent(p), p[0], e);
    }
  }

  lemma RemoveIsolated<T>(t: Tree<T>, p: Path)
    requires 2 <= |p| && t.RemoveIfExists(p).Some?
    ensures SameElsewhere(t, t.RemoveIfExists(p).value.Pruned(Parent(p)), p[0])
  {
  }

  /** Whatever key a request names, on whatever state, it leaves every other bucket's files, sidecars,
      directories and rows exactly as they were. */
  lemma RequestsAreIsolated(env: Env, s: State, bucket: string, key: string, upload: Upload, contentType: string,
                            public: bool, now: int)
    ensures Isolated(s, ObjectState.PutObject(env, s, bucket, key, upload, contentType, public, now).0, bucket)
    ensures Isolated(s, ObjectState.OpenObject(env, s, bucket, key).0, bucket)
    ensures Isolated(s, ObjectState.SetPublic(env, s, bucket, key, public).0, bucket)
    ensures Isolated(s, ObjectState.DeleteObject(env, s, bucket, key).0, bucket)
  {
    var resolved := Resolve(env.blank, key);
    if resolved.Some? {
      var p := [bucket] + resolved.value;
      PutIsolated(env, s, bucket, key, upload, contentType, public, now);
      OpenIsolated(env, s, bucket, key);
      AclIsolated(env, s, bucket, key, public);
      if s.disk.RemoveIfExists(p).Some? { RemoveIsolated(s.disk, p); }
      if s.metas.RemoveIfExists(p).Some? { RemoveIsolated(s.metas, p); }
    }
  }

  lemma PutIsolated(env: Env, s: State, bucket: string, key: string, upload: Upload, contentType: string,
                    public: bool, now: int)
    ensures Isolated(s, ObjectState.PutObject(env, s, bucket, key, upload, contentType, public, now).0, bucket)
  {
    var resolved := Resolve(env.blank, key);
    if resolved.Some? {
      var p := [bucket] + resolved.value;
      UploadIsolated(s.disk, p, upload, now);
      if upload.Body? {
        var meta := Sidecar(SanitizeType(env, contentType), public, Some(env.md5(upload.bytes)));
        if WriteMeta(env, s.metas, p, meta).Some? { WriteMetaIsolated(env, s.metas, p, meta); }
      }
    }
  }

  lemma IndexFromDiskIsolated(env: Env, disk: Tree<Blob>, metas: Tree<Sidecar>, p: Path)
    requires 2 <= |p| && p in disk.files && IndexFromDisk(env, disk, metas, p).Some?
    ensures SameElsewhere(metas, IndexFromDisk(env, disk, metas, p).value.0, p[0])
  {
    var meta := ReadMeta(metas, p);
    if meta.etag.None? {
      WriteMetaIsolated(env, metas, p, meta.(etag := DerivedRow(env, disk.files[p], meta).etag));
    }
  }

  lemma OpenIsolated(env: Env, s: State, bucket: string, key: string)
    ensures Isolated(s, ObjectState.OpenObject(env, s, bucket, key).0, bucket)
  {
    var resolved := Resolve(env.blank, key);
    if resolved.Some? {
      var p := [bucket] + resolved.value;
      if p in s.disk.files && IndexFromDisk(env, s.disk, s.metas, p).Some? {
        IndexFromDiskIsolated(env, s.disk, s.metas, p);
      }
    }
  }

  lemma AclIsolated(env: Env, s: State, bucket: string, key: string, public: bool)
    ensures Isolated(s, ObjectState.SetPublic(env, s, bucket, key, public).0, bucket)
  {
    var resolved := Resolve(env.blank, key);
    if resolved.Some? {
      var p := [bucket] + resolved.value;
      var meta := ReadMeta(s.metas, p).(public := public);
      if p in s.disk.files && WriteMeta(env, s.metas, p, meta).Some? {
        var flipped := WriteMeta(env, s.metas, p, meta).value;
        WriteMetaIsolated(env, s.metas, p, meta);
        if IndexFromDisk(env, s.disk, flipped, p).Some? {
          IndexFromDiskIsolated(env, s.disk, flipped, p);
        }
      }
    }
  }

  lemma ReindexIsIsolated(env: Env, s: State, bucket: string, force: bool)
    requires s.disk.Wf()
    ensures Isolated(s, Reindexed(env, s, bucket, force), bucket)
  {
    forall id: RowId | id.bucket != bucket
      ensures id in s.rows <==> id in Reindexed(env, s, bucket, force).rows
      ensures id in s.rows ==> s.rows[id] == Reindexed(env, s, bucket, force).rows[id]
    {
      ReindexedKeys(env, s, bucket, force, id);
    }
    forall d | d in NewMetaDirs(s, bucket, force)
      ensures d == [] || d[0] == bucket
    {
      var p :| p in Refreshed(s, bucket, force) && p != [] && d in Prefixes(Parent(p));
      PrefixesStayInBucket(Parent(p), bucket, d);
    }
  }

  // ---- deleting and re-creating a bucket ----

  ghost predicate NoObjectsIn(o: Reference.Objects, bucket: string) {
    forall p :: p in o ==> p == [] || p[0] != bucket
  }

  /** A bucket can be deleted exactly when it holds no object: no directory is ever left to block it. */
  lemma DeletableIffNoObjects(env: Env, s: State, bucket: string)
    requires Managed(env, s) && Plain(bucket)
    ensures DropBucket(s, bucket).Some? <==> NoObjectsIn(ObjectsOf(s), bucket)
  {
    DropIs(s, bucket);
    assert ObjectsOf(s).Keys == s.disk.files.Keys;
    if NoObjectsIn(ObjectsOf(s), bucket) {
      forall q | q in s.disk.files.Keys + s.disk.dirs
        ensures !([bucket] < q)
      {
        if q in s.disk.dirs && 2 <= |q| {
          assert s.disk.HasFileBelow(q);
          var f :| f in s.disk.files && q < f;
          assert f[0] == q[0];
        }
      }
    } else {
      var p :| p in ObjectsOf(s) && p != [] && p[0] == bucket;
      assert s.disk.Has(p) && p[..1] == [bucket] && p in s.disk.files.Keys + s.disk.dirs && [bucket] < p;
    }
  }

  /** A new bucket directory is there, and nothing else is. */
  lemma CreatedIs(s: State, bucket: string)
    ensures CreateBucketDirectory(s, bucket).Some? ==>
              var t := CreateBucketDirectory(s, bucket).value;
              && t.disk.files == s.disk.files && t.metas == s.metas && t.rows == s.rows
              && t.disk.dirs == s.disk.dirs + {[], [bucket]}
  {
    assert Prefixes([bucket]) == {[], [bucket]} by {
      assert [bucket][..0] == [] && [bucket][..1] == [bucket];
    }
  }

  /** What dropping an empty bucket does to a well-formed disk. */
  lemma DropIs(s: State, bucket: string)
    requires s.disk.Wf() && [bucket] !in s.disk.files
    ensures !s.disk.Obstructed([bucket])
    ensures DropBucket(s, bucket)
            == if [bucket] in s.disk.dirs && s.disk.HasEntries([bucket]) then None
               else Some(State(Tree(s.disk.files, s.disk.dirs - {[bucket]}), s.metas, WithoutRows(s.rows, bucket)))
  {
    forall f | f in s.disk.files
      ensures !(f < [bucket])
    {
      assert f < [bucket] ==> f == [];
    }
    if [bucket] !in s.disk.dirs { assert s.disk.dirs - {[bucket]} == s.disk.dirs; }
  }

  lemma DropKeepsManaged(env: Env, s: State, bucket: string)
    requires Managed(env, s) && Plain(bucket) && DropBucket(s, bucket).Some?
    ensures var after := DropBucket(s, bucket).value;
            && Managed(env, after) && ObjectsOf(after) == ObjectsOf(s)
            && NoObjectsIn(ObjectsOf(s), bucket)
  {
    DeletableIffNoObjects(env, s, bucket);
    DropIs(s, bucket);
    var after := DropBucket(s, bucket).value;
    if [bucket] in s.disk.dirs {
      RemoveEmptyDirWf(s.disk, [bucket]);
    } else {
      assert s.disk.dirs - {[bucket]} == s.disk.dirs;
    }
    forall d | d in after.disk.dirs && 2 <= |d|
      ensures after.disk.HasFileBelow(d)
    {
      assert s.disk.HasFileBelow(d);
    }
  }

  lemma MakeKeepsManaged(env: Env, s: State, bucket: string)
    requires Managed(env, s) && Plain(bucket)
    ensures CreateBucketDirectory(s, bucket).Some?
    ensures var after := CreateBucketDirectory(s, bucket).value;
            Managed(env, after) && ObjectsOf(after) == ObjectsOf(s) && after.rows == s.rows
  {
    forall f | f in s.disk.files
      ensures f != [bucket] && !(f < [bucket])
    {
    }
    MkdirWf(s.disk, [bucket]);
    var after := CreateBucketDirectory(s, bucket).value;
    forall d | d in after.disk.dirs && 2 <= |d|
      ensures after.disk.HasFileBelow(d)
    {
      assert d in s.disk.dirs && s.disk.HasFileBelow(d);
    }
  }

  /** Deleting a bucket and creating it again under the same name starts from nothing: its listing is
      empty and no key of it is public, whatever was there before. */
  lemma RecreatedBucketIsBlank(env: Env, s: State, bucket: string, key: string, prefix: string, limit: int,
                               cursor: string)
    requires Managed(env, s) && Plain(bucket) && DropBucket(s, bucket).Some?
    ensures var again := CreateBucketDirectory(DropBucket(s, bucket).value, bucket);
            && again.Some?
            && !ObjectState.IsPublic(env, again.value, bucket, key)
            && PageOf(again.value.rows, bucket, prefix, limit, cursor) == Page([], false, None)
            && ObjectState.OpenObject(env, again.value, bucket, key).1.Failure?
  {
    var dropped := DropBucket(s, bucket).value;
    DropKeepsManaged(env, s, bucket);
    MakeKeepsManaged(env, dropped, bucket);
    var again := CreateBucketDirectory(dropped, bucket).value;
    assert Matching(again.rows, bucket, prefix, cursor) == {};
    assert ObjectsOf(again).Keys == again.disk.files.Keys;
    var resolved := Resolve(env.blank, key);
    if resolved.Some? {
      assert ([bucket] + resolved.value)[0] == bucket;
    }
  }
}
