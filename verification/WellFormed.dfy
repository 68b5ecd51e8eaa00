/** Every request, complete or failed, leaves two well-formed trees. */
module WellFormed {
  import opened Wrappers
  import opened Paths
  import opened FileTree
  import opened ObjectState
  import opened DiskLaws
  import opened IndexLaws
  import opened ReindexProgress

  /** What the operating system guarantees of both trees. */
  ghost predicate TreesWf(s: State) {
    s.disk.Wf() && s.metas.Wf()
  }

  lemma RemovedWf<T>(t: Tree<T>, p: Path)
    requires t.Wf() && p != [] && t.RemoveIfExists(p).Some?
    ensures t.RemoveIfExists(p).value.Wf() && Parent(p) !in t.RemoveIfExists(p).value.files
  {
    assert Parent(p) < p;
    if p in t.files {
      RemoveFileWf(t, p);
      FileIsPlaceable(t, p);
    } else if p in t.dirs {
      RemoveEmptyDirWf(t, p);
      DirIsNotObstructed(t, p);
    }
  }

  lemma BlockedLeavesNoTrace<T>(t: Tree<T>, p: Path)
    requires t.Wf() && p != []
    ensures p in t.dirs ==> t.dirs + Prefixes(Parent(p)) == t.dirs
    ensures p !in Prefixes(Parent(p)) && Parent(p) in Prefixes(Parent(p))
  {
    assert Parent(p) == Parent(p)[..|p| - 1];
    assert forall d :: d in Prefixes(Parent(p)) ==> |d| < |p|;
    if p in t.dirs {
      assert t.Has(p) && Parent(p) == p[..|p| - 1];
      DirPrefixes(t, Parent(p));
    }
  }

  lemma WriteMetaWf(env: Env, metas: Tree<Sidecar>, p: Path, meta: Sidecar)
    requires metas.Wf() && 2 <= |p| && AllPlain(p)
    ensures WriteMeta(env, metas, p, meta).Some? ==> WriteMeta(env, metas, p, meta).value.Wf()
  {
    var clean := meta.(contentType := SanitizeOption(env, meta.contentType));
    if clean == NO_SIDECAR {
      if metas.RemoveIfExists(p).Some? { RemovedWf(metas, p); }
    } else if WriteMeta(env, metas, p, meta).Some? {
      BlockedLeavesNoTrace(metas, p);
      if !metas.Placeable(p) {
        WriteMetaBlocked(env, metas, p, clean.(etag := Some("")));
      }
      PlaceWf(metas, p, clean);
    }
  }

  lemma UploadWf(disk: Tree<Blob>, p: Path, upload: Upload, now: int)
    requires disk.Wf() && p != [] && AllPlain(p)
    ensures UploadFile(disk, p, upload, now).0.Wf()
  {
    ObstructedAbove(disk, p);
    if disk.MkdirAll(Parent(p)).Some? {
      MkdirWf(disk, Parent(p));
      if disk.Placeable(p) { PlaceWf(disk, p, Blob(if upload.Body? then upload.bytes else [], now)); }
    }
  }

  lemma PutWf(env: Env, s: State, bucket: string, key: string, upload: Upload, contentType: string, public: bool,
              now: int)
    requires TreesWf(s) && Plain(bucket)
    ensures TreesWf(ObjectState.PutObject(env, s, bucket, key, upload, contentType, public, now).0)
  {
    hide Tree.Wf, UploadFile, WriteMeta, Resolve;
    var resolved := Resolve(env.blank, key);
    if resolved.Some? {
      var p := [bucket] + resolved.value;
      BucketPathPlain(bucket, resolved.value);
      UploadWf(s.disk, p, upload, now);
      if upload.Body? {
        WriteMetaWf(env, s.metas, p, Sidecar(SanitizeType(env, contentType), public, Some(env.md5(upload.bytes))));
      }
      AbortedStoresNothing(s.disk, p, upload, now);
    }
  }

  lemma AbortedStoresNothing(disk: Tree<Blob>, p: Path, upload: Upload, now: int)
    requires p != []
    ensures UploadFile(disk, p, upload, now).1 ==> upload.Body?
  {
  }

  lemma FilePathPlain<T>(t: Tree<T>, p: Path)
    requires t.Wf() && p in t.files
    ensures AllPlain(p)
  {
    assert t.Has(p);
  }

  lemma IndexFromDiskWf(env: Env, disk: Tree<Blob>, metas: Tree<Sidecar>, p: Path)
    requires metas.Wf() && 2 <= |p| && AllPlain(p) && p in disk.files
    ensures IndexFromDisk(env, disk, metas, p).Some? ==> IndexFromDisk(env, disk, metas, p).value.0.Wf()
  {
    hide Tree.Wf, WriteMeta;
    var meta := ReadMeta(metas, p);
    WriteMetaWf(env, metas, p, meta.(etag := DerivedRow(env, disk.files[p], meta).etag));
  }

  lemma OpenWf(env: Env, s: State, bucket: string, key: string)
    requires TreesWf(s)
    ensures TreesWf(ObjectState.OpenObject(env, s, bucket, key).0)
  {
    hide Tree.Wf, IndexFromDisk, Resolve;
    var resolved := Resolve(env.blank, key);
    if resolved.Some? {
      var p := [bucket] + resolved.value;
      if p in s.disk.files {
        FilePathPlain(s.disk, p);
        IndexFromDiskWf(env, s.disk, s.metas, p);
      }
    }
  }

  lemma SetPublicWf(env: Env, s: State, bucket: string, key: string, public: bool)
    requires TreesWf(s)
    ensures TreesWf(ObjectState.SetPublic(env, s, bucket, key, public).0)
  {
    hide Tree.Wf, WriteMeta, IndexFromDisk, Resolve;
    var resolved := Resolve(env.blank, key);
    if resolved.Some? {
      var p := [bucket] + resolved.value;
      if p in s.disk.files {
        FilePathPlain(s.disk, p);
        var meta := ReadMeta(s.metas, p).(public := public);
        WriteMetaWf(env, s.metas, p, meta);
        if WriteMeta(env, s.metas, p, meta).Some? {
          IndexFromDiskWf(env, s.disk, WriteMeta(env, s.metas, p, meta).value, p);
        }
      }
    }
  }

  lemma DeleteWf(env: Env, s: State, bucket: string, key: string)
    requires TreesWf(s)
    ensures TreesWf(ObjectState.DeleteObject(env, s, bucket, key).0)
  {
    hide Tree.Wf, Tree.RemoveIfExists, Tree.Pruned, Resolve;
    var resolved := Resolve(env.blank, key);
    if resolved.Some? {
      var p := [bucket] + resolved.value;
      if s.disk.RemoveIfExists(p).Some? {
        RemovedWf(s.disk, p);
        PrunedWf(s.disk.RemoveIfExists(p).value, Parent(p));
      }
      if s.metas.RemoveIfExists(p).Some? {
        RemovedWf(s.metas, p);
        PrunedWf(s.metas.RemoveIfExists(p).value, Parent(p));
      }
    }
  }

  lemma RemoveBucketWf(disk: Tree<Blob>, bucket: string)
    requires disk.Wf() && disk.RemoveIfExists([bucket]).Some?
    ensures disk.RemoveIfExists([bucket]).value.Wf()
  {
    RemovedWf(disk, [bucket]);
  }

  lemma MakeBucketWf(disk: Tree<Blob>, bucket: string)
    requires disk.Wf() && Plain(bucket) && disk.MkdirAll([bucket]).Some?
    ensures disk.MkdirAll([bucket]).value.Wf()
  {
    MkdirWf(disk, [bucket]);
  }
}
