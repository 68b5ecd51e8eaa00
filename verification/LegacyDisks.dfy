/** Disks this server did not write itself: any well-formed trees, sidecars missing or of an older form. Their index
    is right when every row is what its file and sidecar determine, and this says which requests keep it so. */
module LegacyDisks {
  import opened Wrappers
  import opened Paths
  import opened FileTree
  import opened ObjectState
  import opened DiskLaws
  import opened IndexLaws
  import opened ReindexLaws
  import opened ReindexProgress
  import opened BucketLaws
  import opened WellFormed

  // ---- one file and one row change ----

  /** Outside `p` the two states have the same files and sidecars. */
  ghost predicate SameButAt(s: State, t: State, p: Path) {
    forall r :: r != p ==>
      && (r in t.disk.files <==> r in s.disk.files)
      && (r in s.disk.files ==> t.disk.files[r] == s.disk.files[r])
      && ReadMeta(t.metas, r) == ReadMeta(s.metas, r)
  }

  /** The one row that does not fit what the disk says about `id`. */
  predicate Fits(env: Env, s: State, id: RowId) {
    && (id in s.rows <==> PathOf(id) in Walked(s.disk, id.bucket))
    && (id in s.rows ==> s.rows[id] == DerivedRow(env, s.disk.files[PathOf(id)], ReadMeta(s.metas, PathOf(id))))
  }

  lemma MatchesIsFits(env: Env, s: State, bucket: string)
    ensures MatchesDisk(env, s, bucket) <==> forall id: RowId :: id.bucket == bucket ==> Fits(env, s, id)
  {
  }

  lemma FitsElsewhere(env: Env, s: State, t: State, p: Path, id: RowId)
    requires SameButAt(s, t, p) && PathOf(id) != p && (id in s.rows <==> id in t.rows)
    requires id in s.rows ==> s.rows[id] == t.rows[id]
    ensures Fits(env, s, id) <==> Fits(env, t, id)
  {
    hide PathOf, ReadMeta;
  }

  /** A key the walk would spell otherwise names no walked file. */
  lemma MisspeltIsNotWalked(disk: Tree<Blob>, id: RowId)
    requires disk.Wf() && !WalkSpelling(id.key)
    ensures PathOf(id) !in Walked(disk, id.bucket)
  {
    PlainPathIsTarget(id);
    if PathOf(id) in disk.files {
      FilePathPlain(disk, PathOf(id));
      VisibleKey(id);
    }
  }

  lemma VisibleKey(id: RowId)
    ensures Canonical(id.key) ==> (Visible(PathOf(id)) <==> Visible(CleanKey(id.key)))
  {
    if Canonical(id.key) { PlainPathIsTarget(id); }
  }

  lemma MisspeltRowBreaks(env: Env, t: State, id: RowId)
    requires t.disk.Wf() && !WalkSpelling(id.key) && id in t.rows
    ensures !MatchesDisk(env, t, id.bucket)
  {
    hide PathOf, Walked, WalkSpelling;
    MisspeltIsNotWalked(t.disk, id);
  }

  /** A file is written and one row beside it: the index is right if and only if the key is spelled as the walk
      spells it and the row is the derived one. */
  lemma UpsertMatchesIff(env: Env, s: State, t: State, id: RowId, row: Row)
    requires s.disk.Wf() && t.disk.Wf() && MatchesDisk(env, s, id.bucket)
    requires CleanKey(id.key) != [] && Target(id) in t.disk.files
    requires SameButAt(s, t, Target(id)) && t.rows == s.rows[id := row]
    ensures MatchesDisk(env, t, id.bucket)
            <==> WalkSpelling(id.key) && row == DerivedRow(env, t.disk.files[Target(id)], ReadMeta(t.metas, Target(id)))
  {
    hide PathOf, Walked, WalkSpelling, Target, ReadMeta, SameButAt, Tree.Wf;
    if WalkSpelling(id.key) {
      WalkedTarget(t.disk, id);
      MatchesIsFits(env, s, id.bucket);
      MatchesIsFits(env, t, id.bucket);
      forall other: RowId | other.bucket == id.bucket && other != id
        ensures Fits(env, t, other)
      {
        if PathOf(other) == PathOf(id) { SameTarget(other, id); }
        FitsElsewhere(env, s, t, Target(id), other);
      }
    } else {
      MisspeltRowBreaks(env, t, id);
    }
  }

  lemma WalkedTarget(disk: Tree<Blob>, id: RowId)
    requires WalkSpelling(id.key) && CleanKey(id.key) != []
    ensures PathOf(id) == Target(id) && (Target(id) in Walked(disk, id.bucket) <==> Target(id) in disk.files)
  {
    PlainPathIsTarget(id);
    VisibleTarget(id);
  }

  /** A file goes and one row with it: the index is right if and only if the key is canonical or named no walked
      file. */
  lemma DropMatchesIff(env: Env, s: State, t: State, id: RowId)
    requires s.disk.Wf() && t.disk.Wf() && MatchesDisk(env, s, id.bucket)
    requires CleanKey(id.key) != [] && Target(id) !in t.disk.files
    requires SameButAt(s, t, Target(id)) && t.rows == s.rows - {id}
    ensures MatchesDisk(env, t, id.bucket) <==> Canonical(id.key) || Target(id) !in Walked(s.disk, id.bucket)
  {
    hide PathOf, Target, ReadMeta, SameButAt, Tree.Wf, Canonical, Walked;
    var p := Target(id);
    MatchesIsFits(env, s, id.bucket);
    MatchesIsFits(env, t, id.bucket);
    PlainPathIsTarget(id);
    NotWalkedWithoutFile(t.disk, id.bucket, p);
    forall other: RowId | other.bucket == id.bucket && PathOf(other) != p && (other != id || id !in s.rows)
      ensures Fits(env, t, other)
    {
      FitsElsewhere(env, s, t, p, other);
    }
    if !Canonical(id.key) { MisspeltIsUnindexed(env, s, id); }
    RowOfPath(s, id, p);
  }

  lemma NotWalkedWithoutFile(disk: Tree<Blob>, bucket: string, p: Path)
    requires p !in disk.files
    ensures p !in Walked(disk, bucket)
  {
  }

  lemma MisspeltIsUnindexed(env: Env, s: State, id: RowId)
    requires s.disk.Wf() && MatchesDisk(env, s, id.bucket) && !Canonical(id.key)
    ensures id !in s.rows
  {
    hide PathOf, Walked, Canonical;
    NotWalkSpelling(id);
    MisspeltIsNotWalked(s.disk, id);
  }

  lemma NotWalkSpelling(id: RowId)
    requires !Canonical(id.key)
    ensures !WalkSpelling(id.key)
  {
  }

  /** A walked file has exactly one name in the index. */
  lemma RowOfPath(s: State, id: RowId, p: Path)
    requires s.disk.Wf() && p == Target(id) && CleanKey(id.key) != []
    ensures p in Walked(s.disk, id.bucket) ==> RowIdOf(p).bucket == id.bucket && PathOf(RowIdOf(p)) == p
    ensures forall other :: PathOf(other) == p ==> other == RowIdOf(p)
  {
    DiskNames(s.disk);
    forall other | PathOf(other) == p
      ensures other == RowIdOf(p)
    {
      RowIdPathInverse(other);
    }
  }

  // ---- sidecars ----

  /** What the sidecar at `p` reads as once `meta` has been written, and that no other sidecar changes. */
  lemma WrittenSidecar(env: Env, metas: Tree<Sidecar>, p: Path, meta: Sidecar)
    requires metas.Wf() && p != [] && WriteMeta(env, metas, p, meta).Some?
    ensures
      var after := WriteMeta(env, metas, p, meta).value;
      && ReadMeta(after, p) == meta.(contentType := SanitizeOption(env, meta.contentType))
      && (forall r :: r != p ==> ReadMeta(after, r) == ReadMeta(metas, r))
  {
  }

  // ---- PUT ----

  lemma StoredUpload(disk: Tree<Blob>, p: Path, bytes: seq<Byte>, now: int)
    requires disk.Wf() && p != []
    ensures UploadFile(disk, p, Body(bytes), now).1 ==>
              UploadFile(disk, p, Body(bytes), now).0 == disk.Place(p, Blob(bytes, now))
    ensures !UploadFile(disk, p, Body(bytes), now).1 ==> UploadFile(disk, p, Body(bytes), now).0 == disk
  {
    ObstructedAbove(disk, p);
    if !disk.Placeable(p) { UploadBlocked(disk, p, bytes, now); }
    if disk.Placeable(p) && disk.MkdirAll(Parent(p)).Some? {
      assert forall d :: d in Prefixes(Parent(p)) ==> |d| < |p|;
    }
  }

  /** A PUT that succeeds keeps the index right if and only if its key is spelled as the walk spells it. One that
      fails changes nothing, unless the bytes were stored and their sidecar refused. */
  lemma PutKeepsMatchingIff(env: Env, s: State, bucket: string, key: string, bytes: seq<Byte>, contentType: string,
                            public: bool, now: int)
    requires TreesWf(s) && Plain(bucket) && MatchesDisk(env, s, bucket)
    ensures
      var (t, r) := ObjectState.PutObject(env, s, bucket, key, Body(bytes), contentType, public, now);
      && (r.Success? ==> (MatchesDisk(env, t, bucket) <==> WalkSpelling(key)))
      && (r.Failure? ==> t == s || !s.metas.Placeable(Target(RowId(bucket, key))))
  {
    hide MatchesDisk, WalkSpelling, UploadFile, WriteMeta, ReadMeta, Tree.Wf, Tree.Placeable, Tree.MkdirAll;
    PutWf(env, s, bucket, key, Body(bytes), contentType, public, now);
    var resolved := Resolve(env.blank, key);
    if resolved.Some? {
      var p := [bucket] + resolved.value;
      var meta := Sidecar(SanitizeType(env, contentType), public, Some(env.md5(bytes)));
      BucketPathPlain(bucket, resolved.value);
      StoredUpload(s.disk, p, bytes, now);
      var (t, r) := ObjectState.PutObject(env, s, bucket, key, Body(bytes), contentType, public, now);
      if r.Success? {
        WrittenSidecar(env, s.metas, p, meta);
        UpsertMatchesIff(env, s, t, RowId(bucket, key), Row(|bytes|, now, meta.etag, meta.contentType, public));
      } else if s.metas.Placeable(p) {
        WriteMetaPlaces(env, s.metas, p, meta);
      }
    }
  }

  /** Files change at one path only and no row does: the index stays right if and only if the row of that path, or
      its absence, still fits. */
  lemma UnindexedChangeIff(env: Env, s: State, t: State, p: Path)
    requires s.disk.Wf() && t.disk.Wf() && 2 <= |p| && AllPlain(p) && MatchesDisk(env, s, p[0])
    requires SameButAt(s, t, p) && t.rows == s.rows
    ensures PathOf(RowIdOf(p)) == p && RowIdOf(p).bucket == p[0]
    ensures MatchesDisk(env, t, p[0]) <==> Fits(env, t, RowIdOf(p))
  {
    hide ReadMeta, SameButAt, Tree.Wf, Fits, MatchesDisk, RowIdOf;
    PathRowIdInverse(p);
    BucketOfPath(p);
    MatchesIsFits(env, s, p[0]);
    MatchesIsFits(env, t, p[0]);
    forall other: RowId | other.bucket == p[0] && other != RowIdOf(p)
      ensures Fits(env, t, other)
    {
      if PathOf(other) == p { SameTarget(other, RowIdOf(p)); }
      FitsElsewhere(env, s, t, p, other);
    }
  }

  lemma BucketOfPath(p: Path)
    requires 2 <= |p|
    ensures RowIdOf(p).bucket == p[0]
  {
  }

  /** A PUT whose bytes were stored but whose sidecar was refused leaves the index right if and only if the file is
      not listed anyway, or was there before and its row would not have changed. */
  lemma RefusedPutMatchesIff(env: Env, s: State, bucket: string, key: string, bytes: seq<Byte>, contentType: string,
                             public: bool, now: int)
    requires TreesWf(s) && Plain(bucket) && MatchesDisk(env, s, bucket)
    ensures
      var (t, r) := ObjectState.PutObject(env, s, bucket, key, Body(bytes), contentType, public, now);
      var p := Target(RowId(bucket, key));
      r.Failure? && t != s ==>
        (MatchesDisk(env, t, bucket) <==>
           || !Visible(p)
           || (p in s.disk.files
               && DerivedRow(env, s.disk.files[p], ReadMeta(s.metas, p))
                  == DerivedRow(env, Blob(bytes, now), ReadMeta(s.metas, p))))
  {
    hide MatchesDisk, UploadFile, WriteMeta, ReadMeta, Tree.Wf, PathOf, RowIdOf, DerivedRow;
    PutWf(env, s, bucket, key, Body(bytes), contentType, public, now);
    var (t, r) := ObjectState.PutObject(env, s, bucket, key, Body(bytes), contentType, public, now);
    var resolved := Resolve(env.blank, key);
    if resolved.Some? && r.Failure? && t != s {
      var p := [bucket] + resolved.value;
      BucketPathPlain(bucket, resolved.value);
      StoredUpload(s.disk, p, bytes, now);
      UnindexedChangeIff(env, s, t, p);
      FitsAt(env, s, p, bucket);
      FitsAt(env, t, p, bucket);
      MatchesIsFits(env, s, bucket);
    }
  }

  lemma FitsAt(env: Env, s: State, p: Path, bucket: string)
    requires 2 <= |p| && p[0] == bucket && PathOf(RowIdOf(p)) == p
    ensures RowIdOf(p).bucket == bucket
    ensures Fits(env, s, RowIdOf(p)) <==>
              && (RowIdOf(p) in s.rows <==> p in s.disk.files && Visible(p))
              && (RowIdOf(p) in s.rows ==> s.rows[RowIdOf(p)] == DerivedRow(env, s.disk.files[p], ReadMeta(s.metas, p)))
  {
    hide DerivedRow, ReadMeta;
  }

  // ---- GET ----

  /** A GET that succeeds keeps the index right if and only if its key is so spelled, and then it changes nothing at
      all; nor does one that fails. */
  lemma GetKeepsMatchingIff(env: Env, s: State, bucket: string, key: string)
    requires TreesWf(s) && MatchesDisk(env, s, bucket)
    ensures
      var (t, r) := ObjectState.OpenObject(env, s, bucket, key);
      && (r.Success? ==> (MatchesDisk(env, t, bucket) <==> WalkSpelling(key)))
      && (r.Failure? || WalkSpelling(key) ==> t == s)
  {
    hide MatchesDisk, WalkSpelling, IndexFromDisk, Tree.Wf, Tree.Obstructed, PathOf;
    var id := RowId(bucket, key);
    var resolved := Resolve(env.blank, key);
    if resolved.Some? && [bucket] + resolved.value in s.disk.files {
      RowPresent(env, s, id);
      OpenWf(env, s, bucket, key);
      var t := ObjectState.OpenObject(env, s, bucket, key).0;
      if !WalkSpelling(key) && id in t.rows { MisspeltRowBreaks(env, t, id); }
    }
  }

  /** A correctly spelled key of an existing file has its row, ETag and all; a misspelt one has none. */
  lemma RowPresent(env: Env, s: State, id: RowId)
    requires s.disk.Wf() && MatchesDisk(env, s, id.bucket)
    requires CleanKey(id.key) != [] && Target(id) in s.disk.files
    ensures WalkSpelling(id.key) <==> id in s.rows
    ensures id in s.rows ==>
              && s.rows[id] == DerivedRow(env, s.disk.files[Target(id)], ReadMeta(s.metas, Target(id)))
              && s.rows[id].etag.Some?
  {
    hide PathOf, Walked, WalkSpelling, Target, ReadMeta, Tree.Wf;
    if WalkSpelling(id.key) {
      WalkedTarget(s.disk, id);
    } else {
      MisspeltIsNotWalked(s.disk, id);
    }
  }

  // ---- ACL ----

  /** Rewriting the sidecar loses no content type. */
  predicate CleanType(env: Env, s: State, p: Path) {
    SanitizeOption(env, ReadMeta(s.metas, p).contentType) == ReadMeta(s.metas, p).contentType
  }

  lemma SetPublicIndexed(env: Env, s: State, id: RowId, public: bool)
    requires Resolve(env.blank, id.key).Some? && Target(id) in s.disk.files && id in s.rows
    ensures
      var meta := ReadMeta(s.metas, Target(id)).(public := public);
      var flipped := WriteMeta(env, s.metas, Target(id), meta);
      ObjectState.SetPublic(env, s, id.bucket, id.key, public)
      == if flipped.None? then (s, Failure(IoError))
         else (State(s.disk, flipped.value, s.rows[id := s.rows[id].(public := public)]), Success(()))
  {
    hide ReadMeta, WriteMeta;
  }

  /** An ACL change that succeeds keeps the index right if and only if its key is so spelled and the sidecar's content
      type survives rewriting: the row keeps a type that the sidecar loses. */
  lemma SetPublicKeepsMatchingIff(env: Env, s: State, bucket: string, key: string, public: bool)
    requires TreesWf(s) && MatchesDisk(env, s, bucket)
    ensures
      var (t, r) := ObjectState.SetPublic(env, s, bucket, key, public);
      && (r.Success? ==>
            (MatchesDisk(env, t, bucket) <==> WalkSpelling(key) && CleanType(env, s, Target(RowId(bucket, key)))))
      && (r.Failure? && WalkSpelling(key) ==> t == s)
  {
    hide MatchesDisk, WalkSpelling, Tree.Wf, PathOf, ObjectState.SetPublic;
    var id := RowId(bucket, key);
    SetPublicFinds(env, s, id, public);
    if Resolve(env.blank, key).Some? && Target(id) in s.disk.files {
      RowPresent(env, s, id);
      SetPublicWf(env, s, bucket, key, public);
      var (t, r) := ObjectState.SetPublic(env, s, bucket, key, public);
      if WalkSpelling(key) {
        SetPublicIndexed(env, s, id, public);
        if r.Success? { FlippedMatchesIff(env, s, t, id, public); }
      } else if r.Success? {
        MisspeltRowBreaks(env, t, id);
      }
    }
  }

  lemma SetPublicFinds(env: Env, s: State, id: RowId, public: bool)
    ensures
      var (t, r) := ObjectState.SetPublic(env, s, id.bucket, id.key, public);
      && (r.Success? ==> Resolve(env.blank, id.key).Some? && Target(id) in s.disk.files && id in t.rows)
      && (Resolve(env.blank, id.key).None? || Target(id) !in s.disk.files ==> r.Failure? && t == s)
  {
    hide ReadMeta, WriteMeta, IndexFromDisk;
  }

  lemma FlippedMatchesIff(env: Env, s: State, t: State, id: RowId, public: bool)
    requires TreesWf(s) && TreesWf(t) && MatchesDisk(env, s, id.bucket) && WalkSpelling(id.key)
    requires CleanKey(id.key) != [] && Target(id) in s.disk.files && id in s.rows
    requires WriteMeta(env, s.metas, Target(id), ReadMeta(s.metas, Target(id)).(public := public)).Some?
    requires var flipped := WriteMeta(env, s.metas, Target(id), ReadMeta(s.metas, Target(id)).(public := public));
             t == State(s.disk, flipped.value, s.rows[id := s.rows[id].(public := public)])
    ensures MatchesDisk(env, t, id.bucket) <==> CleanType(env, s, Target(id))
  {
    hide MatchesDisk, WalkSpelling, Tree.Wf, PathOf, ReadMeta, WriteMeta;
    RowPresent(env, s, id);
    WrittenSidecar(env, s.metas, Target(id), ReadMeta(s.metas, Target(id)).(public := public));
    UpsertMatchesIff(env, s, t, id, s.rows[id].(public := public));
  }

  // ---- DELETE ----

  lemma DeletedTrees(env: Env, s: State, bucket: string, key: string)
    requires TreesWf(s)
    ensures
      var (t, r) := ObjectState.DeleteObject(env, s, bucket, key);
      var p := Target(RowId(bucket, key));
      && (r.Success? ==>
            && CleanKey(key) != [] && t.disk.files == s.disk.files - {p} && t.metas.files == s.metas.files - {p}
            && t.rows == s.rows - {RowId(bucket, key)})
      && (r.Failure? ==> t == s || s.metas.RemoveIfExists(p).None?)
  {
    hide Tree.Wf, Acceptable, Tree.HasEntries, Tree.Obstructed;
  }

  /** A DELETE that succeeds keeps the index right if and only if its key is canonical or named no walked file. One
      that fails changes nothing, unless the sidecar tree refused to let go. */
  lemma DeleteKeepsMatchingIff(env: Env, s: State, bucket: string, key: string)
    requires TreesWf(s) && MatchesDisk(env, s, bucket)
    ensures
      var (t, r) := ObjectState.DeleteObject(env, s, bucket, key);
      var p := Target(RowId(bucket, key));
      && (r.Success? ==> (MatchesDisk(env, t, bucket) <==> Canonical(key) || p !in Walked(s.disk, bucket)))
      && (r.Failure? ==> t == s || s.metas.RemoveIfExists(p).None?)
  {
    hide MatchesDisk, Walked, Canonical, Tree.Wf, Tree.RemoveIfExists, Target, ObjectState.DeleteObject;
    DeletedTrees(env, s, bucket, key);
    DeleteWf(env, s, bucket, key);
    var (t, r) := ObjectState.DeleteObject(env, s, bucket, key);
    if r.Success? { DropMatchesIff(env, s, t, RowId(bucket, key)); }
  }

  lemma RefusedDelete(env: Env, s: State, bucket: string, key: string)
    requires TreesWf(s)
    ensures
      var (t, r) := ObjectState.DeleteObject(env, s, bucket, key);
      var p := Target(RowId(bucket, key));
      r.Failure? && t != s ==>
        CleanKey(key) != [] && t.disk.files == s.disk.files - {p} && t.metas == s.metas && t.rows == s.rows
  {
    hide Tree.Wf, Acceptable, Tree.HasEntries, Tree.Obstructed;
  }

  /** A DELETE that the sidecar tree refused, after the file had gone, leaves the index right if and only if the file
      was not listed. */
  lemma RefusedDeleteMatchesIff(env: Env, s: State, bucket: string, key: string)
    requires TreesWf(s) && Plain(bucket) && MatchesDisk(env, s, bucket)
    ensures
      var (t, r) := ObjectState.DeleteObject(env, s, bucket, key);
      var p := Target(RowId(bucket, key));
      r.Failure? && t != s ==> (MatchesDisk(env, t, bucket) <==> p !in Walked(s.disk, bucket))
  {
    hide MatchesDisk, ReadMeta, Tree.Wf, PathOf, RowIdOf, DerivedRow, ObjectState.DeleteObject;
    RefusedDelete(env, s, bucket, key);
    DeleteWf(env, s, bucket, key);
    var (t, r) := ObjectState.DeleteObject(env, s, bucket, key);
    if r.Failure? && t != s {
      var p := Target(RowId(bucket, key));
      BucketPathPlain(bucket, CleanKey(key));
      UnindexedChangeIff(env, s, t, p);
      FitsAt(env, s, p, bucket);
      FitsAt(env, t, p, bucket);
      MatchesIsFits(env, s, bucket);
    }
  }

  // ---- taking a disk over ----

  datatype Request =
    | Put(bucket: string, key: string, bytes: seq<Byte>, contentType: string, public: bool, now: int)
    | Get(bucket: string, key: string)
    | Acl(bucket: string, key: string, public: bool)
    | Remove(bucket: string, key: string)

  ghost function Served(env: Env, s: State, q: Request): State {
    match q
    case Put(b, k, bytes, ct, public, now) => ObjectState.PutObject(env, s, b, k, Body(bytes), ct, public, now).0
    case Get(b, k) => ObjectState.OpenObject(env, s, b, k).0
    case Acl(b, k, public) => ObjectState.SetPublic(env, s, b, k, public).0
    case Remove(b, k) => ObjectState.DeleteObject(env, s, b, k).0
  }

  /** What a caller can check before the call: the key is spelled as the walk spells it, and the sidecar can be
      written or removed, or rewritten without losing its content type. */
  predicate Harmless(env: Env, s: State, q: Request) {
    var p := Target(RowId(q.bucket, q.key));
    WalkSpelling(q.key)
    && match q
       case Put(_, _, _, _, _, _) => s.metas.Placeable(p)
       case Get(_, _) => true
       case Acl(_, _, _) => CleanType(env, s, p)
       case Remove(_, _) => s.metas.RemoveIfExists(p).Some?
  }

  lemma ServedIsolated(env: Env, s: State, q: Request)
    ensures Isolated(s, Served(env, s, q), q.bucket)
  {
    hide Isolated, ObjectState.PutObject, ObjectState.OpenObject, ObjectState.SetPublic, ObjectState.DeleteObject;
    match q
    case Put(b, k, bytes, ct, public, now) => RequestsAreIsolated(env, s, b, k, Body(bytes), ct, public, now);
    case Get(b, k) => RequestsAreIsolated(env, s, b, k, Aborted, "", false, 0);
    case Acl(b, k, public) => RequestsAreIsolated(env, s, b, k, Aborted, "", public, 0);
    case Remove(b, k) => RequestsAreIsolated(env, s, b, k, Aborted, "", false, 0);
  }

  lemma MatchesElsewhere(env: Env, s: State, t: State, touched: string, bucket: string)
    requires Isolated(s, t, touched) && bucket != touched && MatchesDisk(env, s, bucket)
    ensures MatchesDisk(env, t, bucket)
  {
  }

  lemma ServedWf(env: Env, s: State, q: Request)
    requires TreesWf(s) && Plain(q.bucket)
    ensures TreesWf(Served(env, s, q))
  {
    hide TreesWf, ObjectState.PutObject, ObjectState.OpenObject, ObjectState.SetPublic, ObjectState.DeleteObject;
    match q
    case Put(b, k, bytes, ct, public, now) => PutWf(env, s, b, k, Body(bytes), ct, public, now);
    case Get(b, k) => OpenWf(env, s, b, k);
    case Acl(b, k, public) => SetPublicWf(env, s, b, k, public);
    case Remove(b, k) => DeleteWf(env, s, b, k);
  }

  lemma SpeltCanonically(key: string)
    ensures WalkSpelling(key) ==> Canonical(key)
  {
  }

  /** A request keeps a bucket's index right if it goes to another bucket, whatever it does there, or is harmless. */
  lemma ServedKeepsMatching(env: Env, s: State, q: Request, bucket: string)
    requires TreesWf(s) && Plain(q.bucket) && MatchesDisk(env, s, bucket)
    requires q.bucket == bucket ==> Harmless(env, s, q)
    ensures MatchesDisk(env, Served(env, s, q), bucket)
  {
    hide TreesWf, MatchesDisk, Isolated, WalkSpelling, CleanType, Target, Tree.Placeable, Tree.RemoveIfExists, Walked,
         Canonical, ObjectState.PutObject, ObjectState.OpenObject, ObjectState.SetPublic, ObjectState.DeleteObject;
    if q.bucket != bucket {
      ServedIsolated(env, s, q);
      MatchesElsewhere(env, s, Served(env, s, q), q.bucket, bucket);
    } else {
      SpeltCanonically(q.key);
      match q
      case Put(b, k, bytes, ct, public, now) => PutKeepsMatchingIff(env, s, b, k, bytes, ct, public, now);
      case Get(b, k) => GetKeepsMatchingIff(env, s, b, k);
      case Acl(b, k, public) => SetPublicKeepsMatchingIff(env, s, b, k, public);
      case Remove(b, k) => DeleteKeepsMatchingIff(env, s, b, k);
    }
  }

  ghost function ServedAll(env: Env, s: State, qs: seq<Request>): State
    decreases |qs|
  {
    if qs == [] then s else ServedAll(env, Served(env, s, qs[0]), qs[1..])
  }

  /** Every request of the run that goes to the bucket is harmless when its turn comes. */
  ghost predicate HarmlessRun(env: Env, s: State, qs: seq<Request>, bucket: string)
    decreases |qs|
  {
    qs != [] ==>
      && Plain(qs[0].bucket) && (qs[0].bucket == bucket ==> Harmless(env, s, qs[0]))
      && HarmlessRun(env, Served(env, s, qs[0]), qs[1..], bucket)
  }

  lemma {:induction false} RunKeepsMatching(env: Env, s: State, qs: seq<Request>, bucket: string)
    requires TreesWf(s) && MatchesDisk(env, s, bucket) && HarmlessRun(env, s, qs, bucket)
    ensures TreesWf(ServedAll(env, s, qs)) && MatchesDisk(env, ServedAll(env, s, qs), bucket)
    decreases |qs|
  {
    hide TreesWf, MatchesDisk, Harmless, Served;
    if qs != [] {
      ServedWf(env, s, qs[0]);
      ServedKeepsMatching(env, s, qs[0], bucket);
      RunKeepsMatching(env, Served(env, s, qs[0]), qs[1..], bucket);
    }
  }

  lemma {:induction false} MetasAfterWf(env: Env, s: State, touched: set<Path>)
    requires TreesWf(s) && touched <= s.disk.files.Keys && FitSoFar(s, touched)
    requires forall p :: p in touched ==> 2 <= |p|
    ensures MetasAfter(env, s, touched).Wf()
  {
    hide Tree.Wf, MetasAfter, NeedsHash, Tree.Placeable, IndexFromDisk;
    if touched == {} {
      MetasAtStart(env, s);
    } else {
      var p :| p in touched;
      MetasAfterWf(env, s, touched - {p});
      RefreshStep(env, s, touched - {p}, p);
      assert touched - {p} + {p} == touched;
    }
  }

  lemma ReindexedWf(env: Env, s: State, bucket: string)
    requires TreesWf(s) && SidecarsFit(s, bucket, true)
    ensures TreesWf(Reindexed(env, s, bucket, true))
  {
    hide Tree.Wf, MetasAfter, FitSoFar, SidecarsFit;
    MetasAtEnd(env, s, bucket, true);
    MetasAfterWf(env, s, Refreshed(s, bucket, true));
  }

  /** Taking over a bucket: from any files, any sidecars and any rows, once a forced reindex has gone through, every
      run of harmless requests, mixed with arbitrary requests to other buckets, ends with a row for each file and
      nothing else, each the row its file and sidecar determine; provided only that no sidecar without ETag has a
      content type unfit for a header. */
  lemma TakenOverBucketStaysRight(env: Env, s: State, bucket: string, qs: seq<Request>)
    requires TreesWf(s) && SidecarsFit(s, bucket, true) && !Lossy(env, s, bucket)
    requires HarmlessRun(env, Reindexed(env, s, bucket, true), qs, bucket)
    ensures MatchesDisk(env, ServedAll(env, Reindexed(env, s, bucket, true), qs), bucket)
  {
    hide MatchesDisk, HarmlessRun, Lossy, SidecarsFit, Tree.Wf, Reindexed;
    ReindexedWf(env, s, bucket);
    ForcedMatchesDiskIff(env, s, bucket);
    RunKeepsMatching(env, Reindexed(env, s, bucket, true), qs, bucket);
  }
}
