/** Rebuilding the index of a bucket from its directory and sidecars. */
module ReindexLaws {
  import opened Wrappers
  import opened Paths
  import opened FileTree
  import opened ObjectState
  import opened DiskLaws
  import opened IndexLaws
  import Reference

  /** The sidecar directories a reindex creates for the sidecars it writes. */
  function NewMetaDirs(s: State, bucket: string, force: bool): set<Path> {
    set p, d | p in Refreshed(s, bucket, force) && ReadMeta(s.metas, p).etag.None? && p != []
        && d in Prefixes(Parent(p)) :: d
  }

  /** The state after a reindex whose sidecar writes all succeed. */
  ghost function Reindexed(env: Env, s: State, bucket: string, force: bool): State
    requires s.disk.Wf()
  {
    State(s.disk,
          Tree(ReindexedSidecars(env, s, bucket, force), s.metas.dirs + NewMetaDirs(s, bucket, force)),
          ReindexedRows(env, s, bucket, force))
  }

  /** A first, unprefixed listing page finds files but not a single row. */
  predicate NeedsHealing(s: State, bucket: string, prefix: string, cursor: string) {
    cursor == "" && prefix == "" && RowsOf(s.rows, bucket) == {} && Walked(s.disk, bucket) != {}
  }

  /** The state a listing query runs on. */
  ghost function BeforeListing(env: Env, s: State, bucket: string, prefix: string, cursor: string): State
    requires s.disk.Wf()
  {
    if NeedsHealing(s, bucket, prefix, cursor) then Reindexed(env, s, bucket, false) else s
  }

  /** A listing reindexes first, without force, exactly when it is unprefixed, starts at the beginning, and meets a
      bucket that has no row but at least one file the walk lists; otherwise it changes nothing. */
  lemma HealingIs(env: Env, s: State, bucket: string, prefix: string, cursor: string)
    requires s.disk.Wf()
    ensures
      var first := |prefix| == 0 && |cursor| == 0;
      var indexed := exists id :: id in s.rows && id.bucket == bucket;
      var stocked := exists p :: p in s.disk.files && 2 <= |p| && p[0] == bucket && Visible(p);
      && (first && !indexed && stocked ==>
            BeforeListing(env, s, bucket, prefix, cursor) == Reindexed(env, s, bucket, false))
      && (!first || indexed || !stocked ==> BeforeListing(env, s, bucket, prefix, cursor) == s)
      && (NeedsHealing(s, bucket, prefix, cursor) <==> first && !indexed && stocked)
  {
    hide Reindexed;
    HealingIff(s, bucket, prefix, cursor);
  }

  lemma HealingIff(s: State, bucket: string, prefix: string, cursor: string)
    ensures NeedsHealing(s, bucket, prefix, cursor) <==>
              && |prefix| == 0 && |cursor| == 0
              && !(exists id :: id in s.rows && id.bucket == bucket)
              && (exists p :: p in s.disk.files && 2 <= |p| && p[0] == bucket && Visible(p))
  {
    if p :| p in s.disk.files && 2 <= |p| && p[0] == bucket && Visible(p) {
      assert p in Walked(s.disk, bucket);
    }
    if id :| id in s.rows && id.bucket == bucket {
      assert id in RowsOf(s.rows, bucket);
    }
  }

  /** The rows of the bucket are exactly those its walked files and their sidecars determine. */
  ghost predicate MatchesDisk(env: Env, s: State, bucket: string) {
    forall id: RowId :: id.bucket == bucket ==>
      && (id in s.rows <==> PathOf(id) in Walked(s.disk, bucket))
      && (id in s.rows ==> s.rows[id] == DerivedRow(env, s.disk.files[PathOf(id)], ReadMeta(s.metas, PathOf(id))))
  }

  /** A legacy sidecar: no ETag yet, and a content type that rewriting the sidecar would drop. */
  predicate Lossy(env: Env, s: State, bucket: string) {
    exists p :: p in Walked(s.disk, bucket) && LossyAt(env, s, p)
  }

  predicate LossyAt(env: Env, s: State, p: Path) {
    var meta := ReadMeta(s.metas, p);
    meta.etag.None? && SanitizeOption(env, meta.contentType) != meta.contentType
  }

  /** Whatever the index held, forced or not: afterwards the bucket has one row for every walked file
      and no other, and no other bucket's rows have changed. */
  lemma ReindexedKeys(env: Env, s: State, bucket: string, force: bool, id: RowId)
    requires s.disk.Wf()
    ensures id.bucket == bucket ==>
              (id in Reindexed(env, s, bucket, force).rows <==> PathOf(id) in Walked(s.disk, bucket))
    ensures id.bucket != bucket ==>
              && (id in Reindexed(env, s, bucket, force).rows <==> id in s.rows)
              && (id in s.rows ==> Reindexed(env, s, bucket, force).rows[id] == s.rows[id])
  {
    DiskNames(s.disk);
    RowIdPathInverse(id);
    var ids := set p | p in Refreshed(s, bucket, force) :: RowIdOf(p);
    assert PathOf(id) in Refreshed(s, bucket, force) ==> id in ids;
  }

  /** Which row each walked file ends up with: a non-forced pass keeps a settled row as it is. */
  lemma ReindexedRow(env: Env, s: State, bucket: string, force: bool, p: Path)
    requires s.disk.Wf() && p in Walked(s.disk, bucket)
    ensures var after := Reindexed(env, s, bucket, force);
            && RowIdOf(p) in after.rows
            && after.rows[RowIdOf(p)]
               == if !force && Settled(s.rows, s.disk.files[p], RowIdOf(p)) then s.rows[RowIdOf(p)]
                  else DerivedRow(env, s.disk.files[p], ReadMeta(s.metas, p))
  {
    DiskNames(s.disk);
    ReindexedKeys(env, s, bucket, force, RowIdOf(p));
  }

  /** The same, field by field: without force a row that has an ETag and the size of its file is left as it is;
      every other walked file gets its size and time, the sidecar's content type and visibility, and the sidecar's
      ETag or else the MD5 of its bytes. */
  lemma ReindexedRowIs(env: Env, s: State, bucket: string, force: bool, p: Path)
    requires s.disk.Wf() && p in Walked(s.disk, bucket)
    ensures
      var id := RowIdOf(p);
      var file := s.disk.files[p];
      var meta := if p in s.metas.files then s.metas.files[p] else Sidecar(None, false, None);
      var rows := Reindexed(env, s, bucket, force).rows;
      && id in rows
      && if !force && id in s.rows && s.rows[id].etag != None && s.rows[id].size == |file.bytes|
         then rows[id] == s.rows[id]
         else && rows[id].size == |file.bytes| && rows[id].mtime == file.mtime
              && rows[id].contentType == meta.contentType && rows[id].public == meta.public
              && rows[id].etag == Some(if meta.etag == None then env.md5(file.bytes) else meta.etag.value)
  {
    hide Reindexed, RowIdOf;
    ReindexedRow(env, s, bucket, force, p);
  }

  /** From any rows at all, forced or not, every walked file ends with a hashed row of its own size. */
  lemma ReindexedRowFits(env: Env, s: State, bucket: string, force: bool, p: Path)
    requires s.disk.Wf() && p in Walked(s.disk, bucket)
    ensures
      var rows := Reindexed(env, s, bucket, force).rows;
      && RowIdOf(p) in rows && rows[RowIdOf(p)].etag.Some?
      && rows[RowIdOf(p)].size == |s.disk.files[p].bytes|
  {
    hide Reindexed, RowIdOf;
    ReindexedRowIs(env, s, bucket, force, p);
  }

  /** What the returned count counts: the files whose row is missing, unhashed or of the wrong size, all of them when
      forced, and the rows of the bucket that name no file the walk lists. */
  lemma RefreshedIs(s: State, bucket: string, force: bool, p: Path, id: RowId)
    ensures p in Refreshed(s, bucket, force) <==>
              && 2 <= |p| && p[0] == bucket && p in s.disk.files && Visible(p)
              && (force || RowIdOf(p) !in s.rows || s.rows[RowIdOf(p)].etag == None
                  || s.rows[RowIdOf(p)].size != |s.disk.files[p].bytes|)
    ensures id in Orphans(s, bucket) <==>
              id in s.rows && id.bucket == bucket && (PathOf(id) !in s.disk.files || !Visible(PathOf(id)))
  {
  }

  /** A forced pass leaves every walked file with an ETag in its sidecar. */
  lemma ForcedSidecar(env: Env, s: State, bucket: string, p: Path)
    requires s.disk.Wf() && p in Walked(s.disk, bucket)
    ensures var after := Reindexed(env, s, bucket, true);
            && ReadMeta(after.metas, p) == HealedSidecar(env, s.disk.files[p], ReadMeta(s.metas, p))
            && ReadMeta(after.metas, p).etag.Some?
  {
  }

  /** The ETag a forced pass records is the hash of the bytes if and only if the sidecar did not
      already hold another one: a cached ETag is trusted, never recomputed. */
  lemma ForcedEtagIsHashIff(env: Env, s: State, bucket: string, p: Path)
    requires s.disk.Wf() && p in Walked(s.disk, bucket)
    ensures var hash := env.md5(s.disk.files[p].bytes);
            RowIdOf(p) in Reindexed(env, s, bucket, true).rows
            && (Reindexed(env, s, bucket, true).rows[RowIdOf(p)].etag == Some(hash)
                <==> ReadMeta(s.metas, p).etag in {None, Some(hash)})
  {
    ReindexedRow(env, s, bucket, true, p);
  }

  lemma HealedRowIff(env: Env, s: State, p: Path)
    requires p in s.disk.files
    ensures var meta := ReadMeta(s.metas, p);
            (DerivedRow(env, s.disk.files[p], HealedSidecar(env, s.disk.files[p], meta))
             == DerivedRow(env, s.disk.files[p], meta))
            <==> !LossyAt(env, s, p)
  {
  }

  /** From completely arbitrary rows, a forced pass makes the bucket match its disk if and only if no
      legacy sidecar loses its content type while its ETag is being filled in. */
  lemma ForcedMatchesDiskIff(env: Env, s: State, bucket: string)
    requires s.disk.Wf()
    ensures MatchesDisk(env, Reindexed(env, s, bucket, true), bucket) <==> !Lossy(env, s, bucket)
  {
    var after := Reindexed(env, s, bucket, true);
    if Lossy(env, s, bucket) {
      var p :| p in Walked(s.disk, bucket) && LossyAt(env, s, p);
      ReindexedRow(env, s, bucket, true, p);
      ForcedSidecar(env, s, bucket, p);
      HealedRowIff(env, s, p);
      DiskNames(s.disk);
      assert RowIdOf(p).bucket == bucket;
    } else {
      forall id: RowId | id.bucket == bucket
        ensures id in after.rows <==> PathOf(id) in Walked(s.disk, bucket)
        ensures id in after.rows ==>
                  after.rows[id] == DerivedRow(env, s.disk.files[PathOf(id)], ReadMeta(after.metas, PathOf(id)))
      {
        ReindexedKeys(env, s, bucket, true, id);
        if PathOf(id) in Walked(s.disk, bucket) {
          RowIdPathInverse(id);
          ReindexedRow(env, s, bucket, true, PathOf(id));
          ForcedSidecar(env, s, bucket, PathOf(id));
          HealedRowIff(env, s, PathOf(id));
        }
      }
    }
  }

  lemma OnceSidecars(env: Env, s: State, bucket: string)
    requires s.disk.Wf()
    ensures var once := Reindexed(env, s, bucket, true);
            && Walked(once.disk, bucket) == Walked(s.disk, bucket)
            && (forall p :: p in Walked(s.disk, bucket) ==> p in once.metas.files && once.metas.files[p].etag.Some?)
  {
    hide Walked;
    var once := Reindexed(env, s, bucket, true);
    forall p | p in Walked(s.disk, bucket)
      ensures p in once.metas.files && once.metas.files[p].etag.Some?
    {
      ForcedSidecar(env, s, bucket, p);
    }
  }

  lemma NoSidecarChanges(env: Env, s: State, bucket: string)
    requires s.disk.Wf()
    requires forall p :: p in Walked(s.disk, bucket) ==> p in s.metas.files && s.metas.files[p].etag.Some?
    ensures Reindexed(env, s, bucket, true).metas == s.metas && !Lossy(env, s, bucket)
  {
    assert NewMetaDirs(s, bucket, true) == {};
    assert ReindexedSidecars(env, s, bucket, true) == s.metas.files;
  }

  lemma OnceHealed(env: Env, s: State, bucket: string)
    requires s.disk.Wf()
    ensures var once := Reindexed(env, s, bucket, true);
            && once.disk == s.disk
            && Reindexed(env, once, bucket, true).metas == once.metas && !Lossy(env, once, bucket)
  {
    hide Walked, Lossy, Tree.Wf;
    OnceSidecars(env, s, bucket);
    NoSidecarChanges(env, Reindexed(env, s, bucket, true), bucket);
  }

  /** Two states of one disk that both match it and agree elsewhere have the same rows. */
  lemma MatchingRowsUnique(env: Env, s: State, rows: map<RowId, Row>, bucket: string)
    requires MatchesDisk(env, s, bucket) && MatchesDisk(env, s.(rows := rows), bucket)
    requires forall id: RowId :: id.bucket != bucket ==>
               (id in rows <==> id in s.rows) && (id in rows ==> rows[id] == s.rows[id])
    ensures rows == s.rows
  {
    forall id: RowId
      ensures id in rows <==> id in s.rows
      ensures id in rows ==> rows[id] == s.rows[id]
    {
    }
  }

  /** A second forced pass changes nothing if and only if no content type was lost in the first. */
  lemma ForcedIdempotentIff(env: Env, s: State, bucket: string)
    requires s.disk.Wf()
    ensures var once := Reindexed(env, s, bucket, true);
            Reindexed(env, once, bucket, true) == once <==> !Lossy(env, s, bucket)
  {
    var once := Reindexed(env, s, bucket, true);
    var twice := Reindexed(env, once, bucket, true);
    OnceHealed(env, s, bucket);
    ForcedMatchesDiskIff(env, s, bucket);
    ForcedMatchesDiskIff(env, once, bucket);
    if !Lossy(env, s, bucket) {
      forall id: RowId | id.bucket != bucket
        ensures id in twice.rows <==> id in once.rows
        ensures id in twice.rows ==> twice.rows[id] == once.rows[id]
      {
        ReindexedKeys(env, once, bucket, true, id);
      }
      MatchingRowsUnique(env, once, twice.rows, bucket);
    }
  }

  // ---- on a managed disk ----

  lemma DerivedIsRowFor(env: Env, s: State, p: Path)
    requires Managed(env, s) && p in s.disk.files
    ensures p in ObjectsOf(s)
    ensures DerivedRow(env, s.disk.files[p], ReadMeta(s.metas, p)) == Reference.RowFor(env, ObjectsOf(s)[p])
  {
    assert Honest(env, s.disk.files[p], s.metas.files[p]);
  }

  lemma WalkedAreVisible(env: Env, s: State, bucket: string, id: RowId)
    requires Managed(env, s) && id.bucket == bucket
    ensures PathOf(id) in Walked(s.disk, bucket) <==> PathOf(id) in ObjectsOf(s) && Visible(PathOf(id))
  {
  }

  lemma NothingToHeal(env: Env, s: State, bucket: string, force: bool)
    requires Managed(env, s)
    ensures Reindexed(env, s, bucket, force).disk == s.disk && Reindexed(env, s, bucket, force).metas == s.metas
  {
    forall p | p in Refreshed(s, bucket, force)
      ensures p in s.metas.files && ReadMeta(s.metas, p).etag.Some?
    {
      assert Honest(env, s.disk.files[p], s.metas.files[p]);
    }
    assert NewMetaDirs(s, bucket, force) == {};
    assert Reindexed(env, s, bucket, force).metas.files == s.metas.files;
  }

  lemma RestoredRow(env: Env, s: State, bucket: string, force: bool, id: RowId)
    requires Managed(env, s) && id.bucket == bucket
    requires force || Sound(env, s.rows, ObjectsOf(s))
    ensures var rows := Reindexed(env, s, bucket, force).rows;
            && (id in rows <==> PathOf(id) in ObjectsOf(s) && Visible(PathOf(id)))
            && (id in rows ==> rows[id] == Reference.RowFor(env, ObjectsOf(s)[PathOf(id)]))
  {
    hide Reindexed, Walked, Refreshed, PathOf, ObjectsOf;
    ReindexedKeys(env, s, bucket, force, id);
    WalkedAreVisible(env, s, bucket, id);
    if PathOf(id) in Walked(s.disk, bucket) {
      RowIdPathInverse(id);
      ReindexedRow(env, s, bucket, force, PathOf(id));
      WalkedFiles(s.disk, bucket, PathOf(id));
      DerivedIsRowFor(env, s, PathOf(id));
      if !force && id in s.rows { assert SoundRow(env, s.rows[id], ObjectsOf(s)[PathOf(id)]); }
    }
  }

  lemma WalkedFiles(disk: Tree<Blob>, bucket: string, p: Path)
    requires p in Walked(disk, bucket)
    ensures p in disk.files
  {
  }

  /** On a managed disk a reindex touches the rows only, and restores the whole coherent bucket: from
      any rows at all when forced, from any sound rows otherwise. */
  lemma ReindexRestores(env: Env, s: State, bucket: string, force: bool)
    requires Managed(env, s)
    requires force || Sound(env, s.rows, ObjectsOf(s))
    ensures var after := Reindexed(env, s, bucket, force);
            && after.disk == s.disk && after.metas == s.metas
            && Coherent(env, after.rows, ObjectsOf(s), bucket)
  {
    hide Managed, Reindexed, PathOf, ObjectsOf, Sound;
    NothingToHeal(env, s, bucket, force);
    ManagedDiskWf(env, s);
    forall id: RowId | id.bucket == bucket
      ensures var rows := Reindexed(env, s, bucket, force).rows;
              && (id in rows <==> PathOf(id) in ObjectsOf(s) && Visible(PathOf(id)))
              && (id in rows ==> rows[id] == Reference.RowFor(env, ObjectsOf(s)[PathOf(id)]))
    {
      RestoredRow(env, s, bucket, force, id);
    }
  }

  lemma ManagedDiskWf(env: Env, s: State)
    requires Managed(env, s)
    ensures s.disk.Wf()
  {
  }

  /** A reindex of one bucket keeps the whole index sound, and other buckets coherent. */
  lemma ReindexKeepsOthers(env: Env, s: State, bucket: string, force: bool, other: string)
    requires Managed(env, s) && Sound(env, s.rows, ObjectsOf(s))
    ensures Sound(env, Reindexed(env, s, bucket, force).rows, ObjectsOf(s))
    ensures Coherent(env, s.rows, ObjectsOf(s), other) ==>
              Coherent(env, Reindexed(env, s, bucket, force).rows, ObjectsOf(s), other)
  {
    var after := Reindexed(env, s, bucket, force);
    ReindexRestores(env, s, bucket, force);
    forall id | id in after.rows
      ensures PathOf(id) in ObjectsOf(s) && Visible(PathOf(id))
              && SoundRow(env, after.rows[id], ObjectsOf(s)[PathOf(id)])
    {
      ReindexedKeys(env, s, bucket, force, id);
    }
    if Coherent(env, s.rows, ObjectsOf(s), other) && other != bucket {
      forall id: RowId | id.bucket == other
        ensures id in after.rows <==> id in s.rows
        ensures id in after.rows ==> after.rows[id] == s.rows[id]
      {
        ReindexedKeys(env, s, bucket, force, id);
      }
    }
  }
}
