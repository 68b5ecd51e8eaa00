/** The index against the objects: when its rows are right, and which requests keep them right. */
module IndexLaws {
  import opened Wrappers
  import opened Text
  import opened Paths
  import opened FileTree
  import opened ObjectState
  import opened DiskLaws
  import Reference

  // ---- right rows ----

  /** Every row belongs to an object and is that object's row, except that its ETag may be missing. */
  ghost predicate Sound(env: Env, rows: map<RowId, Row>, o: Reference.Objects) {
    forall id :: id in rows ==> PathOf(id) in o && Visible(PathOf(id)) && SoundRow(env, rows[id], o[PathOf(id)])
  }

  predicate SoundRow(env: Env, row: Row, obj: Reference.Obj) {
    row == Reference.RowFor(env, obj) || row == Reference.RowFor(env, obj).(etag := None)
  }

  /** The rows of the bucket are exactly those of its visible objects. */
  ghost predicate Coherent(env: Env, rows: map<RowId, Row>, o: Reference.Objects, bucket: string) {
    forall id: RowId :: id.bucket == bucket ==>
      && (id in rows <==> PathOf(id) in o && Visible(PathOf(id)))
      && (id in rows ==> rows[id] == Reference.RowFor(env, o[PathOf(id)]))
  }

  ghost predicate PlainPaths(o: Reference.Objects) {
    forall p :: p in o ==> 2 <= |p| && AllPlain(p)
  }

  /** The spelling of a key that a reindex would give the file it resolves to. */
  predicate WalkSpelling(key: string) {
    Canonical(key) && Visible(CleanKey(key))
  }

  function Target(id: RowId): Path {
    [id.bucket] + CleanKey(id.key)
  }

  lemma ManagedPaths(env: Env, s: State)
    requires Managed(env, s)
    ensures PlainPaths(ObjectsOf(s))
  {
    forall p | p in ObjectsOf(s)
      ensures AllPlain(p)
    {
      assert s.disk.Has(p);
    }
  }

  /** A plain path spells its key canonically, and cleaning a canonical key gives back the path. Whether requests
      accept the key is another matter: it may trim to nothing. */
  lemma PlainPathIsTarget(id: RowId)
    ensures AllPlain(PathOf(id)) ==> Canonical(id.key)
    ensures Canonical(id.key) ==> PathOf(id) == Target(id)
  {
    if AllPlain(PathOf(id)) {
      forall s | s in Split(id.key, SEPARATOR)
        ensures !Dropped(s)
      {
        assert s in PathOf(id);
      }
    }
    CanonicalRoundTrip(id.key);
  }

  lemma VisibleTarget(id: RowId)
    requires CleanKey(id.key) != []
    ensures Visible(Target(id)) <==> Visible(CleanKey(id.key))
  {
  }

  lemma SameTarget(a: RowId, b: RowId)
    requires PathOf(a) == PathOf(b)
    ensures a == b
  {
    RowIdPathInverse(a);
    RowIdPathInverse(b);
  }

  // ---- writing one row beside one object ----

  /** PUT, GET and ACL changes write one row beside one object. From a coherent bucket the bucket is
      coherent again if and only if the key is spelled the way the directory walk spells it. */
  lemma UpsertCoherentIff(env: Env, rows: map<RowId, Row>, o: Reference.Objects, id: RowId, obj: Reference.Obj)
    requires PlainPaths(o) && CleanKey(id.key) != [] && Plain(id.bucket)
    requires Coherent(env, rows, o, id.bucket)
    ensures Coherent(env, rows[id := Reference.RowFor(env, obj)], o[Target(id) := obj], id.bucket)
            <==> WalkSpelling(id.key)
  {
    var rows' := rows[id := Reference.RowFor(env, obj)];
    var o' := o[Target(id) := obj];
    PlainPathIsTarget(id);
    VisibleTarget(id);
    if WalkSpelling(id.key) {
      forall other: RowId | other.bucket == id.bucket
        ensures other in rows' <==> PathOf(other) in o' && Visible(PathOf(other))
        ensures other in rows' ==> rows'[other] == Reference.RowFor(env, o'[PathOf(other)])
      {
        if PathOf(other) == PathOf(id) { SameTarget(other, id); }
      }
    } else if PathOf(id) in o' {
      BucketPathPlain(id.bucket, CleanKey(id.key));
      assert AllPlain(PathOf(id));
    }
  }

  lemma UpsertSound(env: Env, rows: map<RowId, Row>, o: Reference.Objects, id: RowId, obj: Reference.Obj, row: Row)
    requires CleanKey(id.key) != [] && Sound(env, rows, o)
    requires WalkSpelling(id.key) && SoundRow(env, row, obj)
    ensures Sound(env, rows[id := row], o[Target(id) := obj])
  {
    PlainPathIsTarget(id);
    VisibleTarget(id);
    forall other | other in rows && other != id
      ensures PathOf(other) != PathOf(id)
    {
      if PathOf(other) == PathOf(id) { SameTarget(other, id); }
    }
  }

  /** Writing a row never disturbs another bucket. */
  lemma UpsertElsewhere(env: Env, rows: map<RowId, Row>, o: Reference.Objects, id: RowId, obj: Reference.Obj, row: Row,
                        bucket: string)
    requires id.bucket != bucket && Coherent(env, rows, o, bucket)
    ensures Coherent(env, rows[id := row], o[Target(id) := obj], bucket)
  {
  }

  // ---- dropping one row with one object ----

  /** DELETE drops one row and one object. From a coherent bucket the bucket is coherent again if and
      only if the key was spelled the way the walk spells it, or named no visible object anyway. */
  lemma DropCoherentIff(env: Env, rows: map<RowId, Row>, o: Reference.Objects, id: RowId)
    requires PlainPaths(o) && CleanKey(id.key) != [] && Plain(id.bucket)
    requires Coherent(env, rows, o, id.bucket)
    ensures Coherent(env, rows - {id}, o - {Target(id)}, id.bucket)
            <==> Canonical(id.key) || Target(id) !in o || !Visible(Target(id))
  {
    PlainPathIsTarget(id);
    var rows' := rows - {id};
    var o' := o - {Target(id)};
    if Canonical(id.key) || Target(id) !in o || !Visible(Target(id)) {
      forall other: RowId | other.bucket == id.bucket
        ensures other in rows' <==> PathOf(other) in o' && Visible(PathOf(other))
      {
        if PathOf(other) == PathOf(id) { SameTarget(other, id); }
        PlainPathIsTarget(other);
        if other == id && PathOf(id) in o { assert AllPlain(PathOf(id)); }
      }
    } else {
      var walked := RowIdOf(Target(id));
      BucketPathPlain(id.bucket, CleanKey(id.key));
      PathRowIdInverse(Target(id));
      assert walked in rows;
      assert walked.bucket == id.bucket && walked != id;
    }
  }

  lemma DropSound(env: Env, rows: map<RowId, Row>, o: Reference.Objects, id: RowId)
    requires CleanKey(id.key) != [] && Sound(env, rows, o) && Canonical(id.key)
    ensures Sound(env, rows - {id}, o - {Target(id)})
  {
    PlainPathIsTarget(id);
    forall other | other in rows && other != id
      ensures PathOf(other) != Target(id)
    {
      if PathOf(other) == PathOf(id) { SameTarget(other, id); }
    }
  }

  lemma DropElsewhere(env: Env, rows: map<RowId, Row>, o: Reference.Objects, id: RowId, bucket: string)
    requires id.bucket != bucket && Coherent(env, rows, o, bucket)
    ensures Coherent(env, rows - {id}, o - {Target(id)}, bucket)
  {
  }

  // ---- answering from the index ----

  /** Under a sound index, whichever rows or ETags are missing, the visibility check answers as the
      reference does, for every key. */
  lemma IsPublicRefines(env: Env, s: State, bucket: string, key: string)
    requires Managed(env, s) && Sound(env, s.rows, ObjectsOf(s))
    ensures ObjectState.IsPublic(env, s, bucket, key) == Reference.IsPublic(env, ObjectsOf(s), bucket, key)
  {
    ManagedPaths(env, s);
    PlainPathIsTarget(RowId(bucket, key));
  }

  /** Under a sound index a lookup answers with the object's own row, and leaves that row in place. */
  lemma StatAnswers(env: Env, s: State, id: RowId)
    requires Managed(env, s) && Sound(env, s.rows, ObjectsOf(s)) && Target(id) in s.disk.files
    ensures var row := Reference.RowFor(env, ObjectsOf(s)[Target(id)]);
            StatIndexed(env, s, id, Target(id))
            == (s.(rows := s.rows[id := row]), Success(SummaryOf(id.key, row)))
  {
    var p := Target(id);
    var row := Reference.RowFor(env, ObjectsOf(s)[p]);
    ManagedPaths(env, s);
    PlainPathIsTarget(id);
    assert Honest(env, s.disk.files[p], s.metas.files[p]);
    assert row == DerivedRow(env, s.disk.files[p], s.metas.files[p]);
    if id in s.rows {
      assert SoundRow(env, s.rows[id], ObjectsOf(s)[p]);
      assert s.rows[id] == row ==> s.rows[id := row] == s.rows;
    }
  }

  /** Under a sound index GET answers as the reference does, for every key, and touches one row. */
  lemma OpenRefines(env: Env, s: State, bucket: string, key: string)
    requires Managed(env, s) && Sound(env, s.rows, ObjectsOf(s))
    ensures var (after, r) := ObjectState.OpenObject(env, s, bucket, key);
            var id := RowId(bucket, key);
            && r == Reference.Get(env, ObjectsOf(s), bucket, key)
            && after.disk == s.disk && after.metas == s.metas
            && (r.Failure? ==> after == s)
            && (r.Success? ==>
                && CleanKey(key) != [] && Target(id) in ObjectsOf(s)
                && after.rows == s.rows[id := Reference.RowFor(env, ObjectsOf(s)[Target(id)])])
  {
    var resolved := Resolve(env.blank, key);
    assert ObjectsOf(s).Keys == s.disk.files.Keys;
    if resolved.Some? {
      var p := [bucket] + resolved.value;
      if p in s.disk.files {
        StatAnswers(env, s, RowId(bucket, key));
      } else if p in s.disk.dirs {
        DirIsNotObstructed(s.disk, p);
      }
    }
  }

  lemma DirIsNotObstructed<T>(t: Tree<T>, p: Path)
    requires t.Wf() && p in t.dirs
    ensures !t.Obstructed(p)
  {
    assert t.Has(p);
    forall f | f in t.files
      ensures !(f < p)
    {
      if |f| < |p| { assert p[..|f|] in t.dirs && f != p[..|f|]; }
    }
  }

  // ---- ACL changes ----

  ghost function FlippedRow(env: Env, s: State, id: RowId, public: bool): Row
    requires Target(id) in ObjectsOf(s)
  {
    (if id in s.rows then s.rows[id] else Reference.RowFor(env, ObjectsOf(s)[Target(id)])).(public := public)
  }

  lemma SetPublicFound(env: Env, s: State, id: RowId, public: bool)
    requires Managed(env, s) && Plain(id.bucket) && Resolve(env.blank, id.key).Some? && Target(id) in ObjectsOf(s)
    ensures var p := Target(id);
            var (after, r) := ObjectState.SetPublic(env, s, id.bucket, id.key, public);
            && r == Success(())
            && after == Stored(s, p, s.disk.files[p], s.metas.files[p].(public := public),
                               s.rows[id := FlippedRow(env, s, id, public)])
            && Managed(env, after)
            && ObjectsOf(after) == ObjectsOf(s)[p := ObjectsOf(s)[p].(public := public)]
  {
    var p := Target(id);
    var blob := s.disk.files[p];
    var meta := s.metas.files[p].(public := public);
    var rows := s.rows[id := FlippedRow(env, s, id, public)];
    assert Honest(env, blob, s.metas.files[p]);
    BucketPathPlain(id.bucket, CleanKey(id.key));
    FileIsPlaceable(s.metas, p);
    FileIsPlaceable(s.disk, p);
    WriteMetaPlaces(env, s.metas, p, meta);
    StoredManaged(env, s, p, blob, meta, rows);
    StoredObjects(env, s, p, blob, meta, rows);
    ReplaceIsPlace(s.disk, p);
    assert ReadMeta(s.metas.Place(p, meta), p) == meta;
  }

  /** An ACL change rewrites the sidecar and one row, exactly as the reference flips the flag. */
  lemma SetPublicRefines(env: Env, s: State, bucket: string, key: string, public: bool)
    requires Managed(env, s) && Plain(bucket)
    ensures var (after, r) := ObjectState.SetPublic(env, s, bucket, key, public);
            var id := RowId(bucket, key);
            && Managed(env, after)
            && (ObjectsOf(after), r) == Reference.SetPublic(env, ObjectsOf(s), bucket, key, public)
            && (r.Failure? ==> after == s)
            && (r.Success? ==>
                && CleanKey(key) != [] && Target(id) in ObjectsOf(s)
                && ObjectsOf(after) == ObjectsOf(s)[Target(id) := ObjectsOf(s)[Target(id)].(public := public)]
                && after.rows == s.rows[id := FlippedRow(env, s, id, public)])
  {
    var resolved := Resolve(env.blank, key);
    assert ObjectsOf(s).Keys == s.disk.files.Keys;
    if resolved.Some? && [bucket] + resolved.value in s.disk.files {
      SetPublicFound(env, s, RowId(bucket, key), public);
    }
  }

  lemma ReplaceIsPlace<T>(t: Tree<T>, p: Path)
    requires t.Wf() && p in t.files && p != []
    ensures t.Place(p, t.files[p]) == t
  {
    assert t.Has(p) && Parent(p) == p[..|p| - 1];
    DirPrefixes(t, Parent(p));
    assert t.files[p := t.files[p]] == t.files;
  }
}
