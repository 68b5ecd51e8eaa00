/** A reindex in progress: after some of the files have been refreshed, in any order. */
module ReindexProgress {
  import opened Wrappers
  import opened Paths
  import opened FileTree
  import opened ObjectState
  import opened DiskLaws
  import opened ReindexLaws
  import opened Store

  predicate NeedsHash(metas: Tree<Sidecar>, p: Path) {
    ReadMeta(metas, p).etag.None?
  }

  /** The sidecar tree once the files in `touched` have been refreshed. */
  function MetasAfter(env: Env, s: State, touched: set<Path>): Tree<Sidecar>
    requires touched <= s.disk.files.Keys
  {
    Tree(map p | p in s.metas.files.Keys + touched ::
           if p in touched then HealedSidecar(env, s.disk.files[p], ReadMeta(s.metas, p)) else s.metas.files[p],
         s.metas.dirs + set p, d | p in touched && NeedsHash(s.metas, p) && p != [] && d in Prefixes(Parent(p)) :: d)
  }

  /** Every sidecar written for `touched` could be placed. */
  predicate FitSoFar(s: State, touched: set<Path>) {
    forall p :: p in touched && NeedsHash(s.metas, p) ==> s.metas.Placeable(p)
  }

  lemma DoesNotFit(s: State, touched: set<Path>, p: Path)
    requires p in touched && NeedsHash(s.metas, p) && !s.metas.Placeable(p)
    ensures !FitSoFar(s, touched)
  {
  }

  lemma MetasAtStart(env: Env, s: State)
    ensures MetasAfter(env, s, {}) == s.metas
  {
    var m := MetasAfter(env, s, {});
    assert m.files == s.metas.files && m.dirs == s.metas.dirs;
  }

  lemma MetasAtEnd(env: Env, s: State, bucket: string, force: bool)
    requires s.disk.Wf()
    ensures MetasAfter(env, s, Refreshed(s, bucket, force)) == Reindexed(env, s, bucket, force).metas
    ensures FitSoFar(s, Refreshed(s, bucket, force)) <==> SidecarsFit(s, bucket, force)
    ensures Reindexed(env, s, bucket, force).disk == s.disk
  {
    var m := MetasAfter(env, s, Refreshed(s, bucket, force));
    assert m.files == ReindexedSidecars(env, s, bucket, force);
    assert m.dirs == s.metas.dirs + NewMetaDirs(s, bucket, force);
  }

  /** Disk files never lie above one another, so earlier sidecars cannot block later ones. */
  lemma StillPlaceable(env: Env, s: State, touched: set<Path>, p: Path)
    requires s.disk.Wf() && touched <= s.disk.files.Keys && p in s.disk.files && p !in touched
    ensures MetasAfter(env, s, touched).Placeable(p) <==> s.metas.Placeable(p)
  {
    var m := MetasAfter(env, s, touched);
    FileIsPlaceable(s.disk, p);
    forall q, d | q in touched && q != [] && d in Prefixes(Parent(q))
      ensures d != p && !(q < p)
    {
      FileIsPlaceable(s.disk, q);
      assert d < q;
    }
    if !s.metas.Placeable(p) && p !in s.metas.dirs {
      var f :| f in s.metas.files && f < p;
      assert f in m.files;
    }
  }

  lemma HashedStep(env: Env, s: State, touched: set<Path>, p: Path)
    requires touched <= s.disk.files.Keys && p in s.disk.files && !NeedsHash(s.metas, p)
    ensures MetasAfter(env, s, touched + {p}) == MetasAfter(env, s, touched)
  {
    var m, n := MetasAfter(env, s, touched), MetasAfter(env, s, touched + {p});
    assert p in s.metas.files;
    assert m.files == n.files;
    assert m.dirs == n.dirs;
  }

  lemma UnhashedStep(env: Env, s: State, touched: set<Path>, p: Path)
    requires touched <= s.disk.files.Keys && p in s.disk.files && p != [] && p !in touched && NeedsHash(s.metas, p)
    ensures MetasAfter(env, s, touched + {p})
            == MetasAfter(env, s, touched).Place(p, HealedSidecar(env, s.disk.files[p], ReadMeta(s.metas, p)))
    ensures ReadMeta(MetasAfter(env, s, touched), p) == ReadMeta(s.metas, p)
  {
    var m := MetasAfter(env, s, touched).Place(p, HealedSidecar(env, s.disk.files[p], ReadMeta(s.metas, p)));
    var n := MetasAfter(env, s, touched + {p});
    assert m.files == n.files;
    assert m.dirs == n.dirs;
  }

  /** Refreshing one more file: `indexFromDisk` derives its row, and fails if and only if the sidecar it
      has to write does not fit. */
  lemma RefreshStep(env: Env, s: State, touched: set<Path>, p: Path)
    requires s.disk.Wf() && touched <= s.disk.files.Keys && p in s.disk.files && 2 <= |p| && p !in touched
    requires MetasAfter(env, s, touched).Wf()
    ensures var fits := NeedsHash(s.metas, p) ==> s.metas.Placeable(p);
            && IndexFromDisk(env, s.disk, MetasAfter(env, s, touched), p)
               == (if fits then Some((MetasAfter(env, s, touched + {p}),
                                      DerivedRow(env, s.disk.files[p], ReadMeta(s.metas, p))))
                   else None)
            && (fits ==> MetasAfter(env, s, touched + {p}).Wf())
  {
    var m := MetasAfter(env, s, touched);
    var meta := ReadMeta(s.metas, p);
    assert s.disk.Has(p);
    if !NeedsHash(s.metas, p) {
      HashedStep(env, s, touched, p);
      assert p in s.metas.files && ReadMeta(m, p) == meta;
    } else {
      UnhashedStep(env, s, touched, p);
      StillPlaceable(env, s, touched, p);
      var healed := HealedSidecar(env, s.disk.files[p], meta);
      if s.metas.Placeable(p) {
        WriteMetaPlaces(env, m, p, meta.(etag := healed.etag));
        PlaceWf(m, p, healed);
      } else {
        WriteMetaBlocked(env, m, p, meta.(etag := healed.etag));
      }
    }
  }

  lemma WriteMetaBlocked(env: Env, metas: Tree<Sidecar>, p: Path, meta: Sidecar)
    requires metas.Wf() && p != [] && !metas.Placeable(p) && meta.etag.Some?
    ensures WriteMeta(env, metas, p, meta).None?
  {
    ObstructedAbove(metas, p);
  }

  // ---- collecting the changes ----

  /** `collected` holds the derived row of every file in `touched`, and no other row. */
  ghost predicate Collected(env: Env, s: State, touched: set<Path>, collected: map<RowId, Row>) {
    forall id: RowId ::
      && (id in collected <==> PathOf(id) in touched)
      && (id in collected ==> PathOf(id) in s.disk.files
                              && collected[id]
                                 == DerivedRow(env, s.disk.files[PathOf(id)], ReadMeta(s.metas, PathOf(id))))
  }

  lemma UpsertOneMore(rows: map<RowId, Row>, upserts: seq<(RowId, Row)>, collected: map<RowId, Row>, id: RowId,
                      row: Row)
    requires UpsertAll(rows, upserts) == rows + collected
    ensures UpsertAll(rows, upserts + [(id, row)]) == rows + collected[id := row]
  {
    assert (upserts + [(id, row)])[..|upserts|] == upserts;
    assert (rows + collected)[id := row] == rows + collected[id := row];
  }

  lemma CollectStep(env: Env, s: State, touched: set<Path>, p: Path, collected: map<RowId, Row>)
    requires s.disk.Wf() && p in s.disk.files && 2 <= |p|
    requires Collected(env, s, touched, collected)
    ensures Collected(env, s, touched + {p},
                      collected[RowIdOf(p) := DerivedRow(env, s.disk.files[p], ReadMeta(s.metas, p))])
  {
    DiskNames(s.disk);
    forall id: RowId
      ensures PathOf(id) == p <==> id == RowIdOf(p)
    {
      RowIdPathInverse(id);
    }
  }

  lemma WalkStarts(env: Env, s: State)
    ensures MetasAfter(env, s, {}) == s.metas && FitSoFar(s, {})
    ensures UpsertAll(s.rows, []) == s.rows + map[] && Collected(env, s, {}, map[])
  {
    MetasAtStart(env, s);
  }

  /** Applying what was collected gives the reindexed rows. */
  lemma AppliedRows(env: Env, s: State, bucket: string, force: bool, collected: map<RowId, Row>)
    requires s.disk.Wf() && Collected(env, s, Refreshed(s, bucket, force), collected)
    ensures s.rows + collected - Orphans(s, bucket) == Reindexed(env, s, bucket, force).rows
  {
    forall id: RowId
      ensures var have := s.rows + collected - Orphans(s, bucket);
              var want := Reindexed(env, s, bucket, force).rows;
              (id in have <==> id in want) && (id in have ==> have[id] == want[id])
    {
      AppliedRow(env, s, bucket, force, id);
    }
    SameRows(s.rows + collected - Orphans(s, bucket), Reindexed(env, s, bucket, force).rows);
  }

  lemma SameRows(a: map<RowId, Row>, b: map<RowId, Row>)
    requires forall id: RowId :: (id in a <==> id in b) && (id in a ==> a[id] == b[id])
    ensures a == b
  {
  }

  lemma AppliedRow(env: Env, s: State, bucket: string, force: bool, id: RowId)
    requires s.disk.Wf()
    ensures var want := Reindexed(env, s, bucket, force).rows;
            var redone := PathOf(id) in Refreshed(s, bucket, force);
            && (id in want <==> redone || (id in s.rows && id !in Orphans(s, bucket)))
            && (id in want ==>
                  want[id] == if redone
                              then DerivedRow(env, s.disk.files[PathOf(id)], ReadMeta(s.metas, PathOf(id)))
                              else s.rows[id])
            && (redone ==> id !in Orphans(s, bucket))
  {
    DiskNames(s.disk);
    RowIdPathInverse(id);
    var ids := set p | p in Refreshed(s, bucket, force) :: RowIdOf(p);
    assert PathOf(id) in Refreshed(s, bucket, force) ==> id in ids;
  }
}
