/** Where a promise stops: the exact condition under which each request keeps a coherent bucket
    coherent, and concrete inputs on which it does not. */
module Anomalies {
  import opened Wrappers
  import opened Text
  import opened Paths
  import opened FileTree
  import opened ObjectState
  import opened DiskLaws
  import opened IndexLaws
  import opened ReindexLaws
  import opened BucketLaws
  import Reference

  ghost predicate CoherentState(env: Env, s: State, bucket: string) {
    Coherent(env, s.rows, ObjectsOf(s), bucket)
  }

  // ---- spelling ----

  /** A successful PUT keeps its bucket coherent if and only if the key has no empty or "." segment and
      its last segment is not one the walk skips. */
  lemma PutKeepsCoherentIff(env: Env, s: State, bucket: string, key: string, bytes: seq<Byte>, contentType: string,
                            public: bool, now: int)
    requires Managed(env, s) && Plain(bucket) && CoherentState(env, s, bucket)
    ensures var (t, r) := ObjectState.PutObject(env, s, bucket, key, Body(bytes), contentType, public, now);
            r.Success? ==> (CoherentState(env, t, bucket) <==> WalkSpelling(key))
  {
    PutRefines(env, s, bucket, key, bytes, contentType, public, now);
    ManagedPaths(env, s);
    if ObjectState.PutObject(env, s, bucket, key, Body(bytes), contentType, public, now).1.Success? {
      var obj := Reference.Obj(bytes, now, SanitizeType(env, contentType), public);
      UpsertCoherentIff(env, s.rows, ObjectsOf(s), RowId(bucket, key), obj);
    }
  }

  /** So does a GET that finds its object: reading through an alias leaves a row for the alias. */
  lemma GetKeepsCoherentIff(env: Env, s: State, bucket: string, key: string)
    requires Managed(env, s) && Plain(bucket) && CoherentState(env, s, bucket) && Sound(env, s.rows, ObjectsOf(s))
    ensures var (t, r) := ObjectState.OpenObject(env, s, bucket, key);
            r.Success? ==> (CoherentState(env, t, bucket) <==> WalkSpelling(key))
  {
    hide Managed, ObjectsOf, Sound, Coherent, WalkSpelling, Target, ObjectState.OpenObject, PlainPaths, Reference.Get;
    OpenRefines(env, s, bucket, key);
    ManagedPaths(env, s);
    var (t, r) := ObjectState.OpenObject(env, s, bucket, key);
    if r.Success? {
      var id := RowId(bucket, key);
      var obj := ObjectsOf(s)[Target(id)];
      UpsertCoherentIff(env, s.rows, ObjectsOf(s), id, obj);
      SameObjects(s, t);
      assert ObjectsOf(s)[Target(id) := obj] == ObjectsOf(s);
    }
  }

  /** And so does an ACL change. */
  lemma SetPublicKeepsCoherentIff(env: Env, s: State, bucket: string, key: string, public: bool)
    requires Managed(env, s) && Plain(bucket) && CoherentState(env, s, bucket)
    ensures var (t, r) := ObjectState.SetPublic(env, s, bucket, key, public);
            r.Success? ==> (CoherentState(env, t, bucket) <==> WalkSpelling(key))
  {
    SetPublicRefines(env, s, bucket, key, public);
    ManagedPaths(env, s);
    if ObjectState.SetPublic(env, s, bucket, key, public).1.Success? {
      var id := RowId(bucket, key);
      PlainPathIsTarget(id);
      var obj := ObjectsOf(s)[Target(id)].(public := public);
      assert FlippedRow(env, s, id, public) == Reference.RowFor(env, obj);
      UpsertCoherentIff(env, s.rows, ObjectsOf(s), id, obj);
    }
  }

  /** A DELETE through an alias removes the file but leaves the row of its canonical key behind. */
  lemma DeleteKeepsCoherentIff(env: Env, s: State, bucket: string, key: string)
    requires Managed(env, s) && Plain(bucket) && CoherentState(env, s, bucket)
    ensures var (t, r) := ObjectState.DeleteObject(env, s, bucket, key);
            var p := Target(RowId(bucket, key));
            r.Success? ==> (CoherentState(env, t, bucket) <==> Canonical(key) || p !in ObjectsOf(s) || !Visible(p))
  {
    DeleteRefines(env, s, bucket, key);
    ManagedPaths(env, s);
    if ObjectState.DeleteObject(env, s, bucket, key).1.Success? {
      DropCoherentIff(env, s.rows, ObjectsOf(s), RowId(bucket, key));
    }
  }

  const START := State(Tree(map[], {[], ["b"]}), Tree(map[], {[]}), map[])

  lemma StartIsManaged(env: Env)
    ensures Managed(env, START) && ObjectsOf(START) == map[] && CoherentState(env, START, "b")
    ensures Sound(env, START.rows, ObjectsOf(START))
  {
  }

  /** The key `x//y`. */
  function DoubleSlash(x: string, y: string): string {
    Join([x, "", y], SEPARATOR)
  }

  lemma DoubleSlashKey(x: string, y: string)
    requires Plain(x) && Plain(y)
    ensures !Canonical(DoubleSlash(x, y)) && CleanKey(DoubleSlash(x, y)) == [x, y]
  {
    var parts := [x, "", y];
    SplitJoin(parts, SEPARATOR);
    assert parts[1] == "" && Dropped(parts[1]);
    assert parts[1..] == ["", y] && parts[1..][1..] == [y] && [y][1..] == [];
    assert Clean([y]) == [y] && Clean(["", y]) == [y];
  }

  /** Any key `x//y` put into an empty bucket: stored, but indexed under a name no reindex would give it. */
  lemma DoubleSlashBreaksCoherence(env: Env, x: string, y: string, bytes: seq<Byte>)
    requires Plain(x) && Plain(y) && Acceptable(env.blank, DoubleSlash(x, y))
    ensures var key := DoubleSlash(x, y);
            var (t, r) := ObjectState.PutObject(env, START, "b", key, Body(bytes), "text/plain", false, 0);
            r.Success? && !CoherentState(env, t, "b")
  {
    StartIsManaged(env);
    DoubleSlashKey(x, y);
    PutRefines(env, START, "b", DoubleSlash(x, y), bytes, "text/plain", false, 0);
    PutKeepsCoherentIff(env, START, "b", DoubleSlash(x, y), bytes, "text/plain", false, 0);
  }

  /** The key `x/y`. */
  function Slash(x: string, y: string): string {
    Join([x, y], SEPARATOR)
  }

  lemma SlashKey(x: string, y: string)
    requires Plain(x) && Plain(y)
    ensures Canonical(Slash(x, y)) && CleanKey(Slash(x, y)) == [x, y] && KeyOf([x, y]) == Slash(x, y)
  {
    SplitKeyOf([x, y]);
  }

  /** A bucket holding one object, stored as `x/y`. */
  function OneObject(env: Env, x: string, y: string, bytes: seq<Byte>): State {
    ObjectState.PutObject(env, START, "b", Slash(x, y), Body(bytes), "text/plain", false, 0).0
  }

  predicate AliasPair(env: Env, x: string, y: string) {
    && Plain(x) && Plain(y) && !(TEMP_PREFIX <= y)
    && Acceptable(env.blank, Slash(x, y)) && Acceptable(env.blank, DoubleSlash(x, y))
  }

  lemma OneObjectIs(env: Env, x: string, y: string, bytes: seq<Byte>)
    requires AliasPair(env, x, y)
    ensures var s := OneObject(env, x, y, bytes);
            && Managed(env, s) && CoherentState(env, s, "b") && Sound(env, s.rows, ObjectsOf(s))
            && ObjectsOf(s).Keys == {["b", x, y]}
    ensures !WalkSpelling(DoubleSlash(x, y)) && Resolve(env.blank, DoubleSlash(x, y)) == Some([x, y])
    ensures Target(RowId("b", DoubleSlash(x, y))) == ["b", x, y]
    ensures !Canonical(DoubleSlash(x, y)) && Visible(["b", x, y])
  {
    hide Managed, Sound, Coherent, Acceptable, ObjectState.PutObject, Slash, DoubleSlash;
    StartIsManaged(env);
    SlashKey(x, y);
    DoubleSlashKey(x, y);
    var obj := Reference.Obj(bytes, 0, SanitizeType(env, "text/plain"), false);
    PutRefines(env, START, "b", Slash(x, y), bytes, "text/plain", false, 0);
    PutKeepsCoherentIff(env, START, "b", Slash(x, y), bytes, "text/plain", false, 0);
    ManagedPaths(env, START);
    assert ["b"] + [x, y] == ["b", x, y];
    UpsertSound(env, START.rows, map[], RowId("b", Slash(x, y)), obj, Reference.RowFor(env, obj));
  }

  /** Reading it as `x//y` succeeds and leaves a row for a key no reindex would give it. */
  lemma AliasGetBreaksCoherence(env: Env, x: string, y: string, bytes: seq<Byte>)
    requires AliasPair(env, x, y)
    ensures var (t, r) := ObjectState.OpenObject(env, OneObject(env, x, y, bytes), "b", DoubleSlash(x, y));
            r.Success? && !CoherentState(env, t, "b")
  {
    hide Managed, Sound, Coherent, Acceptable, ObjectState.OpenObject, OneObject, DoubleSlash, Resolve, WalkSpelling;
    var s := OneObject(env, x, y, bytes);
    OneObjectIs(env, x, y, bytes);
    OpenRefines(env, s, "b", DoubleSlash(x, y));
    GetKeepsCoherentIff(env, s, "b", DoubleSlash(x, y));
    assert ["b"] + [x, y] == ["b", x, y];
  }

  /** So does changing its visibility as `x//y`. */
  lemma AliasAclBreaksCoherence(env: Env, x: string, y: string, bytes: seq<Byte>, public: bool)
    requires AliasPair(env, x, y)
    ensures var (t, r) := ObjectState.SetPublic(env, OneObject(env, x, y, bytes), "b", DoubleSlash(x, y), public);
            r.Success? && !CoherentState(env, t, "b")
  {
    hide Managed, Sound, Coherent, Acceptable, ObjectState.SetPublic, OneObject, DoubleSlash, Resolve, WalkSpelling;
    var s := OneObject(env, x, y, bytes);
    OneObjectIs(env, x, y, bytes);
    SetPublicRefines(env, s, "b", DoubleSlash(x, y), public);
    SetPublicKeepsCoherentIff(env, s, "b", DoubleSlash(x, y), public);
    assert ["b"] + [x, y] == ["b", x, y];
  }

  /** Deleting it as `x//y` removes the file and keeps its row. */
  lemma AliasDeleteBreaksCoherence(env: Env, x: string, y: string, bytes: seq<Byte>)
    requires AliasPair(env, x, y)
    ensures var (t, r) := ObjectState.DeleteObject(env, OneObject(env, x, y, bytes), "b", DoubleSlash(x, y));
            r.Success? && ObjectsOf(t) == map[] && !CoherentState(env, t, "b")
  {
    hide Managed, Sound, Coherent, Acceptable, ObjectState.DeleteObject, OneObject, DoubleSlash, Resolve, WalkSpelling;
    var s := OneObject(env, x, y, bytes);
    OneObjectIs(env, x, y, bytes);
    DeleteRefines(env, s, "b", DoubleSlash(x, y));
    DeleteKeepsCoherentIff(env, s, "b", DoubleSlash(x, y));
    assert ["b"] + [x, y] == ["b", x, y];
  }

  // ---- keys that clean to a blank one ----

  /** The bucket after a PUT of " /.". */
  function BlankNamed(env: Env, bytes: seq<Byte>): State {
    ObjectState.PutObject(env, START, "b", " /.", Body(bytes), "text/plain", false, 0).0
  }

  lemma BlankNamedIs(env: Env, bytes: seq<Byte>)
    requires env.blank(" ") && !env.blank(" /.")
    ensures ObjectState.PutObject(env, START, "b", " /.", Body(bytes), "text/plain", false, 0).1.Success?
    ensures Managed(env, BlankNamed(env, bytes)) && ["b", " "] in ObjectsOf(BlankNamed(env, bytes))
  {
    hide Managed, Sound, ObjectsOf, ObjectState.PutObject, Resolve, Reference.Free, Coherent;
    StartIsManaged(env);
    BlankKeyResolves(env);
    NothingAroundIt(["b", " "]);
    assert ObjectsOf(START).Keys == {} && ["b"] + [" "] == ["b", " "];
    PutRefines(env, START, "b", " /.", bytes, "text/plain", false, 0);
  }

  /** A PUT of " /." stores a file whose walk key " " every request refuses: listed, but not to be deleted under
      the key it is listed by. */
  lemma BlankWalkKeyIsRefused(env: Env, bytes: seq<Byte>)
    requires env.blank(" ") && !env.blank(" /.")
    ensures ObjectState.PutObject(env, START, "b", " /.", Body(bytes), "text/plain", false, 0).1.Success?
    ensures
      var t := BlankNamed(env, bytes);
      && ["b", " "] in ObjectsOf(t) && KeyOf([" "]) == " "
      && ObjectState.DeleteObject(env, t, "b", " ") == (t, Failure(InvalidKey)) && DropBucket(t, "b").None?
  {
    hide Managed, ObjectsOf, BlankNamed, ObjectState.PutObject, DropBucket, Resolve;
    BlankNamedIs(env, bytes);
    BlankKeyResolves(env);
    DeletableIffNoObjects(env, BlankNamed(env, bytes), "b");
  }

  lemma NothingAroundIt(p: Path)
    ensures Reference.Free({}, p)
  {
  }

  lemma BlankKeyResolves(env: Env)
    requires env.blank(" ") && !env.blank(" /.")
    ensures Resolve(env.blank, " /.") == Some([" "]) && Resolve(env.blank, " ") == None
  {
    var key := " /.";
    SplitJoin([" ", "."], SEPARATOR);
    assert Join([" ", "."], SEPARATOR) == key;
    assert [" ", "."][1..] == ["."] && ["."][1..] == [];
    assert Clean(["."]) == [] && Clean([" ", "."]) == [" "];
    assert key[1..] == "/." && key[1..][1..] == "." && key[1..][1..][1..] == "";
    assert !Contains("", "..") && !Contains(".", "..") && !Contains("/.", "..");
  }

  // ---- broken-off uploads ----

  /** An upload of `d/x` that breaks off leaves a bucket without objects that cannot be deleted. */
  lemma AbortBlocksBucketDeletion(env: Env)
    requires Resolve(env.blank, "d/x") == Some(["d", "x"])
    ensures var (t, r) := ObjectState.PutObject(env, START, "b", "d/x", Aborted, "", false, 0);
            r.Failure? && NoObjectsIn(ObjectsOf(t), "b") && DropBucket(t, "b").None? && !Managed(env, t)
  {
    StartIsManaged(env);
    var (t, r) := ObjectState.PutObject(env, START, "b", "d/x", Aborted, "", false, 0);
    AbortKeepsTidyIff(env, START, "b", "d/x", "", false, 0, ["d", "x"]);
    var dir := Parent(["b"] + ["d", "x"]);
    assert dir == ["b", "d"] && dir == dir[..2];
    assert dir in t.disk.dirs && ["b"] < dir;
    assert dir in t.disk.files.Keys + t.disk.dirs;
  }

  // ---- deletes that fail ----

  /** Deleting a key that does not exist is an error exactly when another key lies above or below it. */
  lemma DeleteSucceedsIff(env: Env, s: State, bucket: string, key: string, q: Path)
    requires Managed(env, s) && Plain(bucket) && Resolve(env.blank, key) == Some(q)
    ensures ObjectState.DeleteObject(env, s, bucket, key).1.Success?
            <==> forall p :: p in ObjectsOf(s) ==> !(p < [bucket] + q) && !([bucket] + q < p)
  {
    DeleteRefines(env, s, bucket, key);
  }

  /** With one object stored as `x/y`, a DELETE of the absent key `x` fails. */
  lemma DeleteAboveFails(env: Env, x: string, y: string, bytes: seq<Byte>)
    requires AliasPair(env, x, y) && Resolve(env.blank, x) == Some([x])
    ensures var s := OneObject(env, x, y, bytes);
            ["b", x] !in ObjectsOf(s) && ObjectState.DeleteObject(env, s, "b", x) == (s, Failure(IoError))
  {
    hide Managed, Sound, Coherent, AliasPair, ObjectState.DeleteObject, OneObject, Resolve;
    var s := OneObject(env, x, y, bytes);
    OneObjectIs(env, x, y, bytes);
    DeleteRefines(env, s, "b", x);
    assert ["b"] + [x] == ["b", x] && ["b", x] < ["b", x, y];
    assert ["b", x, y] in ObjectsOf(s).Keys;
  }

  // ---- cached ETags ----

  /** One file whose sidecar caches the given ETag. */
  function CachedState(bytes: seq<Byte>, etag: string): State {
    State(Tree(map[["b", "k"] := Blob(bytes, 0)], {[], ["b"]}),
          Tree(map[["b", "k"] := Sidecar(None, false, Some(etag))], {[], ["b"]}), map[])
  }

  lemma CachedWf(bytes: seq<Byte>, etag: string)
    ensures CachedState(bytes, etag).disk.Wf() && ["b", "k"] in Walked(CachedState(bytes, etag).disk, "b")
    ensures RowIdOf(["b", "k"]) == RowId("b", "k")
  {
    var p := ["b", "k"];
    assert p[..0] == [] && p[..1] == ["b"] && ["b"][..0] == [];
    assert p[1..] == ["k"];
  }

  /** A stale ETag in a sidecar survives a forced reindex: the row gets it, not the hash of the bytes. */
  lemma StaleEtagSurvives(env: Env, bytes: seq<Byte>, stale: string)
    requires stale != env.md5(bytes)
    ensures var s := CachedState(bytes, stale);
            && s.disk.Wf()
            && RowId("b", "k") in Reindexed(env, s, "b", true).rows
            && Reindexed(env, s, "b", true).rows[RowId("b", "k")].etag == Some(stale) != Some(env.md5(bytes))
  {
    CachedWf(bytes, stale);
    ReindexedRow(env, CachedState(bytes, stale), "b", true, ["b", "k"]);
  }

  // ---- legacy sidecars ----

  /** One file whose sidecar has a content type unfit for a header and no ETag. */
  function LegacyState(bytes: seq<Byte>, contentType: string): State {
    State(Tree(map[["b", "k"] := Blob(bytes, 0)], {[], ["b"]}),
          Tree(map[["b", "k"] := Sidecar(Some(contentType), false, None)], {[], ["b"]}), map[])
  }

  /** Reindexing it by force twice gives two different indexes: the first keeps the content type in the
      row while dropping it from the sidecar. */
  lemma LegacyReindexNotIdempotent(env: Env, bytes: seq<Byte>, contentType: string)
    requires !env.goodType(contentType)
    ensures var s := LegacyState(bytes, contentType);
            && s.disk.Wf() && SidecarsFit(s, "b", true)
            && Reindexed(env, Reindexed(env, s, "b", true), "b", true) != Reindexed(env, s, "b", true)
  {
    var s := LegacyState(bytes, contentType);
    var p := ["b", "k"];
    LegacyWf(bytes, contentType);
    assert p in Walked(s.disk, "b") && LossyAt(env, s, p);
    ForcedIdempotentIff(env, s, "b");
  }

  /** The same file, hashed and indexed: making it public keeps its type in the row and drops it from the sidecar. */
  lemma LegacyAclDisagrees(env: Env, bytes: seq<Byte>, contentType: string)
    requires !env.goodType(contentType) && Resolve(env.blank, "k") == Some(["k"])
    ensures
      var indexed := CachedState(bytes, "e");
      var meta := Sidecar(Some(contentType), false, Some("e"));
      var s := State(indexed.disk, Tree(map[["b", "k"] := meta], {[], ["b"]}),
                     map[RowId("b", "k") := DerivedRow(env, Blob(bytes, 0), meta)]);
      var (t, r) := ObjectState.SetPublic(env, s, "b", "k", true);
      r.Success? && t.rows[RowId("b", "k")].contentType == Some(contentType)
      && ReadMeta(t.metas, ["b", "k"]).contentType == None
  {
    CachedWf(bytes, "e");
    assert ["b"] + ["k"] == ["b", "k"] && Parent(["b", "k"]) == ["b"];
    var dirs := {[], ["b"]};
    assert forall d :: d in Prefixes(["b"]) ==> d == [] || d == ["b"];
    assert ["b"] == ["b"][..1];
  }

  lemma LegacyWf(bytes: seq<Byte>, contentType: string)
    ensures LegacyState(bytes, contentType).disk.Wf()
    ensures SidecarsFit(LegacyState(bytes, contentType), "b", true)
  {
    var s := LegacyState(bytes, contentType);
    var p := ["b", "k"];
    assert p[..0] == [] && p[..1] == ["b"] && ["b"][..0] == [];
  }
}
