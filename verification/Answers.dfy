/** What a client is told about an object, field by field, against what was uploaded and what is on disk. */
module Answers {
  import opened Wrappers
  import opened Text
  import opened Paths
  import opened FileTree
  import opened ObjectState
  import opened DiskLaws
  import opened IndexLaws
  import opened ListingLaws
  import Reference

  // ---- after an upload ----

  lemma StoredRow(env: Env, s: State, bucket: string, key: string, bytes: seq<Byte>, contentType: string,
                  public: bool, now: int)
    ensures
      var (t, r) := ObjectState.PutObject(env, s, bucket, key, Body(bytes), contentType, public, now);
      r.Success? ==>
        && r.value == env.md5(bytes) && Resolve(env.blank, key).Some?
        && t.disk.files.Keys >= {Target(RowId(bucket, key))}
        && t.disk.files[Target(RowId(bucket, key))] == Blob(bytes, now)
        && RowId(bucket, key) in t.rows
        && t.rows[RowId(bucket, key)]
           == Row(|bytes|, now, Some(env.md5(bytes)),
                  if env.goodType(contentType) then Some(contentType) else None, public)
  {
    hide WriteMeta, Tree.MkdirAll;
  }

  /** The answer to GET right after a PUT that succeeded, in any state and for any key: the bytes, their number, the
      time of the upload, their MD5, the content type or the default one, and the visibility asked for. */
  lemma PutThenGet(env: Env, s: State, bucket: string, key: string, bytes: seq<Byte>, contentType: string,
                   public: bool, now: int)
    ensures
      var (t, put) := ObjectState.PutObject(env, s, bucket, key, Body(bytes), contentType, public, now);
      put.Success? ==>
        var got := ObjectState.OpenObject(env, t, bucket, key).1;
        && put.value == env.md5(bytes) && ObjectState.IsPublic(env, t, bucket, key) == public
        && got.Success? && got.value.0 == bytes
        && got.value.1.key == key && got.value.1.size == |bytes| && got.value.1.mtime == now
        && got.value.1.etag == env.md5(bytes) && got.value.1.public == public
        && got.value.1.contentType == if env.goodType(contentType) then contentType else "application/octet-stream"
  {
    hide ObjectState.PutObject, Resolve;
    StoredRow(env, s, bucket, key, bytes, contentType, public, now);
  }

  /** A key comes before every longer key that it begins. */
  lemma PrefixFirst(k: string, other: string)
    requires k <= other && k != other
    ensures Less(k, other)
  {
    LessIff(k, other);
  }

  lemma FirstWithPrefix(keys: set<string>, k: string)
    requires k in keys && forall other :: other in keys ==> k <= other
    ensures Sorted(keys) != [] && Sorted(keys)[0] == k
  {
    forall other | other in keys && other != k
      ensures Less(k, other)
    {
      PrefixFirst(k, other);
    }
    assert IsLeast(k, keys);
    LeastUnique(keys);
  }

  lemma EmptyIsFirst(k: string)
    requires k != ""
    ensures Less("", k)
  {
  }

  /** The listing right after it: under the key as prefix, the first object of the first page is the upload. */
  lemma PutThenList(env: Env, s: State, bucket: string, key: string, bytes: seq<Byte>, contentType: string,
                    public: bool, now: int, limit: int)
    ensures
      var (t, put) := ObjectState.PutObject(env, s, bucket, key, Body(bytes), contentType, public, now);
      put.Success? ==>
        var page := PageOf(t.rows, bucket, key, limit, "");
        && page.objects != []
        && var o := page.objects[0];
           && o.key == key && o.size == |bytes| && o.mtime == now && o.etag == env.md5(bytes) && o.public == public
           && o.contentType == if env.goodType(contentType) then contentType else "application/octet-stream"
  {
    hide ObjectState.PutObject, Resolve, Sorted, Matching, KeyPage;
    StoredRow(env, s, bucket, key, bytes, contentType, public, now);
    var (t, put) := ObjectState.PutObject(env, s, bucket, key, Body(bytes), contentType, public, now);
    if put.Success? {
      AcceptedIsNotEmpty(env, key);
      FirstListed(t.rows, bucket, key, limit);
    }
  }

  lemma AcceptedIsNotEmpty(env: Env, key: string)
    ensures Resolve(env.blank, key).Some? ==> key != ""
  {
  }

  lemma FirstListed(rows: map<RowId, Row>, bucket: string, key: string, limit: int)
    requires RowId(bucket, key) in rows && key != ""
    ensures var ks := KeyPage(Matching(rows, bucket, key, ""), limit).0;
            ks != [] && ks[0] == key
  {
    hide Sorted, Less;
    var keys := Matching(rows, bucket, key, "");
    EmptyIsFirst(key);
    assert key in keys;
    FirstWithPrefix(keys, key);
    KeyPageIs(keys, limit);
  }

  // ---- any object ----

  /** Every answer to GET, from the file and its sidecar alone, under any sound partial index. */
  lemma GetAnswersFile(env: Env, s: State, bucket: string, key: string, q: Path)
    requires Managed(env, s) && Sound(env, s.rows, ObjectsOf(s)) && Resolve(env.blank, key) == Some(q)
    requires [bucket] + q in s.disk.files
    ensures
      var p := [bucket] + q;
      var got := ObjectState.OpenObject(env, s, bucket, key).1;
      && p in s.metas.files
      && got.Success? && got.value.0 == s.disk.files[p].bytes
      && got.value.1.key == key && got.value.1.size == |s.disk.files[p].bytes|
      && got.value.1.mtime == s.disk.files[p].mtime
      && got.value.1.etag == env.md5(s.disk.files[p].bytes) && got.value.1.public == s.metas.files[p].public
      && got.value.1.contentType
         == (match s.metas.files[p].contentType case Some(ct) => ct case None => "application/octet-stream")
  {
    hide Sound, Resolve, ObjectState.OpenObject;
    OpenRefines(env, s, bucket, key);
    ObjectAt(env, s, [bucket] + q);
  }

  lemma ObjectAt(env: Env, s: State, p: Path)
    requires Managed(env, s) && p in s.disk.files
    ensures p in s.metas.files && p in ObjectsOf(s)
    ensures ObjectsOf(s)[p] == Reference.Obj(s.disk.files[p].bytes, s.disk.files[p].mtime, s.metas.files[p].contentType,
                                             s.metas.files[p].public)
  {
  }

  /** Every listed object of a coherent bucket, from its file and sidecar alone. */
  lemma ListAnswersFiles(env: Env, s: State, bucket: string, prefix: string, limit: int, cursor: string)
    requires Managed(env, s) && Coherent(env, s.rows, ObjectsOf(s), bucket)
    ensures
      forall o :: o in PageOf(s.rows, bucket, prefix, limit, cursor).objects ==>
        prefix <= o.key && AnswersFile(env, s, bucket, o)
  {
    hide Managed, PageOf, PathOf, ObjectsOf, Matching, AnswersFile;
    PageFacts(Visit(s.rows, limit), bucket, prefix, cursor);
    forall o | o in PageOf(s.rows, bucket, prefix, limit, cursor).objects
      ensures AnswersFile(env, s, bucket, o)
    {
      ListedAnswers(env, s, bucket, o);
    }
  }

  /** The six fields of a listed object are those of the file of its key and the sidecar beside it. */
  predicate AnswersFile(env: Env, s: State, bucket: string, o: Summary) {
    var p := [bucket] + Split(o.key, '/');
    && p in s.disk.files && p in s.metas.files
    && o.size == |s.disk.files[p].bytes| && o.mtime == s.disk.files[p].mtime
    && o.etag == env.md5(s.disk.files[p].bytes) && o.public == s.metas.files[p].public
    && o.contentType
       == (match s.metas.files[p].contentType case Some(ct) => ct case None => "application/octet-stream")
  }

  lemma ListedAnswers(env: Env, s: State, bucket: string, o: Summary)
    requires Managed(env, s) && Coherent(env, s.rows, ObjectsOf(s), bucket)
    requires RowId(bucket, o.key) in s.rows && o == SummaryOf(o.key, s.rows[RowId(bucket, o.key)])
    ensures AnswersFile(env, s, bucket, o)
  {
    hide Managed, ObjectsOf;
    var id := RowId(bucket, o.key);
    ObjectsAreFiles(env, s);
    ObjectAt(env, s, PathOf(id));
  }

  lemma ObjectsAreFiles(env: Env, s: State)
    requires Managed(env, s)
    ensures ObjectsOf(s).Keys == s.disk.files.Keys
  {
  }

  lemma OpenIndexed(env: Env, s: State, bucket: string, key: string, q: Path)
    requires Resolve(env.blank, key) == Some(q) && [bucket] + q in s.disk.files && RowId(bucket, key) in s.rows
    ensures
      var row := s.rows[RowId(bucket, key)];
      var blob := s.disk.files[[bucket] + q];
      var etag := if row.etag.Some? then row.etag.value else env.md5(blob.bytes);
      ObjectState.OpenObject(env, s, bucket, key).1
      == Success((blob.bytes, SummaryOf(key, row.(etag := Some(etag)))))
  {
  }

  lemma SoundRowIs(env: Env, s: State, id: RowId)
    requires Managed(env, s) && Sound(env, s.rows, ObjectsOf(s)) && id in s.rows
    ensures PathOf(id) == Target(id) && Target(id) in ObjectsOf(s)
            && SoundRow(env, s.rows[id], ObjectsOf(s)[Target(id)])
  {
    hide Managed, ObjectsOf, PathOf, Target;
    ManagedPaths(env, s);
    PlainPathIsTarget(id);
  }

  /** An ACL change alters one field of the answer to GET: the flag becomes the one asked for. */
  lemma AclThenGet(env: Env, s: State, bucket: string, key: string, public: bool)
    requires Managed(env, s) && Sound(env, s.rows, ObjectsOf(s)) && Plain(bucket)
    ensures
      var (t, acl) := ObjectState.SetPublic(env, s, bucket, key, public);
      acl.Success? ==>
        var before := ObjectState.OpenObject(env, s, bucket, key).1;
        var after := ObjectState.OpenObject(env, t, bucket, key).1;
        && before.Success? && after.Success? && after.value.0 == before.value.0
        && ObjectState.IsPublic(env, t, bucket, key) == public
        && after.value.1.public == public
        && after.value.1.key == before.value.1.key && after.value.1.size == before.value.1.size
        && after.value.1.mtime == before.value.1.mtime && after.value.1.etag == before.value.1.etag
        && after.value.1.contentType == before.value.1.contentType
  {
    hide Managed, ObjectsOf, Sound, Resolve, PathOf, ObjectState.OpenObject, ObjectState.SetPublic;
    SetPublicRefines(env, s, bucket, key, public);
    var (t, acl) := ObjectState.SetPublic(env, s, bucket, key, public);
    if acl.Success? {
      var id := RowId(bucket, key);
      var q := Resolve(env.blank, key).value;
      OpenRefines(env, s, bucket, key);
      if id in s.rows { SoundRowIs(env, s, id); }
      ObjectsAreFiles(env, s);
      ObjectsAreFiles(env, t);
      ObjectAt(env, s, Target(id));
      ObjectAt(env, t, Target(id));
      OpenIndexed(env, t, bucket, key, q);
    }
  }

  /** After a DELETE that succeeded the key is gone and not public. */
  lemma DeleteThenGet(env: Env, s: State, bucket: string, key: string)
    requires Managed(env, s) && Plain(bucket)
    ensures
      var (t, del) := ObjectState.DeleteObject(env, s, bucket, key);
      del.Success? ==>
        && ObjectState.OpenObject(env, t, bucket, key) == (t, Failure(NoSuchKey))
        && !ObjectState.IsPublic(env, t, bucket, key)
        && RowId(bucket, key) !in t.rows
  {
    hide Managed, ObjectsOf, Resolve, ObjectState.DeleteObject, Tree.Obstructed;
    DeleteRefines(env, s, bucket, key);
    var (t, del) := ObjectState.DeleteObject(env, s, bucket, key);
    if del.Success? {
      ObjectsAreFiles(env, t);
      var p := [bucket] + Resolve(env.blank, key).value;
      NothingAbove(env, t, p, ObjectsOf(s).Keys);
      SidecarsAreFiles(env, t);
    }
  }

  lemma SidecarsAreFiles(env: Env, s: State)
    requires Managed(env, s)
    ensures s.metas.files.Keys == s.disk.files.Keys
  {
  }

  lemma NothingAbove(env: Env, t: State, p: Path, keys: set<Path>)
    requires Reference.Free(keys, p) && t.disk.files.Keys <= keys
    ensures !t.disk.Obstructed(p)
  {
  }

  /** GET of a key that names no file: an error either way, and which one depends on whether an object lies above. */
  lemma GetMissing(env: Env, s: State, bucket: string, key: string)
    requires Managed(env, s)
    ensures
      var (t, got) := ObjectState.OpenObject(env, s, bucket, key);
      match Resolve(env.blank, key)
      case None => t == s && got == Failure(InvalidKey)
      case Some(q) =>
        [bucket] + q !in s.disk.files ==>
          && t == s
          && got == Failure(if exists f :: f in s.disk.files && f < [bucket] + q then IoError else NoSuchKey)
  {
    var resolved := Resolve(env.blank, key);
    if resolved.Some? {
      var p := [bucket] + resolved.value;
      if p in s.disk.dirs { DirIsNotObstructed(s.disk, p); }
    }
  }
}
