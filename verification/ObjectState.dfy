/** The object layer on values: what is on disk, what the index says, and what each request does. */
module ObjectState {
  import opened Wrappers
  import opened Text
  import opened Paths
  import opened FileTree

  type Byte = x: int | 0 <= x < 256

  /** Library code the object layer calls: MD5 in hex, "trims to nothing", "usable as a header". */
  datatype Env = Env(md5: seq<Byte> -> string, blank: string -> bool, goodType: string -> bool)

  datatype Error = InvalidKey | NoSuchKey | IoError

  datatype Blob = Blob(bytes: seq<Byte>, mtime: int)

  datatype Sidecar = Sidecar(contentType: Option<string>, public: bool, etag: Option<string>)

  datatype RowId = RowId(bucket: string, key: string)

  /** One entry of the object index. */
  datatype Row = Row(size: nat, mtime: int, etag: Option<string>, contentType: Option<string>, public: bool)

  datatype Summary = Summary(key: string, size: nat, mtime: int, etag: string, contentType: string, public: bool)

  datatype State = State(disk: Tree<Blob>, metas: Tree<Sidecar>, rows: map<RowId, Row>)

  const DEFAULT_CONTENT_TYPE := "application/octet-stream"
  const NO_SIDECAR := Sidecar(None, false, None)

  /** The outcome of streaming a request body: read to its end, or broken off. */
  datatype Upload = Body(bytes: seq<Byte>) | Aborted

  // ---- naming ----

  function RowIdOf(p: Path): RowId
    requires 2 <= |p|
  {
    RowId(p[0], KeyOf(p[1..]))
  }

  /** The only path whose walk reports the key of `id`. */
  function PathOf(id: RowId): (p: Path)
    ensures 2 <= |p| && p[0] == id.bucket
  {
    [id.bucket] + Split(id.key, SEPARATOR)
  }

  lemma RowIdPathInverse(id: RowId)
    ensures RowIdOf(PathOf(id)) == id
  {
    JoinSplit(id.key, SEPARATOR);
    assert PathOf(id)[1..] == Split(id.key, SEPARATOR);
  }

  lemma PathRowIdInverse(p: Path)
    requires 2 <= |p| && AllPlain(p)
    ensures PathOf(RowIdOf(p)) == p
  {
    assert forall s :: s in p[1..] ==> s in p;
    SplitKeyOf(p[1..]);
  }

  lemma DiskNames<T>(t: Tree<T>)
    requires t.Wf()
    ensures forall p :: p in t.files && 2 <= |p| ==> PathOf(RowIdOf(p)) == p
  {
    forall p | p in t.files && 2 <= |p|
      ensures PathOf(RowIdOf(p)) == p
    {
      assert t.Has(p);
      PathRowIdInverse(p);
    }
  }

  // ---- small pure helpers ----

  function SummaryOf(key: string, row: Row): Summary {
    Summary(key, row.size, row.mtime,
            if row.etag.Some? then row.etag.value else "",
            if row.contentType.Some? then row.contentType.value else DEFAULT_CONTENT_TYPE,
            row.public)
  }

  function SanitizeType(env: Env, contentType: string): Option<string> {
    if env.goodType(contentType) then Some(contentType) else None
  }

  function SanitizeOption(env: Env, contentType: Option<string>): Option<string> {
    if contentType.Some? then SanitizeType(env, contentType.value) else None
  }

  function ReadMeta(metas: Tree<Sidecar>, p: Path): Sidecar {
    if p in metas.files then metas.files[p] else NO_SIDECAR
  }

  function WriteMeta(env: Env, metas: Tree<Sidecar>, p: Path, meta: Sidecar): Option<Tree<Sidecar>>
    requires p != []
  {
    var clean := meta.(contentType := SanitizeOption(env, meta.contentType));
    if clean == NO_SIDECAR then metas.RemoveIfExists(p)
    else
      var made := metas.MkdirAll(Parent(p));
      if made.None? then None else made.value.WriteFile(p, clean)
  }

  /** The row a file and its sidecar determine; the file is hashed only when the sidecar has no ETag. */
  function DerivedRow(env: Env, blob: Blob, meta: Sidecar): Row {
    var etag := if meta.etag.Some? then meta.etag.value else env.md5(blob.bytes);
    Row(|blob.bytes|, blob.mtime, Some(etag), meta.contentType, meta.public)
  }

  /** The sidecar once a missing ETag has been filled in. */
  function HealedSidecar(env: Env, blob: Blob, meta: Sidecar): Sidecar {
    if meta.etag.Some? then meta
    else Sidecar(SanitizeOption(env, meta.contentType), meta.public, Some(env.md5(blob.bytes)))
  }

  // ---- requests ----

  /** MkdirAll, stream to a temporary file, rename over the target. */
  function UploadFile(disk: Tree<Blob>, p: Path, upload: Upload, now: int): (r: (Tree<Blob>, bool))
    requires p != []
  {
    var made := disk.MkdirAll(Parent(p));
    if made.None? then (disk, false)
    else if upload.Aborted? || p in made.value.dirs then (made.value, false)
    else (disk.Place(p, Blob(upload.bytes, now)), true)
  }

  function PutObject(env: Env, s: State, bucket: string, key: string, upload: Upload, contentType: string,
                     public: bool, now: int): (State, Result<string, Error>)
  {
    match Resolve(env.blank, key)
    case None => (s, Failure(InvalidKey))
    case Some(q) =>
      var p := [bucket] + q;
      var (disk, stored) := UploadFile(s.disk, p, upload, now);
      if !stored then (s.(disk := disk), Failure(IoError))
      else
        var etag := env.md5(upload.bytes);
        var ct := SanitizeType(env, contentType);
        var metas := WriteMeta(env, s.metas, p, Sidecar(ct, public, Some(etag)));
        if metas.None? then (s.(disk := disk), Failure(IoError))
        else
          var row := Row(|upload.bytes|, now, Some(etag), ct, public);
          (State(disk, metas.value, s.rows[RowId(bucket, key) := row]), Success(etag))
  }

  /** The sidecar tree and the row `indexFromDisk` leaves for the file at `p`. */
  function IndexFromDisk(env: Env, disk: Tree<Blob>, metas: Tree<Sidecar>, p: Path): Option<(Tree<Sidecar>, Row)>
    requires p != [] && p in disk.files
  {
    var meta := ReadMeta(metas, p);
    var row := DerivedRow(env, disk.files[p], meta);
    if meta.etag.Some? then Some((metas, row))
    else
      var written := WriteMeta(env, metas, p, meta.(etag := row.etag));
      if written.None? then None else Some((written.value, row))
  }

  function StatIndexed(env: Env, s: State, id: RowId, p: Path): (State, Result<Summary, Error>)
    requires p != [] && p in s.disk.files
  {
    if id in s.rows then
      var row := s.rows[id];
      if row.etag.Some? then (s, Success(SummaryOf(id.key, row)))
      else
        var filled := row.(etag := Some(env.md5(s.disk.files[p].bytes)));
        (s.(rows := s.rows[id := filled]), Success(SummaryOf(id.key, filled)))
    else
      match IndexFromDisk(env, s.disk, s.metas, p)
      case None => (s, Failure(IoError))
      case Some((metas, row)) =>
        (State(s.disk, metas, s.rows[id := row]), Success(SummaryOf(id.key, row)))
  }

  function OpenObject(env: Env, s: State, bucket: string, key: string): (State, Result<(seq<Byte>, Summary), Error>)
  {
    match Resolve(env.blank, key)
    case None => (s, Failure(InvalidKey))
    case Some(q) =>
      var p := [bucket] + q;
      if p in s.disk.files then
        var (after, summary) := StatIndexed(env, s, RowId(bucket, key), p);
        match summary {
          case Failure(e) => (after, Failure(e))
          case Success(v) => (after, Success((s.disk.files[p].bytes, v)))
        }
      else if p !in s.disk.dirs && s.disk.Obstructed(p) then (s, Failure(IoError))
      else (s, Failure(NoSuchKey))
  }

  function SetPublic(env: Env, s: State, bucket: string, key: string, public: bool): (State, Result<(), Error>)
  {
    match Resolve(env.blank, key)
    case None => (s, Failure(InvalidKey))
    case Some(q) =>
      var p := [bucket] + q;
      var id := RowId(bucket, key);
      if p !in s.disk.files then (s, Failure(NoSuchKey))
      else
        var flipped := WriteMeta(env, s.metas, p, ReadMeta(s.metas, p).(public := public));
        if flipped.None? then (s, Failure(IoError))
        else if id in s.rows then
          (State(s.disk, flipped.value, s.rows[id := s.rows[id].(public := public)]), Success(()))
        else
          match IndexFromDisk(env, s.disk, flipped.value, p)
          case None => (s.(metas := flipped.value), Failure(IoError))
          case Some((metas, row)) =>
            (State(s.disk, metas, s.rows[id := row.(public := public)]), Success(()))
  }

  function IsPublic(env: Env, s: State, bucket: string, key: string): bool {
    match Resolve(env.blank, key)
    case None => false
    case Some(q) =>
      var id := RowId(bucket, key);
      if id in s.rows then s.rows[id].public else ReadMeta(s.metas, [bucket] + q).public
  }

  ghost function DeleteObject(env: Env, s: State, bucket: string, key: string): (State, Result<(), Error>)
  {
    match Resolve(env.blank, key)
    case None => (s, Failure(InvalidKey))
    case Some(q) =>
      var p := [bucket] + q;
      match s.disk.RemoveIfExists(p)
      case None => (s, Failure(IoError))
      case Some(unlinked) =>
        var disk := unlinked.Pruned(Parent(p));
        match s.metas.RemoveIfExists(p)
        case None => (s.(disk := disk), Failure(IoError))
        case Some(cleared) =>
          (State(disk, cleared.Pruned(Parent(p)), s.rows - {RowId(bucket, key)}), Success(()))
  }

  // ---- buckets ----

  function WithoutRows(rows: map<RowId, Row>, bucket: string): map<RowId, Row> {
    map id | id in rows && id.bucket != bucket :: rows[id]
  }

  function CreateBucketDirectory(s: State, bucket: string): Option<State> {
    var made := s.disk.MkdirAll([bucket]);
    if made.None? then None else Some(s.(disk := made.value))
  }

  /** A missing directory counts as empty; reading the entries of a file is an error. */
  function IsBucketEmpty(disk: Tree<Blob>, bucket: string): Result<bool, Error> {
    if [bucket] in disk.dirs then Success(!disk.HasEntries([bucket]))
    else if [bucket] in disk.files || disk.Obstructed([bucket]) then Failure(IoError)
    else Success(true)
  }

  /** An empty bucket loses its rows, then its directory. */
  function DropBucket(s: State, bucket: string): Option<State> {
    if IsBucketEmpty(s.disk, bucket) != Success(true) then None
    else
      var removed := s.disk.RemoveIfExists([bucket]);
      if removed.None? then None else Some(State(removed.value, s.metas, WithoutRows(s.rows, bucket)))
  }

  // ---- listing ----

  datatype Page = Page(objects: seq<Summary>, truncated: bool, next: Option<string>)

  const MAX_LIST_LIMIT := 1000

  function Clamp(limit: int): (n: nat)
    ensures 1 <= n <= MAX_LIST_LIMIT
  {
    if limit < 1 then 1 else if limit > MAX_LIST_LIMIT then MAX_LIST_LIMIT else limit
  }

  function KeysIn(rows: map<RowId, Row>, bucket: string): set<string> {
    set id | id in rows && id.bucket == bucket :: id.key
  }

  /** The keys after the cursor that carry the prefix. */
  function After(keys: set<string>, prefix: string, cursor: string): set<string> {
    set k | k in keys && Less(cursor, k) && prefix <= k
  }

  /** The keys a listing query selects: in the bucket, after the cursor, with the prefix. */
  function Matching(rows: map<RowId, Row>, bucket: string, prefix: string, cursor: string): set<string> {
    After(KeysIn(rows, bucket), prefix, cursor)
  }

  function Take(ks: seq<string>, n: nat): seq<string> {
    if |ks| <= n then ks else ks[..n]
  }

  /** One page of keys: query `limit + 1` of them in key order, keep `limit`, and say whether more exist. */
  function KeyPage(keys: set<string>, limit: int): (seq<string>, bool) {
    var fetched := Take(Sorted(keys), Clamp(limit) + 1);
    if |fetched| > Clamp(limit) then (fetched[..Clamp(limit)], true) else (fetched, false)
  }

  function PageOf(rows: map<RowId, Row>, bucket: string, prefix: string, limit: int, cursor: string): Page {
    var keys := Matching(rows, bucket, prefix, cursor);
    var (ks, more) := KeyPage(keys, limit);
    Page(SummarizeAll(rows, bucket, ks), more, if more && ks != [] then Some(ks[|ks| - 1]) else None)
  }

  function Summarize(rows: map<RowId, Row>, bucket: string, key: string): Summary {
    var id := RowId(bucket, key);
    if id in rows then SummaryOf(key, rows[id]) else Summary(key, 0, 0, "", "", false)
  }

  function SummarizeAll(rows: map<RowId, Row>, bucket: string, ks: seq<string>): (ss: seq<Summary>)
    ensures |ss| == |ks|
  {
    if ks == [] then [] else [Summarize(rows, bucket, ks[0])] + SummarizeAll(rows, bucket, ks[1..])
  }

  // ---- reindexing ----

  /** The files of a bucket the directory walk visits. */
  function Walked(disk: Tree<Blob>, bucket: string): set<Path> {
    set p | p in disk.files && 2 <= |p| && p[0] == bucket && Visible(p)
  }

  function RowsOf(rows: map<RowId, Row>, bucket: string): set<RowId> {
    set id | id in rows && id.bucket == bucket
  }

  /** A row a non-forced pass leaves alone: hashed already, and of the size the file has. */
  predicate Settled(rows: map<RowId, Row>, blob: Blob, id: RowId) {
    id in rows && rows[id].etag.Some? && rows[id].size == |blob.bytes|
  }

  function Refreshed(s: State, bucket: string, force: bool): set<Path> {
    set p | p in Walked(s.disk, bucket) && (force || !Settled(s.rows, s.disk.files[p], RowIdOf(p)))
  }

  /** Rows of the bucket whose file the walk does not see. */
  function Orphans(s: State, bucket: string): set<RowId> {
    set id | id in RowsOf(s.rows, bucket) && PathOf(id) !in Walked(s.disk, bucket)
  }

  /** The sidecar tree can take a sidecar for every file that needs its ETag filled in. */
  predicate SidecarsFit(s: State, bucket: string, force: bool) {
    forall p :: p in Refreshed(s, bucket, force) && ReadMeta(s.metas, p).etag.None? ==> s.metas.Placeable(p)
  }

  /** Sidecar files after a reindex: missing ETags of refreshed files are filled in. */
  function ReindexedSidecars(env: Env, s: State, bucket: string, force: bool): map<Path, Sidecar> {
    map p | p in s.metas.files.Keys + Refreshed(s, bucket, force) ::
      if p in Refreshed(s, bucket, force) then HealedSidecar(env, s.disk.files[p], ReadMeta(s.metas, p))
      else s.metas.files[p]
  }

  /** Rows after a reindex: refreshed files get derived rows, orphans go, the rest stays. */
  ghost function ReindexedRows(env: Env, s: State, bucket: string, force: bool): map<RowId, Row>
    requires s.disk.Wf()
  {
    DiskNames(s.disk);
    map id | id in (s.rows.Keys - Orphans(s, bucket)) + (set p | p in Refreshed(s, bucket, force) :: RowIdOf(p)) ::
      if PathOf(id) in Refreshed(s, bucket, force)
      then DerivedRow(env, s.disk.files[PathOf(id)], ReadMeta(s.metas, PathOf(id)))
      else s.rows[id]
  }
}
