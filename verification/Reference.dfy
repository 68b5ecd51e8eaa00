/** The reference: an object server that is nothing but a map from paths to objects.
    No directories, no sidecars, no index. */
module Reference {
  import opened Wrappers
  import opened Text
  import opened Paths
  import opened ObjectState

  datatype Obj = Obj(bytes: seq<Byte>, mtime: int, contentType: Option<string>, public: bool)

  type Objects = map<Path, Obj>

  /** No object lies above or below `p`: neither key continues the other after a separator. */
  predicate Free(keys: set<Path>, p: Path) {
    forall f :: f in keys ==> !(f < p) && !(p < f)
  }

  /** The index row an object ought to have. */
  function RowFor(env: Env, obj: Obj): Row {
    Row(|obj.bytes|, obj.mtime, Some(env.md5(obj.bytes)), obj.contentType, obj.public)
  }

  function Put(env: Env, o: Objects, bucket: string, key: string, bytes: seq<Byte>, contentType: string,
               public: bool, now: int): (Objects, Result<string, Error>)
  {
    match Resolve(env.blank, key)
    case None => (o, Failure(InvalidKey))
    case Some(q) =>
      if Free(o.Keys, [bucket] + q)
      then (o[[bucket] + q := Obj(bytes, now, SanitizeType(env, contentType), public)], Success(env.md5(bytes)))
      else (o, Failure(IoError))
  }

  function Get(env: Env, o: Objects, bucket: string, key: string): Result<(seq<Byte>, Summary), Error> {
    match Resolve(env.blank, key)
    case None => Failure(InvalidKey)
    case Some(q) =>
      var p := [bucket] + q;
      if p in o then Success((o[p].bytes, SummaryOf(key, RowFor(env, o[p]))))
      else if exists f :: f in o && f < p then Failure(IoError)
      else Failure(NoSuchKey)
  }

  function SetPublic(env: Env, o: Objects, bucket: string, key: string, public: bool): (Objects, Result<(), Error>) {
    match Resolve(env.blank, key)
    case None => (o, Failure(InvalidKey))
    case Some(q) =>
      var p := [bucket] + q;
      if p in o then (o[p := o[p].(public := public)], Success(())) else (o, Failure(NoSuchKey))
  }

  predicate IsPublic(env: Env, o: Objects, bucket: string, key: string) {
    match Resolve(env.blank, key)
    case None => false
    case Some(q) => [bucket] + q in o && o[[bucket] + q].public
  }

  /** Deleting a missing key succeeds, unless another key lies above or below it. */
  function Delete(env: Env, o: Objects, bucket: string, key: string): (Objects, Result<(), Error>) {
    match Resolve(env.blank, key)
    case None => (o, Failure(InvalidKey))
    case Some(q) =>
      var p := [bucket] + q;
      if Free(o.Keys, p) then (o - {p}, Success(())) else (o, Failure(IoError))
  }

  function KeysOf(o: Objects, bucket: string): set<string> {
    set p | p in o && 2 <= |p| && p[0] == bucket && Visible(p) :: KeyOf(p[1..])
  }

  /** One page: the first keys after the cursor that carry the prefix, and whether any remain. */
  function List(env: Env, o: Objects, bucket: string, prefix: string, limit: int, cursor: string): Page {
    var all := Sorted(set k | k in KeysOf(o, bucket) && Less(cursor, k) && prefix <= k);
    var ks := Take(all, Clamp(limit));
    var more := |all| > Clamp(limit);
    Page(DescribeAll(env, o, bucket, ks), more, if more then Some(ks[|ks| - 1]) else None)
  }

  function Describe(env: Env, o: Objects, bucket: string, key: string): Summary {
    var p := PathOf(RowId(bucket, key));
    if p in o then SummaryOf(key, RowFor(env, o[p])) else Summary(key, 0, 0, "", "", false)
  }

  function DescribeAll(env: Env, o: Objects, bucket: string, ks: seq<string>): (ss: seq<Summary>)
    ensures |ss| == |ks|
  {
    if ks == [] then [] else [Describe(env, o, bucket, ks[0])] + DescribeAll(env, o, bucket, ks[1..])
  }
}
