/** Which requests the bucket filter lets through, and which handler they reach. */
module Auth {
  import opened Wrappers
  import opened Text
  import opened Decimal
  import opened Signing
  import opened Url
  import opened Store

  datatype Request = Request(httpMethod: string, path: string, query: Query, authorization: string)

  /** The clock, the allowed skew, and the keyed hash. */
  datatype AuthEnv = AuthEnv(mac: Mac, now: int, clockSkew: int)

  datatype AuthInfo = AuthInfo(bucket: string, viaPublic: bool, presignExpires: int)

  datatype Verdict = Forward(info: Option<AuthInfo>) | Reject(status: int)

  type Buckets = map<string, BucketRow>

  type Visibility = (string, string) -> bool

  // ---- the patterns ----

  const BUCKETS := "/buckets/"
  const OBJECTS := "objects/"

  function After(s: string, prefix: string): string
    requires prefix <= s
  {
    s[|prefix|..]
  }

  /** `^/buckets/([^/]+)(/.*)?$`: the dot matches no newline. */
  function MatchBucketPath(path: string): Option<string> {
    if !(BUCKETS <= path) then None
    else
      var rest := After(path, BUCKETS);
      var i := IndexOf(rest, '/');
      if i == 0 || (i < |rest| && NEWLINE in rest[i..]) then None else Some(rest[..i])
  }

  /** `^/buckets/([^/]+)/objects/(.+)$` */
  function MatchObjectPath(path: string): Option<(string, string)> {
    if !(BUCKETS <= path) then None
    else
      var rest := After(path, BUCKETS);
      var i := IndexOf(rest, '/');
      if i == 0 || i == |rest| || !(OBJECTS <= rest[i + 1..]) then None
      else
        var key := After(rest[i + 1..], OBJECTS);
        if key == "" || NEWLINE in key then None else Some((rest[..i], key))
  }

  predicate IsSpace(c: char) { c == ' ' || c == '\t' || c == '\n' || c == '\r' || c as int == 12 }

  function SkipSpaces(s: string): string {
    if s != "" && IsSpace(s[0]) then SkipSpaces(s[1..]) else s
  }

  function SkipSpacesBack(s: string): string {
    if s != "" && IsSpace(s[|s| - 1]) then SkipSpacesBack(s[..|s| - 1]) else s
  }

  function Trim(s: string): string { SkipSpacesBack(SkipSpaces(s)) }

  const SCHEME := "S3BENDER-HMAC-SHA256"

  /** `name` and then everything up to the next comma, which must be there. */
  function MatchField(s: string, name: string): Option<(string, string)> {
    if !(name <= s) then None
    else
      var v := After(s, name);
      var i := IndexOf(v, ',');
      if i == 0 || i == |v| then None else Some((v[..i], v[i + 1..]))
  }

  /** Access key, timestamp and signature of a header value. */
  datatype HeaderMatch = HeaderMatch(accessKey: string, timestamp: string, signature: string)

  predicate AllHex(s: string) {
    forall i :: 0 <= i < |s| ==> IsHexChar(s[i])
  }

  /** The authorization header pattern. */
  function MatchAuthHeader(h: string): Option<HeaderMatch> {
    if !(SCHEME <= h) || After(h, SCHEME) == "" || !IsSpace(After(h, SCHEME)[0]) then None
    else
      var first := MatchField(SkipSpaces(After(h, SCHEME)), "AccessKey=");
      if first.None? then None
      else
        var second := MatchField(SkipSpaces(first.value.1), "Timestamp=");
        if second.None? then None
        else
          var last := SkipSpaces(second.value.1);
          if !("Signature=" <= last) then None
          else
            var signature := After(last, "Signature=");
            if signature == "" || !AllHex(signature) then None
            else Some(HeaderMatch(first.value.0, second.value.0, signature))
  }

  // ---- verification ----

  /** Constant-time comparison answers equality. */
  predicate SignatureMatches(expected: string, provided: string) { expected == provided }

  function VerifyPresigned(env: AuthEnv, httpMethod: string, path: string, secret: string, expires: string,
                           signature: string): Option<int>
  {
    var e := ParseInt(expires);
    if e.None? || env.now > e.value then None
    else if SignatureMatches(Sign(env.mac, secret, StringToSign(httpMethod, path, e.value)), signature) then e
    else None
  }

  /** 64-bit wrap-around. */
  function Wrap64(x: int): int {
    (x - MIN_INT64) % 0x1_0000_0000_0000_0000 + MIN_INT64
  }

  /** The distance from now, as computed on 64-bit integers. */
  function SkewOf(now: int, ts: int): int {
    var skew := Wrap64(now - ts);
    if skew < 0 then Wrap64(-skew) else skew
  }

  predicate VerifyHeader(env: AuthEnv, httpMethod: string, path: string, secret: string, m: Option<HeaderMatch>) {
    m.Some? &&
    var ts := ParseInt(m.value.timestamp);
    ts.Some? && SkewOf(env.now, ts.value) <= env.clockSkew
    && SignatureMatches(Sign(env.mac, secret, StringToSign(httpMethod, path, ts.value)), m.value.signature)
  }

  // ---- the filter ----

  /** `BucketByAccessKey`: the bucket that owns the key, if any. */
  ghost function Owner(buckets: Buckets, accessKey: string): Option<string> {
    if AccessKeyTaken(buckets, accessKey) then
      var n :| n in buckets && buckets[n].accessKey == accessKey;
      Some(n)
    else None
  }

  function HeaderOf(req: Request): Option<HeaderMatch> { MatchAuthHeader(Trim(req.authorization)) }

  /** The access key a request presents; the query's wins over the header's. */
  function PresentedKey(req: Request): string {
    var q := Lookup(req.query, "AccessKey");
    if q.Some? then q.value
    else if HeaderOf(req).Some? then HeaderOf(req).value.accessKey
    else ""
  }

  predicate IsPresigned(req: Request) {
    Lookup(req.query, "AccessKey").Some? && Lookup(req.query, "Expires").Some? && Lookup(req.query, "Signature").Some?
  }

  predicate PresignMethod(httpMethod: string) { httpMethod in {"GET", "PUT", "HEAD"} }

  /** What the signature checks conclude under a secret: the expiry of a presigned URL, or 0. */
  function CheckSignature(env: AuthEnv, req: Request, secret: string): Option<int> {
    if IsPresigned(req) then
      if PresignMethod(req.httpMethod)
      then VerifyPresigned(env, req.httpMethod, req.path, secret, Lookup(req.query, "Expires").value,
                           Lookup(req.query, "Signature").value)
      else None
    else if VerifyHeader(env, req.httpMethod, req.path, secret, HeaderOf(req)) then Some(0)
    else None
  }

  predicate IsRead(httpMethod: string) { httpMethod == "GET" || httpMethod == "HEAD" }

  /** A GET or HEAD of an object that is public: no credential needed. */
  predicate PublicRead(buckets: Buckets, visible: Visibility, req: Request) {
    IsRead(req.httpMethod)
    && var om := MatchObjectPath(req.path);
       om.Some? && om.value.0 in buckets && visible(om.value.0, om.value.1)
  }

  ghost function BucketAuth(env: AuthEnv, buckets: Buckets, visible: Visibility, req: Request): Verdict {
    var m := MatchBucketPath(req.path);
    if m.None? then Forward(None)
    else if PublicRead(buckets, visible, req) then Forward(Some(AuthInfo(m.value, true, 0)))
    else
      var owner := if PresentedKey(req) != "" then Owner(buckets, PresentedKey(req)) else None;
      if owner != Some(m.value) then Reject(401)
      else
        var checked := CheckSignature(env, req, buckets[m.value].secret);
        if checked.None? then Reject(403) else Forward(Some(AuthInfo(m.value, false, checked.value)))
  }

  // ---- the router ----

  datatype Route =
    | Health | ListBuckets | CreateBucket | DeleteBucket(name: string) | RotateKey(name: string) | Reindex(name: string)
    | ListObjects(bucket: string) | BucketStats(bucket: string) | Presign(bucket: string)
    | GetObject(bucket: string, key: string) | PutObject(bucket: string, key: string)
    | DeleteObject(bucket: string, key: string) | SetAcl(bucket: string, key: string)
    | MethodNotAllowed | NotFound | Static

  function BucketRoute(httpMethod: string, bucket: string, rest: string): Route {
    if rest == "objects" then if httpMethod == "GET" then ListObjects(bucket) else MethodNotAllowed
    else if rest == "stats" then if httpMethod == "GET" then BucketStats(bucket) else MethodNotAllowed
    else if rest == "presign" then if httpMethod == "POST" then Presign(bucket) else MethodNotAllowed
    else if OBJECTS <= rest then
      var key := After(rest, OBJECTS);
      if IsRead(httpMethod) then GetObject(bucket, key)
      else if httpMethod == "PUT" then PutObject(bucket, key)
      else if httpMethod == "DELETE" then DeleteObject(bucket, key)
      else MethodNotAllowed
    else if "acl/" <= rest then if httpMethod == "PUT" then SetAcl(bucket, After(rest, "acl/")) else MethodNotAllowed
    else NotFound
  }

  function AdminRoute(httpMethod: string, name: string, action: string): Route {
    if name == "" then NotFound
    else if action == "" then if httpMethod == "DELETE" then DeleteBucket(name) else MethodNotAllowed
    else if action == "rotate" then if httpMethod == "POST" then RotateKey(name) else MethodNotAllowed
    else if action == "reindex" then if httpMethod == "POST" then Reindex(name) else MethodNotAllowed
    else NotFound
  }

  /** `strings.Cut(s, "/")` */
  function Cut(s: string): (string, string) {
    var i := IndexOf(s, '/');
    (s[..i], if i < |s| then s[i + 1..] else "")
  }

  function Router(httpMethod: string, path: string): Route {
    if path == "/healthz" then if httpMethod == "GET" then Health else MethodNotAllowed
    else if path == "/admin/buckets" then
      if httpMethod == "GET" then ListBuckets else if httpMethod == "POST" then CreateBucket else MethodNotAllowed
    else if "/admin/buckets/" <= path then
      var (name, action) := Cut(After(path, "/admin/buckets/"));
      AdminRoute(httpMethod, name, action)
    else if BUCKETS <= path then
      var (bucket, rest) := Cut(After(path, BUCKETS));
      if bucket == "" then NotFound else BucketRoute(httpMethod, bucket, rest)
    else Static
  }

  /** The bucket an object handler acts on. */
  function BucketOf(route: Route): Option<string> {
    match route
    case ListObjects(b) => Some(b)
    case BucketStats(b) => Some(b)
    case Presign(b) => Some(b)
    case GetObject(b, _) => Some(b)
    case PutObject(b, _) => Some(b)
    case DeleteObject(b, _) => Some(b)
    case SetAcl(b, _) => Some(b)
    case _ => None
  }

  datatype Outcome = Refused(status: int) | Acts(route: Route, info: AuthInfo) | Elsewhere(route: Route)

  /** Filter, router and `authedBucket` in turn. */
  ghost function Serve(env: AuthEnv, buckets: Buckets, visible: Visibility, req: Request): Outcome {
    match BucketAuth(env, buckets, visible, req)
    case Reject(status) => Refused(status)
    case Forward(info) =>
      var route := Router(req.httpMethod, req.path);
      match BucketOf(route)
      case None => Elsewhere(route)
      case Some(b) => if info.None? || info.value.bucket != b then Refused(401) else Acts(route, info.value)
  }

  // ---- what gets through ----

  /** The request presents this bucket's own access key, and a signature its secret produces. */
  predicate Authenticates(env: AuthEnv, row: BucketRow, req: Request) {
    PresentedKey(req) != "" && PresentedKey(req) == row.accessKey && CheckSignature(env, req, row.secret).Some?
  }

  lemma OwnerIs(buckets: Buckets, accessKey: string, name: string)
    requires UniqueKeys(buckets)
    ensures Owner(buckets, accessKey) == Some(name) <==> name in buckets && buckets[name].accessKey == accessKey
  {
  }

  lemma BucketsPrefix(path: string)
    requires BUCKETS <= path
    ensures !("/admin/buckets/" <= path) && path != "/healthz" && path != "/admin/buckets"
  {
    assert path[1] == 'b';
  }

  lemma BucketRouteActsOn(httpMethod: string, bucket: string, rest: string)
    ensures BucketOf(BucketRoute(httpMethod, bucket, rest)) in {None, Some(bucket)}
  {
  }

  lemma AdminRouteActsOnNone(httpMethod: string, name: string, action: string)
    ensures BucketOf(AdminRoute(httpMethod, name, action)).None?
  {
  }

  lemma OutsideBucketsActsOnNone(httpMethod: string, path: string)
    requires !(BUCKETS <= path)
    ensures BucketOf(Router(httpMethod, path)).None?
  {
    hide AdminRoute, BucketRoute, Cut;
    if "/admin/buckets/" <= path {
      var (name, action) := Cut(After(path, "/admin/buckets/"));
      AdminRouteActsOnNone(httpMethod, name, action);
    }
  }

  lemma InsideBucketsRoute(httpMethod: string, path: string)
    requires BUCKETS <= path
    ensures var (bucket, rest) := Cut(After(path, BUCKETS));
            Router(httpMethod, path) == if bucket == "" then NotFound else BucketRoute(httpMethod, bucket, rest)
  {
    hide AdminRoute, BucketRoute, Cut;
    BucketsPrefix(path);
  }

  /** Every object handler's path has the filter's shape, up to newlines, and names the same bucket. */
  lemma RouteBucketIsPathBucket(httpMethod: string, path: string)
    ensures var acted := BucketOf(Router(httpMethod, path));
            acted.Some? ==> BUCKETS <= path && MatchBucketPath(path) in {None, acted}
  {
    hide Router, BucketRoute;
    if BUCKETS <= path {
      InsideBucketsRoute(httpMethod, path);
      var (bucket, rest) := Cut(After(path, BUCKETS));
      BucketRouteActsOn(httpMethod, bucket, rest);
    } else {
      OutsideBucketsActsOnNone(httpMethod, path);
    }
  }

  /** A path the object pattern matches is served, on a read, by `getObject` for that very key. */
  lemma ReadRoute(httpMethod: string, path: string)
    requires IsRead(httpMethod) && MatchObjectPath(path).Some?
    ensures var (b, k) := MatchObjectPath(path).value;
            Router(httpMethod, path) == GetObject(b, k) && MatchBucketPath(path) == Some(b)
  {
    BucketsPrefix(path);
    var rest := After(path, BUCKETS);
    var i := IndexOf(rest, '/');
    var key := After(rest[i + 1..], OBJECTS);
    assert rest[i + 1..][0] == 'o' && |rest[i + 1..]| > 7;
    assert rest[i..] == ['/'] + OBJECTS + key;
    assert NEWLINE !in rest[i..];
  }

  /** Filter and router agree. A handler acts exactly when its bucket exists, the filter resolved that same
      bucket from the path, and either the request is a read of a public object, which then reaches only
      `getObject` for the key whose visibility was checked, or it authenticates as that bucket. */
  lemma ActsIff(env: AuthEnv, buckets: Buckets, visible: Visibility, req: Request, info: AuthInfo)
    requires UniqueKeys(buckets)
    ensures var route := Router(req.httpMethod, req.path);
            Serve(env, buckets, visible, req) == Acts(route, info) <==>
              && BucketOf(route) == MatchBucketPath(req.path) == Some(info.bucket)
              && info.bucket in buckets
              && (if PublicRead(buckets, visible, req) then info == AuthInfo(info.bucket, true, 0)
                  else Authenticates(env, buckets[info.bucket], req)
                       && info == AuthInfo(info.bucket, false,
                                           CheckSignature(env, req, buckets[info.bucket].secret).value))
  {
    var m := MatchBucketPath(req.path);
    if PublicRead(buckets, visible, req) { ReadRoute(req.httpMethod, req.path); }
    RouteBucketIsPathBucket(req.httpMethod, req.path);
    if m.Some? { OwnerIs(buckets, PresentedKey(req), m.value); }
  }

  lemma ServesItsRoute(env: AuthEnv, buckets: Buckets, visible: Visibility, req: Request)
    ensures var served := Serve(env, buckets, visible, req);
            served.Acts? ==> served.route == Router(req.httpMethod, req.path)
  {
    hide BucketAuth, Router;
  }

  /** The bypass never reaches anything but a read, of a key that is public. */
  lemma PublicReachesOnlyGet(env: AuthEnv, buckets: Buckets, visible: Visibility, req: Request)
    requires UniqueKeys(buckets)
    ensures var served := Serve(env, buckets, visible, req);
            served.Acts? && served.info.viaPublic ==>
              && IsRead(req.httpMethod) && served.route.GetObject?
              && served.route.bucket in buckets && visible(served.route.bucket, served.route.key)
  {
    hide Serve, Router, MatchBucketPath, MatchObjectPath;
    var served := Serve(env, buckets, visible, req);
    if served.Acts? && served.info.viaPublic {
      ServesItsRoute(env, buckets, visible, req);
      ActsIff(env, buckets, visible, req, served.info);
      ReadRoute(req.httpMethod, req.path);
    }
  }

  // ---- clock skew on 64-bit integers ----

  /** For any clock before 2^62 and any configured skew up to that, the wrapped distance is within the skew
      exactly when the true distance is, or when the timestamp lies 2^63 seconds back: there the distance
      overflows to the one integer that is its own negation. */
  lemma SkewIs(now: int, ts: int, clockSkew: int)
    requires 0 <= now < 0x4000_0000_0000_0000 && 0 <= clockSkew <= 0x4000_0000_0000_0000
    requires MIN_INT64 <= ts <= MAX_INT64
    ensures SkewOf(now, ts) <= clockSkew <==> -clockSkew <= now - ts <= clockSkew || now - ts == -MIN_INT64
  {
    WrapIs(now - ts);
    var skew := Wrap64(now - ts);
    WrapIs(-skew);
  }

  lemma WrapIs(x: int)
    requires -0x1_0000_0000_0000_0000 < x < 0x1_0000_0000_0000_0000
    ensures MIN_INT64 <= x <= MAX_INT64 ==> Wrap64(x) == x
    ensures x > MAX_INT64 ==> Wrap64(x) == x - 0x1_0000_0000_0000_0000
    ensures x < MIN_INT64 ==> Wrap64(x) == x + 0x1_0000_0000_0000_0000
  {
  }
}
