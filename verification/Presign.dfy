/** Presigned URLs: what `presign` prints, and what the server makes of it when it comes back. */
module Presign {
  import opened Wrappers
  import opened Text
  import opened Decimal
  import opened Signing
  import opened Url
  import opened Store
  import opened Auth

  datatype PresignRequest = PresignRequest(key: string, httpMethod: string, expiresInSeconds: int)

  datatype PresignError = InvalidRequest | InvalidExpiry

  const MAX_EXPIRES_IN := 604800

  function SignedPath(name: string, key: string): string {
    BUCKETS + name + ['/'] + OBJECTS + key
  }

  const ACCESS_KEY := "AccessKey"
  const EXPIRES := "Expires"
  const SIGNATURE := "Signature"

  function QueryOf(accessKey: string, expires: int, signature: string): string
    requires IsBytes(accessKey)
  {
    ACCESS_KEY + "=" + Escape(accessKey) + ['&']
        + (EXPIRES + "=" + FormatInt(expires) + ['&'] + (SIGNATURE + "=" + signature))
  }

  function SignatureOf(mac: Mac, row: BucketRow, httpMethod: string, path: string, expires: int): string {
    Sign(mac, row.secret, StringToSign(httpMethod, path, expires))
  }

  /** Path and query of a presigned URL; scheme and host come before it. */
  function PresignedTarget(mac: Mac, name: string, row: BucketRow, httpMethod: string, key: string,
                           expires: int): string
    requires IsBytes(name) && IsBytes(key) && IsBytes(row.accessKey)
  {
    var path := SignedPath(name, key);
    SignedPathBytes(name, key);
    EscapePath(path) + ['?'] + QueryOf(row.accessKey, expires, SignatureOf(mac, row, httpMethod, path, expires))
  }

  lemma SignedPathBytes(name: string, key: string)
    requires IsBytes(name) && IsBytes(key)
    ensures IsBytes(SignedPath(name, key))
  {
  }

  predicate PresignRefused(blank: string -> bool, req: PresignRequest) {
    blank(req.key) || (req.httpMethod != "GET" && req.httpMethod != "PUT")
    || req.expiresInSeconds < 1 || req.expiresInSeconds > MAX_EXPIRES_IN
  }

  /** Literally: a key that is not blank, one of two methods, and from one second to seven days. */
  lemma PresignRefusedIff(blank: string -> bool, req: PresignRequest)
    ensures PresignRefused(blank, req) <==>
              !(!blank(req.key) && (req.httpMethod == ['G', 'E', 'T'] || req.httpMethod == ['P', 'U', 'T'])
                && 1 <= req.expiresInSeconds <= 7 * 24 * 60 * 60)
  {
  }

  /** The handler once the bucket is known: validate, sign, then escape the path segment by segment. */
  method PresignUrl(env: AuthEnv, blank: string -> bool, maxExpiry: int, name: string, row: BucketRow,
                    req: PresignRequest) returns (r: Result<string, PresignError>)
    requires IsBytes(name) && IsBytes(req.key) && IsBytes(row.accessKey)
    ensures r == if PresignRefused(blank, req) then Failure(InvalidRequest)
                 else if req.expiresInSeconds > maxExpiry then Failure(InvalidExpiry)
                 else Success(PresignedTarget(env.mac, name, row, req.httpMethod, req.key,
                                              env.now + req.expiresInSeconds))
  {
    hide PresignedTarget, QueryOf, Escape, EscapePath, Split, Join;
    if blank(req.key) || req.httpMethod == "" || (req.httpMethod != "GET" && req.httpMethod != "PUT")
       || req.expiresInSeconds < 1 || req.expiresInSeconds > MAX_EXPIRES_IN {
      return Failure(InvalidRequest);
    }
    if req.expiresInSeconds > maxExpiry { return Failure(InvalidExpiry); }
    var path := SignedPath(name, req.key);
    SignedPathBytes(name, req.key);
    var expires := env.now + req.expiresInSeconds;
    var signature := SignatureOf(env.mac, row, req.httpMethod, path, expires);
    var printed := PrintPath(path);
    var query := PrintQuery(row.accessKey, expires, signature);
    TargetIs(env.mac, name, row, req.httpMethod, req.key, expires, signature);
    r := Success(printed + ['?'] + query);
  }

  lemma TargetIs(mac: Mac, name: string, row: BucketRow, httpMethod: string, key: string, expires: int,
                 signature: string)
    requires IsBytes(name) && IsBytes(key) && IsBytes(row.accessKey)
    requires signature == SignatureOf(mac, row, httpMethod, SignedPath(name, key), expires)
    ensures IsBytes(SignedPath(name, key))
    ensures PresignedTarget(mac, name, row, httpMethod, key, expires)
            == EscapePath(SignedPath(name, key)) + ['?'] + QueryOf(row.accessKey, expires, signature)
  {
    hide QueryOf, EscapePath, SignedPath;
    SignedPathBytes(name, key);
  }

  method PrintQuery(accessKey: string, expires: int, signature: string) returns (query: string)
    requires IsBytes(accessKey)
    ensures query == QueryOf(accessKey, expires, signature)
  {
    hide Escape, FormatInt;
    var escaped := EscapeDataString(accessKey);
    query := "AccessKey=" + escaped + "&Expires=" + FormatInt(expires) + "&Signature=" + signature;
    QueryText(escaped, FormatInt(expires), signature);
  }

  lemma QueryText(escaped: string, expires: string, signature: string)
    ensures "AccessKey=" + escaped + "&Expires=" + expires + "&Signature=" + signature
            == ACCESS_KEY + "=" + escaped + ['&'] + (EXPIRES + "=" + expires + ['&'] + (SIGNATURE + "=" + signature))
  {
  }

  /** The loop that replaces each segment by its escaped form. */
  method PrintPath(path: string) returns (printed: string)
    requires IsBytes(path)
    ensures printed == EscapePath(path)
  {
    hide Escape, Split, EscapeSegments, EscapePath, Join;
    var parts := Split(path, '/');
    SplitBytes(path, '/');
    var segments := new string[|parts|](i requires 0 <= i < |parts| => parts[i]);
    for i := 0 to |parts|
      invariant forall j :: i <= j < |parts| ==> segments[j] == parts[j]
      invariant EscapeSegments(parts) == segments[..i] + EscapeSegments(parts[i..])
    {
      var escaped := EscapeDataString(segments[i]);
      EscapeNext(parts, i);
      segments[i] := escaped;
    }
    assert segments[..] == segments[..|parts|] + [];
    PathIs(path, parts, segments[..]);
    printed := Join(segments[..], '/');
  }

  lemma PathIs(path: string, parts: seq<string>, segments: seq<string>)
    requires IsBytes(path) && parts == Split(path, '/') && AllBytes(parts)
    requires EscapeSegments(parts) == segments + EscapeSegments(parts[|parts|..])
    ensures segments != [] && EscapePath(path) == Join(segments, '/')
  {
    hide Escape, Split, Join;
    assert parts[|parts|..] == [] && segments + [] == segments;
  }

  lemma EscapeNext(parts: seq<string>, i: nat)
    requires AllBytes(parts) && i < |parts|
    ensures IsBytes(parts[i])
    ensures EscapeSegments(parts[i..]) == [Escape(parts[i])] + EscapeSegments(parts[i + 1..])
  {
    assert parts[i..][1..] == parts[i + 1..];
  }

  // ---- the URL read back ----

  function PresignQuery(accessKey: string, expires: string, signature: string): Query {
    [(ACCESS_KEY, accessKey), (EXPIRES, expires), (SIGNATURE, signature)]
  }

  /** Parsing a printed URL gives back the path that was signed, byte for byte, and the three parameters. */
  lemma PresignedTargetParses(mac: Mac, name: string, row: BucketRow, httpMethod: string, key: string, expires: int)
    requires IsBytes(name) && IsBytes(key) && IsBytes(row.accessKey)
    ensures var path := SignedPath(name, key);
            ParseTarget(PresignedTarget(mac, name, row, httpMethod, key, expires))
            == Some((path, PresignQuery(row.accessKey, FormatInt(expires),
                                        SignatureOf(mac, row, httpMethod, path, expires))))
  {
    hide QueryOf, EscapePath, SignedPath, Unescape, ParseQuery, FormatInt, PresignQuery, SignatureOf, PresignedTarget;
    var path := SignedPath(name, key);
    var signature := SignatureOf(mac, row, httpMethod, path, expires);
    TargetIs(mac, name, row, httpMethod, key, expires, signature);
    var printed, query := EscapePath(path), QueryOf(row.accessKey, expires, signature);
    EscapedPathChars(path, '?');
    IndexOfAppend(printed, '?', query);
    var target := printed + ['?'] + query;
    assert target[..|printed|] == printed && target[|printed| + 1..] == query;
    EscapedPathDecodes(path);
    SignatureIsHex(mac, row, httpMethod, path, expires);
    QueryParses(row.accessKey, expires, signature);
  }

  lemma SignatureIsHex(mac: Mac, row: BucketRow, httpMethod: string, path: string, expires: int)
    ensures SignatureOf(mac, row, httpMethod, path, expires) != ""
            && AllHex(SignatureOf(mac, row, httpMethod, path, expires))
  {
  }

  lemma QueryParses(accessKey: string, expires: int, signature: string)
    requires IsBytes(accessKey) && AllHex(signature)
    ensures ParseQuery(QueryOf(accessKey, expires, signature)) == PresignQuery(accessKey, FormatInt(expires), signature)
  {
    hide Split, Join, Escape, Unescape, FormatInt, ParsePiece;
    var first, second, third := ACCESS_KEY + "=" + Escape(accessKey), EXPIRES + "=" + FormatInt(expires),
        SIGNATURE + "=" + signature;
    QuerySplits(accessKey, expires, signature);
    FirstPiece(accessKey);
    SecondPiece(expires);
    ThirdPiece(signature);
    ThreePieces(first, second, third);
  }

  lemma ThreePieces(first: string, second: string, third: string)
    ensures ParsePieces([first, second, third]) == ParsePiece(first) + ParsePiece(second) + ParsePiece(third)
  {
    hide ParsePiece;
    assert [first, second, third][1..] == [second, third] && [second, third][1..] == [third];
    assert ParsePieces([third]) == ParsePiece(third) + ParsePieces([]);
    assert ParsePieces([second, third]) == ParsePiece(second) + ParsePieces([third]);
  }

  lemma FirstPiece(accessKey: string)
    requires IsBytes(accessKey)
    ensures ParsePiece(ACCESS_KEY + "=" + Escape(accessKey)) == [(ACCESS_KEY, accessKey)]
    ensures '&' !in ACCESS_KEY + "=" + Escape(accessKey)
  {
    hide ParsePiece, Unescape;
    UnescapeEscape(accessKey, "", true);
    UnescapeNothing(true);
    assert Escape(accessKey) + "" == Escape(accessKey) && accessKey + "" == accessKey;
    PieceParses(ACCESS_KEY, accessKey, Escape(accessKey));
  }

  lemma UnescapeNothing(query: bool)
    ensures Unescape("", query) == Some("")
  {
  }

  lemma PlainPiece(name: string, value: string)
    requires name != "" && forall i :: 0 <= i < |name| ==> Unreserved(name[i])
    requires forall i :: 0 <= i < |value| ==> Unreserved(value[i])
    ensures ParsePiece(name + "=" + value) == [(name, value)]
    ensures '&' !in name + "=" + value
  {
    hide ParsePiece, Unescape;
    UnescapeUnreserved(value);
    PieceParses(name, value, value);
  }

  lemma SecondPiece(expires: int)
    ensures ParsePiece(EXPIRES + "=" + FormatInt(expires)) == [(EXPIRES, FormatInt(expires))]
    ensures '&' !in EXPIRES + "=" + FormatInt(expires)
  {
    hide ParsePiece, Unescape;
    PlainPiece(EXPIRES, FormatInt(expires));
  }

  lemma ThirdPiece(signature: string)
    requires AllHex(signature)
    ensures ParsePiece(SIGNATURE + "=" + signature) == [(SIGNATURE, signature)]
    ensures '&' !in SIGNATURE + "=" + signature
  {
    hide ParsePiece, Unescape;
    PlainPiece(SIGNATURE, signature);
  }

  lemma QuerySplits(accessKey: string, expires: int, signature: string)
    requires IsBytes(accessKey) && AllHex(signature)
    ensures Split(QueryOf(accessKey, expires, signature), '&')
            == [ACCESS_KEY + "=" + Escape(accessKey), EXPIRES + "=" + FormatInt(expires), SIGNATURE + "=" + signature]
  {
    hide Split, Escape, FormatInt, ParsePiece, Join;
    FirstPiece(accessKey);
    SecondPiece(expires);
    ThirdPiece(signature);
    var first, second, third := ACCESS_KEY + "=" + Escape(accessKey), EXPIRES + "=" + FormatInt(expires),
        SIGNATURE + "=" + signature;
    SplitJoin([first, second, third], '&');
    JoinThree(first, second, third, '&');
  }

  lemma JoinThree(first: string, second: string, third: string, c: char)
    ensures Join([first, second, third], c) == first + [c] + (second + [c] + third)
  {
    JoinCons(second, [third], c);
    JoinCons(first, [second, third], c);
    assert [first] + [second, third] == [first, second, third] && [second] + [third] == [second, third];
  }

  /** The request a client makes by following a URL: whatever authorization header it may add. */
  function Follow(url: string, httpMethod: string, authorization: string): Option<Request> {
    var parsed := ParseTarget(url);
    if parsed.None? then None else Some(Request(httpMethod, parsed.value.0, parsed.value.1, authorization))
  }

  predicate PlainName(name: string) {
    name != "" && '/' !in name && NEWLINE !in name && IsBytes(name)
  }

  lemma SignedPathParts(name: string, key: string)
    requires PlainName(name)
    ensures BUCKETS <= SignedPath(name, key)
    ensures var rest := After(SignedPath(name, key), BUCKETS);
            && IndexOf(rest, '/') == |name| < |rest|
            && rest[..|name|] == name && rest[|name| + 1..] == OBJECTS + key
            && rest[|name|..] == ['/'] + OBJECTS + key
  {
    hide IndexOf;
    var rest := After(SignedPath(name, key), BUCKETS);
    assert rest == name + ['/'] + (OBJECTS + key);
    IndexOfAppend(name, '/', OBJECTS + key);
  }

  lemma KeyLines(key: string)
    ensures NEWLINE in ['/'] + OBJECTS + key <==> NEWLINE in key
    ensures OBJECTS <= OBJECTS + key && After(OBJECTS + key, OBJECTS) == key
  {
  }

  lemma SignedPathMatches(name: string, key: string)
    requires PlainName(name)
    ensures MatchBucketPath(SignedPath(name, key)) == if NEWLINE in key then None else Some(name)
    ensures MatchObjectPath(SignedPath(name, key)) == if key == "" || NEWLINE in key then None else Some((name, key))
  {
    hide SignedPath, IndexOf, After;
    SignedPathParts(name, key);
    KeyLines(key);
  }

  lemma SignedPathRoutes(httpMethod: string, name: string, key: string)
    requires PlainName(name)
    ensures Router(httpMethod, SignedPath(name, key)) == BucketRoute(httpMethod, name, OBJECTS + key)
  {
    hide BucketRoute, Router, SignedPath, IndexOf;
    SignedPathParts(name, key);
    InsideBucketsRoute(httpMethod, SignedPath(name, key));
  }

  lemma ObjectRoute(httpMethod: string, name: string, key: string)
    ensures BucketRoute(httpMethod, name, OBJECTS + key) == ObjectRouteOf(httpMethod, name, key)
  {
    assert (OBJECTS + key)[7] == '/';
    assert After(OBJECTS + key, OBJECTS) == key;
  }

  /** The handler an object path reaches. */
  function ObjectRouteOf(httpMethod: string, name: string, key: string): Route {
    if IsRead(httpMethod) then GetObject(name, key)
    else if httpMethod == "PUT" then PutObject(name, key)
    else if httpMethod == "DELETE" then DeleteObject(name, key)
    else MethodNotAllowed
  }
}
