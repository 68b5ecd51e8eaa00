/** When a presigned URL is honoured, and what a signature commits to. */
module PresignLaws {
  import opened Wrappers
  import opened Decimal
  import opened Signing
  import opened Url
  import opened Store
  import opened Auth
  import opened Presign

  // ---- the request a URL makes ----

  function UrlRequest(mac: Mac, name: string, signer: BucketRow, httpMethod: string, key: string, expires: int,
                      authorization: string): Request
  {
    var path := SignedPath(name, key);
    var signature := SignatureOf(mac, signer, httpMethod, path, expires);
    Request(httpMethod, path, PresignQuery(signer.accessKey, FormatInt(expires), signature), authorization)
  }

  lemma FollowIs(mac: Mac, name: string, signer: BucketRow, httpMethod: string, key: string, expires: int,
                 authorization: string)
    requires IsBytes(name) && IsBytes(key) && IsBytes(signer.accessKey)
    ensures Follow(PresignedTarget(mac, name, signer, httpMethod, key, expires), httpMethod, authorization)
            == Some(UrlRequest(mac, name, signer, httpMethod, key, expires, authorization))
  {
    hide PresignedTarget, ParseTarget, SignedPath, PresignQuery;
    PresignedTargetParses(mac, name, signer, httpMethod, key, expires);
  }

  lemma QueryFields(accessKey: string, expires: string, signature: string)
    ensures var q := PresignQuery(accessKey, expires, signature);
            && Lookup(q, "AccessKey") == Some(accessKey)
            && Lookup(q, "Expires") == Some(expires)
            && Lookup(q, "Signature") == Some(signature)
  {
    assert "AccessKey"[0] != "Signature"[0] && "Expires"[0] != "Signature"[0] && "AccessKey"[0] != "Expires"[0];
    var q := PresignQuery(accessKey, expires, signature);
    assert q[1..][0] == q[1] && q[1..][1..][0] == q[2];
    assert Lookup(q[1..][1..], "Signature") == Some(signature);
    assert Lookup(q[1..], "Signature") == Some(signature);
  }

  lemma UrlFields(mac: Mac, name: string, signer: BucketRow, httpMethod: string, key: string, expires: int,
                  authorization: string)
    ensures var req := UrlRequest(mac, name, signer, httpMethod, key, expires, authorization);
            && PresentedKey(req) == signer.accessKey && IsPresigned(req)
            && Lookup(req.query, "Expires") == Some(FormatInt(expires))
            && Lookup(req.query, "Signature")
                == Some(SignatureOf(mac, signer, httpMethod, SignedPath(name, key), expires))
  {
    hide Lookup, PresignQuery, SignedPath, SignatureOf;
    QueryFields(signer.accessKey, FormatInt(expires),
                SignatureOf(mac, signer, httpMethod, SignedPath(name, key), expires));
  }

  /** The signature check passes until the expiry, under any secret whose code agrees with the signer's. */
  lemma UrlChecks(env: AuthEnv, name: string, signer: BucketRow, httpMethod: string, key: string, expires: int,
                  authorization: string, secret: string)
    requires PresignMethod(httpMethod) && MIN_INT64 <= expires <= MAX_INT64
    ensures var s := StringToSign(httpMethod, SignedPath(name, key), expires);
            CheckSignature(env, UrlRequest(env.mac, name, signer, httpMethod, key, expires, authorization), secret)
            == if env.now <= expires && env.mac(secret, s) == env.mac(signer.secret, s) then Some(expires) else None
  {
    hide SignedPath, StringToSign, FormatInt, ParseInt, Lookup, Sign, PresignMethod;
    var path := SignedPath(name, key);
    UrlFields(env.mac, name, signer, httpMethod, key, expires, authorization);
    ParseFormat(expires);
    SameSignature(env.mac, secret, signer.secret, StringToSign(httpMethod, path, expires));
  }

  // ---- the main results ----

  /** Everything that can happen to a presigned URL for an object key, at any later time and in any state
      of the credentials table: the signer's pair need no longer be the bucket's. */
  lemma PresignedUrlIsServed(env: AuthEnv, buckets: Buckets, visible: Visibility, name: string, signer: BucketRow,
                             httpMethod: string, key: string, expires: int, authorization: string)
    requires UniqueKeys(buckets) && PlainName(name)
    requires IsBytes(key) && key != "" && IsBytes(signer.accessKey) && signer.accessKey != ""
    requires httpMethod in {"GET", "PUT"} && MIN_INT64 <= expires <= MAX_INT64
    ensures
      var req := Follow(PresignedTarget(env.mac, name, signer, httpMethod, key, expires), httpMethod, authorization);
      var s := StringToSign(httpMethod, SignedPath(name, key), expires);
      && req.Some?
      && Serve(env, buckets, visible, req.value) ==
         if NEWLINE in key then Refused(401)
         else if httpMethod == "GET" && name in buckets && visible(name, key)
         then Acts(GetObject(name, key), AuthInfo(name, true, 0))
         else if name !in buckets || buckets[name].accessKey != signer.accessKey then Refused(401)
         else if env.now > expires || env.mac(buckets[name].secret, s) != env.mac(signer.secret, s) then Refused(403)
         else Acts(ObjectRouteOf(httpMethod, name, key), AuthInfo(name, false, expires))
  {
    hide PresignedTarget, Follow, SignedPath, StringToSign, BucketAuth, Router, BucketRoute;
    FollowIs(env.mac, name, signer, httpMethod, key, expires, authorization);
    var req := UrlRequest(env.mac, name, signer, httpMethod, key, expires, authorization);
    SignedPathRoutes(httpMethod, name, key);
    ObjectRoute(httpMethod, name, key);
    FilterOnUrl(env, buckets, visible, name, signer, httpMethod, key, expires, authorization);
    ObjectRouteNamesBucket(httpMethod, name, key);
  }

  lemma ObjectRouteNamesBucket(httpMethod: string, name: string, key: string)
    requires httpMethod in {"GET", "PUT"}
    ensures BucketOf(ObjectRouteOf(httpMethod, name, key)) == Some(name)
    ensures httpMethod == "GET" ==> ObjectRouteOf(httpMethod, name, key) == GetObject(name, key)
  {
    assert httpMethod == "GET" || httpMethod == "PUT";
  }

  lemma FilterOnUrl(env: AuthEnv, buckets: Buckets, visible: Visibility, name: string, signer: BucketRow,
                    httpMethod: string, key: string, expires: int, authorization: string)
    requires UniqueKeys(buckets) && PlainName(name) && key != "" && signer.accessKey != ""
    requires httpMethod in {"GET", "PUT"} && MIN_INT64 <= expires <= MAX_INT64
    ensures
      var s := StringToSign(httpMethod, SignedPath(name, key), expires);
      BucketAuth(env, buckets, visible, UrlRequest(env.mac, name, signer, httpMethod, key, expires, authorization)) ==
      if NEWLINE in key then Forward(None)
      else if httpMethod == "GET" && name in buckets && visible(name, key) then Forward(Some(AuthInfo(name, true, 0)))
      else if name !in buckets || buckets[name].accessKey != signer.accessKey then Reject(401)
      else if env.now > expires || env.mac(buckets[name].secret, s) != env.mac(signer.secret, s) then Reject(403)
      else Forward(Some(AuthInfo(name, false, expires)))
  {
    hide SignedPath, StringToSign, PresentedKey, CheckSignature, Owner, MatchBucketPath, MatchObjectPath;
    SignedPathMatches(name, key);
    GetOrPut(httpMethod);
    UrlFields(env.mac, name, signer, httpMethod, key, expires, authorization);
    OwnerIs(buckets, signer.accessKey, name);
    if name in buckets {
      UrlChecks(env, name, signer, httpMethod, key, expires, authorization, buckets[name].secret);
    }
  }

  lemma GetOrPut(httpMethod: string)
    requires httpMethod in {"GET", "PUT"}
    ensures PresignMethod(httpMethod) && (IsRead(httpMethod) <==> httpMethod == "GET")
  {
    assert "PUT" != "GET" && "PUT" != "HEAD" by { assert "PUT"[0] != "GET"[0] && "PUT"[0] != "HEAD"[0]; }
  }

  /** The printed URL of a private object, or of any upload, works exactly until it expires or the bucket's
      pair is no longer the one that signed it, whatever the MAC. All it takes is that the signer's access key was
      not given to the bucket a second time with another secret. */
  lemma PresignedUntilExpiryOrRotation(env: AuthEnv, buckets: Buckets, visible: Visibility, name: string,
                                       signer: BucketRow, httpMethod: string, key: string, expires: int,
                                       authorization: string)
    requires UniqueKeys(buckets) && PlainName(name)
    requires name in buckets && buckets[name].accessKey == signer.accessKey ==> buckets[name] == signer
    requires IsBytes(key) && key != "" && NEWLINE !in key && IsBytes(signer.accessKey) && signer.accessKey != ""
    requires httpMethod in {"GET", "PUT"} && MIN_INT64 <= expires <= MAX_INT64
    requires httpMethod == "GET" && name in buckets ==> !visible(name, key)
    ensures
      var req := Follow(PresignedTarget(env.mac, name, signer, httpMethod, key, expires), httpMethod, authorization);
      && req.Some?
      && (Serve(env, buckets, visible, req.value).Acts? <==>
            env.now <= expires && name in buckets && buckets[name] == signer)
  {
    hide Serve, PresignedTarget, Follow, SignedPath, StringToSign;
    PresignedUrlIsServed(env, buckets, visible, name, signer, httpMethod, key, expires, authorization);
  }

  /** Two different pairs of secret and string with one code. */
  predicate Collide(mac: Mac, a: string, s: string, b: string, t: string) {
    (a != b || s != t) && mac(a, s) == mac(b, t)
  }

  /** A signature opens the one request it was made for: if a request is served on the strength of it, its
      expiry has not passed, and either its method, path and expiry are the signed ones and the bucket's current
      secret is the one that signed, or the request exhibits a collision of the MAC. */
  lemma SignatureBindsRequest(env: AuthEnv, buckets: Buckets, visible: Visibility, req: Request, secret: string,
                              httpMethod: string, path: string, expires: int)
    requires UniqueKeys(buckets) && NEWLINE !in httpMethod && IsPresigned(req)
    requires Lookup(req.query, "Signature") == Some(Sign(env.mac, secret, StringToSign(httpMethod, path, expires)))
    ensures
      var served := Serve(env, buckets, visible, req);
      served.Acts? && !served.info.viaPublic ==>
        && served.info.bucket in buckets && env.now <= served.info.presignExpires
        && var current := buckets[served.info.bucket].secret;
           || (req.httpMethod == httpMethod && req.path == path && served.info.presignExpires == expires
               && current == secret)
           || Collide(env.mac, current, StringToSign(req.httpMethod, req.path, served.info.presignExpires),
                      secret, StringToSign(httpMethod, path, expires))
  {
    hide Serve, StringToSign, Lookup, Sign, ParseInt, PublicRead;
    var served := Serve(env, buckets, visible, req);
    if served.Acts? && !served.info.viaPublic {
      ServesItsRoute(env, buckets, visible, req);
      ActsIff(env, buckets, visible, req, served.info);
      var row := buckets[served.info.bucket];
      CheckedPresigned(env, req, row.secret);
      var e := CheckSignature(env, req, row.secret).value;
      var s, t := StringToSign(req.httpMethod, req.path, e), StringToSign(httpMethod, path, expires);
      SignUnfolds(env.mac);
      HexInjective(env.mac(row.secret, s), env.mac(secret, t));
      MethodHasNoNewline(req.httpMethod);
      if s == t { StringToSignInjective(req.httpMethod, req.path, e, httpMethod, path, expires); }
    }
  }

  lemma SignUnfolds(mac: Mac)
    ensures forall a, s :: Sign(mac, a, s) == Hex(mac(a, s))
  {
  }

  lemma CheckedPresigned(env: AuthEnv, req: Request, secret: string)
    requires IsPresigned(req) && CheckSignature(env, req, secret).Some?
    ensures var e := CheckSignature(env, req, secret).value;
            && PresignMethod(req.httpMethod) && env.now <= e
            && Lookup(req.query, "Signature") == Some(Sign(env.mac, secret, StringToSign(req.httpMethod, req.path, e)))
  {
    hide Lookup, Sign, StringToSign, ParseInt;
  }

  lemma MethodHasNoNewline(httpMethod: string)
    requires PresignMethod(httpMethod)
    ensures NEWLINE !in httpMethod
  {
  }
}
