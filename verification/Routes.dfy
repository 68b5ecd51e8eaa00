/** The routing table on literal paths, and which requests reach which handler. */
module Routes {
  import opened Wrappers
  import opened Text
  import opened Store
  import opened Auth
  import Patterns
  import Url

  /** A first segment: not empty, no slash. */
  predicate Segment(name: string) { name != "" && '/' !in name }

  lemma CutAt(name: string, rest: string)
    requires '/' !in name
    ensures Cut(name + "/" + rest) == (name, rest)
    ensures Cut(name) == (name, "")
  {
    IndexOfAppend(name, '/', rest);
    assert name + "/" + rest == name + ['/'] + rest;
    assert (name + "/" + rest)[..|name|] == name && (name + "/" + rest)[|name| + 1..] == rest;
    assert name[..|name|] == name;
  }

  lemma BucketPath(httpMethod: string, name: string, rest: string)
    requires Segment(name)
    ensures Router(httpMethod, "/buckets/" + name + "/" + rest) == BucketRoute(httpMethod, name, rest)
  {
    hide BucketRoute, Router, Cut;
    var path := "/buckets/" + name + "/" + rest;
    assert BUCKETS == "/buckets/" && path == BUCKETS + (name + "/" + rest);
    AfterLiteral(BUCKETS, name + "/" + rest);
    CutAt(name, rest);
    InsideBucketsRoute(httpMethod, path);
  }

  lemma AfterLiteral(prefix: string, rest: string)
    ensures prefix <= prefix + rest && After(prefix + rest, prefix) == rest
  {
  }

  // ---- a bucket's own routes ----

  /** Listing, totals and presigning: one path and one method each. */
  lemma CollectionRoutes(httpMethod: string, name: string)
    requires Segment(name)
    ensures Router(httpMethod, "/buckets/" + name + "/objects")
            == if httpMethod == "GET" then ListObjects(name) else MethodNotAllowed
    ensures Router(httpMethod, "/buckets/" + name + "/stats")
            == if httpMethod == "GET" then BucketStats(name) else MethodNotAllowed
    ensures Router(httpMethod, "/buckets/" + name + "/presign")
            == if httpMethod == "POST" then Presign(name) else MethodNotAllowed
  {
    hide Router, After;
    BucketPath(httpMethod, name, "objects");
    BucketPath(httpMethod, name, "stats");
    BucketPath(httpMethod, name, "presign");
    assert "/buckets/" + name + "/" + "objects" == "/buckets/" + name + "/objects";
    assert "/buckets/" + name + "/" + "stats" == "/buckets/" + name + "/stats";
    assert "/buckets/" + name + "/" + "presign" == "/buckets/" + name + "/presign";
    assert "objects"[0] != "stats"[0] && "objects"[0] != "presign"[0] && "stats"[0] != "presign"[0];
  }

  /** Objects: GET and HEAD read, PUT writes, DELETE deletes, nothing else; the key is everything after the slash. */
  lemma ObjectRoutes(name: string, key: string)
    requires Segment(name)
    ensures var path := "/buckets/" + name + "/objects/" + key;
            && Router("GET", path) == GetObject(name, key) && Router("HEAD", path) == GetObject(name, key)
            && Router("PUT", path) == PutObject(name, key) && Router("DELETE", path) == DeleteObject(name, key)
            && (forall m :: m != "GET" && m != "HEAD" && m != "PUT" && m != "DELETE" ==>
                  Router(m, path) == MethodNotAllowed)
  {
    hide Router;
    var path := "/buckets/" + name + "/objects/" + key;
    assert path == "/buckets/" + name + "/" + ("objects/" + key);
    ObjectArm(name, key);
    forall m: string
      ensures Router(m, path) == BucketRoute(m, name, "objects/" + key)
    {
      BucketPath(m, name, "objects/" + key);
    }
  }

  lemma ObjectArm(name: string, key: string)
    ensures var rest := "objects/" + key;
            && BucketRoute("GET", name, rest) == GetObject(name, key)
            && BucketRoute("HEAD", name, rest) == GetObject(name, key)
            && BucketRoute("PUT", name, rest) == PutObject(name, key)
            && BucketRoute("DELETE", name, rest) == DeleteObject(name, key)
            && (forall m :: m != "GET" && m != "HEAD" && m != "PUT" && m != "DELETE" ==>
                  BucketRoute(m, name, rest) == MethodNotAllowed)
  {
    hide After;
    AfterLiteral("objects/", key);
    assert |"objects/" + key| > 7 && ("objects/" + key)[7] == '/' && |"objects"| == 7;
    assert ("objects/" + key)[0] == 'o' && "stats"[0] == 's' && "presign"[0] == 'p';
    assert "PUT"[0] == 'P' && "DELETE"[0] == 'D' && "GET"[0] == 'G' && "HEAD"[0] == 'H';
  }

  /** Visibility: PUT and nothing else. */
  lemma AclRoute(httpMethod: string, name: string, key: string)
    requires Segment(name)
    ensures Router(httpMethod, "/buckets/" + name + "/acl/" + key)
            == if httpMethod == "PUT" then SetAcl(name, key) else MethodNotAllowed
  {
    hide Router, After;
    assert "/buckets/" + name + "/acl/" + key == "/buckets/" + name + "/" + ("acl/" + key);
    BucketPath(httpMethod, name, "acl/" + key);
    AfterLiteral("acl/", key);
    assert ("acl/" + key)[0] == 'a' && "stats"[0] == 's' && "presign"[0] == 'p' && "objects"[0] == 'o'
           && OBJECTS[0] == 'o';
  }

  /** Anything else below a bucket is unknown. */
  lemma NoOtherRoute(httpMethod: string, name: string, rest: string)
    requires Segment(name) && rest != "objects" && rest != "stats" && rest != "presign"
    requires !("objects/" <= rest) && !("acl/" <= rest)
    ensures Router(httpMethod, "/buckets/" + name + "/" + rest) == NotFound
  {
    hide Router;
    BucketPath(httpMethod, name, rest);
  }

  lemma NamelessRoute(httpMethod: string, rest: string)
    ensures Router(httpMethod, "/buckets//" + rest) == NotFound
            && Router(httpMethod, "/admin/buckets//" + rest) == NotFound
  {
    hide Router, Cut, BucketRoute;
    assert "/buckets//" + rest == "/buckets/" + ("" + "/" + rest);
    assert "/admin/buckets//" + rest == "/admin/buckets/" + ("" + "/" + rest);
    assert BUCKETS == "/buckets/";
    CutAt("", rest);
    AfterLiteral(BUCKETS, "" + "/" + rest);
    InsideBucketsRoute(httpMethod, BUCKETS + ("" + "/" + rest));
    AdminPath(httpMethod, "" + "/" + rest);
  }

  /** Every other path belongs to the console. */
  lemma StaticRoute(httpMethod: string, path: string)
    requires path != "/healthz" && path != "/admin/buckets" && !("/admin/buckets/" <= path) && !("/buckets/" <= path)
    ensures Router(httpMethod, path) == Static
  {
    hide BucketRoute, AdminRoute, Cut;
  }

  // ---- the administrator's routes ----

  lemma AdminPath(httpMethod: string, rest: string)
    ensures Router(httpMethod, "/admin/buckets/" + rest)
            == var (name, action) := Cut(rest); AdminRoute(httpMethod, name, action)
  {
    hide AdminRoute, BucketRoute, Cut, After;
    AfterLiteral("/admin/buckets/", rest);
    var path := "/admin/buckets/" + rest;
    assert |path| >= 15 && |"/admin/buckets"| == 14 && |"/healthz"| == 8;
  }

  lemma TopRoutes(httpMethod: string)
    ensures Router(httpMethod, "/healthz") == if httpMethod == "GET" then Health else MethodNotAllowed
    ensures Router(httpMethod, "/admin/buckets")
            == if httpMethod == "GET" then ListBuckets
               else if httpMethod == "POST" then CreateBucket
               else MethodNotAllowed
  {
    hide AdminRoute, BucketRoute, Cut, After;
    assert |"/healthz"| == 8 && |"/admin/buckets"| == 14;
  }

  lemma AdminRoutes(httpMethod: string, name: string)
    requires Segment(name)
    ensures Router(httpMethod, "/admin/buckets/" + name)
            == if httpMethod == "DELETE" then DeleteBucket(name) else MethodNotAllowed
    ensures Router(httpMethod, "/admin/buckets/" + name + "/rotate")
            == if httpMethod == "POST" then RotateKey(name) else MethodNotAllowed
    ensures Router(httpMethod, "/admin/buckets/" + name + "/reindex")
            == if httpMethod == "POST" then Reindex(name) else MethodNotAllowed
  {
    hide Router, Cut;
    CutAt(name, "rotate");
    CutAt(name, "reindex");
    AdminPath(httpMethod, name);
    AdminPath(httpMethod, name + "/" + "rotate");
    AdminPath(httpMethod, name + "/" + "reindex");
    assert "/admin/buckets/" + (name + "/" + "rotate") == "/admin/buckets/" + name + "/rotate";
    assert "/admin/buckets/" + (name + "/" + "reindex") == "/admin/buckets/" + name + "/reindex";
    assert "rotate"[1] != "reindex"[1];
  }

  // ---- the other way round ----

  lemma RejoinCut(s: string)
    ensures var (head, tail) := Cut(s); s == head || s == head + "/" + tail
    ensures '/' !in Cut(s).0
  {
    var i := IndexOf(s, '/');
    if i < |s| {
      assert s == s[..i] + [s[i]] + s[i + 1..];
    } else {
      assert s[..i] == s;
    }
  }

  lemma SetAclArm(httpMethod: string, bucket: string, rest: string)
    requires BucketRoute(httpMethod, bucket, rest).SetAcl?
    ensures httpMethod == "PUT" && rest == "acl/" + BucketRoute(httpMethod, bucket, rest).key
    ensures BucketRoute(httpMethod, bucket, rest).bucket == bucket
  {
  }

  /** Visibility is changed by no other request than a PUT on an acl path. */
  lemma SetAclOnlyByPut(httpMethod: string, path: string)
    ensures var r := Router(httpMethod, path);
            r.SetAcl? ==>
              httpMethod == "PUT" && Segment(r.bucket) && path == "/buckets/" + r.bucket + "/acl/" + r.key
  {
    hide Router, BucketRoute, Cut, After;
    if BUCKETS <= path {
      InsideBucketsRoute(httpMethod, path);
      var tail := After(path, BUCKETS);
      var (bucket, rest) := Cut(tail);
      if Router(httpMethod, path).SetAcl? { SetAclArm(httpMethod, bucket, rest); }
      RejoinCut(tail);
      TailIs(path);
      CutWhole(tail);
    } else {
      OutsideBucketsActsOnNone(httpMethod, path);
    }
  }

  lemma TailIs(path: string)
    requires BUCKETS <= path
    ensures path == "/buckets/" + After(path, BUCKETS)
  {
  }

  lemma CutWhole(s: string)
    ensures Cut(s).0 == s ==> Cut(s).1 == ""
  {
  }

  // ---- who is served ----

  /** The presigned form is open to three methods. */
  lemma PresignMethods(httpMethod: string)
    ensures PresignMethod(httpMethod) <==>
              httpMethod == ['G', 'E', 'T'] || httpMethod == ['P', 'U', 'T'] || httpMethod == ['H', 'E', 'A', 'D']
  {
  }

  /** Whatever its signature, a presigned request with any other method is refused on every bucket path. */
  lemma PresignedDeleteRefused(env: AuthEnv, buckets: Buckets, visible: Visibility, req: Request)
    requires UniqueKeys(buckets) && IsPresigned(req) && MatchBucketPath(req.path).Some?
    requires req.httpMethod != "GET" && req.httpMethod != "PUT" && req.httpMethod != "HEAD"
    ensures BucketAuth(env, buckets, visible, req) in {Reject(401), Reject(403)}
  {
    hide MatchBucketPath, MatchObjectPath, PresentedKey, Owner, Url.Lookup;
  }

  /** The public bypass is open to two methods, and to both. */
  lemma PublicMethods(buckets: Buckets, visible: Visibility, req: Request, name: string, key: string)
    requires MatchObjectPath(req.path) == Some((name, key)) && name in buckets && visible(name, key)
    ensures PublicRead(buckets, visible, req) <==>
              req.httpMethod == ['G', 'E', 'T'] || req.httpMethod == ['H', 'E', 'A', 'D']
  {
    hide MatchObjectPath;
  }

  /** What runs without a bucket's credentials: health, the administrator's handlers, the console, and the two error
      answers. Every handler that touches a bucket's objects is guarded. */
  lemma OnlyTheseAreUnguarded(env: AuthEnv, buckets: Buckets, visible: Visibility, req: Request)
    ensures
      var served := Serve(env, buckets, visible, req);
      served.Elsewhere? ==>
        || served.route in {Health, ListBuckets, CreateBucket, MethodNotAllowed, NotFound, Static}
        || served.route.DeleteBucket? || served.route.RotateKey? || served.route.Reindex?
  {
    hide BucketAuth, Router;
  }

  /** Filter refusals end the request; a handler's own bucket must be the one the filter resolved. */
  lemma RefusedAs(env: AuthEnv, buckets: Buckets, visible: Visibility, req: Request)
    ensures
      var verdict := BucketAuth(env, buckets, visible, req);
      var acted := BucketOf(Router(req.httpMethod, req.path));
      && (verdict.Reject? ==> Serve(env, buckets, visible, req) == Refused(verdict.status))
      && (verdict == Forward(None) && acted.Some? ==> Serve(env, buckets, visible, req) == Refused(401))
  {
    hide BucketAuth, Router;
  }

  lemma {:induction false} SkipBack(s: string, w: string)
    requires (s == "" || !IsSpace(s[|s| - 1])) && Patterns.AllSpace(w)
    ensures SkipSpacesBack(s + w) == s
  {
    if w == "" {
      assert s + w == s;
    } else {
      var init := w[..|w| - 1];
      assert (s + w)[..|s + w| - 1] == s + init && (s + w)[|s + w| - 1] == w[|w| - 1];
      SkipBack(s, init);
    }
  }

  /** Trimming takes away the white space on both sides and nothing else. */
  lemma TrimIs(before: string, s: string, after: string)
    requires Patterns.AllSpace(before) && Patterns.AllSpace(after)
    requires s != "" && !IsSpace(s[0]) && !IsSpace(s[|s| - 1])
    ensures Trim(before + s + after) == s
  {
    hide IsSpace;
    assert before + s + after == before + (s + after) && (s + after)[0] == s[0];
    Patterns.SkipsAll(before, s + after);
    SkipBack(s, after);
  }

  /** White space of the header pattern, by character codes. */
  lemma SpaceIff(c: char)
    ensures IsSpace(c) <==> c as int in {9, 10, 12, 13, 32}
  {
  }

  /** An access key in the query wins over one in the header. */
  lemma QueryKeyWins(req: Request, accessKey: string)
    ensures Url.Lookup(req.query, "AccessKey") == Some(accessKey) ==> PresentedKey(req) == accessKey
    ensures Url.Lookup(req.query, "AccessKey") == None && HeaderOf(req).Some? ==>
              PresentedKey(req) == HeaderOf(req).value.accessKey
    ensures Url.Lookup(req.query, "AccessKey") == None && HeaderOf(req).None? ==> PresentedKey(req) == ""
  {
    hide HeaderOf, Url.Lookup;
  }
}
