/** Authentication over the object layer: what a request without credentials can read. */
module Gateway {
  import opened Wrappers
  import opened Paths
  import opened ObjectState
  import opened DiskLaws
  import opened IndexLaws
  import opened Store
  import Auth
  import Reference

  /** The visibility check the filter makes, on the current state. */
  function VisibilityIn(env: Env, s: State): Auth.Visibility {
    (bucket, key) => ObjectState.IsPublic(env, s, bucket, key)
  }

  /** The object a path names in the reference, if the path has an object's shape. */
  function Named(env: Env, o: Reference.Objects, path: string): Option<Reference.Obj> {
    var om := Auth.MatchObjectPath(path);
    if om.None? then None
    else
      var q := Resolve(env.blank, om.value.1);
      if q.Some? && [om.value.0] + q.value in o then Some(o[[om.value.0] + q.value]) else None
  }

  lemma VisibleIsPublic(env: Env, s: State, path: string)
    requires Managed(env, s) && Sound(env, s.rows, ObjectsOf(s)) && Auth.MatchObjectPath(path).Some?
    ensures var om := Auth.MatchObjectPath(path).value;
            var named := Named(env, ObjectsOf(s), path);
            VisibilityIn(env, s)(om.0, om.1) <==> named.Some? && named.value.public
  {
    hide Managed, Sound, ObjectsOf, Auth.MatchObjectPath, Resolve, ObjectState.IsPublic;
    var om := Auth.MatchObjectPath(path).value;
    IsPublicRefines(env, s, om.0, om.1);
  }

  lemma NamedIsServed(env: Env, s: State, path: string)
    requires Managed(env, s) && Sound(env, s.rows, ObjectsOf(s)) && Named(env, ObjectsOf(s), path).Some?
    ensures Auth.MatchObjectPath(path).Some?
    ensures var om := Auth.MatchObjectPath(path).value;
            var named := Named(env, ObjectsOf(s), path).value;
            ObjectState.OpenObject(env, s, om.0, om.1).1
            == Success((named.bytes, SummaryOf(om.1, Reference.RowFor(env, named))))
  {
    hide Managed, Sound, ObjectsOf, Auth.MatchObjectPath, Resolve, ObjectState.OpenObject;
    var om := Auth.MatchObjectPath(path).value;
    OpenRefines(env, s, om.0, om.1);
  }

  /** A GET or HEAD that presents no access key is served exactly when its path names a public object of an
      existing bucket. It then reaches `getObject`, which answers with that object's bytes and metadata. The
      index may have lost any of its rows and ETags. */
  lemma AnonymousReadsExactlyPublic(env: Env, s: State, auth: Auth.AuthEnv, buckets: Auth.Buckets, req: Auth.Request)
    requires Managed(env, s) && Sound(env, s.rows, ObjectsOf(s)) && UniqueKeys(buckets)
    requires Auth.IsRead(req.httpMethod) && Auth.PresentedKey(req) == ""
    ensures
      var served := Auth.Serve(auth, buckets, VisibilityIn(env, s), req);
      var named := Named(env, ObjectsOf(s), req.path);
      && (served.Acts? <==> named.Some? && named.value.public && Auth.MatchObjectPath(req.path).value.0 in buckets)
      && (served.Acts? ==>
            && served.route.GetObject?
            && ObjectState.OpenObject(env, s, served.route.bucket, served.route.key).1
               == Success((named.value.bytes, SummaryOf(served.route.key, Reference.RowFor(env, named.value)))))
  {
    hide Managed, Sound, ObjectsOf, Auth.MatchObjectPath, Auth.MatchBucketPath, Auth.Serve, Auth.Router,
         Auth.PresentedKey, ObjectState.OpenObject, ObjectState.IsPublic, Resolve;
    var visible := VisibilityIn(env, s);
    var om := Auth.MatchObjectPath(req.path);
    if om.Some? {
      VisibleIsPublic(env, s, req.path);
      Auth.ReadRoute(req.httpMethod, req.path);
    }
    AnonymousActsIff(auth, buckets, visible, req);
    if Named(env, ObjectsOf(s), req.path).Some? { NamedIsServed(env, s, req.path); }
  }

  lemma AnonymousActsIff(auth: Auth.AuthEnv, buckets: Auth.Buckets, visible: Auth.Visibility, req: Auth.Request)
    requires UniqueKeys(buckets) && Auth.IsRead(req.httpMethod) && Auth.PresentedKey(req) == ""
    ensures
      var served := Auth.Serve(auth, buckets, visible, req);
      && (served.Acts? <==> Auth.PublicRead(buckets, visible, req))
      && (served.Acts? ==> var om := Auth.MatchObjectPath(req.path).value; served.route == Auth.GetObject(om.0, om.1))
  {
    hide Auth.Serve, Auth.Router, Auth.PresentedKey, Auth.MatchObjectPath, Auth.MatchBucketPath, Auth.CheckSignature;
    var served := Auth.Serve(auth, buckets, visible, req);
    if Auth.PublicRead(buckets, visible, req) {
      Auth.ReadRoute(req.httpMethod, req.path);
      var om := Auth.MatchObjectPath(req.path).value;
      Auth.ActsIff(auth, buckets, visible, req, Auth.AuthInfo(om.0, true, 0));
    } else if served.Acts? {
      Auth.ServesItsRoute(auth, buckets, visible, req);
      Auth.ActsIff(auth, buckets, visible, req, served.info);
    }
  }
}
