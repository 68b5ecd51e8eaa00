/** Emptying a bucket: after its objects have been deleted one by one, in any order, it can be deleted itself. */
module Emptying {
  import opened Wrappers
  import opened Paths
  import opened ObjectState
  import opened DiskLaws
  import opened BucketLaws
  import Reference

  /** Every stored object answers to the key the walk lists it under. */
  ghost predicate Addressable(env: Env, keys: set<Path>) {
    forall p :: p in keys ==> 2 <= |p| && Resolve(env.blank, KeyOf(p[1..])) == Some(p[1..])
  }

  lemma WalkKeyResolvesIff(env: Env, bucket: string, key: string)
    requires Resolve(env.blank, key).Some?
    ensures var p := [bucket] + CleanKey(key);
            && p[1..] == CleanKey(key)
            && (Resolve(env.blank, KeyOf(p[1..])) == Some(p[1..]) <==> !env.blank(KeyOf(CleanKey(key))))
  {
    WalkKeyAcceptableIff(env.blank, key);
    SplitKeyOf(CleanKey(key));
    assert ([bucket] + CleanKey(key))[1..] == CleanKey(key);
  }

  /** A successful PUT keeps every object addressable if and only if what is left of its key after cleaning does
      not trim to nothing. */
  lemma PutKeepsAddressableIff(env: Env, s: State, bucket: string, key: string, bytes: seq<Byte>, contentType: string,
                               public: bool, now: int)
    requires Managed(env, s) && Plain(bucket) && Addressable(env, ObjectsOf(s).Keys)
    ensures var (t, r) := ObjectState.PutObject(env, s, bucket, key, Body(bytes), contentType, public, now);
            r.Success? ==> (Addressable(env, ObjectsOf(t).Keys) <==> !env.blank(KeyOf(CleanKey(key))))
  {
    hide Managed, ObjectsOf, Resolve, ObjectState.PutObject;
    PutRefines(env, s, bucket, key, bytes, contentType, public, now);
    var (t, r) := ObjectState.PutObject(env, s, bucket, key, Body(bytes), contentType, public, now);
    if r.Success? {
      ResolvesToClean(env, key);
      WalkKeyResolvesIff(env, bucket, key);
      assert [bucket] + CleanKey(key) in ObjectsOf(t);
    }
  }

  lemma ResolvesToClean(env: Env, key: string)
    ensures Resolve(env.blank, key).Some? ==> Resolve(env.blank, key) == Some(CleanKey(key)) && CleanKey(key) != []
  {
  }

  // ---- deleting one object after another ----

  ghost function DeleteAll(env: Env, s: State, bucket: string, keys: seq<string>): State
    decreases |keys|
  {
    if keys == [] then s else DeleteAll(env, ObjectState.DeleteObject(env, s, bucket, keys[0]).0, bucket, keys[1..])
  }

  /** The keys cover the bucket: each of its objects is among them, in any order, however often, and they may
      hold any other strings besides. */
  ghost predicate Covers(keys: seq<string>, o: Reference.Objects, bucket: string) {
    forall p :: p in o && 2 <= |p| && p[0] == bucket ==> KeyOf(p[1..]) in keys
  }

  ghost predicate OthersKept(o: Reference.Objects, after: Reference.Objects, bucket: string) {
    forall p :: p != [] && p[0] != bucket ==> (p in o <==> p in after) && (p in o ==> o[p] == after[p])
  }

  ghost predicate PrefixFree(keys: set<Path>) {
    forall p :: p in keys ==> Reference.Free(keys, p)
  }

  lemma ManagedIsPrefixFree(env: Env, s: State)
    requires Managed(env, s)
    ensures PrefixFree(ObjectsOf(s).Keys)
  {
    assert ObjectsOf(s).Keys == s.disk.files.Keys;
    forall p, f | p in s.disk.files && f in s.disk.files
      ensures !(f < p)
    {
      FileIsPlaceable(s.disk, p);
    }
  }

  /** Nothing of the bucket is listed under the key any more. */
  ghost predicate Gone(o: Reference.Objects, bucket: string, key: string) {
    forall p :: p in o && 2 <= |p| && p[0] == bucket ==> KeyOf(p[1..]) != key
  }

  lemma ReferenceDeletesObject(env: Env, o: Reference.Objects, p: Path)
    requires p in o && Addressable(env, o.Keys) && PrefixFree(o.Keys)
    ensures 2 <= |p| && Reference.Delete(env, o, p[0], KeyOf(p[1..])).0 == o - {p}
  {
    hide Resolve, Reference.Free;
    assert [p[0]] + p[1..] == p;
  }

  lemma ReferenceDeletesNoOther(env: Env, o: Reference.Objects, bucket: string, key: string)
    ensures var t := Reference.Delete(env, o, bucket, key).0;
            t.Keys <= o.Keys && OthersKept(o, t, bucket)
  {
    hide Resolve, Reference.Free;
  }

  lemma ReferenceDeletesOne(env: Env, o: Reference.Objects, bucket: string, key: string)
    requires Addressable(env, o.Keys) && PrefixFree(o.Keys)
    ensures
      var t := Reference.Delete(env, o, bucket, key).0;
      t.Keys <= o.Keys && OthersKept(o, t, bucket) && Gone(t, bucket, key)
  {
    hide Reference.Delete, OthersKept, Addressable, PrefixFree;
    ReferenceDeletesNoOther(env, o, bucket, key);
    var t := Reference.Delete(env, o, bucket, key).0;
    forall p | p in t && 2 <= |p| && p[0] == bucket
      ensures KeyOf(p[1..]) != key
    {
      ReferenceDeletesObject(env, o, p);
    }
  }

  /** One DELETE: gone if it was there, and nothing else goes. */
  lemma DeleteOne(env: Env, s: State, bucket: string, key: string)
    requires Managed(env, s) && Plain(bucket) && Addressable(env, ObjectsOf(s).Keys)
    ensures
      var t := ObjectState.DeleteObject(env, s, bucket, key).0;
      && Managed(env, t) && ObjectsOf(t).Keys <= ObjectsOf(s).Keys
      && OthersKept(ObjectsOf(s), ObjectsOf(t), bucket) && Gone(ObjectsOf(t), bucket, key)
  {
    hide Managed, ObjectsOf, ObjectState.DeleteObject, Reference.Delete, Resolve;
    DeleteRefines(env, s, bucket, key);
    ManagedIsPrefixFree(env, s);
    ReferenceDeletesOne(env, ObjectsOf(s), bucket, key);
  }

  /** Deleting all objects of a bucket, in any order, leaves the bucket deletable, and every other bucket's objects
      as they were. */
  lemma {:induction false} DeletingAllEmpties(env: Env, s: State, bucket: string, keys: seq<string>)
    requires Managed(env, s) && Plain(bucket) && Addressable(env, ObjectsOf(s).Keys)
    requires Covers(keys, ObjectsOf(s), bucket)
    ensures
      var t := DeleteAll(env, s, bucket, keys);
      && Managed(env, t) && NoObjectsIn(ObjectsOf(t), bucket) && DropBucket(t, bucket).Some?
      && OthersKept(ObjectsOf(s), ObjectsOf(t), bucket)
    decreases |keys|
  {
    hide Managed, ObjectsOf, ObjectState.DeleteObject, DropBucket, Resolve;
    if keys == [] {
      ManagedPathLengths(env, s);
      DeletableIffNoObjects(env, s, bucket);
    } else {
      var t := ObjectState.DeleteObject(env, s, bucket, keys[0]).0;
      DeleteOne(env, s, bucket, keys[0]);
      DeletingAllEmpties(env, t, bucket, keys[1..]);
    }
  }

  lemma ManagedPathLengths(env: Env, s: State)
    requires Managed(env, s)
    ensures forall p :: p in ObjectsOf(s) ==> 2 <= |p|
  {
  }
}
