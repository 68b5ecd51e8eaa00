/** The administrator's handlers: buckets created, rotated and deleted in the table and on disk. */
module Admin {
  import opened Wrappers
  import opened ObjectState
  import opened Store
  import opened Storage
  import Auth
  import Credentials
  import DiskLaws
  import BucketLaws

  type AdminError = Credentials.AdminError

  class AdminApi {
    const storage: ObjectStore
    const store: Tables

    constructor (storage: ObjectStore)
      ensures this.storage == storage && store == storage.store
    {
      this.storage, this.store := storage, storage.store;
    }

    ghost function World(): Credentials.World
      reads storage, storage.store
    {
      Credentials.World(storage.store.buckets, storage.Now())
    }

    /** The database row comes first; it is taken back, with any index rows of that name, when the directory
        cannot be made. */
    method CreateBucket(name: string, pair: BucketRow) returns (r: Result<BucketRow, AdminError>)
      requires storage.OnDisk() && store == storage.store && UniqueKeys(store.buckets)
      modifies storage`disk, store
      ensures storage.OnDisk() && UniqueKeys(store.buckets)
      ensures (World(), r) == Credentials.CreateBucket(old(World()), name, pair)
    {
      hide UniqueKeys, Credentials.BucketName;
      if !Credentials.BucketName(name) { return Failure(Credentials.InvalidName); }
      Credentials.BucketNamesArePlain(name);
      if store.GetBucket(name).Some? { return Failure(Credentials.BucketAlreadyExists); }
      var inserted := store.InsertBucket(name, pair);
      if !inserted { return Failure(Credentials.BucketAlreadyExists); }
      var made := storage.CreateBucketDirectory(name);
      if !made {
        TakenBack(old(store.buckets), name, pair);
        store.DeleteBucket(name);
        return Failure(Credentials.Internal);
      }
      r := Success(pair);
    }

    /** A new pair for a known bucket: nothing but the credentials table changes. */
    method RotateBucketKey(name: string, pair: BucketRow) returns (r: Result<BucketRow, AdminError>)
      requires storage.OnDisk() && store == storage.store && UniqueKeys(store.buckets)
      modifies store`buckets
      ensures storage.OnDisk() && UniqueKeys(store.buckets)
      ensures storage.Now() == old(storage.Now())
      ensures (World(), r) == Credentials.RotateBucketKey(old(World()), name, pair)
    {
      hide UniqueKeys, AccessKeyTaken;
      if store.GetBucket(name).None? { return Failure(Credentials.NoSuchBucket); }
      var updated := store.UpdateBucketKeys(name, pair);
      if !updated { return Failure(Credentials.Internal); }
      r := Success(pair);
    }

    /** Refused unless the directory is empty; then the rows go, and the directory after them. */
    method DeleteBucket(name: string) returns (r: Result<(), AdminError>)
      requires storage.OnDisk() && store == storage.store && UniqueKeys(store.buckets)
      modifies storage`disk, store
      ensures storage.OnDisk() && UniqueKeys(store.buckets)
      ensures (World(), r) == Credentials.DeleteBucket(old(World()), name)
    {
      if store.GetBucket(name).None? { return Failure(Credentials.NoSuchBucket); }
      var empty := IsBucketEmpty(storage.disk, name);
      if empty.Failure? { return Failure(Credentials.Internal); }
      if !empty.value { return Failure(Credentials.BucketNotEmpty); }
      store.DeleteBucket(name);
      var removed := storage.RemoveBucketDirectory(name);
      if !removed { return Failure(Credentials.Internal); }
      r := Success(());
    }
  }

  lemma TakenBack(buckets: Auth.Buckets, name: string, pair: BucketRow)
    requires UniqueKeys(buckets) && name !in buckets
    ensures buckets[name := pair] - {name} == buckets && UniqueKeys(buckets[name := pair] - {name})
  {
    assert buckets[name := pair] - {name} == buckets;
  }

  /** After completed requests, a known bucket can be deleted exactly when it holds no object, and its deletion
      removes exactly its own rows and its own directory. */
  lemma DeletesEmptyBuckets(env: Env, w: Credentials.World, name: string)
    requires DiskLaws.Managed(env, w.objects) && Credentials.BucketName(name) && name in w.buckets
    ensures var (after, r) := Credentials.DeleteBucket(w, name);
            && (r.Success? <==> BucketLaws.NoObjectsIn(DiskLaws.ObjectsOf(w.objects), name))
            && (r.Success? ==> DropBucket(w.objects, name) == Some(after.objects))
            && (r.Failure? ==> after == w && r.error == Credentials.BucketNotEmpty)
  {
    hide BucketLaws.NoObjectsIn, DiskLaws.ObjectsOf;
    Credentials.BucketNamesArePlain(name);
    BucketLaws.DeletableIffNoObjects(env, w.objects, name);
    assert [name] !in w.objects.disk.files;
    DropIsDelete(w, name);
  }

  lemma DropIsDelete(w: Credentials.World, name: string)
    requires w.objects.disk.Wf() && name in w.buckets && [name] !in w.objects.disk.files
    ensures var (after, r) := Credentials.DeleteBucket(w, name);
            && (r.Success? <==> DropBucket(w.objects, name).Some?)
            && (r.Success? ==> DropBucket(w.objects, name) == Some(after.objects))
            && (r.Failure? ==> after == w && r.error == Credentials.BucketNotEmpty)
  {
    BucketLaws.DropIs(w.objects, name);
  }
}
