/** The SQLite tables: one row per bucket, and the object index. */
module Store {
  import opened Wrappers
  import opened ObjectState

  /** A bucket's credentials; the secret is kept as the plaintext its encryption decrypts to. */
  datatype BucketRow = BucketRow(accessKey: string, secret: string)

  predicate AccessKeyTaken(buckets: map<string, BucketRow>, accessKey: string) {
    exists n :: n in buckets && buckets[n].accessKey == accessKey
  }

  /** Both unique constraints of the Buckets table: the name is the map's key, the access key is unique. */
  ghost predicate UniqueKeys(buckets: map<string, BucketRow>) {
    forall m, n :: m in buckets && n in buckets && buckets[m].accessKey == buckets[n].accessKey ==> m == n
  }

  function UpsertAll(rows: map<RowId, Row>, upserts: seq<(RowId, Row)>): map<RowId, Row> {
    if upserts == [] then rows
    else
      var last := upserts[|upserts| - 1];
      UpsertAll(rows, upserts[..|upserts| - 1])[last.0 := last.1]
  }

  function IdsOf(bucket: string, keys: seq<string>): set<RowId> {
    set k | k in keys :: RowId(bucket, k)
  }

  class Tables {
    var buckets: map<string, BucketRow>
    var objects: map<RowId, Row>

    constructor ()
      ensures buckets == map[] && objects == map[]
    {
      buckets, objects := map[], map[];
    }

    // ---- buckets ----

    /** Refused on either unique constraint. */
    method InsertBucket(name: string, row: BucketRow) returns (ok: bool)
      requires UniqueKeys(buckets)
      modifies this`buckets
      ensures UniqueKeys(buckets)
      ensures ok <==> name !in old(buckets) && !AccessKeyTaken(old(buckets), row.accessKey)
      ensures buckets == if ok then old(buckets)[name := row] else old(buckets)
    {
      ok := name !in buckets && !AccessKeyTaken(buckets, row.accessKey);
      if ok { buckets := buckets[name := row]; }
    }

    function GetBucket(name: string): Option<BucketRow>
      reads this`buckets
    {
      if name in buckets then Some(buckets[name]) else None
    }

    /** The update touches no row when the name is unknown, and fails when another bucket owns the key. */
    method UpdateBucketKeys(name: string, row: BucketRow) returns (ok: bool)
      requires UniqueKeys(buckets)
      modifies this`buckets
      ensures UniqueKeys(buckets)
      ensures ok <==> name !in old(buckets) || !AccessKeyTaken(old(buckets) - {name}, row.accessKey)
      ensures buckets == if ok && name in old(buckets) then old(buckets)[name := row] else old(buckets)
    {
      ok := name !in buckets || !AccessKeyTaken(buckets - {name}, row.accessKey);
      if ok && name in buckets {
        assert forall n :: n in buckets && n != name ==> n in buckets - {name};
        buckets := buckets[name := row];
      }
    }

    /** Index rows and bucket row go in one transaction. */
    method DeleteBucket(name: string)
      modifies this
      ensures objects == WithoutRows(old(objects), name)
      ensures buckets == old(buckets) - {name}
    {
      objects := map id | id in objects && id.bucket != name :: objects[id];
      buckets := buckets - {name};
    }

    // ---- object index ----

    method UpsertObject(id: RowId, row: Row)
      modifies this`objects
      ensures objects == old(objects)[id := row]
    {
      objects := objects[id := row];
    }

    method SetObjectETag(id: RowId, etag: string)
      modifies this`objects
      ensures objects == if id in old(objects) then old(objects)[id := old(objects)[id].(etag := Some(etag))]
              else old(objects)
    {
      if id in objects { objects := objects[id := objects[id].(etag := Some(etag))]; }
    }

    method DeleteObject(id: RowId)
      modifies this`objects
      ensures objects == old(objects) - {id}
    {
      objects := objects - {id};
    }

    /** Every row of one bucket, keyed by object key, scanned in any order. */
    method IndexedObjects(bucket: string) returns (out: map<string, Row>)
      ensures forall k :: k in out <==> RowId(bucket, k) in objects
      ensures forall k :: k in out ==> out[k] == objects[RowId(bucket, k)]
    {
      out := map[];
      var todo := RowsOf(objects, bucket);
      while todo != {}
        invariant todo <= RowsOf(objects, bucket)
        invariant forall k :: k in out <==> RowId(bucket, k) in RowsOf(objects, bucket) - todo
        invariant forall k :: k in out ==> RowId(bucket, k) in objects && out[k] == objects[RowId(bucket, k)]
        decreases todo
      {
        var id :| id in todo;
        out := out[id.key := objects[id]];
        todo := todo - {id};
      }
    }

    /** A reindex pass's writes, in order, as one transaction. */
    method ApplyIndexChanges(bucket: string, upserts: seq<(RowId, Row)>, deletes: seq<string>)
      modifies this`objects
      ensures objects == UpsertAll(old(objects), upserts) - IdsOf(bucket, deletes)
    {
      for i := 0 to |upserts|
        invariant objects == UpsertAll(old(objects), upserts[..i])
      {
        assert upserts[..i + 1][..i] == upserts[..i];
        objects := objects[upserts[i].0 := upserts[i].1];
      }
      assert upserts[..|upserts|] == upserts;
      ghost var upserted := objects;
      for i := 0 to |deletes|
        invariant objects == upserted - IdsOf(bucket, deletes[..i])
      {
        assert IdsOf(bucket, deletes[..i + 1]) == IdsOf(bucket, deletes[..i]) + {RowId(bucket, deletes[i])} by {
          assert deletes[..i + 1] == deletes[..i] + [deletes[i]];
        }
        objects := objects - {RowId(bucket, deletes[i])};
      }
      assert deletes[..|deletes|] == deletes;
    }

    method DeleteBucketObjects(bucket: string) returns (n: nat)
      modifies this`objects
      ensures objects == WithoutRows(old(objects), bucket)
      ensures n == |RowsOf(old(objects), bucket)|
    {
      n := |RowsOf(objects, bucket)|;
      objects := map id | id in objects && id.bucket != bucket :: objects[id];
    }
  }
}
