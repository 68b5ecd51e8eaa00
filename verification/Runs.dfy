/** Whole runs: any sequence of requests, with index rows lost or unhashed at any time in between,
    answers like the reference map. */
module Runs {
  import opened Wrappers
  import opened Paths
  import opened FileTree
  import opened ObjectState
  import opened DiskLaws
  import opened IndexLaws
  import opened ReindexLaws
  import opened ListingLaws
  import opened BucketLaws
  import opened Emptying
  import Reference

  datatype Op =
    | PutOp(bucket: string, key: string, bytes: seq<Byte>, contentType: string, public: bool, now: int)
    | GetOp(bucket: string, key: string)
    | DeleteOp(bucket: string, key: string)
    | AclOp(bucket: string, key: string, public: bool)
    | VisibilityOp(bucket: string, key: string)
    | ListOp(bucket: string, prefix: string, limit: int, cursor: string)
    | ReindexOp(bucket: string, force: bool)
    | MakeBucketOp(bucket: string)
    | DropBucketOp(bucket: string)
      // not a request: the table loses some rows of a bucket and some ETags of others
    | DriftOp(bucket: string, lost: set<string>, unhashed: set<string>)

  datatype Response =
    | Stored(etag: string)
    | Fetched(bytes: seq<Byte>, summary: Summary)
    | Done
    | Visibility(public: bool)
    | Listed(page: Page)
    | Conflict
    | Failed(error: Error)
    | Unspecified

  /** Requests of a run name real buckets and spell keys the way the directory walk does. */
  predicate WellSpelled(op: Op) {
    && Plain(op.bucket)
    && (op.PutOp? || op.GetOp? || op.DeleteOp? || op.AclOp? ==> WalkSpelling(op.key))
  }

  function Drifted(rows: map<RowId, Row>, bucket: string, lost: set<string>, unhashed: set<string>): map<RowId, Row> {
    map id | id in rows && !(id.bucket == bucket && id.key in lost) ::
      if id.bucket == bucket && id.key in unhashed then rows[id].(etag := None) else rows[id]
  }

  /** Drift reaches every partial index of a bucket: any of its rows may go, any of the others lose its ETag. */
  lemma DriftReaches(rows: map<RowId, Row>, left: map<RowId, Row>, bucket: string)
    requires left.Keys <= rows.Keys
    requires forall id :: id in left ==>
               left[id] == rows[id] || (id.bucket == bucket && left[id] == rows[id].(etag := None))
    requires forall id: RowId :: id in rows && id.bucket != bucket ==> id in left
    ensures exists lost, unhashed :: Drifted(rows, bucket, lost, unhashed) == left
  {
    var lost := set id | id in rows && id.bucket == bucket && id !in left :: id.key;
    var unhashed := set id | id in left && id.bucket == bucket && left[id].etag.None? :: id.key;
    var drifted := Drifted(rows, bucket, lost, unhashed);
    forall id: RowId
      ensures (id in drifted <==> id in left) && (id in left ==> drifted[id] == left[id])
    {
      assert id == RowId(id.bucket, id.key);
    }
    assert drifted == left;
  }

  // ---- the server ----

  /** `ListObjects`: a first, unprefixed page of a bucket with files but no rows reindexes it. */
  ghost function ListObjects(env: Env, s: State, op: Op): (State, Page)
    requires s.disk.Wf() && op.ListOp?
  {
    var healed := BeforeListing(env, s, op.bucket, op.prefix, op.cursor);
    (healed, PageOf(healed.rows, op.bucket, op.prefix, op.limit, op.cursor))
  }

  ghost function Step(env: Env, s: State, op: Op): (State, Response)
    requires Managed(env, s)
  {
    match op
    case PutOp(b, k, bytes, ct, public, now) =>
      var (t, r) := ObjectState.PutObject(env, s, b, k, Body(bytes), ct, public, now);
      (t, if r.Success? then Stored(r.value) else Failed(r.error))
    case GetOp(b, k) =>
      var (t, r) := ObjectState.OpenObject(env, s, b, k);
      (t, if r.Success? then Fetched(r.value.0, r.value.1) else Failed(r.error))
    case DeleteOp(b, k) =>
      var (t, r) := ObjectState.DeleteObject(env, s, b, k);
      (t, if r.Success? then Done else Failed(r.error))
    case AclOp(b, k, public) =>
      var (t, r) := ObjectState.SetPublic(env, s, b, k, public);
      (t, if r.Success? then Done else Failed(r.error))
    case VisibilityOp(b, k) => (s, Visibility(ObjectState.IsPublic(env, s, b, k)))
    case ListOp(_, _, _, _) =>
      var (t, page) := ListObjects(env, s, op);
      (t, Listed(page))
    case ReindexOp(b, force) => (Reindexed(env, s, b, force), Done)
    case MakeBucketOp(b) =>
      var made := CreateBucketDirectory(s, b);
      if made.Some? then (made.value, Done) else (s, Failed(IoError))
    case DropBucketOp(b) =>
      var dropped := DropBucket(s, b);
      if dropped.Some? then (dropped.value, Done) else (s, Conflict)
    case DriftOp(b, lost, unhashed) => (s.(rows := Drifted(s.rows, b, lost, unhashed)), Done)
  }

  // ---- the reference ----

  /** The reference keeps the objects, and which buckets have drifted since their last reindex: only
      there does it leave a listing unspecified. */
  datatype RefState = RefState(objects: Reference.Objects, drifted: set<string>)

  ghost function RefStep(env: Env, r: RefState, op: Op): (RefState, Response) {
    match op
    case PutOp(b, k, bytes, ct, public, now) =>
      var (o, res) := Reference.Put(env, r.objects, b, k, bytes, ct, public, now);
      (r.(objects := o), if res.Success? then Stored(res.value) else Failed(res.error))
    case GetOp(b, k) =>
      var res := Reference.Get(env, r.objects, b, k);
      (r, if res.Success? then Fetched(res.value.0, res.value.1) else Failed(res.error))
    case DeleteOp(b, k) =>
      var (o, res) := Reference.Delete(env, r.objects, b, k);
      (r.(objects := o), if res.Success? then Done else Failed(res.error))
    case AclOp(b, k, public) =>
      var (o, res) := Reference.SetPublic(env, r.objects, b, k, public);
      (r.(objects := o), if res.Success? then Done else Failed(res.error))
    case VisibilityOp(b, k) => (r, Visibility(Reference.IsPublic(env, r.objects, b, k)))
    case ListOp(b, prefix, limit, cursor) =>
      (r, if b in r.drifted then Unspecified else Listed(Reference.List(env, r.objects, b, prefix, limit, cursor)))
    case ReindexOp(b, _) => (r.(drifted := r.drifted - {b}), Done)
    case MakeBucketOp(_) => (r, Done)
    case DropBucketOp(b) =>
      if NoObjectsIn(r.objects, b) then (r.(drifted := r.drifted - {b}), Done) else (r, Conflict)
    case DriftOp(b, _, _) => (r.(drifted := r.drifted + {b}), Done)
  }

  // ---- simulation ----

  ghost predicate AllVisible(o: Reference.Objects) {
    forall p :: p in o ==> Visible(p)
  }

  ghost predicate CoherentExcept(env: Env, rows: map<RowId, Row>, o: Reference.Objects, drifted: set<string>) {
    forall b :: b !in drifted ==> Coherent(env, rows, o, b)
  }

  /** The invariant of every run. */
  ghost predicate Simulates(env: Env, s: State, r: RefState) {
    && Managed(env, s)
    && ObjectsOf(s) == r.objects
    && AllVisible(r.objects)
    && Addressable(env, r.objects.Keys)
    && Sound(env, s.rows, r.objects)
    && CoherentExcept(env, s.rows, r.objects, r.drifted)
  }

  ghost predicate Agrees(actual: Response, expected: Response) {
    expected.Unspecified? || actual == expected
  }

  lemma UpsertSimulates(env: Env, rows: map<RowId, Row>, r: RefState, id: RowId, obj: Reference.Obj, row: Row)
    requires PlainPaths(r.objects) && AllVisible(r.objects)
    requires Sound(env, rows, r.objects) && CoherentExcept(env, rows, r.objects, r.drifted)
    requires Plain(id.bucket) && CleanKey(id.key) != [] && WalkSpelling(id.key) && SoundRow(env, row, obj)
    requires id.bucket !in r.drifted ==> row == Reference.RowFor(env, obj)
    ensures var o := r.objects[Target(id) := obj];
            Sound(env, rows[id := row], o) && CoherentExcept(env, rows[id := row], o, r.drifted) && AllVisible(o)
  {
    UpsertSound(env, rows, r.objects, id, obj, row);
    VisibleTarget(id);
    forall b | b !in r.drifted
      ensures Coherent(env, rows[id := row], r.objects[Target(id) := obj], b)
    {
      if b == id.bucket {
        UpsertCoherentIff(env, rows, r.objects, id, obj);
      } else {
        UpsertElsewhere(env, rows, r.objects, id, obj, row, b);
      }
    }
  }

  /** A canonical key is its own walk key. */
  lemma PutKeepsAddressable(env: Env, s: State, b: string, k: string, bytes: seq<Byte>, ct: string, public: bool,
                            now: int)
    requires Managed(env, s) && Plain(b) && WalkSpelling(k) && Addressable(env, ObjectsOf(s).Keys)
    ensures Addressable(env, ObjectsOf(ObjectState.PutObject(env, s, b, k, Body(bytes), ct, public, now).0).Keys)
  {
    hide Managed, ObjectsOf, Addressable, ObjectState.PutObject;
    PutRefines(env, s, b, k, bytes, ct, public, now);
    PutKeepsAddressableIff(env, s, b, k, bytes, ct, public, now);
    CanonicalRoundTrip(k);
  }

  lemma PutSimulates(env: Env, s: State, r: RefState, b: string, k: string, bytes: seq<Byte>, ct: string,
                     public: bool, now: int)
    requires Simulates(env, s, r) && Plain(b) && WalkSpelling(k)
    ensures var (t, answer) := ObjectState.PutObject(env, s, b, k, Body(bytes), ct, public, now);
            var (o, expected) := Reference.Put(env, r.objects, b, k, bytes, ct, public, now);
            answer == expected && Simulates(env, t, r.(objects := o))
  {
    hide Managed, ObjectsOf, Sound, CoherentExcept, AllVisible, Addressable, WalkSpelling, PlainPaths,
         ObjectState.PutObject;
    PutRefines(env, s, b, k, bytes, ct, public, now);
    ManagedPaths(env, s);
    PutKeepsAddressable(env, s, b, k, bytes, ct, public, now);
    if Resolve(env.blank, k).Some? {
      var obj := Reference.Obj(bytes, now, SanitizeType(env, ct), public);
      UpsertSimulates(env, s.rows, r, RowId(b, k), obj, Reference.RowFor(env, obj));
    }
  }

  lemma CachedRowSimulates(env: Env, s: State, rows: map<RowId, Row>, r: RefState, id: RowId)
    requires Simulates(env, s, r) && Plain(id.bucket) && WalkSpelling(id.key)
    requires CleanKey(id.key) != [] && Target(id) in r.objects
    requires rows == s.rows[id := Reference.RowFor(env, r.objects[Target(id)])]
    ensures Simulates(env, s.(rows := rows), r)
  {
    hide Managed, ObjectsOf, Sound, CoherentExcept, Addressable, AllVisible, PlainPaths, Target, WalkSpelling;
    var obj := r.objects[Target(id)];
    ManagedPaths(env, s);
    UpsertSimulates(env, s.rows, r, id, obj, Reference.RowFor(env, obj));
    assert r.objects[Target(id) := obj] == r.objects;
    SameDisk(env, s, s.(rows := rows));
  }

  lemma GetSimulates(env: Env, s: State, r: RefState, b: string, k: string)
    requires Simulates(env, s, r) && Plain(b) && WalkSpelling(k)
    ensures var (t, answer) := ObjectState.OpenObject(env, s, b, k);
            answer == Reference.Get(env, r.objects, b, k) && Simulates(env, t, r)
  {
    OpenRefines(env, s, b, k);
    var t := ObjectState.OpenObject(env, s, b, k).0;
    if t != s {
      CachedRowSimulates(env, s, t.rows, r, RowId(b, k));
      assert t == s.(rows := t.rows);
    }
  }

  lemma SameDisk(env: Env, s: State, t: State)
    requires Managed(env, s) && t.disk == s.disk && t.metas == s.metas
    ensures Managed(env, t) && ObjectsOf(t) == ObjectsOf(s)
  {
  }

  lemma DeleteSimulates(env: Env, s: State, r: RefState, b: string, k: string)
    requires Simulates(env, s, r) && Plain(b) && WalkSpelling(k)
    ensures var (t, answer) := ObjectState.DeleteObject(env, s, b, k);
            var (o, expected) := Reference.Delete(env, r.objects, b, k);
            answer == expected && Simulates(env, t, r.(objects := o))
  {
    DeleteRefines(env, s, b, k);
    ManagedPaths(env, s);
    var id := RowId(b, k);
    if Resolve(env.blank, k).Some? {
      DropSound(env, s.rows, r.objects, id);
      forall other | other !in r.drifted
        ensures Coherent(env, s.rows - {id}, r.objects - {Target(id)}, other)
      {
        if other == b {
          DropCoherentIff(env, s.rows, r.objects, id);
        } else {
          DropElsewhere(env, s.rows, r.objects, id, other);
        }
      }
    }
  }

  lemma SpelledTarget(id: RowId)
    requires WalkSpelling(id.key)
    ensures PathOf(id) == Target(id)
  {
    PlainPathIsTarget(id);
  }

  lemma FlippedRowIsRight(env: Env, s: State, r: RefState, id: RowId, public: bool)
    requires Simulates(env, s, r) && WalkSpelling(id.key) && Target(id) in r.objects
    ensures var obj := r.objects[Target(id)].(public := public);
            && SoundRow(env, FlippedRow(env, s, id, public), obj)
            && (id.bucket !in r.drifted ==> FlippedRow(env, s, id, public) == Reference.RowFor(env, obj))
  {
    hide Managed, ObjectsOf, AllVisible, Addressable, WalkSpelling, Target, PathOf;
    SpelledTarget(id);
    if id in s.rows {
      assert SoundRow(env, s.rows[id], r.objects[Target(id)]);
      assert id.bucket !in r.drifted ==> Coherent(env, s.rows, r.objects, id.bucket);
    }
  }

  lemma AclSimulates(env: Env, s: State, r: RefState, b: string, k: string, public: bool)
    requires Simulates(env, s, r) && Plain(b) && WalkSpelling(k)
    ensures var (t, answer) := ObjectState.SetPublic(env, s, b, k, public);
            var (o, expected) := Reference.SetPublic(env, r.objects, b, k, public);
            answer == expected && Simulates(env, t, r.(objects := o))
  {
    SetPublicRefines(env, s, b, k, public);
    ManagedPaths(env, s);
    var id := RowId(b, k);
    if ObjectState.SetPublic(env, s, b, k, public).1.Success? {
      FlippedRowIsRight(env, s, r, id, public);
      UpsertSimulates(env, s.rows, r, id, r.objects[Target(id)].(public := public), FlippedRow(env, s, id, public));
    }
  }

  lemma ReindexSimulates(env: Env, s: State, r: RefState, bucket: string, force: bool)
    requires Simulates(env, s, r)
    ensures var t := Reindexed(env, s, bucket, force);
            Simulates(env, t, r.(drifted := r.drifted - {bucket})) && Simulates(env, t, r)
  {
    var t := Reindexed(env, s, bucket, force);
    ReindexRestores(env, s, bucket, force);
    SameDisk(env, s, t);
    forall b | b !in r.drifted - {bucket}
      ensures Coherent(env, t.rows, r.objects, b)
    {
      ReindexKeepsOthers(env, s, bucket, force, b);
    }
    ReindexKeepsOthers(env, s, bucket, force, bucket);
  }

  lemma ListSimulates(env: Env, s: State, r: RefState, op: Op)
    requires Simulates(env, s, r) && WellSpelled(op) && op.ListOp?
    ensures Simulates(env, Step(env, s, op).0, RefStep(env, r, op).0)
    ensures Agrees(Step(env, s, op).1, RefStep(env, r, op).1)
  {
    var t := ListObjects(env, s, op).0;
    ReindexSimulates(env, s, r, op.bucket, false);
    if op.bucket !in r.drifted {
      ManagedPaths(env, s);
      assert Coherent(env, t.rows, r.objects, op.bucket);
      PageRefines(env, t.rows, r.objects, op.bucket, op.prefix, op.limit, op.cursor);
    }
  }

  /** However much of a bucket's index was lost, the first page of an unprefixed listing is right again
      as soon as none of its rows is left. */
  lemma FirstListHeals(env: Env, s: State, r: RefState, op: Op)
    requires Simulates(env, s, r) && op.ListOp? && op.cursor == "" && op.prefix == ""
    requires RowsOf(s.rows, op.bucket) == {}
    ensures ListObjects(env, s, op).1 == Reference.List(env, r.objects, op.bucket, "", op.limit, "")
    ensures Coherent(env, ListObjects(env, s, op).0.rows, r.objects, op.bucket)
  {
    var t := ListObjects(env, s, op).0;
    ManagedPaths(env, s);
    ReindexRestores(env, s, op.bucket, false);
    if Walked(s.disk, op.bucket) == {} {
      forall id: RowId | id.bucket == op.bucket
        ensures id !in s.rows && !(PathOf(id) in r.objects)
      {
        assert id in s.rows ==> id in RowsOf(s.rows, op.bucket);
        WalkedAreVisible(env, s, op.bucket, id);
      }
    }
    PageRefines(env, t.rows, r.objects, op.bucket, "", op.limit, "");
  }

  lemma WithoutRowsSound(env: Env, rows: map<RowId, Row>, o: Reference.Objects, b: string)
    requires Sound(env, rows, o)
    ensures Sound(env, WithoutRows(rows, b), o)
  {
  }

  lemma WithoutRowsCoherent(env: Env, rows: map<RowId, Row>, o: Reference.Objects, b: string, other: string)
    requires Coherent(env, rows, o, other) || (other == b && NoObjectsIn(o, b))
    ensures other != b || NoObjectsIn(o, b) ==> Coherent(env, WithoutRows(rows, b), o, other)
  {
  }

  lemma DropSimulates(env: Env, s: State, r: RefState, b: string)
    requires Simulates(env, s, r) && Plain(b) && DropBucket(s, b).Some?
    ensures Simulates(env, DropBucket(s, b).value, r.(drifted := r.drifted - {b}))
  {
    hide Managed, ObjectsOf, Sound, Coherent, Addressable, AllVisible, NoObjectsIn, WithoutRows;
    DropKeepsManaged(env, s, b);
    var t := DropBucket(s, b).value;
    WithoutRowsSound(env, s.rows, r.objects, b);
    forall other | other !in r.drifted - {b}
      ensures Coherent(env, t.rows, r.objects, other)
    {
      WithoutRowsCoherent(env, s.rows, r.objects, b, other);
    }
  }

  lemma MakeSimulates(env: Env, s: State, r: RefState, b: string)
    requires Simulates(env, s, r) && Plain(b)
    ensures CreateBucketDirectory(s, b).Some? && Simulates(env, CreateBucketDirectory(s, b).value, r)
  {
    hide Managed, ObjectsOf, Sound, Coherent, Addressable, AllVisible, CreateBucketDirectory;
    MakeKeepsManaged(env, s, b);
  }

  lemma BucketSimulates(env: Env, s: State, r: RefState, op: Op)
    requires Simulates(env, s, r) && WellSpelled(op) && (op.MakeBucketOp? || op.DropBucketOp?)
    ensures Simulates(env, Step(env, s, op).0, RefStep(env, r, op).0)
    ensures Agrees(Step(env, s, op).1, RefStep(env, r, op).1)
  {
    hide Managed, ObjectsOf, Sound, CoherentExcept, Addressable, AllVisible, NoObjectsIn, DropBucket,
         CreateBucketDirectory;
    if op.MakeBucketOp? {
      MakeSimulates(env, s, r, op.bucket);
    } else {
      DeletableIffNoObjects(env, s, op.bucket);
      if DropBucket(s, op.bucket).Some? { DropSimulates(env, s, r, op.bucket); }
    }
  }

  lemma DriftedSound(env: Env, rows: map<RowId, Row>, o: Reference.Objects, b: string, lost: set<string>,
                     unhashed: set<string>)
    requires Sound(env, rows, o)
    ensures Sound(env, Drifted(rows, b, lost, unhashed), o)
  {
  }

  lemma DriftedElsewhere(env: Env, rows: map<RowId, Row>, o: Reference.Objects, b: string, lost: set<string>,
                         unhashed: set<string>, other: string)
    requires other != b && Coherent(env, rows, o, other)
    ensures Coherent(env, Drifted(rows, b, lost, unhashed), o, other)
  {
  }

  lemma DriftSimulates(env: Env, s: State, r: RefState, op: Op)
    requires Simulates(env, s, r) && op.DriftOp?
    ensures Simulates(env, Step(env, s, op).0, RefStep(env, r, op).0)
  {
    hide Managed, ObjectsOf, Sound, Coherent, Addressable, AllVisible, Drifted;
    var t := Step(env, s, op).0;
    SameDisk(env, s, t);
    DriftedSound(env, s.rows, r.objects, op.bucket, op.lost, op.unhashed);
    forall b | b !in r.drifted + {op.bucket}
      ensures Coherent(env, t.rows, r.objects, b)
    {
      DriftedElsewhere(env, s.rows, r.objects, op.bucket, op.lost, op.unhashed, b);
    }
  }

  /** One step: same answer as the reference, invariant kept. */
  lemma StepSimulates(env: Env, s: State, r: RefState, op: Op)
    requires Simulates(env, s, r) && WellSpelled(op)
    ensures Simulates(env, Step(env, s, op).0, RefStep(env, r, op).0)
    ensures Agrees(Step(env, s, op).1, RefStep(env, r, op).1)
  {
    match op {
      case PutOp(b, k, bytes, ct, public, now) => PutSimulates(env, s, r, b, k, bytes, ct, public, now);
      case GetOp(b, k) => GetSimulates(env, s, r, b, k);
      case DeleteOp(b, k) => DeleteSimulates(env, s, r, b, k);
      case AclOp(b, k, public) => AclSimulates(env, s, r, b, k, public);
      case VisibilityOp(b, k) => IsPublicRefines(env, s, b, k);
      case ListOp(_, _, _, _) => ListSimulates(env, s, r, op);
      case ReindexOp(b, force) => ReindexSimulates(env, s, r, b, force);
      case MakeBucketOp(_) => BucketSimulates(env, s, r, op);
      case DropBucketOp(_) => BucketSimulates(env, s, r, op);
      case DriftOp(_, _, _) => DriftSimulates(env, s, r, op);
    }
  }

  // ---- runs ----

  ghost predicate AllWellSpelled(ops: seq<Op>) {
    forall op :: op in ops ==> WellSpelled(op)
  }

  /** Running `ops` from `s`, one state per step: every answer agrees with the reference run from `r`,
      and the invariant holds at the end. */
  ghost predicate RunAgrees(env: Env, s: State, r: RefState, ops: seq<Op>)
    decreases |ops|
  {
    if ops == [] then Simulates(env, s, r)
    else
      && Managed(env, s)
      && Agrees(Step(env, s, ops[0]).1, RefStep(env, r, ops[0]).1)
      && RunAgrees(env, Step(env, s, ops[0]).0, RefStep(env, r, ops[0]).0, ops[1..])
  }

  const EMPTY := State(Tree(map[], {[]}), Tree(map[], {[]}), map[])

  lemma {:induction false} RunRefinesFrom(env: Env, s: State, r: RefState, ops: seq<Op>)
    requires Simulates(env, s, r) && AllWellSpelled(ops)
    ensures RunAgrees(env, s, r, ops)
    decreases |ops|
  {
    if ops != [] {
      assert ops[0] in ops;
      StepSimulates(env, s, r, ops[0]);
      assert forall op :: op in ops[1..] ==> op in ops;
      RunRefinesFrom(env, Step(env, s, ops[0]).0, RefStep(env, r, ops[0]).0, ops[1..]);
    }
  }

  /** From an empty root, every run answers as the plain map of objects does. The index shows in no
      answer at all, except in listings of a bucket that has drifted and not been reindexed since. */
  lemma RunRefines(env: Env, ops: seq<Op>)
    requires AllWellSpelled(ops)
    ensures RunAgrees(env, EMPTY, RefState(map[], {}), ops)
  {
    RunRefinesFrom(env, EMPTY, RefState(map[], {}), ops);
  }

  ghost function Final(env: Env, s: State, r: RefState, ops: seq<Op>): (State, RefState)
    requires Simulates(env, s, r) && AllWellSpelled(ops)
    decreases |ops|
  {
    if ops == [] then (s, r)
    else
      assert ops[0] in ops;
      StepSimulates(env, s, r, ops[0]);
      assert forall op :: op in ops[1..] ==> op in ops;
      Final(env, Step(env, s, ops[0]).0, RefStep(env, r, ops[0]).0, ops[1..])
  }

  /** At the end of any run a bucket that has not drifted matches its disk row for row: size, MD5,
      content type and visibility. */
  lemma {:induction false} RunsStayCoherent(env: Env, s: State, r: RefState, ops: seq<Op>, bucket: string)
    requires Simulates(env, s, r) && AllWellSpelled(ops)
    ensures var (t, rt) := Final(env, s, r, ops);
            Simulates(env, t, rt) && (bucket !in rt.drifted ==> MatchesDisk(env, t, bucket))
    decreases |ops|
  {
    if ops == [] {
      if bucket !in r.drifted {
        assert Coherent(env, s.rows, r.objects, bucket);
        forall id: RowId | id.bucket == bucket
          ensures id in s.rows <==> PathOf(id) in Walked(s.disk, bucket)
          ensures id in s.rows ==>
                    s.rows[id] == DerivedRow(env, s.disk.files[PathOf(id)], ReadMeta(s.metas, PathOf(id)))
        {
          WalkedAreVisible(env, s, bucket, id);
          if id in s.rows { DerivedIsRowFor(env, s, PathOf(id)); }
        }
      }
    } else {
      assert ops[0] in ops;
      StepSimulates(env, s, r, ops[0]);
      assert forall op :: op in ops[1..] ==> op in ops;
      RunsStayCoherent(env, Step(env, s, ops[0]).0, RefStep(env, r, ops[0]).0, ops[1..], bucket);
    }
  }

  /** After any run, deleting the objects a bucket lists, in any order, leaves the bucket deletable and every other
      bucket's objects in place. The list may hold further keys, and keys more than once. */
  lemma RunsLeaveDeletableBuckets(env: Env, s: State, r: RefState, ops: seq<Op>, bucket: string, keys: seq<string>)
    requires Simulates(env, s, r) && AllWellSpelled(ops) && Plain(bucket)
    requires forall k :: k in Reference.KeysOf(Final(env, s, r, ops).1.objects, bucket) ==> k in keys
    ensures
      var (t, rt) := Final(env, s, r, ops);
      var emptied := DeleteAll(env, t, bucket, keys);
      && NoObjectsIn(ObjectsOf(emptied), bucket) && DropBucket(emptied, bucket).Some?
      && OthersKept(rt.objects, ObjectsOf(emptied), bucket)
  {
    hide Final, DropBucket, ObjectsOf, Managed, Sound, CoherentExcept, DeleteAll;
    RunsStayCoherent(env, s, r, ops, bucket);
    var (t, rt) := Final(env, s, r, ops);
    ListedCovers(rt.objects, bucket, keys);
    DeletingAllEmpties(env, t, bucket, keys);
  }

  lemma ListedCovers(o: Reference.Objects, bucket: string, keys: seq<string>)
    requires AllVisible(o) && forall k :: k in Reference.KeysOf(o, bucket) ==> k in keys
    ensures Covers(keys, o, bucket)
  {
    forall p | p in o && 2 <= |p| && p[0] == bucket
      ensures KeyOf(p[1..]) in keys
    {
      assert KeyOf(p[1..]) in Reference.KeysOf(o, bucket);
    }
  }
}
