/** The credentials of buckets over time: creation, rotation and deletion, and which pair authenticates. */
module Credentials {
  import opened Wrappers
  import opened Paths
  import opened ObjectState
  import opened Decimal
  import opened Signing
  import opened Url
  import opened Store
  import opened Auth
  import opened Presign
  import opened PresignLaws
  import opened HeaderAuth

  datatype AdminError = InvalidName | BucketAlreadyExists | NoSuchBucket | BucketNotEmpty | Internal

  /** The credentials table beside the object layer. */
  datatype World = World(buckets: Buckets, objects: State)

  predicate LowerOrDigit(c: char) { 'a' <= c <= 'z' || '0' <= c <= '9' }

  /** `^[a-z0-9]([a-z0-9-]{1,61}[a-z0-9])?$` */
  predicate BucketName(name: string) {
    (|name| == 1 || 3 <= |name| <= 63)
    && LowerOrDigit(name[0]) && LowerOrDigit(name[|name| - 1])
    && forall i :: 0 <= i < |name| ==> LowerOrDigit(name[i]) || name[i] == '-'
  }

  /** The groups of the expression: a first character, and perhaps one to 61 more and a last one. */
  predicate NamePattern(name: string, first: char, middle: string, last: string) {
    && name == [first] + middle + last && LowerOrDigit(first)
    && ((middle == "" && last == "")
        || (1 <= |middle| <= 61 && |last| == 1 && LowerOrDigit(last[0])
            && forall i :: 0 <= i < |middle| ==> LowerOrDigit(middle[i]) || middle[i] == '-'))
  }

  lemma BucketNameIff(name: string)
    ensures BucketName(name) <==> exists first, middle, last :: NamePattern(name, first, middle, last)
  {
    if BucketName(name) {
      if |name| == 1 {
        assert NamePattern(name, name[0], "", "");
      } else {
        var n := |name| - 1;
        assert name == [name[0]] + name[1..n] + [name[n]];
        assert NamePattern(name, name[0], name[1..n], [name[n]]);
      }
    }
    forall first, middle, last | NamePattern(name, first, middle, last)
      ensures BucketName(name)
    {
      PatternIsName(name, first, middle, last);
    }
  }

  lemma PatternIsName(name: string, first: char, middle: string, last: string)
    requires NamePattern(name, first, middle, last)
    ensures BucketName(name)
  {
    if last != "" {
      assert forall i :: 1 <= i <= |middle| ==> name[i] == middle[i - 1];
      assert name[|name| - 1] == last[0];
    }
  }

  lemma LowerOrDigitIff(c: char)
    ensures LowerOrDigit(c) <==> 97 <= c as int <= 122 || 48 <= c as int <= 57
  {
  }

  lemma BucketNamesArePlain(name: string)
    requires BucketName(name)
    ensures PlainName(name) && Plain(name)
  {
  }

  // ---- the three requests ----

  /** The row is inserted first, and taken back when the directory cannot be made. */
  function CreateBucket(w: World, name: string, pair: BucketRow): (World, Result<BucketRow, AdminError>) {
    if !BucketName(name) then (w, Failure(InvalidName))
    else if name in w.buckets || AccessKeyTaken(w.buckets, pair.accessKey) then (w, Failure(BucketAlreadyExists))
    else
      match CreateBucketDirectory(w.objects, name)
      case None => (w.(objects := w.objects.(rows := WithoutRows(w.objects.rows, name))), Failure(Internal))
      case Some(objects) => (World(w.buckets[name := pair], objects), Success(pair))
  }

  function RotateBucketKey(w: World, name: string, pair: BucketRow): (World, Result<BucketRow, AdminError>) {
    if name !in w.buckets then (w, Failure(NoSuchBucket))
    else if AccessKeyTaken(w.buckets - {name}, pair.accessKey) then (w, Failure(Internal))
    else (w.(buckets := w.buckets[name := pair]), Success(pair))
  }

  function DeleteBucket(w: World, name: string): (World, Result<(), AdminError>) {
    if name !in w.buckets then (w, Failure(NoSuchBucket))
    else
      match IsBucketEmpty(w.objects.disk, name)
      case Failure(_) => (w, Failure(Internal))
      case Success(false) => (w, Failure(BucketNotEmpty))
      case Success(true) =>
        match DropBucket(w.objects, name)
        case None => (World(w.buckets - {name}, w.objects.(rows := WithoutRows(w.objects.rows, name))),
                      Failure(Internal))
        case Some(objects) => (World(w.buckets - {name}, objects), Success(()))
  }

  /** Which answer an administrator gets, and what a refusal leaves behind. */
  lemma CreateAnswers(w: World, name: string, pair: BucketRow)
    ensures
      var (after, r) := CreateBucket(w, name, pair);
      var taken := name in w.buckets
                   || exists other :: other in w.buckets && w.buckets[other].accessKey == pair.accessKey;
      && (r == Failure(InvalidName) <==> !BucketName(name))
      && (r == Failure(BucketAlreadyExists) <==> BucketName(name) && taken)
      && (r == Failure(Internal) <==> BucketName(name) && !taken && CreateBucketDirectory(w.objects, name).None?)
      && (r.Success? ==> r.value == pair && CreateBucketDirectory(w.objects, name) == Some(after.objects))
      && (r.Failure? ==> after.buckets == w.buckets && after.objects.disk == w.objects.disk
                         && after.objects.metas == w.objects.metas)
      && (r.Failure? && r.error != Internal ==> after == w)
      && (r == Failure(Internal) ==>
            forall id: RowId :: id in after.objects.rows <==> id in w.objects.rows && id.bucket != name)
  {
    hide BucketName;
  }

  lemma RotateAnswers(w: World, name: string, pair: BucketRow)
    ensures
      var (after, r) := RotateBucketKey(w, name, pair);
      && after.objects == w.objects && (r.Failure? ==> after == w) && (r.Success? ==> r.value == pair)
      && (r == Failure(NoSuchBucket) <==> name !in w.buckets)
      && (r == Failure(Internal) <==>
            name in w.buckets
            && exists other :: other in w.buckets && other != name && w.buckets[other].accessKey == pair.accessKey)
      && (r.Failure? ==> r.error == NoSuchBucket || r.error == Internal)
  {
    if AccessKeyTaken(w.buckets - {name}, pair.accessKey) {
      var other :| other in w.buckets - {name} && (w.buckets - {name})[other].accessKey == pair.accessKey;
      assert other in w.buckets && other != name && w.buckets[other].accessKey == pair.accessKey;
    }
    NotTakenElsewhere(w.buckets, name, pair.accessKey);
  }

  lemma DeleteAnswers(w: World, name: string)
    ensures
      var (after, r) := DeleteBucket(w, name);
      && (r == Failure(NoSuchBucket) <==> name !in w.buckets)
      && (r == Failure(BucketNotEmpty) <==>
            name in w.buckets && [name] in w.objects.disk.dirs && w.objects.disk.HasEntries([name]))
      && (r.Failure? ==> after == w)
      && (r.Success? ==> after.buckets == w.buckets - {name} && after.objects.metas == w.objects.metas
                         && after.objects.disk.files == w.objects.disk.files - {[name]}
                         && forall id: RowId :: id in after.objects.rows <==> id in w.objects.rows && id.bucket != name)
  {
    EmptyBucketGoes(w.objects, name);
  }

  // ---- runs ----

  /** An administrator's request, or whatever object requests and reindexes do to the object layer. */
  datatype Event =
    | Create(name: string, pair: BucketRow)
    | Rotate(name: string, pair: BucketRow)
    | Delete(name: string)
    | Traffic(objects: State)

  function Apply(w: World, e: Event): (World, bool) {
    match e
    case Create(name, pair) => var (after, r) := CreateBucket(w, name, pair); (after, r.Success?)
    case Rotate(name, pair) => var (after, r) := RotateBucketKey(w, name, pair); (after, r.Success?)
    case Delete(name) => var (after, r) := DeleteBucket(w, name); (after, r.Success?)
    case Traffic(objects) => (w.(objects := objects), true)
  }

  /** The world after a run that starts without any bucket. */
  function Run(start: State, events: seq<Event>): World {
    if events == [] then World(map[], start)
    else Apply(Run(start, events[..|events| - 1]), events[|events| - 1]).0
  }

  predicate Succeeds(start: State, events: seq<Event>, i: nat)
    requires i < |events|
  {
    Apply(Run(start, events[..i]), events[i]).1
  }

  predicate Issues(e: Event, name: string, pair: BucketRow) {
    e == Create(name, pair) || e == Rotate(name, pair)
  }

  predicate Concerns(e: Event, name: string) {
    !e.Traffic? && e.name == name
  }

  /** The pair was handed out for the name, and nothing has happened to the name since. */
  ghost predicate LastIssued(start: State, events: seq<Event>, name: string, pair: BucketRow) {
    exists i :: 0 <= i < |events| && IssuedLast(start, events, i, name, pair)
  }

  ghost predicate IssuedLast(start: State, events: seq<Event>, i: nat, name: string, pair: BucketRow)
    requires i < |events|
  {
    && Issues(events[i], name, pair) && Succeeds(start, events, i)
    && forall j :: i < j < |events| && Concerns(events[j], name) ==> !Succeeds(start, events, j)
  }

  /** A request that fails, or concerns another name, leaves a name's credentials alone; one that succeeds
      leaves the pair it issued, or none. */
  lemma ApplyOnName(w: World, e: Event, name: string)
    ensures var (after, ok) := Apply(w, e);
            if !ok || !Concerns(e, name)
            then (name in after.buckets <==> name in w.buckets)
                 && (name in w.buckets ==> after.buckets[name] == w.buckets[name])
            else if e.Delete? then name !in after.buckets
            else name in after.buckets && after.buckets[name] == e.pair
  {
    if e.Delete? { EmptyBucketGoes(w.objects, e.name); }
  }

  lemma EmptyBucketGoes(s: State, name: string)
    ensures IsBucketEmpty(s.disk, name) == Success(true) ==> DropBucket(s, name).Some?
  {
  }

  lemma RunStep(start: State, events: seq<Event>)
    requires events != []
    ensures var n := |events| - 1;
            Run(start, events) == Apply(Run(start, events[..n]), events[n]).0
    ensures Succeeds(start, events, |events| - 1) == Apply(Run(start, events[..|events| - 1]), events[|events| - 1]).1
  {
  }

  lemma EarlierOutcome(start: State, events: seq<Event>, n: nat, i: nat)
    requires i < n <= |events|
    ensures events[..n][i] == events[i]
    ensures Succeeds(start, events[..n], i) == Succeeds(start, events, i)
  {
    assert events[..n][..i] == events[..i];
  }

  /** In every run, failures included, the table holds a pair for a name exactly when that pair is the last
      one issued to the name's current incarnation. */
  lemma {:induction false} CurrentPairIsLastIssued(start: State, events: seq<Event>, name: string, pair: BucketRow)
    ensures var buckets := Run(start, events).buckets;
            name in buckets && buckets[name] == pair <==> LastIssued(start, events, name, pair)
  {
    hide Apply, Run, Succeeds;
    if events == [] {
      RunOfNothing(start);
    } else {
      var n := |events| - 1;
      RunStep(start, events);
      ApplyOnName(Run(start, events[..n]), events[n], name);
      if Concerns(events[n], name) && Succeeds(start, events, n) {
        LastEventDecides(start, events, name, pair);
      } else {
        CurrentPairIsLastIssued(start, events[..n], name, pair);
        QuietEventKeepsLast(start, events, name, pair);
      }
    }
  }

  lemma RunOfNothing(start: State)
    ensures Run(start, []).buckets == map[]
  {
  }

  lemma LastEventDecides(start: State, events: seq<Event>, name: string, pair: BucketRow)
    requires events != [] && Concerns(events[|events| - 1], name) && Succeeds(start, events, |events| - 1)
    ensures LastIssued(start, events, name, pair)
            <==> !events[|events| - 1].Delete? && events[|events| - 1].pair == pair
  {
    hide Succeeds;
    var n := |events| - 1;
    if !events[n].Delete? && events[n].pair == pair {
      assert IssuedLast(start, events, n, name, pair);
    }
    if LastIssued(start, events, name, pair) {
      var i :| 0 <= i < |events| && IssuedLast(start, events, i, name, pair);
      assert i == n;
    }
  }

  lemma QuietEventKeepsLast(start: State, events: seq<Event>, name: string, pair: BucketRow)
    requires events != [] && !(Concerns(events[|events| - 1], name) && Succeeds(start, events, |events| - 1))
    ensures LastIssued(start, events, name, pair) <==> LastIssued(start, events[..|events| - 1], name, pair)
  {
    hide Succeeds;
    var n := |events| - 1;
    var before := events[..n];
    forall i: nat | i < n
      ensures before[i] == events[i] && Succeeds(start, before, i) == Succeeds(start, events, i)
    {
      EarlierOutcome(start, events, n, i);
    }
    if LastIssued(start, events, name, pair) {
      var i :| 0 <= i < |events| && IssuedLast(start, events, i, name, pair);
      assert IssuedLast(start, before, i, name, pair);
    }
    if LastIssued(start, before, name, pair) {
      var i :| 0 <= i < |before| && IssuedLast(start, before, i, name, pair);
      assert IssuedLast(start, events, i, name, pair);
    }
  }

  lemma {:induction false} RunKeepsUniqueKeys(start: State, events: seq<Event>)
    ensures UniqueKeys(Run(start, events).buckets)
  {
    hide Apply, Run;
    if events == [] {
      RunOfNothing(start);
    } else {
      RunKeepsUniqueKeys(start, events[..|events| - 1]);
      RunStep(start, events);
      ApplyKeepsUniqueKeys(Run(start, events[..|events| - 1]), events[|events| - 1]);
    }
  }

  /** Only valid names are ever in the table. */
  lemma {:induction false} RunNamesAreBucketNames(start: State, events: seq<Event>, name: string)
    requires name in Run(start, events).buckets
    ensures BucketName(name)
  {
    if events != [] {
      var before, e := Run(start, events[..|events| - 1]), events[|events| - 1];
      RunStep(start, events);
      if name in before.buckets { RunNamesAreBucketNames(start, events[..|events| - 1], name); }
    }
  }

  lemma ApplyKeepsUniqueKeys(w: World, e: Event)
    requires UniqueKeys(w.buckets)
    ensures UniqueKeys(Apply(w, e).0.buckets)
  {
    if e.Rotate? { NotTakenElsewhere(w.buckets, e.name, e.pair.accessKey); }
  }

  lemma NotTakenElsewhere(buckets: Buckets, name: string, accessKey: string)
    ensures !AccessKeyTaken(buckets - {name}, accessKey)
            ==> forall n :: n in buckets && n != name ==> buckets[n].accessKey != accessKey
  {
    forall n | n in buckets && n != name
      ensures n in buckets - {name}
    {
    }
  }

  // ---- freshly generated keys ----

  predicate IssuesKey(e: Event, accessKey: string) {
    (e.Create? || e.Rotate?) && e.pair.accessKey == accessKey
  }

  /** No access key is generated twice. */
  ghost predicate FreshKeys(events: seq<Event>) {
    forall i, j, accessKey ::
      0 <= i < j < |events| && IssuesKey(events[i], accessKey) ==> !IssuesKey(events[j], accessKey)
  }

  lemma TakenKeyWasIssued(start: State, events: seq<Event>, n: nat, accessKey: string)
    requires n <= |events| && AccessKeyTaken(Run(start, events[..n]).buckets, accessKey)
    ensures exists i :: 0 <= i < n && IssuesKey(events[i], accessKey)
  {
    hide Run, Succeeds;
    var buckets := Run(start, events[..n]).buckets;
    var name :| name in buckets && buckets[name].accessKey == accessKey;
    CurrentPairIsLastIssued(start, events[..n], name, buckets[name]);
    var i :| 0 <= i < |events[..n]| && IssuedLast(start, events[..n], i, name, buckets[name]);
    assert IssuesKey(events[i], accessKey);
  }

  /** The pair was generated for some bucket at some point of the run, whether or not that request succeeded. */
  ghost predicate Generated(events: seq<Event>, pair: BucketRow) {
    exists i, name :: 0 <= i < |events| && Issues(events[i], name, pair)
  }

  /** With fresh keys a bucket that has a generated pair's access key has that very pair. */
  lemma SameKeySamePair(start: State, events: seq<Event>, name: string, pair: BucketRow)
    requires FreshKeys(events) && Generated(events, pair)
    ensures var buckets := Run(start, events).buckets;
            name in buckets && buckets[name].accessKey == pair.accessKey ==> buckets[name] == pair
  {
    hide Run, Succeeds;
    var buckets := Run(start, events).buckets;
    if name in buckets && buckets[name].accessKey == pair.accessKey {
      CurrentPairIsLastIssued(start, events, name, buckets[name]);
      var k :| 0 <= k < |events| && IssuedLast(start, events, k, name, buckets[name]);
      var i, other :| 0 <= i < |events| && Issues(events[i], other, pair);
      SameKeySameEvent(events, i, k, pair.accessKey);
    }
  }

  /** With fresh keys, creating a valid absent name fails only for want of a directory, and rotating an existing
      name never fails. */
  lemma FreshKeysSucceed(start: State, events: seq<Event>, n: nat)
    requires FreshKeys(events) && n < |events|
    ensures var w := Run(start, events[..n]);
            match events[n]
            case Create(name, _) =>
              (Succeeds(start, events, n)
               <==> BucketName(name) && name !in w.buckets && w.objects.disk.MkdirAll([name]).Some?)
            case Rotate(name, _) => (Succeeds(start, events, n) <==> name in w.buckets)
            case _ => true
  {
    hide Run, BucketName;
    var w := Run(start, events[..n]);
    if events[n].Create? || events[n].Rotate? {
      var accessKey := events[n].pair.accessKey;
      assert IssuesKey(events[n], accessKey);
      if AccessKeyTaken(w.buckets, accessKey) {
        TakenKeyWasIssued(start, events, n, accessKey);
        assert false;
      }
      NotTakenWithout(w.buckets, events[n].name, accessKey);
    }
  }

  lemma NotTakenWithout(buckets: Buckets, name: string, accessKey: string)
    ensures !AccessKeyTaken(buckets, accessKey) ==> !AccessKeyTaken(buckets - {name}, accessKey)
  {
  }

  /** With fresh keys, a pair that has been superseded is gone for good: its access key belongs to no bucket,
      under any name, at any later point. */
  lemma SupersededForGood(start: State, events: seq<Event>, i: nat, j: nat, name: string, pair: BucketRow)
    requires FreshKeys(events) && i < j < |events|
    requires Issues(events[i], name, pair) && Concerns(events[j], name) && Succeeds(start, events, j)
    ensures Owner(Run(start, events).buckets, pair.accessKey) == None
  {
    hide Run, Succeeds;
    var buckets := Run(start, events).buckets;
    if AccessKeyTaken(buckets, pair.accessKey) {
      var m :| m in buckets && buckets[m].accessKey == pair.accessKey;
      CurrentPairIsLastIssued(start, events, m, buckets[m]);
      var k :| 0 <= k < |events| && IssuedLast(start, events, k, m, buckets[m]);
      SameKeySameEvent(events, i, k, pair.accessKey);
    }
  }

  lemma SameKeySameEvent(events: seq<Event>, i: nat, k: nat, accessKey: string)
    requires FreshKeys(events) && i < |events| && k < |events|
    requires IssuesKey(events[i], accessKey) && IssuesKey(events[k], accessKey)
    ensures i == k
  {
  }

  // ---- the main results ----

  /** Over every run with fresh keys, and for every MAC, a generated pair authenticates a header-signed request on
      a bucket's path, within the skew, exactly when it is the last pair issued to the bucket's current incarnation. */
  lemma CredentialHistory(env: AuthEnv, start: State, events: seq<Event>, visible: Visibility, name: string,
                          signer: BucketRow, httpMethod: string, path: string, query: Query, timestamp: int)
    requires FreshKeys(events) && Generated(events, signer) && MatchBucketPath(path) == Some(name)
    requires GoodAccessKey(signer.accessKey) && Lookup(query, "AccessKey").None?
    requires MIN_INT64 <= timestamp <= MAX_INT64 && SkewOf(env.now, timestamp) <= env.clockSkew
    ensures
      var buckets := Run(start, events).buckets;
      var req := Signed(env.mac, signer, httpMethod, path, query, timestamp);
      !PublicRead(buckets, visible, req) ==>
        (BucketAuth(env, buckets, visible, req).Forward? <==> LastIssued(start, events, name, signer))
  {
    hide Run, LastIssued, FreshKeys, Generated, BucketAuth, Signed, PublicRead, MatchBucketPath, SkewOf, Lookup,
         StringToSign;
    RunKeepsUniqueKeys(start, events);
    SignedRequestIsFiltered(env, Run(start, events).buckets, visible, name, signer, httpMethod, path, query, timestamp);
    SameKeySamePair(start, events, name, signer);
    CurrentPairIsLastIssued(start, events, name, signer);
  }

  /** Over every run with fresh keys, and for every MAC, a presigned URL of a private object, or of an upload, works
      exactly until it expires or the pair that signed it stops being the last one issued to the bucket's current
      incarnation. */
  lemma PresignHistory(env: AuthEnv, start: State, events: seq<Event>, visible: Visibility, name: string,
                       signer: BucketRow, httpMethod: string, key: string, expires: int, authorization: string)
    requires FreshKeys(events) && Generated(events, signer) && BucketName(name)
    requires IsBytes(key) && key != "" && NEWLINE !in key && IsBytes(signer.accessKey) && signer.accessKey != ""
    requires httpMethod in {"GET", "PUT"} && MIN_INT64 <= expires <= MAX_INT64
    requires httpMethod == "GET" && name in Run(start, events).buckets ==> !visible(name, key)
    ensures
      var req := Follow(PresignedTarget(env.mac, name, signer, httpMethod, key, expires), httpMethod, authorization);
      && req.Some?
      && (Serve(env, Run(start, events).buckets, visible, req.value).Acts? <==>
            env.now <= expires && LastIssued(start, events, name, signer))
  {
    hide Run, LastIssued, FreshKeys, Generated, Serve, Follow, PresignedTarget;
    BucketNamesArePlain(name);
    RunKeepsUniqueKeys(start, events);
    SameKeySamePair(start, events, name, signer);
    PresignedUntilExpiryOrRotation(env, Run(start, events).buckets, visible, name, signer, httpMethod, key, expires,
                                   authorization);
    CurrentPairIsLastIssued(start, events, name, signer);
  }
}
