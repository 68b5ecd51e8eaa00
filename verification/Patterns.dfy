/** The three regular expressions of the filter, as the sets of strings they denote. */
module Patterns {
  import opened Wrappers
  import opened Text
  import opened Signing
  import opened Auth

  // ---- paths ----

  /** `^/buckets/([^/]+)(/.*)?$` with the first group `bucket` and the second `rest`. */
  predicate BucketPattern(path: string, bucket: string, rest: string) {
    path == BUCKETS + bucket + rest && bucket != "" && '/' !in bucket
    && (rest == "" || (rest[0] == '/' && NEWLINE !in rest))
  }

  lemma BucketPathMatches(path: string, bucket: string, rest: string)
    requires BucketPattern(path, bucket, rest)
    ensures MatchBucketPath(path) == Some(bucket)
  {
    assert After(path, BUCKETS) == bucket + rest;
    if rest == "" {
      assert '/' !in bucket + rest;
      assert (bucket + rest)[..|bucket|] == bucket;
    } else {
      IndexOfAppend(bucket, '/', rest[1..]);
      assert bucket + rest == bucket + ['/'] + rest[1..];
      assert (bucket + rest)[|bucket|..] == rest && (bucket + rest)[..|bucket|] == bucket;
    }
  }

  /** The bucket is found exactly when the whole path has the pattern's form. */
  lemma BucketPatternIff(path: string, bucket: string)
    ensures MatchBucketPath(path) == Some(bucket) <==> exists rest :: BucketPattern(path, bucket, rest)
  {
    if MatchBucketPath(path) == Some(bucket) {
      var tail := After(path, BUCKETS);
      var i := IndexOf(tail, '/');
      assert tail == tail[..i] + tail[i..];
      assert BucketPattern(path, bucket, tail[i..]);
    }
    forall rest | BucketPattern(path, bucket, rest)
      ensures MatchBucketPath(path) == Some(bucket)
    {
      BucketPathMatches(path, bucket, rest);
    }
  }

  /** `^/buckets/([^/]+)/objects/(.+)$` */
  predicate ObjectPattern(path: string, bucket: string, key: string) {
    path == BUCKETS + bucket + ['/'] + OBJECTS + key && bucket != "" && '/' !in bucket && key != "" && NEWLINE !in key
  }

  lemma ObjectPatternIff(path: string, bucket: string, key: string)
    ensures MatchObjectPath(path) == Some((bucket, key)) <==> ObjectPattern(path, bucket, key)
  {
    hide IndexOf;
    if ObjectPattern(path, bucket, key) {
      assert After(path, BUCKETS) == bucket + ['/'] + (OBJECTS + key);
      IndexOfAppend(bucket, '/', OBJECTS + key);
      var tail := After(path, BUCKETS);
      assert tail[..|bucket|] == bucket && tail[|bucket| + 1..] == OBJECTS + key;
      assert After(OBJECTS + key, OBJECTS) == key;
    }
    if MatchObjectPath(path) == Some((bucket, key)) { ObjectPathHasForm(path, bucket, key); }
  }

  lemma ObjectPathHasForm(path: string, bucket: string, key: string)
    requires MatchObjectPath(path) == Some((bucket, key))
    ensures ObjectPattern(path, bucket, key)
  {
    hide IndexOf, After;
    var tail := After(path, BUCKETS);
    var i := IndexOf(tail, '/');
    AfterPrefixed(path, BUCKETS);
    AfterPrefixed(tail[i + 1..], OBJECTS);
    assert tail == tail[..i] + ['/'] + tail[i + 1..];
    assert path == BUCKETS + (bucket + ['/'] + (OBJECTS + key));
  }

  // ---- the header ----

  predicate AllSpace(w: string) {
    forall i :: 0 <= i < |w| ==> IsSpace(w[i])
  }

  /** `^S3BENDER-HMAC-SHA256\s+AccessKey=([^,]+),\s*Timestamp=([^,]+),\s*Signature=([0-9a-fA-F]+)$` */
  predicate HeaderPattern(h: string, m: HeaderMatch, w1: string, w2: string, w3: string) {
    && h == SCHEME + w1 + ("AccessKey=" + m.accessKey + [','] + w2
                           + ("Timestamp=" + m.timestamp + [','] + w3 + ("Signature=" + m.signature)))
    && w1 != "" && AllSpace(w1) && AllSpace(w2) && AllSpace(w3)
    && m.accessKey != "" && ',' !in m.accessKey && m.timestamp != "" && ',' !in m.timestamp
    && m.signature != "" && AllHex(m.signature)
  }

  /** The white space a string starts with. */
  function Leading(s: string): (w: string)
    ensures AllSpace(w) && s == w + SkipSpaces(s)
  {
    if s != "" && IsSpace(s[0]) then [s[0]] + Leading(s[1..]) else ""
  }

  lemma {:induction false} SkipsAll(w: string, rest: string)
    requires AllSpace(w) && rest != "" && !IsSpace(rest[0])
    ensures SkipSpaces(w + rest) == rest
  {
    if w == "" {
      assert w + rest == rest;
    } else {
      SkipsAll(w[1..], rest);
      assert (w + rest)[1..] == w[1..] + rest;
    }
  }

  lemma FieldMatch(name: string, value: string, rest: string)
    requires value != "" && ',' !in value
    ensures MatchField(name + value + [','] + rest, name) == Some((value, rest))
  {
    hide IndexOf;
    var s := name + value + [','] + rest;
    assert After(s, name) == value + [','] + rest;
    IndexOfAppend(value, ',', rest);
    assert (value + [','] + rest)[..|value|] == value && (value + [','] + rest)[|value| + 1..] == rest;
  }

  lemma FieldHasForm(s: string, name: string)
    requires MatchField(s, name).Some?
    ensures var (value, rest) := MatchField(s, name).value;
            s == name + value + [','] + rest && value != "" && ',' !in value
  {
    var v := After(s, name);
    var i := IndexOf(v, ',');
    assert s == name + v && v == v[..i] + [','] + v[i + 1..];
  }

  lemma AfterFirst(prefix: string, rest: string)
    ensures prefix <= prefix + rest && After(prefix + rest, prefix) == rest
  {
  }

  lemma HeaderMatches(h: string, m: HeaderMatch, w1: string, w2: string, w3: string)
    requires HeaderPattern(h, m, w1, w2, w3)
    ensures MatchAuthHeader(h) == Some(m)
  {
    hide SkipSpaces, MatchField, After, AllSpace;
    var third := "Signature=" + m.signature;
    var second := "Timestamp=" + m.timestamp + [','] + (w3 + third);
    var first := "AccessKey=" + m.accessKey + [','] + (w2 + second);
    assert h == SCHEME + (w1 + first);
    AfterFirst(SCHEME, w1 + first);
    FirstIsSpace(w1, first);
    assert !IsSpace(first[0]) && !IsSpace(second[0]) && !IsSpace(third[0]);
    SkipsAll(w1, first);
    SkipsAll(w2, second);
    SkipsAll(w3, third);
    FieldMatch("AccessKey=", m.accessKey, w2 + second);
    FieldMatch("Timestamp=", m.timestamp, w3 + third);
    AfterFirst("Signature=", m.signature);
  }

  lemma FirstIsSpace(w: string, rest: string)
    requires w != "" && AllSpace(w)
    ensures w + rest != "" && IsSpace((w + rest)[0])
  {
  }

  lemma HeaderHasForm(h: string)
    requires MatchAuthHeader(h).Some?
    ensures exists w1, w2, w3 :: HeaderPattern(h, MatchAuthHeader(h).value, w1, w2, w3)
  {
    hide SkipSpaces, MatchField, After, IsSpace;
    var spaced := After(h, SCHEME);
    var first := SkipSpaces(spaced);
    FieldHasForm(first, "AccessKey=");
    var rest := MatchField(first, "AccessKey=").value.1;
    var second := SkipSpaces(rest);
    FieldHasForm(second, "Timestamp=");
    var last := MatchField(second, "Timestamp=").value.1;
    var third := SkipSpaces(last);
    AfterPrefixed(h, SCHEME);
    AfterPrefixed(third, "Signature=");
    var m := MatchAuthHeader(h).value;
    Reassembled(h, m, Leading(spaced), first, Leading(rest), second, Leading(last), third);
    LeadingSome(spaced);
    assert HeaderPattern(h, m, Leading(spaced), Leading(rest), Leading(last));
  }

  lemma AfterPrefixed(s: string, prefix: string)
    requires prefix <= s
    ensures s == prefix + After(s, prefix)
  {
  }

  lemma LeadingSome(s: string)
    requires s != "" && IsSpace(s[0])
    ensures Leading(s) != ""
  {
  }

  lemma Reassembled(h: string, m: HeaderMatch, w1: string, first: string, w2: string, second: string, w3: string,
                    third: string)
    requires h == SCHEME + (w1 + first)
    requires first == "AccessKey=" + m.accessKey + [','] + (w2 + second)
    requires second == "Timestamp=" + m.timestamp + [','] + (w3 + third)
    requires third == "Signature=" + m.signature
    ensures h == SCHEME + w1 + ("AccessKey=" + m.accessKey + [','] + w2
                                + ("Timestamp=" + m.timestamp + [','] + w3 + ("Signature=" + m.signature)))
  {
    assert second == "Timestamp=" + m.timestamp + [','] + w3 + third;
    assert first == "AccessKey=" + m.accessKey + [','] + w2 + second;
  }

  /** A header is parsed to three fields exactly when it has the pattern's form with those fields. */
  lemma HeaderPatternIff(h: string, m: HeaderMatch)
    ensures MatchAuthHeader(h) == Some(m) <==> exists w1, w2, w3 :: HeaderPattern(h, m, w1, w2, w3)
  {
    hide MatchAuthHeader, HeaderPattern;
    if MatchAuthHeader(h) == Some(m) { HeaderHasForm(h); }
    forall w1, w2, w3 | HeaderPattern(h, m, w1, w2, w3)
      ensures MatchAuthHeader(h) == Some(m)
    {
      HeaderMatches(h, m, w1, w2, w3);
    }
  }
}
