/** The authorization header: what the console prints, and what the server makes of it. */
module HeaderAuth {
  import opened Wrappers
  import opened ObjectState
  import opened Decimal
  import opened Signing
  import opened Url
  import opened Store
  import opened Auth
  import opened Patterns
  import opened Words
  import opened Fips180
  import Sha256Script

  // ---- the keyed hash of the standards, on byte strings ----

  function BytesOf(s: string): (bs: seq<Byte>)
    requires IsBytes(s)
    ensures |bs| == |s|
  {
    seq(|s|, i requires 0 <= i < |s| => s[i] as int)
  }

  /** Byte by byte. */
  lemma BytesOfIs(s: string, i: nat)
    requires IsBytes(s) && i < |s|
    ensures BytesOf(s)[i] == s[i] as int
  {
  }

  predicate Hashable(secret: string, s: string) {
    IsBytes(secret) && IsBytes(s) && |secret| < MAX_BYTES && |s| + 64 < MAX_BYTES
  }

  /** HMAC-SHA-256 of RFC 2104 and FIPS 180-4 wherever they define it. */
  function StandardMac(secret: string, s: string): MacBytes {
    if Hashable(secret, s) then Hmac(BytesOf(secret), BytesOf(s)) else [0]
  }

  lemma ZeroFill(key: seq<Byte>)
    requires |key| < 64
    ensures BlockKey(key + [0]) == BlockKey(key)
  {
    assert [0] + Zeros(63 - |key|) == Zeros(64 - |key|);
    assert key + [0] + Zeros(63 - |key|) == key + Zeros(64 - |key|);
  }

  /** The standard MAC has collisions: short secrets are filled with zeros, so one more zero byte changes no code.
      This is why no result about signatures assumes that codes differ. */
  lemma ZeroExtendedSecretsAgree(secret: string, s: string)
    requires Hashable(secret, s) && |secret| < 64
    ensures secret + "\0" != secret && StandardMac(secret + "\0", s) == StandardMac(secret, s)
  {
    hide BlockKey, Sha256, XorAll;
    assert BytesOf(secret + "\0") == BytesOf(secret) + [0];
    ZeroFill(BytesOf(secret));
  }

  // ---- printing ----

  /** `n.toString(16)` */
  function Base16(n: nat): string {
    if n < 16 then [LowerHexDigit(n)] else Base16(n / 16) + [LowerHexDigit(n % 16)]
  }

  function PadStart(s: string, width: nat, c: char): string
    decreases width - |s|
  {
    if |s| >= width then s else PadStart([c] + s, width, c)
  }

  /** `bytes.map((b) => b.toString(16).padStart(2, "0")).join("")` */
  function HexDigits(bs: seq<Byte>): string {
    if bs == [] then "" else PadStart(Base16(bs[0]), 2, '0') + HexDigits(bs[1..])
  }

  lemma ByteDigits(b: Byte)
    ensures PadStart(Base16(b), 2, '0') == [LowerHexDigit(b / 16), LowerHexDigit(b % 16)]
  {
    if b < 16 {
      assert Base16(b) == [LowerHexDigit(b)];
      assert PadStart(Base16(b), 2, '0') == PadStart(['0'] + Base16(b), 2, '0') == ['0'] + Base16(b);
    } else {
      assert Base16(b / 16) == [LowerHexDigit(b / 16)];
    }
  }

  /** The console and the server print a code alike. */
  lemma {:induction false} HexDigitsAgree(bs: seq<Byte>)
    ensures HexDigits(bs) == Hex(bs)
  {
    hide PadStart, Base16;
    if bs != [] {
      ByteDigits(bs[0]);
      HexDigitsAgree(bs[1..]);
    }
  }

  function AuthHeader(accessKey: string, timestamp: string, signature: string): string {
    SCHEME + " AccessKey=" + accessKey + ",Timestamp=" + timestamp + ",Signature=" + signature
  }

  /** `hmacSha256Hex` by way of the script's own hash: the server's signature, or a RangeError. */
  method HmacSha256Hex(secret: string, message: string) returns (r: Result<string, Sha256Script.JsError>)
    requires IsBytes(secret) && IsBytes(message)
    ensures r.Success? <==> (|secret| > 64 ==> |secret| + 72 < TWO31) && |message| + 136 < TWO31
    ensures r.Success? ==> r.value == Sign(StandardMac, secret, message)
  {
    hide Hmac, HexDigits, Hex, BytesOf;
    var code := Sha256Script.HmacSha256(BytesOf(secret), BytesOf(message));
    if code.Failure? { return Failure(code.error); }
    HexDigitsAgree(code.value);
    r := Success(HexDigits(code.value));
  }

  /** `buildAuthHeader` */
  method BuildAuthHeader(accessKey: string, secretKey: string, httpMethod: string, rawPath: string, timestamp: int)
    returns (r: Result<string, Sha256Script.JsError>)
    requires IsBytes(secretKey) && IsBytes(httpMethod) && IsBytes(rawPath)
    ensures r.Success? <==> (|secretKey| > 64 ==> |secretKey| + 72 < TWO31)
                             && |StringToSign(httpMethod, rawPath, timestamp)| + 136 < TWO31
    ensures r.Success? ==>
              r.value == AuthHeader(accessKey, FormatInt(timestamp),
                                    Sign(StandardMac, secretKey, StringToSign(httpMethod, rawPath, timestamp)))
  {
    hide Sign, StandardMac;
    var stringToSign := httpMethod + "\n" + rawPath + "\n" + FormatInt(timestamp);
    assert stringToSign == StringToSign(httpMethod, rawPath, timestamp);
    StringToSignBytes(httpMethod, rawPath, timestamp);
    var signature := HmacSha256Hex(secretKey, stringToSign);
    if signature.Failure? { return signature; }
    r := Success("S3BENDER-HMAC-SHA256 AccessKey=" + accessKey + ",Timestamp=" + FormatInt(timestamp)
                 + ",Signature=" + signature.value);
    HeaderText(accessKey, FormatInt(timestamp), signature.value);
  }

  lemma HeaderText(accessKey: string, timestamp: string, signature: string)
    ensures "S3BENDER-HMAC-SHA256 AccessKey=" + accessKey + ",Timestamp=" + timestamp + ",Signature=" + signature
            == AuthHeader(accessKey, timestamp, signature)
  {
    assert "S3BENDER-HMAC-SHA256 AccessKey=" == SCHEME + " AccessKey=";
  }

  lemma StringToSignBytes(httpMethod: string, path: string, t: int)
    requires IsBytes(httpMethod) && IsBytes(path)
    ensures IsBytes(StringToSign(httpMethod, path, t))
  {
    FormatBytes(t);
  }

  lemma FormatBytes(t: int)
    ensures IsBytes(FormatInt(t))
  {
  }

  // ---- parsing it back ----

  lemma NothingToTrim(s: string)
    requires s != "" && !IsSpace(s[0]) && !IsSpace(s[|s| - 1])
    ensures Trim(s) == s
  {
  }

  lemma HeaderEnds(accessKey: string, timestamp: string, signature: string)
    requires signature != "" && AllHex(signature)
    ensures var header := AuthHeader(accessKey, timestamp, signature);
            header != "" && !IsSpace(header[0]) && !IsSpace(header[|header| - 1])
  {
    var header := AuthHeader(accessKey, timestamp, signature);
    assert header[0] == 'S' && header[|header| - 1] == signature[|signature| - 1];
  }

  lemma PrintedForm(accessKey: string, timestamp: string, signature: string)
    requires accessKey != "" && ',' !in accessKey && timestamp != "" && ',' !in timestamp
    requires signature != "" && AllHex(signature)
    ensures HeaderPattern(AuthHeader(accessKey, timestamp, signature), HeaderMatch(accessKey, timestamp, signature),
                          " ", "", "")
  {
    hide AuthHeader, AllHex, IsSpace;
    HeaderRegrouped(accessKey, timestamp, signature);
    OneBlank();
  }

  lemma OneBlank()
    ensures AllSpace(" ") && AllSpace("")
  {
  }

  lemma HeaderRegrouped(accessKey: string, timestamp: string, signature: string)
    ensures
      AuthHeader(accessKey, timestamp, signature)
      == SCHEME + " " + ("AccessKey=" + accessKey + [','] + ""
                         + ("Timestamp=" + timestamp + [','] + "" + ("Signature=" + signature)))
  {
  }

  /** What is printed is parsed back, field by field. */
  lemma HeaderParses(accessKey: string, timestamp: string, signature: string)
    requires accessKey != "" && ',' !in accessKey && timestamp != "" && ',' !in timestamp
    requires signature != "" && AllHex(signature)
    ensures MatchAuthHeader(Trim(AuthHeader(accessKey, timestamp, signature)))
            == Some(HeaderMatch(accessKey, timestamp, signature))
  {
    hide MatchAuthHeader, Trim, AuthHeader, HeaderPattern, IsHexChar, IsSpace;
    var header := AuthHeader(accessKey, timestamp, signature);
    HeaderEnds(accessKey, timestamp, signature);
    NothingToTrim(header);
    PrintedForm(accessKey, timestamp, signature);
    HeaderMatches(header, HeaderMatch(accessKey, timestamp, signature), " ", "", "");
  }

  // ---- acceptance ----

  /** A request carrying the header of a pair, and no access key in its query. */
  function Signed(mac: Mac, signer: BucketRow, httpMethod: string, path: string, query: Query,
                  timestamp: int): Request
  {
    Request(httpMethod, path, query,
            AuthHeader(signer.accessKey, FormatInt(timestamp),
                       Sign(mac, signer.secret, StringToSign(httpMethod, path, timestamp))))
  }

  predicate GoodAccessKey(accessKey: string) { accessKey != "" && ',' !in accessKey }

  lemma SignedHeader(mac: Mac, signer: BucketRow, httpMethod: string, path: string, query: Query, timestamp: int)
    requires GoodAccessKey(signer.accessKey)
    ensures HeaderOf(Signed(mac, signer, httpMethod, path, query, timestamp))
            == Some(HeaderMatch(signer.accessKey, FormatInt(timestamp),
                                Sign(mac, signer.secret, StringToSign(httpMethod, path, timestamp))))
  {
    hide MatchAuthHeader, Trim, AuthHeader, StringToSign, FormatInt;
    FormatChars(timestamp, ',');
    TimestampPrinted(timestamp);
    HeaderParses(signer.accessKey, FormatInt(timestamp),
                 Sign(mac, signer.secret, StringToSign(httpMethod, path, timestamp)));
  }

  lemma TimestampPrinted(timestamp: int)
    ensures FormatInt(timestamp) != ""
  {
  }

  lemma SignedChecks(env: AuthEnv, signer: BucketRow, httpMethod: string, path: string, query: Query, timestamp: int,
                     secret: string)
    requires GoodAccessKey(signer.accessKey) && Lookup(query, "AccessKey").None?
    requires MIN_INT64 <= timestamp <= MAX_INT64
    ensures var req := Signed(env.mac, signer, httpMethod, path, query, timestamp);
            var s := StringToSign(httpMethod, path, timestamp);
            && PresentedKey(req) == signer.accessKey
            && CheckSignature(env, req, secret)
               == if SkewOf(env.now, timestamp) <= env.clockSkew && env.mac(secret, s) == env.mac(signer.secret, s)
                  then Some(0) else None
  {
    hide HeaderOf, AuthHeader, StringToSign, FormatInt, ParseInt, Lookup, Sign, SkewOf;
    SignedHeader(env.mac, signer, httpMethod, path, query, timestamp);
    ParseFormat(timestamp);
    SameSignature(env.mac, secret, signer.secret, StringToSign(httpMethod, path, timestamp));
  }

  /** Everything that can happen to a request signed in its header, under whatever credentials the bucket
      its path names has by now. */
  lemma SignedRequestIsFiltered(env: AuthEnv, buckets: Buckets, visible: Visibility, name: string, signer: BucketRow,
                                httpMethod: string, path: string, query: Query, timestamp: int)
    requires UniqueKeys(buckets) && MatchBucketPath(path) == Some(name)
    requires GoodAccessKey(signer.accessKey) && Lookup(query, "AccessKey").None?
    requires MIN_INT64 <= timestamp <= MAX_INT64
    ensures
      var req := Signed(env.mac, signer, httpMethod, path, query, timestamp);
      var s := StringToSign(httpMethod, path, timestamp);
      BucketAuth(env, buckets, visible, req) ==
      if PublicRead(buckets, visible, req) then Forward(Some(AuthInfo(name, true, 0)))
      else if name !in buckets || buckets[name].accessKey != signer.accessKey then Reject(401)
      else if SkewOf(env.now, timestamp) > env.clockSkew
           || env.mac(buckets[name].secret, s) != env.mac(signer.secret, s)
      then Reject(403)
      else Forward(Some(AuthInfo(name, false, 0)))
  {
    hide AuthHeader, StringToSign, PresentedKey, CheckSignature, Owner, MatchBucketPath, PublicRead, SkewOf, Lookup,
         Sign;
    var secret := if name in buckets then buckets[name].secret else "";
    SignedChecks(env, signer, httpMethod, path, query, timestamp, secret);
    OwnerIs(buckets, signer.accessKey, name);
  }

  /** A request signed with the bucket's own pair passes the filter exactly when its timestamp is within the
      allowed skew of the server's clock, or lies exactly 2^63 seconds before it. */
  lemma OwnHeaderWithinSkew(env: AuthEnv, buckets: Buckets, visible: Visibility, name: string, httpMethod: string,
                            path: string, query: Query, timestamp: int)
    requires UniqueKeys(buckets) && MatchBucketPath(path) == Some(name) && name in buckets
    requires GoodAccessKey(buckets[name].accessKey) && Lookup(query, "AccessKey").None?
    requires MIN_INT64 <= timestamp <= MAX_INT64 && 0 <= env.now < 0x4000_0000_0000_0000
    requires 0 <= env.clockSkew <= 0x4000_0000_0000_0000
    ensures
      var req := Signed(env.mac, buckets[name], httpMethod, path, query, timestamp);
      !PublicRead(buckets, visible, req) ==>
        (BucketAuth(env, buckets, visible, req).Forward? <==>
           -env.clockSkew <= env.now - timestamp <= env.clockSkew || env.now - timestamp == -MIN_INT64)
  {
    hide Signed, BucketAuth, MatchBucketPath, PublicRead, SkewOf, Lookup;
    SignedRequestIsFiltered(env, buckets, visible, name, buckets[name], httpMethod, path, query, timestamp);
    SkewIs(env.now, timestamp, env.clockSkew);
  }

  /** The one timestamp on which the 64-bit distance wraps: 2^63 seconds before now, far outside any skew, and a
      request signed for it passes the filter. */
  lemma WrappedSkewPasses(env: AuthEnv, buckets: Buckets, visible: Visibility, name: string, httpMethod: string,
                          path: string, query: Query)
    requires UniqueKeys(buckets) && MatchBucketPath(path) == Some(name) && name in buckets
    requires GoodAccessKey(buckets[name].accessKey) && Lookup(query, "AccessKey").None?
    requires 0 <= env.now < 0x4000_0000_0000_0000 && 0 <= env.clockSkew <= 0x4000_0000_0000_0000
    ensures var timestamp := env.now - 0x8000_0000_0000_0000;
            && env.now - timestamp > env.clockSkew
            && BucketAuth(env, buckets, visible,
                          Signed(env.mac, buckets[name], httpMethod, path, query, timestamp)).Forward?
  {
    hide Signed, BucketAuth, MatchBucketPath, PublicRead, Lookup, SkewOf;
    var timestamp := env.now - 0x8000_0000_0000_0000;
    SkewIs(env.now, timestamp, env.clockSkew);
    SignedRequestIsFiltered(env, buckets, visible, name, buckets[name], httpMethod, path, query, timestamp);
  }
}
