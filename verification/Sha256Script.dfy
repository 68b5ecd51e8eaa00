/** The console script's SHA-256 and HMAC, over typed arrays and JavaScript numbers. */
module Sha256Script {
  import opened Wrappers
  import opened ObjectState
  import opened Words
  import opened Fips180

  /** Every number a round variable takes: an unsigned word on entry, a signed one after `| 0`. */
  type WordNumber = x: int | -TWO31 <= x < TWO32

  datatype JsError = RangeError

  // ---- the script's expressions, and the words they stand for ----

  function JsSmallSigma0(x: int): Int32 { JsXor(JsXor(JsRotr(x, 7), JsRotr(x, 18)), JsShrUnsigned(x, 3)) }

  function JsSmallSigma1(x: int): Int32 { JsXor(JsXor(JsRotr(x, 17), JsRotr(x, 19)), JsShrUnsigned(x, 10)) }

  function JsBigSigma0(x: int): Int32 { JsXor(JsXor(JsRotr(x, 2), JsRotr(x, 13)), JsRotr(x, 22)) }

  function JsBigSigma1(x: int): Int32 { JsXor(JsXor(JsRotr(x, 6), JsRotr(x, 11)), JsRotr(x, 25)) }

  function JsCh(e: int, f: int, g: int): Int32 { JsXor(JsAnd(e, f), JsAnd(JsNot(e), g)) }

  function JsMaj(a: int, b: int, c: int): Int32 { JsXor(JsXor(JsAnd(a, b), JsAnd(a, c)), JsAnd(b, c)) }

  lemma JsXor3Is(x: int, y: int, z: int)
    ensures ToUint32(JsXor(JsXor(x, y), z)) == Xor(Xor(ToUint32(x), ToUint32(y)), ToUint32(z))
  {
    JsXorIs(x, y);
    JsXorIs(JsXor(x, y), z);
  }

  lemma SmallSigmasAre(x: int)
    ensures ToUint32(JsSmallSigma0(x)) == SmallSigma0(ToUint32(x))
    ensures ToUint32(JsSmallSigma1(x)) == SmallSigma1(ToUint32(x))
  {
    JsRotrIs(x, 7);
    JsRotrIs(x, 18);
    JsRotrIs(x, 17);
    JsRotrIs(x, 19);
    WordIsItself(JsShrUnsigned(x, 3));
    WordIsItself(JsShrUnsigned(x, 10));
    JsXor3Is(JsRotr(x, 7), JsRotr(x, 18), JsShrUnsigned(x, 3));
    JsXor3Is(JsRotr(x, 17), JsRotr(x, 19), JsShrUnsigned(x, 10));
  }

  lemma BigSigmasAre(x: int)
    ensures ToUint32(JsBigSigma0(x)) == BigSigma0(ToUint32(x))
    ensures ToUint32(JsBigSigma1(x)) == BigSigma1(ToUint32(x))
  {
    JsRotrIs(x, 2);
    JsRotrIs(x, 13);
    JsRotrIs(x, 22);
    JsRotrIs(x, 6);
    JsRotrIs(x, 11);
    JsRotrIs(x, 25);
    JsXor3Is(JsRotr(x, 2), JsRotr(x, 13), JsRotr(x, 22));
    JsXor3Is(JsRotr(x, 6), JsRotr(x, 11), JsRotr(x, 25));
  }

  lemma ChIs(e: int, f: int, g: int)
    ensures ToUint32(JsCh(e, f, g)) == Ch(ToUint32(e), ToUint32(f), ToUint32(g))
  {
    JsAndIs(e, f);
    JsNotIs(e);
    JsAndIs(JsNot(e), g);
    JsXorIs(JsAnd(e, f), JsAnd(JsNot(e), g));
  }

  lemma MajIs(a: int, b: int, c: int)
    ensures ToUint32(JsMaj(a, b, c)) == Maj(ToUint32(a), ToUint32(b), ToUint32(c))
  {
    JsAndIs(a, b);
    JsAndIs(a, c);
    JsAndIs(b, c);
    JsXor3Is(JsAnd(a, b), JsAnd(a, c), JsAnd(b, c));
  }

  /** The sum of four numbers, left to right: exact, and congruent to the standard's word sums. */
  lemma Sum4Is(x: int, y: int, z: int, w: int)
    ensures ToUint32(x + y + z + w) == Add(Add(Add(ToUint32(x), ToUint32(y)), ToUint32(z)), ToUint32(w))
  {
    SumIs(x, y);
    SumIs(x + y, z);
    SumIs(x + y + z, w);
  }

  lemma Sum5Is(x: int, y: int, z: int, w: int, v: int)
    ensures ToUint32(x + y + z + w + v)
            == Add(Add(Add(Add(ToUint32(x), ToUint32(y)), ToUint32(z)), ToUint32(w)), ToUint32(v))
  {
    Sum4Is(x, y, z, w);
    SumIs(x + y + z + w, v);
  }

  // ---- message schedule ----

  /** Fills `W` from the 64-byte block of the padded bytes at `off`. */
  method FillSchedule(bs: seq<Byte>, off: nat, W: array<Word>)
    requires off + 64 <= |bs| && W.Length == 64
    modifies W
    ensures forall t :: 0 <= t < 64 ==> W[t] == Schedule(bs, off, t)
  {
    for i := 0 to 16
      invariant forall t :: 0 <= t < i ==> W[t] == Schedule(bs, off, t)
    {
      W[i] := WordAt(bs, off + i * 4);
    }
    for i := 16 to 64
      invariant forall t :: 0 <= t < i ==> W[t] == Schedule(bs, off, t)
    {
      W[i] := NextWord(W[i - 16], W[i - 15], W[i - 7], W[i - 2]);
      ScheduleStep(W[i - 16], W[i - 15], W[i - 7], W[i - 2]);
    }
  }

  /** `W[i - 16] + s0 + W[i - 7] + s1`, stored into a Uint32Array. */
  function NextWord(w16: Word, w15: Word, w7: Word, w2: Word): Word {
    ToUint32(Plus(Plus(Plus(w16, JsSmallSigma0(w15)), w7), JsSmallSigma1(w2)))
  }

  lemma ScheduleSum(w16: Word, s0: Int32, w7: Word, s1: Int32)
    ensures ToUint32(w16 + s0 + w7 + s1) == Add(Add(Add(w16, ToUint32(s0)), w7), ToUint32(s1))
  {
    Sum4Is(w16, s0, w7, s1);
    WordIsItself(w16);
    WordIsItself(w7);
  }

  lemma ScheduleStep(w16: Word, w15: Word, w7: Word, w2: Word)
    ensures NextWord(w16, w15, w7, w2) == Add(Add(Add(w16, SmallSigma0(w15)), w7), SmallSigma1(w2))
  {
    hide JsSmallSigma0, JsSmallSigma1, SmallSigma0, SmallSigma1, ToUint32, Add;
    SmallSigmasAre(w15);
    SmallSigmasAre(w2);
    WordIsItself(w15);
    WordIsItself(w2);
    ScheduleSum(w16, JsSmallSigma0(w15), w7, JsSmallSigma1(w2));
  }

  // ---- rounds ----

  function VarsOf(a: int, b: int, c: int, d: int, e: int, f: int, g: int, h: int): Vars {
    Vars(ToUint32(a), ToUint32(b), ToUint32(c), ToUint32(d), ToUint32(e), ToUint32(f), ToUint32(g), ToUint32(h))
  }

  function JsT1(e: WordNumber, f: WordNumber, g: WordNumber, h: WordNumber, k: Word, w: Word): Int32 {
    JsOr(Plus(Plus(Plus(Plus(h, JsBigSigma1(e)), JsCh(e, f, g)), k), w), 0)
  }

  function JsT2(a: WordNumber, b: WordNumber, c: WordNumber): Int32 {
    JsOr(Plus(JsBigSigma0(a), JsMaj(a, b, c)), 0)
  }

  lemma T1Sum(h: WordNumber, s: Int32, c: Int32, k: Word, w: Word)
    ensures ToUint32(JsOr(h + s + c + k + w, 0)) == Add(Add(Add(Add(ToUint32(h), ToUint32(s)), ToUint32(c)), k), w)
  {
    Sum5Is(h, s, c, k, w);
    WordIsItself(k);
    WordIsItself(w);
    JsTruncate(h + s + c + k + w);
  }

  lemma T2Sum(s: Int32, m: Int32)
    ensures ToUint32(JsOr(s + m, 0)) == Add(ToUint32(s), ToUint32(m))
  {
    SumIs(s, m);
    JsTruncate(s + m);
  }

  lemma T1Is(e: WordNumber, f: WordNumber, g: WordNumber, h: WordNumber, k: Word, w: Word)
    ensures ToUint32(JsT1(e, f, g, h, k, w))
            == Add(Add(Add(Add(ToUint32(h), BigSigma1(ToUint32(e))), Ch(ToUint32(e), ToUint32(f), ToUint32(g))), k), w)
  {
    hide JsBigSigma1, BigSigma1, JsCh, Ch, ToUint32, Add, JsOr;
    BigSigmasAre(e);
    ChIs(e, f, g);
    T1Sum(h, JsBigSigma1(e), JsCh(e, f, g), k, w);
  }

  lemma T2Is(a: WordNumber, b: WordNumber, c: WordNumber)
    ensures ToUint32(JsT2(a, b, c)) == Add(BigSigma0(ToUint32(a)), Maj(ToUint32(a), ToUint32(b), ToUint32(c)))
  {
    hide JsBigSigma0, BigSigma0, JsMaj, Maj, ToUint32, Add, JsOr;
    BigSigmasAre(a);
    MajIs(a, b, c);
    T2Sum(JsBigSigma0(a), JsMaj(a, b, c));
  }

  lemma TruncatedSumIs(x: WordNumber, y: WordNumber)
    ensures ToUint32(JsOr(Plus(x, y), 0)) == Add(ToUint32(x), ToUint32(y))
  {
    SumIs(x, y);
    JsTruncate(x + y);
  }

  /** One iteration of the script's round loop is one round of the standard. */
  lemma RoundIs(a: WordNumber, b: WordNumber, c: WordNumber, d: WordNumber, e: WordNumber, f: WordNumber,
                g: WordNumber, h: WordNumber, k: Word, w: Word)
    ensures var t1 := JsT1(e, f, g, h, k, w);
            var t2 := JsT2(a, b, c);
            VarsOf(JsOr(Plus(t1, t2), 0), a, b, c, JsOr(Plus(d, t1), 0), e, f, g)
            == Round(VarsOf(a, b, c, d, e, f, g, h), k, w)
  {
    T1Is(e, f, g, h, k, w);
    T2Is(a, b, c);
    TruncatedSumIs(JsT1(e, f, g, h, k, w), JsT2(a, b, c));
    TruncatedSumIs(d, JsT1(e, f, g, h, k, w));
  }

  function HashOf(H: seq<Word>): Vars
    requires |H| == 8
  {
    Vars(H[0], H[1], H[2], H[3], H[4], H[5], H[6], H[7])
  }

  /** `SHA256_K`, the script's own table. */
  function ScriptConstants(): (k: seq<Word>)
    ensures |k| == 64
  {
    [0x428a2f98, 0x71374491, 0xb5c0fbcf, 0xe9b5dba5, 0x3956c25b, 0x59f111f1, 0x923f82a4, 0xab1c5ed5]
    + [0xd807aa98, 0x12835b01, 0x243185be, 0x550c7dc3, 0x72be5d74, 0x80deb1fe, 0x9bdc06a7, 0xc19bf174]
    + [0xe49b69c1, 0xefbe4786, 0x0fc19dc6, 0x240ca1cc, 0x2de92c6f, 0x4a7484aa, 0x5cb0a9dc, 0x76f988da]
    + [0x983e5152, 0xa831c66d, 0xb00327c8, 0xbf597fc7, 0xc6e00bf3, 0xd5a79147, 0x06ca6351, 0x14292967]
    + [0x27b70a85, 0x2e1b2138, 0x4d2c6dfc, 0x53380d13, 0x650a7354, 0x766a0abb, 0x81c2c92e, 0x92722c85]
    + [0xa2bfe8a1, 0xa81a664b, 0xc24b8b70, 0xc76c51a3, 0xd192e819, 0xd6990624, 0xf40e3585, 0x106aa070]
    + [0x19a4c116, 0x1e376c08, 0x2748774c, 0x34b0bcb5, 0x391c0cb3, 0x4ed8aa4a, 0x5b9cca4f, 0x682e6ff3]
    + [0x748f82ee, 0x78a5636f, 0x84c87814, 0x8cc70208, 0x90befffa, 0xa4506ceb, 0xbef9a3f7, 0xc67178f2]
  }

  lemma ScriptRow(r: nat, j: nat)
    requires r < 8 && j < 8
    ensures ScriptConstants()[8 * r + j] == ConstantRow(r)[j]
  {
  }

  /** Entry for entry the table of section 4.2.2 of FIPS 180-4. */
  lemma ScriptConstantsAre(t: nat)
    requires t < 64
    ensures ScriptConstants()[t] == RoundConstant(t)
  {
    hide ScriptConstants, ConstantRow;
    ScriptRow(t / 8, t % 8);
  }

  /** The working variables start as the hash value so far. */
  lemma RoundsStart(H: seq<Word>, bs: seq<Byte>, off: nat)
    requires |H| == 8 && off + 64 <= |bs|
    ensures VarsOf(H[0], H[1], H[2], H[3], H[4], H[5], H[6], H[7]) == Rounds(HashOf(H), bs, off, 0)
  {
    hide ToUint32;
    forall i | 0 <= i < 8
      ensures ToUint32(H[i]) == H[i]
    {
      WordIsItself(H[i]);
    }
  }

  /** The 64 rounds over one block, and the addition into `H`. */
  method Compress(H: array<Word>, W: array<Word>, ghost bs: seq<Byte>, ghost off: nat)
    requires H.Length == 8 && W.Length == 64 && H != W && off + 64 <= |bs|
    requires forall t :: 0 <= t < 64 ==> W[t] == Schedule(bs, off, t)
    modifies H
    ensures HashOf(H[..]) == AddVars(old(HashOf(H[..])), Rounds(old(HashOf(H[..])), bs, off, 64))
  {
    hide ScriptConstants, RoundConstant, Round, JsT1, JsT2, JsOr, Plus, ToUint32, Add, VarsOf, Schedule;
    var a: WordNumber, b: WordNumber, c: WordNumber, d: WordNumber := H[0], H[1], H[2], H[3];
    var e: WordNumber, f: WordNumber, g: WordNumber, h: WordNumber := H[4], H[5], H[6], H[7];
    ghost var start := HashOf(H[..]);
    RoundsStart(H[..], bs, off);
    for i := 0 to 64
      invariant VarsOf(a, b, c, d, e, f, g, h) == Rounds(start, bs, off, i)
      invariant H[..] == old(H[..])
    {
      ScriptConstantsAre(i);
      RoundIs(a, b, c, d, e, f, g, h, ScriptConstants()[i], W[i]);
      var t1 := JsT1(e, f, g, h, ScriptConstants()[i], W[i]);
      var t2 := JsT2(a, b, c);
      h := g;
      g := f;
      f := e;
      e := JsOr(Plus(d, t1), 0);
      d := c;
      c := b;
      b := a;
      a := JsOr(Plus(t1, t2), 0);
    }
    AddState(H, a, b, c, d, e, f, g, h);
  }

  /** The eight `+=` at the end of a block. */
  method AddState(H: array<Word>, a: WordNumber, b: WordNumber, c: WordNumber, d: WordNumber, e: WordNumber,
                  f: WordNumber, g: WordNumber, h: WordNumber)
    requires H.Length == 8
    modifies H
    ensures HashOf(H[..]) == AddVars(old(HashOf(H[..])), VarsOf(a, b, c, d, e, f, g, h))
  {
    AddInto(H, 0, a);
    AddInto(H, 1, b);
    AddInto(H, 2, c);
    AddInto(H, 3, d);
    AddInto(H, 4, e);
    AddInto(H, 5, f);
    AddInto(H, 6, g);
    AddInto(H, 7, h);
  }

  /** `H[i] += x` on a Uint32Array. */
  method AddInto(H: array<Word>, i: nat, x: WordNumber)
    requires i < H.Length
    modifies H
    ensures H[..] == old(H[..])[i := Add(old(H[i]), ToUint32(x))]
  {
    hide ToUint32, Add;
    SumIs(H[i], x);
    WordIsItself(H[i]);
    H[i] := ToUint32(Plus(H[i], x));
  }

  // ---- padding ----

  /** `((len + 9 + 63) >> 6) << 6` */
  function PaddedLength(len: nat): Int32 {
    JsShl(JsShr(len + 9 + 63, 6), 6)
  }

  lemma Pow6()
    ensures Pow2(6) == 64 && Pow2(3) == 8 && Pow2(0) == 1
  {
  }

  /** The script's buffer has the padded length as long as its 32-bit shifts do not overflow; from there
      on it is negative or shorter than the message, and creating or filling it throws. */
  lemma PaddedLengthIs(len: nat)
    ensures len + 72 < TWO31 ==> PaddedLength(len) == len + 9 + ZeroCount(len)
    ensures len + 72 >= TWO31 ==> PaddedLength(len) < 0 || PaddedLength(len) < len
  {
    Int32Range(len + 72);
    var x := ToInt32(len + 72);
    RoundedDown(len, x);
    if len + 72 < TWO31 { LeastMultiple(len); }
  }

  lemma Int32Range(x: nat)
    ensures x < TWO31 ==> ToInt32(x) == x
    ensures x >= TWO31 ==> ToInt32(x) < 0 || ToInt32(x) <= x - TWO32
  {
    assert x == TWO32 * (x / TWO32) + x % TWO32;
  }

  lemma RoundedDown(len: nat, x: Int32)
    requires x == ToInt32(len + 72)
    ensures PaddedLength(len) == 64 * (x / 64)
    ensures x - 64 < 64 * (x / 64) <= x
  {
    Pow6();
    ShiftBack(x / 64);
  }

  lemma LeastMultiple(len: nat)
    ensures 64 * ((len + 72) / 64) == len + 9 + ZeroCount(len)
  {
    ZerosFit(len);
    var k := (len + 9 + ZeroCount(len)) / 64;
    assert 64 * k == len + 9 + ZeroCount(len) && 64 * k <= len + 72 < 64 * k + 64;
  }

  lemma ShiftBack(q: int)
    requires -TWO31 <= 64 * q < TWO31
    ensures JsShl(q, 6) == 64 * q
  {
    Pow6();
    assert ToUint32(q) == if q < 0 then q + TWO32 else q;
    assert (ToUint32(q) * 64) % TWO32 == (64 * q) % TWO32;
  }

  lemma LengthWordsAre(len: nat)
    requires len < TWO31
    ensures WordBytes(ToUint32(len / 0x2000_0000)) + WordBytes(JsShrUnsigned(JsShl(len, 3), 0)) == LengthBlock(len)
  {
    HighWordIs(len);
    LowWordIs(len);
  }

  lemma HighWordIs(len: nat)
    requires len < TWO31
    ensures ToUint32(len / 0x2000_0000) == 8 * len / TWO32
  {
  }

  lemma LowWordIs(len: nat)
    requires len < TWO31
    ensures JsShrUnsigned(JsShl(len, 3), 0) == 8 * len % TWO32
  {
    Pow6();
    assert ToUint32(len) == len;
    SignedIsSame(Shl(len, 3));
  }

  /** `dv.setUint32(at, w)` */
  method SetUint32(buffer: array<Byte>, at: nat, w: Word)
    requires at + 4 <= buffer.Length
    modifies buffer
    ensures buffer[..] == old(buffer[..at]) + WordBytes(w) + old(buffer[at + 4..])
  {
    var bs := WordBytes(w);
    buffer[at], buffer[at + 1], buffer[at + 2], buffer[at + 3] := bs[0], bs[1], bs[2], bs[3];
  }

  /** The padded buffer, or the RangeError that creating or filling it throws. */
  method PadBuffer(bytes: seq<Byte>) returns (padded: Option<array<Byte>>)
    ensures padded.Some? <==> |bytes| + 72 < TWO31
    ensures padded.Some? ==> fresh(padded.value) && padded.value[..] == Pad(bytes)
  {
    var len := |bytes|;
    var size := PaddedLength(len);
    PaddedLengthIs(len);
    if size < 0 { return None; }
    if size < len { return None; }
    var buffer := new Byte[size](_ => 0);
    SetBytes(buffer, 0, bytes);
    buffer[len] := 0x80;
    assert buffer[..] == bytes + [0x80] + Zeros(size - len - 1);
    SetUint32(buffer, size - 8, ToUint32(len / 0x2000_0000));
    SetUint32(buffer, size - 4, JsShrUnsigned(JsShl(len, 3), 0));
    LengthWordsAre(len);
    PadTail(bytes, buffer[..], ToUint32(len / 0x2000_0000), JsShrUnsigned(JsShl(len, 3), 0));
    padded := Some(buffer);
  }

  /** `target.set(source, at)` when the source fits. */
  method SetBytes(target: array<Byte>, at: nat, source: seq<Byte>)
    requires at + |source| <= target.Length
    modifies target
    ensures target[..] == old(target[..at]) + source + old(target[at + |source|..])
  {
    for i := 0 to |source|
      invariant target[..] == old(target[..at]) + source[..i] + old(target[at + i..])
    {
      target[at + i] := source[i];
    }
    assert source[..|source|] == source;
  }

  lemma PadTail(bytes: seq<Byte>, buffer: seq<Byte>, hi: Word, lo: Word)
    requires |bytes| + 72 < TWO31 && WordBytes(hi) + WordBytes(lo) == LengthBlock(|bytes|)
    requires |buffer| == |bytes| + 9 + ZeroCount(|bytes|)
    requires buffer == bytes + [0x80] + Zeros(ZeroCount(|bytes|)) + WordBytes(hi) + WordBytes(lo)
    ensures buffer == Pad(bytes)
  {
    assert buffer == bytes + [0x80] + Zeros(ZeroCount(|bytes|)) + (WordBytes(hi) + WordBytes(lo));
  }

  // ---- the two hashes ----

  /** `sha256(bytes)`: the FIPS 180-4 digest for every message short enough for 32-bit shifts, and a
      RangeError for every other. */
  method Sha256Of(bytes: seq<Byte>) returns (r: Result<seq<Byte>, JsError>)
    ensures r.Success? <==> |bytes| + 72 < TWO31
    ensures r.Success? ==> r.value == Sha256(bytes)
  {
    var buffer := PadBuffer(bytes);
    if buffer.None? { return Failure(RangeError); }
    PadLength(bytes);
    var H := InitialHash();
    HashPadded(buffer.value[..], H, |Pad(bytes)| / 64);
    var digest := WriteDigest(H);
    r := Success(digest);
  }

  /** The loop over 64-byte blocks of the padded bytes, the hash value starting at its initial words. */
  method HashPadded(bs: seq<Byte>, H: array<Word>, ghost blocks: nat)
    requires |bs| == 64 * blocks && H.Length == 8 && HashOf(H[..]) == INITIAL
    modifies H
    ensures HashOf(H[..]) == HashBlocks(bs, blocks)
  {
    hide *;
    NoBlocks(bs);
    var W := new Word[64];
    var off := 0;
    ghost var n := 0;
    while off < |bs|
      invariant off == 64 * n && off <= |bs|
      invariant HashOf(H[..]) == HashBlocks(bs, n)
    {
      BlockFits(n, blocks, off, |bs|);
      HashBlock(bs, off, n, H, W);
      off, n := off + 64, n + 1;
    }
    LastBlock(n, blocks, off);
  }

  lemma BlockFits(n: nat, blocks: nat, off: nat, len: nat)
    requires off == 64 * n && len == 64 * blocks && off < len
    ensures off + 64 <= len
  {
  }

  lemma LastBlock(n: nat, blocks: nat, off: nat)
    requires off == 64 * n == 64 * blocks
    ensures n == blocks
  {
  }

  method HashBlock(bs: seq<Byte>, off: nat, ghost n: nat, H: array<Word>, W: array<Word>)
    requires off == 64 * n && off + 64 <= |bs|
    requires H.Length == 8 && W.Length == 64 && H != W
    requires HashOf(H[..]) == HashBlocks(bs, n)
    modifies H, W
    ensures HashOf(H[..]) == HashBlocks(bs, n + 1)
  {
    FillSchedule(bs, off, W);
    Compress(H, W, bs, off);
  }

  method InitialHash() returns (H: array<Word>)
    ensures fresh(H) && H.Length == 8 && HashOf(H[..]) == INITIAL
  {
    H := new Word[8];
    H[0], H[1], H[2], H[3] := 0x6a09e667, 0xbb67ae85, 0x3c6ef372, 0xa54ff53a;
    H[4], H[5], H[6], H[7] := 0x510e527f, 0x9b05688c, 0x1f83d9ab, 0x5be0cd19;
  }

  /** `H.forEach((v, i) => odv.setUint32(i * 4, v))` */
  method WriteDigest(H: array<Word>) returns (digest: seq<Byte>)
    requires H.Length == 8
    ensures digest == DigestBytes(HashOf(H[..]))
  {
    var out := new Byte[32](_ => 0);
    for i := 0 to 8
      invariant out[..4 * i] == ConcatWords(H[..i])
    {
      SetUint32(out, i * 4, H[i]);
      ConcatOneMore(H[..i], H[i]);
      assert H[..i + 1] == H[..i] + [H[i]];
      assert out[..4 * (i + 1)] == out[..4 * i] + WordBytes(H[i]);
    }
    assert H[..8] == H[..];
    assert WordsOf(HashOf(H[..])) == H[..];
    digest := out[..];
    assert out[..32] == out[..];
  }

  lemma ConcatOneMore(ws: seq<Word>, w: Word)
    ensures ConcatWords(ws + [w]) == ConcatWords(ws) + WordBytes(w)
  {
    assert (ws + [w])[..|ws|] == ws;
  }

  lemma HmacIs(key: seq<Byte>, short: seq<Byte>, message: seq<Byte>)
    requires |key| < MAX_BYTES && |message| + 64 < MAX_BYTES
    requires short == if |key| > 64 then Sha256(key) else key
    ensures var k := short + Zeros(64 - |short|);
            Hmac(key, message) == Sha256(XorAll(k, 0x5c) + Sha256(XorAll(k, 0x36) + message))
  {
    hide Sha256, XorAll, Zeros;
  }

  /** `hmacSha256(key, message)`: HMAC-SHA-256 whenever the key, if it has to be hashed, and the inner
      message are short enough; a RangeError otherwise. */
  method HmacSha256(key: seq<Byte>, message: seq<Byte>) returns (r: Result<seq<Byte>, JsError>)
    ensures r.Success? <==> (|key| > 64 ==> |key| + 72 < TWO31) && |message| + 136 < TWO31
    ensures r.Success? ==> r.value == Hmac(key, message)
  {
    hide Hmac, Sha256, XorAll, Zeros;
    var short := key;
    if |key| > 64 {
      var hashed := Sha256Of(key);
      if hashed.Failure? { return Failure(RangeError); }
      short := hashed.value;
    }
    r := KeyedHash(short, message);
    if r.Success? { HmacIs(key, short, message); }
  }

  /** Both passes under a key of at most one block. */
  method KeyedHash(short: seq<Byte>, message: seq<Byte>) returns (r: Result<seq<Byte>, JsError>)
    requires |short| <= 64
    ensures r.Success? <==> |message| + 136 < TWO31
    ensures r.Success? ==>
              var k := short + Zeros(64 - |short|);
              r.value == Sha256(XorAll(k, 0x5c) + Sha256(XorAll(k, 0x36) + message))
  {
    var ipad, opad := KeyedPads(short, message);
    var inner := Sha256Of(ipad[..]);
    if inner.Failure? { return Failure(RangeError); }
    AppendDigest(opad, inner.value);
    r := Sha256Of(opad[..]);
  }

  /** `opad.set(digest, 64)` */
  method AppendDigest(opad: array<Byte>, digest: seq<Byte>)
    requires opad.Length == 96 && |digest| == 32
    modifies opad
    ensures opad[..] == old(opad[..64]) + digest
  {
    SetBytes(opad, 64, digest);
  }

  /** The two buffers: the inner one filled, the outer one still waiting for the inner digest. */
  method KeyedPads(short: seq<Byte>, message: seq<Byte>) returns (ipad: array<Byte>, opad: array<Byte>)
    requires |short| <= 64
    ensures fresh(opad) && opad.Length == 96
    ensures ipad[..] == XorAll(short + Zeros(64 - |short|), 0x36) + message
    ensures opad[..64] == XorAll(short + Zeros(64 - |short|), 0x5c)
  {
    ipad := new Byte[64 + |message|](_ => 0);
    opad := new Byte[96](_ => 0);
    FillPads(short, ipad, opad);
    SetBytes(ipad, 64, message);
  }

  /** The loop over `key[i] || 0`. */
  method FillPads(short: seq<Byte>, ipad: array<Byte>, opad: array<Byte>)
    requires |short| <= 64 && ipad.Length >= 64 && opad.Length >= 64 && ipad != opad
    modifies ipad, opad
    ensures ipad[..] == XorAll(short + Zeros(64 - |short|), 0x36) + old(ipad[64..])
    ensures opad[..] == XorAll(short + Zeros(64 - |short|), 0x5c) + old(opad[64..])
  {
    ghost var k := short + Zeros(64 - |short|);
    for i := 0 to 64
      invariant forall j :: 0 <= j < i ==> ipad[j] == XorByte(k[j], 0x36) && opad[j] == XorByte(k[j], 0x5c)
      invariant ipad[64..] == old(ipad[64..]) && opad[64..] == old(opad[64..])
    {
      var b := if i < |short| then short[i] else 0;
      PadByteIs(b, 0x36);
      PadByteIs(b, 0x5c);
      ipad[i] := JsXor(b, 0x36) % 256;
      opad[i] := JsXor(b, 0x5c) % 256;
    }
    assert ipad[..64] == XorAll(k, 0x36) && opad[..64] == XorAll(k, 0x5c);
    assert ipad[..] == ipad[..64] + ipad[64..] && opad[..] == opad[..64] + opad[64..];
  }

  /** Storing `k ^ pad` into a Uint8Array stores the exclusive-or of the two bytes. */
  lemma PadByteIs(b: Byte, pad: Byte)
    ensures JsXor(b, pad) % 256 == XorByte(b, pad)
  {
    WordIsItself(b);
    WordIsItself(pad);
  }
}
