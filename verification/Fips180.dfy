/** SHA-256 and HMAC as the standards define them: FIPS 180-4, sections 4 to 6, and RFC 2104, section 2. */
module Fips180 {
  import opened ObjectState
  import opened Words

  // ---- functions of section 4.1.2 ----

  function Ch(x: Word, y: Word, z: Word): Word { Xor(And(x, y), And(Not(x), z)) }

  function Maj(x: Word, y: Word, z: Word): Word { Xor(Xor(And(x, y), And(x, z)), And(y, z)) }

  function BigSigma0(x: Word): Word { Xor(Xor(Rotr(x, 2), Rotr(x, 13)), Rotr(x, 22)) }

  function BigSigma1(x: Word): Word { Xor(Xor(Rotr(x, 6), Rotr(x, 11)), Rotr(x, 25)) }

  function SmallSigma0(x: Word): Word { Xor(Xor(Rotr(x, 7), Rotr(x, 18)), Shr(x, 3)) }

  function SmallSigma1(x: Word): Word { Xor(Xor(Rotr(x, 17), Rotr(x, 19)), Shr(x, 10)) }

  // ---- constants of sections 4.2.2 and 5.3.3 ----

  /** Constants of rounds `8 * i` to `8 * i + 7`. */
  function ConstantRow(i: nat): (row: seq<Word>)
    requires i < 8
    ensures |row| == 8
  {
    if i == 0 then [0x428a2f98, 0x71374491, 0xb5c0fbcf, 0xe9b5dba5, 0x3956c25b, 0x59f111f1, 0x923f82a4, 0xab1c5ed5]
    else if i == 1 then [0xd807aa98, 0x12835b01, 0x243185be, 0x550c7dc3, 0x72be5d74, 0x80deb1fe, 0x9bdc06a7, 0xc19bf174]
    else if i == 2 then [0xe49b69c1, 0xefbe4786, 0x0fc19dc6, 0x240ca1cc, 0x2de92c6f, 0x4a7484aa, 0x5cb0a9dc, 0x76f988da]
    else if i == 3 then [0x983e5152, 0xa831c66d, 0xb00327c8, 0xbf597fc7, 0xc6e00bf3, 0xd5a79147, 0x06ca6351, 0x14292967]
    else if i == 4 then [0x27b70a85, 0x2e1b2138, 0x4d2c6dfc, 0x53380d13, 0x650a7354, 0x766a0abb, 0x81c2c92e, 0x92722c85]
    else if i == 5 then [0xa2bfe8a1, 0xa81a664b, 0xc24b8b70, 0xc76c51a3, 0xd192e819, 0xd6990624, 0xf40e3585, 0x106aa070]
    else if i == 6 then [0x19a4c116, 0x1e376c08, 0x2748774c, 0x34b0bcb5, 0x391c0cb3, 0x4ed8aa4a, 0x5b9cca4f, 0x682e6ff3]
    else [0x748f82ee, 0x78a5636f, 0x84c87814, 0x8cc70208, 0x90befffa, 0xa4506ceb, 0xbef9a3f7, 0xc67178f2]
  }

  function RoundConstant(t: nat): Word
    requires t < 64
  {
    ConstantRow(t / 8)[t % 8]
  }

  datatype Vars = Vars(a: Word, b: Word, c: Word, d: Word, e: Word, f: Word, g: Word, h: Word)

  const INITIAL := Vars(0x6a09e667, 0xbb67ae85, 0x3c6ef372, 0xa54ff53a, 0x510e527f, 0x9b05688c, 0x1f83d9ab, 0x5be0cd19)

  // ---- padding, section 5.1.1 ----

  /** Big-endian bytes of a word. */
  function WordBytes(w: Word): (bs: seq<Byte>)
    ensures |bs| == 4
  {
    [w / 256 / 256 / 256, w / 256 / 256 % 256, w / 256 % 256, w % 256]
  }

  function WordAt(bs: seq<Byte>, i: nat): Word
    requires i + 4 <= |bs|
  {
    BigEndian(bs[i], bs[i + 1], bs[i + 2], bs[i + 3])
  }

  function BigEndian(b0: int, b1: int, b2: int, b3: int): Word
    requires 0 <= b0 < 256 && 0 <= b1 < 256 && 0 <= b2 < 256 && 0 <= b3 < 256
  {
    b0 * 0x100_0000 + b1 * 0x1_0000 + b2 * 0x100 + b3
  }

  lemma WordBytesInverse(w: Word)
    ensures WordAt(WordBytes(w), 0) == w
  {
    var q1, q2 := w / 256, w / 256 / 256;
    assert w == 256 * q1 + w % 256 && q1 == 256 * q2 + q1 % 256 && q2 == 256 * (q2 / 256) + q2 % 256;
  }

  const MAX_BYTES := 0x2000_0000_0000_0000

  /** The 64-bit block holding the message length in bits. */
  function LengthBlock(len: nat): (bs: seq<Byte>)
    requires len < MAX_BYTES
    ensures |bs| == 8
  {
    WordBytes(8 * len / TWO32) + WordBytes(8 * len % TWO32)
  }

  /** The number of zero bytes after the marker: the least that leaves eight bytes to a 64-byte boundary. */
  function ZeroCount(len: nat): nat {
    (55 - len) % 64
  }

  function Zeros(n: nat): (bs: seq<Byte>)
    ensures |bs| == n && forall i :: 0 <= i < n ==> bs[i] == 0
  {
    seq(n, _ => 0)
  }

  function Pad(m: seq<Byte>): seq<Byte>
    requires |m| < MAX_BYTES
  {
    m + [0x80] + Zeros(ZeroCount(|m|)) + LengthBlock(|m|)
  }

  /** The padded length is the least multiple of 64 with room for the marker and the length. */
  lemma PadLength(m: seq<Byte>)
    requires |m| < MAX_BYTES
    ensures |Pad(m)| % 64 == 0 && |m| + 9 <= |Pad(m)| < |m| + 73
    ensures |Pad(m)| == |m| + 9 + ZeroCount(|m|)
  {
    ZerosFit(|m|);
  }

  lemma ZerosFit(len: nat)
    ensures (len + 9 + ZeroCount(len)) % 64 == 0
  {
    var q := (55 - len) / 64;
    assert 55 - len == 64 * q + ZeroCount(len);
    assert len + 9 + ZeroCount(len) == 64 * (1 - q);
  }

  lemma LengthBlockInjective(n: nat, k: nat)
    requires n < MAX_BYTES && k < MAX_BYTES && LengthBlock(n) == LengthBlock(k)
    ensures n == k
  {
    LengthBlockValue(n);
    LengthBlockValue(k);
  }

  /** The block decodes, big-endian, to the length in bits. */
  lemma LengthBlockValue(n: nat)
    requires n < MAX_BYTES
    ensures WordAt(LengthBlock(n), 0) * TWO32 + WordAt(LengthBlock(n), 4) == 8 * n
  {
    var hi, lo := 8 * n / TWO32, 8 * n % TWO32;
    WordBytesInverse(hi);
    WordBytesInverse(lo);
    assert WordAt(LengthBlock(n), 0) == WordAt(WordBytes(hi), 0);
    assert WordAt(LengthBlock(n), 4) == WordAt(WordBytes(lo), 0);
  }

  /** Two messages with the same padding are the same message. */
  lemma PadInjective(m: seq<Byte>, n: seq<Byte>)
    requires |m| < MAX_BYTES && |n| < MAX_BYTES && Pad(m) == Pad(n)
    ensures m == n
  {
    var p := Pad(m);
    assert p[|p| - 8..] == LengthBlock(|m|);
    assert p[|p| - 8..] == LengthBlock(|n|);
    LengthBlockInjective(|m|, |n|);
    assert p[..|m|] == m && p[..|n|] == n;
  }

  // ---- computation, section 6.2.2 ----

  /** Word `t` of the message schedule of a 64-byte block starting at `off`. */
  function Schedule(bs: seq<Byte>, off: nat, t: nat): Word
    requires off + 64 <= |bs| && t < 64
  {
    if t < 16 then WordAt(bs, off + 4 * t)
    else Add(Add(Add(Schedule(bs, off, t - 16), SmallSigma0(Schedule(bs, off, t - 15))), Schedule(bs, off, t - 7)),
             SmallSigma1(Schedule(bs, off, t - 2)))
  }

  /** One round: T1 and T2, and the eight working variables moved along. */
  function Round(v: Vars, k: Word, w: Word): Vars {
    var t1 := Add(Add(Add(Add(v.h, BigSigma1(v.e)), Ch(v.e, v.f, v.g)), k), w);
    var t2 := Add(BigSigma0(v.a), Maj(v.a, v.b, v.c));
    Vars(Add(t1, t2), v.a, v.b, v.c, Add(v.d, t1), v.e, v.f, v.g)
  }

  function Rounds(v: Vars, bs: seq<Byte>, off: nat, t: nat): Vars
    requires off + 64 <= |bs| && t <= 64
  {
    if t == 0 then v else Round(Rounds(v, bs, off, t - 1), RoundConstant(t - 1), Schedule(bs, off, t - 1))
  }

  lemma NoBlocks(bs: seq<Byte>)
    ensures HashBlocks(bs, 0) == INITIAL
  {
  }

  function AddVars(v: Vars, w: Vars): Vars {
    Vars(Add(v.a, w.a), Add(v.b, w.b), Add(v.c, w.c), Add(v.d, w.d),
         Add(v.e, w.e), Add(v.f, w.f), Add(v.g, w.g), Add(v.h, w.h))
  }

  /** The hash value after the first `n` blocks. */
  function HashBlocks(bs: seq<Byte>, n: nat): Vars
    requires 64 * n <= |bs|
  {
    if n == 0 then INITIAL
    else
      var v := HashBlocks(bs, n - 1);
      AddVars(v, Rounds(v, bs, 64 * (n - 1), 64))
  }

  function WordsOf(v: Vars): seq<Word> {
    [v.a, v.b, v.c, v.d, v.e, v.f, v.g, v.h]
  }

  function ConcatWords(ws: seq<Word>): (bs: seq<Byte>)
    ensures |bs| == 4 * |ws|
  {
    if ws == [] then [] else ConcatWords(ws[..|ws| - 1]) + WordBytes(ws[|ws| - 1])
  }

  function DigestBytes(v: Vars): (bs: seq<Byte>)
    ensures |bs| == 32
  {
    ConcatWords(WordsOf(v))
  }

  function Sha256(m: seq<Byte>): (digest: seq<Byte>)
    requires |m| < MAX_BYTES
    ensures |digest| == 32
  {
    PadLength(m);
    DigestBytes(HashBlocks(Pad(m), |Pad(m)| / 64))
  }

  // ---- HMAC, section 2 of RFC 2104 ----

  /** The key brought to 64 bytes: hashed when longer, then filled with zeros. */
  function BlockKey(key: seq<Byte>): (k: seq<Byte>)
    requires |key| < MAX_BYTES
    ensures |k| == 64
  {
    var short := if |key| > 64 then Sha256(key) else key;
    short + Zeros(64 - |short|)
  }

  function XorByte(a: Byte, b: Byte): Byte {
    assert Pow2(8) == 256;
    BitwiseBelow(XorOp, a, b, 32, 8);
    Xor(a, b)
  }

  function XorAll(k: seq<Byte>, pad: Byte): (bs: seq<Byte>)
    ensures |bs| == |k|
  {
    seq(|k|, i requires 0 <= i < |k| => XorByte(k[i], pad))
  }

  function Hmac(key: seq<Byte>, text: seq<Byte>): (mac: seq<Byte>)
    requires |key| < MAX_BYTES && |text| + 64 < MAX_BYTES
    ensures |mac| == 32
  {
    var k := BlockKey(key);
    Sha256(XorAll(k, 0x5c) + Sha256(XorAll(k, 0x36) + text))
  }
}
