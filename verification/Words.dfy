/** 32-bit words, and the JavaScript number operations that reach them. */
module Words {

  const TWO32 := 0x1_0000_0000
  const TWO31 := 0x8000_0000

  type Word = x: int | 0 <= x < TWO32

  function Pow2(n: nat): nat {
    if n == 0 then 1 else 2 * Pow2(n - 1)
  }

  // ---- word operations (section 3.2 of FIPS 180-4) ----

  datatype BitOp = AndOp | OrOp | XorOp {
    /** The operation on single bits. */
    function Apply(x: bool, y: bool): bool {
      match this
      case AndOp => x && y
      case OrOp => x || y
      case XorOp => x != y
    }
  }

  /** Bit `i`, counted from the least significant. */
  predicate Bit(a: nat, i: nat) {
    if i == 0 then a % 2 == 1 else Bit(a / 2, i - 1)
  }

  /** The operation applied to each of the low `n` bits. */
  function Bitwise(op: BitOp, a: nat, b: nat, n: nat): (r: nat)
    ensures r < Pow2(n)
  {
    if n == 0 then 0
    else (if op.Apply(a % 2 == 1, b % 2 == 1) then 1 else 0) + 2 * Bitwise(op, a / 2, b / 2, n - 1)
  }

  /** Every bit of the result is the operation on the bits of the operands. */
  lemma {:induction false} BitwiseBit(op: BitOp, a: nat, b: nat, n: nat, i: nat)
    requires i < n
    ensures Bit(Bitwise(op, a, b, n), i) == op.Apply(Bit(a, i), Bit(b, i))
  {
    var low := if op.Apply(a % 2 == 1, b % 2 == 1) then 1 else 0;
    LowBit(low, Bitwise(op, a / 2, b / 2, n - 1));
    if i > 0 { BitwiseBit(op, a / 2, b / 2, n - 1, i - 1); }
  }

  lemma LowBit(low: nat, rest: nat)
    requires low < 2
    ensures (low + 2 * rest) % 2 == low && (low + 2 * rest) / 2 == rest
  {
  }

  /** Operands that fit in `m` bits give a result that does. */
  lemma {:induction false} BitwiseBelow(op: BitOp, a: nat, b: nat, n: nat, m: nat)
    requires a < Pow2(m) && b < Pow2(m)
    ensures Bitwise(op, a, b, n) < Pow2(m)
  {
    if n > 0 && m > 0 {
      BitwiseBelow(op, a / 2, b / 2, n - 1, m - 1);
    } else if n > 0 {
      BitwiseZero(op, n);
    }
  }

  lemma {:induction false} BitwiseZero(op: BitOp, n: nat)
    ensures Bitwise(op, 0, 0, n) == 0
  {
    if n > 0 { BitwiseZero(op, n - 1); }
  }

  lemma Pow32()
    ensures Pow2(32) == TWO32
  {
    assert Pow2(8) == 256 && Pow2(16) == 0x1_0000 && Pow2(24) == 0x100_0000;
  }

  function And(a: Word, b: Word): Word { Pow32(); Bitwise(AndOp, a, b, 32) }

  function Or(a: Word, b: Word): Word { Pow32(); Bitwise(OrOp, a, b, 32) }

  function Xor(a: Word, b: Word): Word { Pow32(); Bitwise(XorOp, a, b, 32) }

  function Not(a: Word): Word { TWO32 - 1 - a }

  function Shr(x: Word, n: nat): Word
    requires n < 32
  {
    PowPositive(n);
    ShrBelow(x, Pow2(n));
    x / Pow2(n)
  }

  function Shl(x: Word, n: nat): Word {
    (x * Pow2(n)) % TWO32
  }

  function Rotr(x: Word, n: nat): Word
    requires 0 < n < 32
  {
    Or(Shr(x, n), Shl(x, 32 - n))
  }

  function Add(a: Word, b: Word): Word { (a + b) % TWO32 }

  lemma PowPositive(n: nat)
    ensures Pow2(n) > 0
  {
  }

  lemma ShrBelow(x: Word, d: int)
    requires d > 0
    ensures 0 <= x / d < TWO32
  {
  }

  // ---- JavaScript numbers ----

  const MAX_SAFE := 0x20_0000_0000_0000

  /** Addition of doubles holding integers: exact while the sum stays within 2^53. */
  function Plus(x: int, y: int): int
    requires -MAX_SAFE <= x + y <= MAX_SAFE
  {
    x + y
  }

  /** ToUint32, and what a Uint32Array stores. */
  function ToUint32(x: int): Word { x % TWO32 }

  type Int32 = x: int | -TWO31 <= x < TWO31

  function Signed(w: Word): Int32 {
    if w < TWO31 then w else w - TWO32
  }

  /** ToInt32. */
  function ToInt32(x: int): Int32 { Signed(ToUint32(x)) }

  function JsAnd(a: int, b: int): Int32 { Signed(And(ToUint32(a), ToUint32(b))) }

  function JsXor(a: int, b: int): Int32 { Signed(Xor(ToUint32(a), ToUint32(b))) }

  function JsOr(a: int, b: int): Int32 { Signed(Or(ToUint32(a), ToUint32(b))) }

  function JsNot(a: int): Int32 { Signed(Not(ToUint32(a))) }

  /** `x << n` */
  function JsShl(x: int, n: nat): Int32 { Signed(Shl(ToUint32(x), n)) }

  /** `x >>> n` */
  function JsShrUnsigned(x: int, n: nat): Word
    requires n < 32
  {
    Shr(ToUint32(x), n)
  }

  /** `x >> n` */
  function JsShr(x: int, n: nat): int
    requires n < 32
  {
    PowPositive(n);
    ToInt32(x) / Pow2(n)
  }

  /** The script's own `rotr`. */
  function JsRotr(x: int, n: nat): Int32
    requires 0 < n < 32
  {
    JsOr(JsShrUnsigned(x, n), JsShl(x, 32 - n))
  }

  // ---- signed and unsigned views agree modulo 2^32 ----

  lemma SignedIsSame(w: Word)
    ensures ToUint32(Signed(w)) == w
  {
  }

  lemma WordIsItself(w: Word)
    ensures ToUint32(w) == w
  {
  }

  lemma JsRotrIs(x: int, n: nat)
    requires 0 < n < 32
    ensures ToUint32(JsRotr(x, n)) == Rotr(ToUint32(x), n)
  {
    var w := ToUint32(x);
    WordIsItself(Shr(w, n));
    SignedIsSame(Shl(w, 32 - n));
    SignedIsSame(Or(Shr(w, n), Shl(w, 32 - n)));
  }

  lemma JsXorIs(a: int, b: int)
    ensures ToUint32(JsXor(a, b)) == Xor(ToUint32(a), ToUint32(b))
  {
    SignedIsSame(Xor(ToUint32(a), ToUint32(b)));
  }

  lemma JsAndIs(a: int, b: int)
    ensures ToUint32(JsAnd(a, b)) == And(ToUint32(a), ToUint32(b))
  {
    SignedIsSame(And(ToUint32(a), ToUint32(b)));
  }

  lemma JsNotIs(a: int)
    ensures ToUint32(JsNot(a)) == Not(ToUint32(a))
  {
    SignedIsSame(Not(ToUint32(a)));
  }

  lemma {:induction false} OrNothing(a: nat, n: nat)
    requires a < Pow2(n)
    ensures Bitwise(OrOp, a, 0, n) == a
  {
    if n > 0 { OrNothing(a / 2, n - 1); }
  }

  lemma OrZero(w: Word)
    ensures Or(w, 0) == w
  {
    Pow32();
    OrNothing(w, 32);
  }

  /** `x | 0` is ToInt32. */
  lemma JsTruncate(x: int)
    ensures ToUint32(JsOr(x, 0)) == ToUint32(x)
  {
    OrZero(ToUint32(x));
    SignedIsSame(ToUint32(x));
  }

  lemma SumIs(x: int, y: int)
    ensures ToUint32(x + y) == Add(ToUint32(x), ToUint32(y))
  {
  }
}
