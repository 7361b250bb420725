/** The 32-bit integer semantics of JavaScript's bitwise and shift operators.

    Every operand of `|`, `^`, `&`, `<<` and `>>` is first converted with ToInt32
    (or ToUint32 for `>>>`), the operation is carried out on 32-bit two's complement
    words, and `|`, `^`, `&`, `<<`, `>>` return a signed 32-bit result. Here the
    bitwise operators are computed bit by bit on the unsigned 32-bit images of their
    operands, so nothing is taken on trust from a bit-vector theory. */
module JsInt {

  const TWO31: int := 0x8000_0000
  const TWO32: int := 0x1_0000_0000

  type Int32 = x: int | -TWO31 <= x < TWO31
  type Uint32 = x: int | 0 <= x < TWO32

  function Pow2(k: nat): (p: nat)
    ensures p >= 1
  {
    if k == 0 then 1 else 2 * Pow2(k - 1)
  }

  /** Each further bit doubles the power. */
  lemma {:induction false} Pow2Step(k: nat)
    requires k > 0
    ensures Pow2(k) == 2 * Pow2(k - 1)
    decreases k
  {
    if k > 8 {
      Pow2Step(k - 8);
    }
  }

  lemma {:induction false} Pow2Values()
    ensures Pow2(7) == 0x80 && Pow2(8) == 0x100 && Pow2(16) == 0x1_0000
    ensures Pow2(24) == 0x100_0000 && Pow2(32) == TWO32
  {
  }

  /** ToUint32: the value modulo 2^32, as `x >>> 0` computes it. */
  function ToUint32(x: int): (u: Uint32)
    ensures 0 <= x < TWO32 ==> u == x
  {
    x % TWO32
  }

  /** An unsigned 32-bit word read as a two's complement word. */
  function Signed(u: int): (v: int)
    ensures u < TWO31 ==> v == u
    ensures TWO31 <= u ==> v == u - TWO32
  {
    if u < TWO31 then u else u - TWO32
  }

  /** On an unsigned word, ToInt32 is the two's complement reading. */
  lemma {:induction false} SignedIsToInt32(u: int)
    requires 0 <= u < TWO32
    ensures Signed(u) == ToInt32(u)
  {
  }

  /** ToInt32: the value modulo 2^32, read as a two's complement word, as `x | 0` computes it. */
  function ToInt32(x: int): (v: Int32)
    ensures 0 <= x < TWO31 ==> v == x
    ensures TWO31 <= x < TWO32 ==> v == x - TWO32
  {
    Signed(ToUint32(x))
  }

  lemma {:induction false} ToUint32OfToInt32(x: int)
    ensures ToUint32(ToInt32(x)) == ToUint32(x)
  {
  }

  datatype BitOp = Or | Xor | And

  /** One bit of `op` applied to the bits `x` and `y`. */
  function Gate(op: BitOp, x: nat, y: nat): (r: nat)
    requires x < 2 && y < 2
    ensures r < 2
  {
    match op
    case Or => if x == 1 || y == 1 then 1 else 0
    case Xor => if x != y then 1 else 0
    case And => if x == 1 && y == 1 then 1 else 0
  }

  /** `op` applied to the lowest `width` bits of `a` and `b`, least significant bit first. */
  function Bitwise(op: BitOp, a: nat, b: nat, width: nat): nat
    decreases width
  {
    if width == 0 then 0
    else Gate(op, a % 2, b % 2) + 2 * Bitwise(op, a / 2, b / 2, width - 1)
  }

  /** The result is a word of `width` bits. */
  lemma {:induction false} BitwiseBound(op: BitOp, a: nat, b: nat, width: nat)
    ensures Bitwise(op, a, b, width) < Pow2(width)
    decreases width
  {
    if width > 0 {
      Pow2Step(width);
      BitwiseBound(op, a / 2, b / 2, width - 1);
    }
  }

  /** A bitwise operator on 32-bit words yields an unsigned 32-bit word. */
  lemma {:induction false} Bitwise32(op: BitOp, a: nat, b: nat)
    ensures Bitwise(op, a, b, 32) < TWO32
  {
    BitwiseBound(op, a, b, 32);
    Pow2Values();
  }

  /** `a | b`. */
  function BitOr(a: int, b: int): Int32 {
    Bitwise32(Or, ToUint32(a), ToUint32(b));
    Signed(Bitwise(Or, ToUint32(a), ToUint32(b), 32))
  }

  /** `a ^ b`. */
  function BitXor(a: int, b: int): Int32 {
    Bitwise32(Xor, ToUint32(a), ToUint32(b));
    Signed(Bitwise(Xor, ToUint32(a), ToUint32(b), 32))
  }

  /** `a & b`. */
  function BitAnd(a: int, b: int): Int32 {
    Bitwise32(And, ToUint32(a), ToUint32(b));
    Signed(Bitwise(And, ToUint32(a), ToUint32(b), 32))
  }

  /** `a << k` for a shift count below 32. */
  function ShiftLeft(a: int, k: nat): Int32
    requires k < 32
  {
    ToInt32(ToUint32(a) * Pow2(k))
  }

  /** `a >> k` (sign-propagating) for a shift count below 32: floor division of the
      signed word by 2^k. */
  function ShiftRight(a: int, k: nat): int
    requires k < 32
  {
    ToInt32(a) / Pow2(k)
  }

  // ---------------------------------------------------------------------------
  // Facts about Bitwise, each proved by induction on the bit position.

  /** Halving a value that is `lo` plus an even part. */
  lemma {:induction false} Halve(lo: int, x: int)
    ensures (lo + 2 * x) % 2 == lo % 2
    ensures (lo + 2 * x) / 2 == lo / 2 + x
  {
  }

  lemma {:induction false} BitwiseCommutes(op: BitOp, a: nat, b: nat, width: nat)
    ensures Bitwise(op, a, b, width) == Bitwise(op, b, a, width)
    decreases width
  {
    if width > 0 {
      BitwiseCommutes(op, a / 2, b / 2, width - 1);
    }
  }

  /** `a | 0` and `a ^ 0` leave a value of `width` bits unchanged. */
  lemma {:induction false} BitwiseZeroRight(op: BitOp, a: nat, width: nat)
    requires op != And
    requires a < Pow2(width)
    ensures Bitwise(op, a, 0, width) == a
    decreases width
  {
    if width > 0 {
      Pow2Step(width);
      BitwiseZeroRight(op, a / 2, width - 1);
    }
  }

  /** `a & 0` is zero. */
  lemma {:induction false} BitwiseAndZero(a: nat, width: nat)
    ensures Bitwise(And, a, 0, width) == 0
    decreases width
  {
    if width > 0 {
      BitwiseAndZero(a / 2, width - 1);
    }
  }

  /** `|` of a value below 2^k and a multiple of 2^k is their sum: the set bits do not overlap. */
  lemma {:induction false} OrDisjoint(lo: nat, hi: nat, k: nat, width: nat)
    requires k <= width
    requires lo < Pow2(k)
    requires lo + Pow2(k) * hi < Pow2(width)
    ensures Bitwise(Or, lo, Pow2(k) * hi, width) == lo + Pow2(k) * hi
    decreases k
  {
    if k == 0 {
      BitwiseCommutes(Or, 0, hi, width);
      BitwiseZeroRight(Or, hi, width);
    } else {
      var p := Pow2(k - 1);
      Pow2Step(k);
      Pow2Step(width);
      assert Pow2(k) * hi == 2 * (p * hi);
      Halve(lo, p * hi);
      Halve(0, p * hi);
      OrDisjoint(lo / 2, hi, k - 1, width - 1);
    }
  }

  /** Doubling a factor doubles the product. */
  lemma {:induction false} MulDouble(p: int, y: int)
    ensures (2 * p) * y == 2 * (p * y)
  {
  }

  /** One step of Bitwise: the lowest bit, then the rest shifted down. */
  lemma {:induction false} BitwiseStep(op: BitOp, a: nat, b: nat, width: nat)
    requires width > 0
    ensures Bitwise(op, a, b, width)
         == Gate(op, a % 2, b % 2) + 2 * Bitwise(op, a / 2, b / 2, width - 1)
  {
  }

  /** The arithmetic of one step down for an operand `lo + 2p * y`: its low bit is that
      of `lo`, halving it halves `lo` and leaves `p * y`, and putting a low bit back in
      front of `lo / 2 + p * z` gives `lo + 2p * z`. */
  lemma {:induction false} HalveAround(lo: int, p: int, y: int, z: int)
    ensures (lo + (2 * p) * y) % 2 == lo % 2
    ensures (lo + (2 * p) * y) / 2 == lo / 2 + p * y
    ensures lo % 2 + 2 * (lo / 2 + p * z) == lo + (2 * p) * z
  {
    MulDouble(p, y);
    MulDouble(p, z);
    Halve(lo, p * y);
  }

  /** `^ 1` flips bit 0. */
  lemma {:induction false} XorOne(bit: nat, hi: nat, width: nat)
    requires 0 < width && bit < 2 && bit + 2 * hi < Pow2(width)
    ensures Bitwise(Xor, bit + 2 * hi, 1, width) == (1 - bit) + 2 * hi
  {
    assert Pow2(width) == 2 * Pow2(width - 1);
    BitwiseStep(Xor, bit + 2 * hi, 1, width);
    Halve(bit, hi);
    BitwiseZeroRight(Xor, hi, width - 1);
  }

  /** `^ 2^k` flips bit k and leaves every other bit alone. */
  lemma {:induction false} XorPow2(a: nat, lo: nat, bit: nat, hi: nat, k: nat, width: nat)
    requires k < width && lo < Pow2(k) && bit < 2
    requires a == lo + Pow2(k) * (bit + 2 * hi) < Pow2(width)
    ensures Bitwise(Xor, a, Pow2(k), width) == lo + Pow2(k) * ((1 - bit) + 2 * hi)
    decreases k
  {
    var q := Pow2(k);
    var y, z := bit + 2 * hi, (1 - bit) + 2 * hi;
    if k == 0 {
      assert q == 1 && lo == 0 && a == y;
      XorOne(bit, hi, width);
    } else {
      var p := Pow2(k - 1);
      assert q == 2 * p;
      HalveAround(lo, p, y, z);
      assert a % 2 == lo % 2 && a / 2 == lo / 2 + p * y;
      assert Pow2(width) == 2 * Pow2(width - 1);
      XorPow2(a / 2, lo / 2, bit, hi, k - 1, width - 1);
      BitwiseStep(Xor, a, q, width);
      Halve(0, p);
      assert Gate(Xor, a % 2, q % 2) == lo % 2;
    }
  }

  /** `& 2^k` keeps exactly bit k. */
  lemma {:induction false} AndPow2(a: nat, lo: nat, bit: nat, hi: nat, k: nat, width: nat)
    requires k < width && lo < Pow2(k) && bit < 2
    requires a == lo + Pow2(k) * (bit + 2 * hi) < Pow2(width)
    ensures Bitwise(And, a, Pow2(k), width) == Pow2(k) * bit
    decreases k
  {
    var q := Pow2(k);
    var y := bit + 2 * hi;
    assert Pow2(width) == 2 * Pow2(width - 1);
    BitwiseStep(And, a, q, width);
    if k == 0 {
      assert q == 1 && lo == 0;
      assert a == bit + 2 * hi;
      Halve(bit, hi);
      BitwiseAndZero(hi, width - 1);
      assert Bitwise(And, a, q, width) == Gate(And, bit, 1) + 2 * 0;
    } else {
      var p := Pow2(k - 1);
      assert q == 2 * p;
      MulDouble(p, y);
      MulDouble(p, bit);
      Halve(lo, p * y);
      Halve(0, p);
      assert q % 2 == 0 && q / 2 == p;
      AndPow2(a / 2, lo / 2, bit, hi, k - 1, width - 1);
      assert Bitwise(And, a / 2, p, width - 1) == p * bit;
      assert Gate(And, a % 2, q % 2) == 0;
    }
  }

  /** `& (2^k - 1)` keeps the low k bits. */
  lemma {:induction false} AndLowMask(lo: nat, hi: nat, k: nat, width: nat)
    requires k <= width && lo < Pow2(k)
    requires lo + Pow2(k) * hi < Pow2(width)
    ensures Bitwise(And, lo + Pow2(k) * hi, Pow2(k) - 1, width) == lo
    decreases k
  {
    var q := Pow2(k);
    var a := lo + q * hi;
    if k == 0 {
      BitwiseAndZero(a, width);
    } else {
      var p := Pow2(k - 1);
      Pow2Step(k);
      Pow2Step(width);
      assert q * hi == 2 * (p * hi);
      Halve(lo, p * hi);
      Halve(1, p - 1);
      assert q - 1 == 1 + 2 * (p - 1);
      AndLowMask(lo / 2, hi, k - 1, width - 1);
      assert a / 2 == lo / 2 + p * hi && (q - 1) / 2 == p - 1;
      var rest := Bitwise(And, a / 2, (q - 1) / 2, width - 1);
      assert rest == lo / 2;
      assert Bitwise(And, a, q - 1, width) == Gate(And, a % 2, (q - 1) % 2) + 2 * rest;
      assert Gate(And, a % 2, (q - 1) % 2) == lo % 2;
    }
  }

  // ---------------------------------------------------------------------------
  // The same facts at the level of the JavaScript operators.

  /** `lo | v`, in either operand order, adds when the 32-bit image of `v` is a
      multiple of 2^k and `lo` lies below 2^k: the set bits do not overlap. */
  lemma {:induction false} OrIsSum(lo: int, v: int, hi: nat, k: nat, p: nat)
    requires k <= 32 && p == Pow2(k) && 0 <= lo < p
    requires ToUint32(v) == p * hi
    requires lo + p * hi < TWO32
    ensures BitOr(lo, v) == ToInt32(lo + ToUint32(v))
    ensures BitOr(v, lo) == ToInt32(lo + ToUint32(v))
  {
    Or32Disjoint(lo, ToUint32(v), hi, k, p);
    assert ToUint32(lo) == lo;
    SignedIsToInt32(lo + ToUint32(v));
  }

  /** The 32-bit form of OrDisjoint, in either operand order. */
  lemma {:induction false} Or32Disjoint(lo: nat, m: nat, hi: nat, k: nat, p: nat)
    requires k <= 32 && p == Pow2(k) && lo < p
    requires m == p * hi && lo + m < TWO32
    ensures Bitwise(Or, lo, m, 32) == lo + m
    ensures Bitwise(Or, m, lo, 32) == lo + m
  {
    Pow2Values();
    OrDisjoint(lo, hi, k, 32);
    BitwiseCommutes(Or, lo, m, 32);
  }

  /** The 32-bit image of `b << k` when nothing is shifted out. */
  lemma {:induction false} ShiftLeftImage(b: int, k: nat, p: nat)
    requires k < 32 && p == Pow2(k) && 0 <= b && p * b < TWO32
    ensures ToUint32(ShiftLeft(b, k)) == p * b
  {
    assert ToUint32(b) == b;
    var x := ToUint32(b) * Pow2(k);
    assert x == p * b;
    assert ToUint32(x) == x;
    ToUint32OfToInt32(x);
  }

  /** A signed word whose unsigned image is below 2^31 is that image. */
  lemma {:induction false} SmallImage(y: int)
    requires -TWO31 <= y < TWO31 && ToUint32(y) < TWO31
    ensures y == ToUint32(y)
  {
  }

  /** `b << k` is the plain product when it stays below 2^31. */
  lemma {:induction false} ShiftLeftSmall(b: int, k: nat, p: nat)
    requires k < 32 && p == Pow2(k) && 0 <= b && p * b < TWO31
    ensures ShiftLeft(b, k) == p * b
  {
    ShiftLeftImage(b, k, p);
    SmallImage(ShiftLeft(b, k));
  }

  /** Or-ing a small `lo` into a word `v` whose 32-bit image `w` is a multiple of 2^k
      adds `lo` to that image. */
  lemma {:induction false} OrChain(v: int, w: int, lo: int, hi: nat, k: nat, p: nat)
    requires k <= 32 && p == Pow2(k) && 0 <= lo < p
    requires w == p * hi && 0 <= w && w + lo < TWO32
    requires v == ToInt32(w)
    ensures BitOr(v, lo) == ToInt32(w + lo)
    ensures BitOr(lo, v) == ToInt32(w + lo)
  {
    ToUint32OfToInt32(w);
    assert ToUint32(w) == w;
    OrIsSum(lo, v, hi, k, p);
  }

  /** `w | (b << k)` for a `w` below 2^k places `b` above `w`. */
  lemma {:induction false} OrShiftedByte(w: int, b: int, k: nat, p: nat)
    requires k < 32 && p == Pow2(k) && 0 <= w < p && 0 <= b && w + p * b < TWO32
    ensures BitOr(w, ShiftLeft(b, k)) == ToInt32(w + p * b)
  {
    ShiftLeftImage(b, k, p);
    OrIsSum(w, ShiftLeft(b, k), b, k, p);
  }

  /** `x | 0` leaves a value that already fits a signed word unchanged. */
  lemma {:induction false} OrZeroInt32(x: int)
    requires -TWO31 <= x < TWO31
    ensures BitOr(x, 0) == x
  {
    OrZero(x);
    ToInt32OfInt32(x);
  }

  /** ToInt32 is the identity on signed words. */
  lemma {:induction false} ToInt32OfInt32(x: int)
    requires -TWO31 <= x < TWO31
    ensures ToInt32(x) == x
  {
    if x < 0 {
      assert x % TWO32 == x + TWO32;
    }
  }

  /** `v | 0xff000000` sets the top byte of a 24-bit value, which as a signed word
      subtracts 2^24. */
  lemma {:induction false} OrTopByte(v: int)
    requires 0 <= v < 0x100_0000
    ensures BitOr(v, 0xff00_0000) == v - 0x100_0000
  {
    Pow2Values();
    assert ToUint32(0xff00_0000) == 0x100_0000 * 0xff;
    OrIsSum(v, 0xff00_0000, 0xff, 24, 0x100_0000);
    assert ToInt32(v + 0xff00_0000) == v + 0xff00_0000 - TWO32;
  }

  /** `b ^ 0x80` flips the top bit of a byte. */
  lemma {:induction false} XorHighBit(b: int)
    requires 0 <= b < 256
    ensures BitXor(b, 0x80) == if b >= 0x80 then b - 0x80 else b + 0x80
  {
    Pow2Values();
    var lo, bit := b % 0x80, b / 0x80;
    assert Pow2(7) == 0x80;
    XorPow2(b, lo, bit, 0, 7, 32);
    var p := Pow2(7);
    assert p == 0x80;
    assert lo + 0x80 * bit == b;
    assert p * (bit + 2 * 0) == 0x80 * bit;
    assert p * ((1 - bit) + 2 * 0) == 0x80 * (1 - bit);
    assert Bitwise(Xor, b, p, 32) == lo + 0x80 * (1 - bit);
    assert ToUint32(0x80) == p && ToUint32(b) == b;
    assert BitXor(b, 0x80) == Signed(Bitwise(Xor, b, p, 32));
    if b >= 0x80 {
      assert bit == 1 && lo == b - 0x80;
    } else {
      assert bit == 0 && lo == b;
    }
  }

  /** `b & 0x80` isolates the top bit of a byte. */
  lemma {:induction false} AndHighBit(b: int)
    requires 0 <= b < 256
    ensures BitAnd(b, 0x80) == if b >= 0x80 then 0x80 else 0
  {
    Pow2Values();
    var lo, bit := b % 0x80, b / 0x80;
    assert Pow2(7) == 0x80;
    AndPow2(b, lo, bit, 0, 7, 32);
    var p := Pow2(7);
    assert p == 0x80;
    assert lo + 0x80 * bit == b;
    assert p * (bit + 2 * 0) == 0x80 * bit;
    assert Bitwise(And, b, p, 32) == 0x80 * bit;
    assert ToUint32(0x80) == p && ToUint32(b) == b;
    assert BitAnd(b, 0x80) == Signed(Bitwise(And, b, p, 32));
    if b >= 0x80 {
      assert bit == 1;
    } else {
      assert bit == 0;
    }
    assert Signed(0x80 * bit) == 0x80 * bit;
  }

  /** `x | 0` is ToInt32(x). */
  lemma {:induction false} OrZero(x: int)
    ensures BitOr(x, 0) == ToInt32(x)
  {
    Pow2Values();
    BitwiseZeroRight(Or, ToUint32(x), 32);
  }

  lemma {:induction false} LowByteOf(m: int, lo: int)
    requires 0 <= lo < 256
    ensures (256 * m + lo) % 256 == lo
    ensures (256 * m + lo) / 256 == m
  {
  }

  /** The same, for a value already known to be `256 * m + lo`. */
  lemma {:induction false} ByteSplit(t: int, m: int, lo: int)
    requires 0 <= lo < 256 && t == 256 * m + lo
    ensures t % 256 == lo && t / 256 == m
  {
    LowByteOf(m, lo);
  }

  /** `b & 0xff` is the low byte of the 32-bit image of `b`. */
  lemma {:induction false} AndLowByte(b: int)
    ensures BitAnd(b, 0xff) == b % 256
  {
    Pow2Values();
    var u := ToUint32(b);
    var lo, hi := u % 256, u / 256;
    assert u == lo + 256 * hi;
    AndLowMask(lo, hi, 8, 32);
    assert Bitwise(And, u, 0xff, 32) == lo;
    var t := b / TWO32;
    assert b == TWO32 * t + u;
    var m := 0x100_0000 * t + hi;
    assert b == 256 * m + lo;
    LowByteOf(m, lo);
    assert ToUint32(0xff) == 0xff;
    assert BitAnd(b, 0xff) == ToInt32(lo);
  }

  lemma {:induction false} WrappedByte0(u: int)
    ensures (u - TWO32) % 256 == u % 256
  {
  }

  lemma {:induction false} WrappedByte1(u: int)
    ensures ((u - TWO32) / 0x100) % 256 == (u / 0x100) % 256
  {
    assert (u - TWO32) / 0x100 == u / 0x100 - 0x100_0000;
  }

  lemma {:induction false} WrappedByte2(u: int)
    ensures ((u - TWO32) / 0x1_0000) % 256 == (u / 0x1_0000) % 256
  {
    assert (u - TWO32) / 0x1_0000 == u / 0x1_0000 - 0x1_0000;
  }

  lemma {:induction false} WrappedByte3(u: int)
    ensures ((u - TWO32) / 0x100_0000) % 256 == (u / 0x100_0000) % 256
  {
    assert (u - TWO32) / 0x100_0000 == u / 0x100_0000 - 0x100;
  }

  /** Shifting the signed image of a word right by 8j bits and keeping the low byte
      gives the same byte as shifting its unsigned image. */
  lemma {:induction false} ShiftedByte(x: int, j: nat)
    requires j < 4
    ensures (ShiftRight(x, 8 * j)) % 256 == (ToUint32(x) / Pow2(8 * j)) % 256
  {
    var u := ToUint32(x);
    Pow2Values();
    assert Pow2(0) == 1;
    if u >= TWO31 {
      assert ToInt32(x) == u - TWO32;
      if j == 0 {
        WrappedByte0(u);
      } else if j == 1 {
        WrappedByte1(u);
      } else if j == 2 {
        WrappedByte2(u);
      } else {
        WrappedByte3(u);
      }
    }
  }

  /** `(x >> 8j) & 0xff` is byte j of the 32-bit image of `x`, for j = 0, 1, 2, 3. */
  lemma {:induction false} ByteOfWord(x: int, j: nat)
    requires j < 4
    ensures BitAnd(ShiftRight(x, 8 * j), 0xff) == (ToUint32(x) / Pow2(8 * j)) % 256
  {
    AndLowByte(ShiftRight(x, 8 * j));
    ShiftedByte(x, j);
  }
}
