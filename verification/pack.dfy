/** Fixed-width integer fields read out of a byte buffer (src/util/pack.ts).

    Each reader is written with the JavaScript operators the source uses, over the
    bytes `At(s, off)`, `At(s, off + 1)`, ...; its contract gives the value those
    operators compute in ordinary arithmetic. A read past the end of the buffer sees
    `undefined`, which the bitwise operators turn into 0, so `At` returns 0 there. */
module Pack {
  import opened ByteSeq
  import opened JsInt

  // ---------------------------------------------------------------------------
  // Operator-level facts shared by the readers.

  /** `b0 | (b1 << 8)` is the little-endian sum of the two bytes. */
  lemma {:induction false} Join16(b0: Byte, b1: Byte)
    ensures BitOr(b0, ShiftLeft(b1, 8)) == b0 + 0x100 * b1
    ensures BitOr(ShiftLeft(b1, 8), b0) == b0 + 0x100 * b1
  {
    Pow2Values();
    ShiftLeftSmall(b1, 8, 0x100);
    OrChain(ShiftLeft(b1, 8), 0x100 * b1, b0, b1, 8, 0x100);
  }

  /** `b0 | (b1 << 8) | (b2 << 16)` is the little-endian sum of the three bytes. */
  lemma {:induction false} Join24(b0: Byte, b1: Byte, b2: Byte)
    ensures BitOr(BitOr(b0, ShiftLeft(b1, 8)), ShiftLeft(b2, 16))
         == b0 + 0x100 * b1 + 0x1_0000 * b2
  {
    Pow2Values();
    Join16(b0, b1);
    var lo := b0 + 0x100 * b1;
    OrShiftedByte(lo, b2, 16, 0x1_0000);
    assert 0 <= lo + 0x1_0000 * b2 < TWO31;
  }

  /** `b0 | (b1 << 8) | (b2 << 16) | (b3 << 24)` is the little-endian sum read as a
      signed 32-bit word. */
  lemma {:induction false} Join32(b0: Byte, b1: Byte, b2: Byte, b3: Byte)
    ensures BitOr(BitOr(BitOr(b0, ShiftLeft(b1, 8)), ShiftLeft(b2, 16)), ShiftLeft(b3, 24))
         == ToInt32(b0 + 0x100 * b1 + 0x1_0000 * b2 + 0x100_0000 * b3)
  {
    var x := BitOr(BitOr(b0, ShiftLeft(b1, 8)), ShiftLeft(b2, 16));
    var lo := b0 + 0x100 * b1 + 0x1_0000 * b2;
    var s3 := ShiftLeft(b3, 24);
    assert x == lo by {
      Join24(b0, b1, b2);
    }
    assert BitOr(lo, s3) == ToInt32(lo + 0x100_0000 * b3) by {
      Pow2Values();
      assert 0 <= lo < 0x100_0000;
      OrShiftedByte(lo, b3, 24, 0x100_0000);
    }
  }

  /** `(b0 << 24) | (b1 << 16)`: the top two bytes of a big-endian word. */
  lemma {:induction false} JoinBig16(b0: Byte, b1: Byte)
    ensures BitOr(ShiftLeft(b0, 24), ShiftLeft(b1, 16))
         == ToInt32(0x100_0000 * b0 + 0x1_0000 * b1)
  {
    Pow2Values();
    var s0, s1 := ShiftLeft(b0, 24), ShiftLeft(b1, 16);
    assert s0 == ToInt32(0x100_0000 * b0);
    ShiftLeftSmall(b1, 16, 0x1_0000);
    OrChain(s0, 0x100_0000 * b0, s1, b0, 24, 0x100_0000);
  }

  /** `(b0 << 24) | (b1 << 16) | (b2 << 8)`: the top three bytes of a big-endian word. */
  lemma {:induction false} JoinBig24(b0: Byte, b1: Byte, b2: Byte)
    ensures BitOr(BitOr(ShiftLeft(b0, 24), ShiftLeft(b1, 16)), ShiftLeft(b2, 8))
         == ToInt32(0x100_0000 * b0 + 0x1_0000 * b1 + 0x100 * b2)
  {
    Pow2Values();
    JoinBig16(b0, b1);
    var w := 0x100_0000 * b0 + 0x1_0000 * b1;
    var x := BitOr(ShiftLeft(b0, 24), ShiftLeft(b1, 16));
    assert x == ToInt32(w);
    var s2 := ShiftLeft(b2, 8);
    ShiftLeftSmall(b2, 8, 0x100);
    OrChain(x, w, s2, 0x100 * b0 + b1, 16, 0x1_0000);
  }

  /** `(b0 << 24) | (b1 << 16) | (b2 << 8) | b3` is the big-endian sum read as a
      signed 32-bit word. */
  lemma {:induction false} Join32Big(b0: Byte, b1: Byte, b2: Byte, b3: Byte)
    ensures BitOr(BitOr(BitOr(ShiftLeft(b0, 24), ShiftLeft(b1, 16)), ShiftLeft(b2, 8)), b3)
         == ToInt32(0x100_0000 * b0 + 0x1_0000 * b1 + 0x100 * b2 + b3)
  {
    Pow2Values();
    JoinBig24(b0, b1, b2);
    var w := 0x100_0000 * b0 + 0x1_0000 * b1 + 0x100 * b2;
    var x := BitOr(BitOr(ShiftLeft(b0, 24), ShiftLeft(b1, 16)), ShiftLeft(b2, 8));
    assert x == ToInt32(w);
    OrChain(x, w, b3, 0x1_0000 * b0 + 0x100 * b1 + b2, 8, 0x100);
  }

  /** `(v << 16) >> 16` sign-extends a 16-bit value. */
  lemma {:induction false} SignExtend16(v: int)
    requires 0 <= v < 0x1_0000
    ensures ShiftRight(ShiftLeft(v, 16), 16) == if v >= 0x8000 then v - 0x1_0000 else v
  {
    Pow2Values();
    assert ToUint32(v) == v;
    if v >= 0x8000 {
      assert ShiftLeft(v, 16) == (v - 0x1_0000) * 0x1_0000;
    } else {
      assert ShiftLeft(v, 16) == v * 0x1_0000;
    }
  }

  /** The CRC-32 routine the packet builders call (src/util/crc32, whose body is not
      part of this model): any function from bytes to an unsigned 32-bit word. */
  type Crc32 = Bytes -> Uint32

  // ---------------------------------------------------------------------------
  // The readers, as the values they produce.

  /** `u16le`: an unsigned 16-bit little-endian field. */
  function U16le(s: Bytes, off: nat): (v: int)
    ensures 0 <= v < 0x1_0000
  {
    At(s, off) + 0x100 * At(s, off + 1)
  }

  /** `u32le`: an unsigned 32-bit little-endian field. */
  function U32le(s: Bytes, off: nat): (v: int)
    ensures 0 <= v < TWO32
  {
    At(s, off) + 0x100 * At(s, off + 1) + 0x1_0000 * At(s, off + 2) + 0x100_0000 * At(s, off + 3)
  }

  /** `u64leNumber`: two unsigned 32-bit halves combined as `lo + hi * 2^32`. The
      source holds the result in a double, which rounds above 2^53; this is the exact
      value. */
  function U64le(s: Bytes, off: nat): (v: int)
    ensures 0 <= v < TWO32 * TWO32
  {
    var lo := U32le(s, off);
    var hi := U32le(s, off + 4);
    assert 0 <= hi * TWO32 <= (TWO32 - 1) * TWO32;
    lo + hi * TWO32
  }

  /** `i16le`: a signed 16-bit little-endian field. */
  function I16le(s: Bytes, off: nat): (v: int)
    ensures -0x8000 <= v < 0x8000
  {
    var u := U16le(s, off);
    if u >= 0x8000 then u - 0x1_0000 else u
  }

  /** `i16be`: a signed 16-bit big-endian field. */
  function I16be(s: Bytes, off: nat): (v: int)
    ensures -0x8000 <= v < 0x8000
  {
    var u := 0x100 * At(s, off) + At(s, off + 1);
    if u >= 0x8000 then u - 0x1_0000 else u
  }

  /** `i24le`: a signed 24-bit little-endian field, sign-extended from bit 23. */
  function I24le(s: Bytes, off: nat): (v: int)
    ensures -0x80_0000 <= v < 0x80_0000
  {
    var u := At(s, off) + 0x100 * At(s, off + 1) + 0x1_0000 * At(s, off + 2);
    if u >= 0x80_0000 then u - 0x100_0000 else u
  }

  /** `i32le`: a signed 32-bit little-endian field. */
  function I32le(s: Bytes, off: nat): (v: int)
    ensures -TWO31 <= v < TWO31
  {
    ToInt32(U32le(s, off))
  }

  /** `i32be`: a signed 32-bit big-endian field. */
  function I32be(s: Bytes, off: nat): (v: int)
    ensures -TWO31 <= v < TWO31
  {
    ToInt32(0x100_0000 * At(s, off) + 0x1_0000 * At(s, off + 1) + 0x100 * At(s, off + 2) + At(s, off + 3))
  }

  /** Bit 7 of a byte flipped. */
  function FlipHighBit(b: Byte): Byte {
    if b >= 0x80 then b - 0x80 else b + 0x80
  }

  /** `i16Bizarre`: the magnetometer's 16-bit field, whose high byte has bit 7 flipped
      before the little-endian value is sign-extended. */
  function I16Bizarre(s: Bytes, off: nat): (v: int)
    ensures -0x8000 <= v < 0x8000
  {
    var u := At(s, off) + 0x100 * FlipHighBit(At(s, off + 1));
    if u >= 0x8000 then u - 0x1_0000 else u
  }

  // ---------------------------------------------------------------------------
  // The expressions the source evaluates, with JavaScript's operator semantics,
  // and the proof that each yields the reader's value.

  function U16leJs(s: Bytes, off: nat): int {
    var b0, b1 := At(s, off), At(s, off + 1);
    BitOr(b0, ShiftLeft(b1, 8))
  }

  lemma {:induction false} U16leMatchesSource(s: Bytes, off: nat)
    ensures U16leJs(s, off) == U16le(s, off)
  {
    Join16(At(s, off), At(s, off + 1));
  }

  function U32leJs(s: Bytes, off: nat): int {
    var b0, b1, b2, b3 := At(s, off), At(s, off + 1), At(s, off + 2), At(s, off + 3);
    ToUint32(BitOr(BitOr(BitOr(b0, ShiftLeft(b1, 8)), ShiftLeft(b2, 16)), ShiftLeft(b3, 24)))
  }

  lemma {:induction false} U32leMatchesSource(s: Bytes, off: nat)
    ensures U32leJs(s, off) == U32le(s, off)
  {
    var b0, b1, b2, b3 := At(s, off), At(s, off + 1), At(s, off + 2), At(s, off + 3);
    var sum: int := U32le(s, off);
    assert sum == b0 as int + 0x100 * b1 as int + 0x1_0000 * b2 as int + 0x100_0000 * b3 as int;
    Join32(b0, b1, b2, b3);
    var w := BitOr(BitOr(BitOr(b0, ShiftLeft(b1, 8)), ShiftLeft(b2, 16)), ShiftLeft(b3, 24));
    assert w == ToInt32(sum);
    ToUint32OfToInt32(sum);
    assert ToUint32(w) == sum;
  }

  function U64leJs(s: Bytes, off: nat): int {
    U32leJs(s, off) + U32leJs(s, off + 4) * TWO32
  }

  lemma {:induction false} U64leMatchesSource(s: Bytes, off: nat)
    ensures U64leJs(s, off) == U64le(s, off)
  {
    U32leMatchesSource(s, off);
    U32leMatchesSource(s, off + 4);
  }

  function I16leJs(s: Bytes, off: nat): int {
    var b0, b1 := At(s, off), At(s, off + 1);
    ShiftRight(ShiftLeft(BitOr(b0, ShiftLeft(b1, 8)), 16), 16)
  }

  lemma {:induction false} I16leMatchesSource(s: Bytes, off: nat)
    ensures I16leJs(s, off) == I16le(s, off)
  {
    var b0, b1 := At(s, off), At(s, off + 1);
    var u: int := b0 as int + 0x100 * b1 as int;
    Join16(b0, b1);
    assert BitOr(b0, ShiftLeft(b1, 8)) == u;
    SignExtend16(u);
  }

  function I16beJs(s: Bytes, off: nat): int {
    var b0, b1 := At(s, off), At(s, off + 1);
    ShiftRight(ShiftLeft(BitOr(ShiftLeft(b0, 8), b1), 16), 16)
  }

  lemma {:induction false} I16beMatchesSource(s: Bytes, off: nat)
    ensures I16beJs(s, off) == I16be(s, off)
  {
    var b0, b1 := At(s, off), At(s, off + 1);
    var u: int := b1 as int + 0x100 * b0 as int;
    Join16(b1, b0);
    assert BitOr(ShiftLeft(b0, 8), b1) == u;
    SignExtend16(u);
  }

  function I24leJs(s: Bytes, off: nat): int {
    var b0, b1, b2 := At(s, off), At(s, off + 1), At(s, off + 2);
    var v := BitOr(BitOr(b0, ShiftLeft(b1, 8)), ShiftLeft(b2, 16));
    var w := if BitAnd(b2, 0x80) != 0 then BitOr(v, 0xff00_0000) else v;
    BitOr(w, 0)
  }

  lemma {:induction false} I24leMatchesSource(s: Bytes, off: nat)
    ensures I24leJs(s, off) == I24le(s, off)
  {
    var b0, b1, b2 := At(s, off), At(s, off + 1), At(s, off + 2);
    var u: int := b0 as int + 0x100 * b1 as int + 0x1_0000 * b2 as int;
    var v := BitOr(BitOr(b0, ShiftLeft(b1, 8)), ShiftLeft(b2, 16));
    Join24(b0, b1, b2);
    assert v == u;
    AndHighBit(b2);
    OrTopByte(u);
    var w := if BitAnd(b2, 0x80) != 0 then BitOr(v, 0xff00_0000) else v;
    assert w == if b2 >= 0x80 then u - 0x100_0000 else u;
    assert b2 >= 0x80 <==> u >= 0x80_0000;
    OrZeroInt32(w);
  }

  function I32leJs(s: Bytes, off: nat): int {
    var b0, b1, b2, b3 := At(s, off), At(s, off + 1), At(s, off + 2), At(s, off + 3);
    BitOr(BitOr(BitOr(BitOr(b0, ShiftLeft(b1, 8)), ShiftLeft(b2, 16)), ShiftLeft(b3, 24)), 0)
  }

  lemma {:induction false} I32leMatchesSource(s: Bytes, off: nat)
    ensures I32leJs(s, off) == I32le(s, off)
  {
    var b0, b1, b2, b3 := At(s, off), At(s, off + 1), At(s, off + 2), At(s, off + 3);
    var sum: int := U32le(s, off);
    assert sum == b0 as int + 0x100 * b1 as int + 0x1_0000 * b2 as int + 0x100_0000 * b3 as int;
    var v := BitOr(BitOr(BitOr(b0, ShiftLeft(b1, 8)), ShiftLeft(b2, 16)), ShiftLeft(b3, 24));
    Join32(b0, b1, b2, b3);
    assert v == ToInt32(sum);
    OrZeroInt32(v);
  }

  function I32beJs(s: Bytes, off: nat): int {
    var b0, b1, b2, b3 := At(s, off), At(s, off + 1), At(s, off + 2), At(s, off + 3);
    BitOr(BitOr(BitOr(BitOr(ShiftLeft(b0, 24), ShiftLeft(b1, 16)), ShiftLeft(b2, 8)), b3), 0)
  }

  lemma {:induction false} I32beMatchesSource(s: Bytes, off: nat)
    ensures I32beJs(s, off) == I32be(s, off)
  {
    var b0, b1, b2, b3 := At(s, off), At(s, off + 1), At(s, off + 2), At(s, off + 3);
    var sum: int := 0x100_0000 * b0 as int + 0x1_0000 * b1 as int + 0x100 * b2 as int + b3 as int;
    var v := BitOr(BitOr(BitOr(ShiftLeft(b0, 24), ShiftLeft(b1, 16)), ShiftLeft(b2, 8)), b3);
    Join32Big(b0, b1, b2, b3);
    assert v == ToInt32(sum);
    OrZeroInt32(v);
  }

  function I16BizarreJs(s: Bytes, off: nat): int {
    var b0, b1 := At(s, off), At(s, off + 1);
    var v := BitOr(b0, ShiftLeft(BitXor(b1, 0x80), 8));
    ShiftRight(ShiftLeft(v, 16), 16)
  }

  lemma {:induction false} I16BizarreMatchesSource(s: Bytes, off: nat)
    ensures I16BizarreJs(s, off) == I16Bizarre(s, off)
  {
    var b0, b1 := At(s, off), At(s, off + 1);
    var f := FlipHighBit(b1);
    XorHighBit(b1);
    assert BitXor(b1, 0x80) == f;
    var u: int := b0 as int + 0x100 * f as int;
    Join16(b0, f);
    assert BitOr(b0, ShiftLeft(f, 8)) == u;
    SignExtend16(u);
  }

  // ---------------------------------------------------------------------------
  // How the readers relate to one another.

  /** `i16be` is `i16le` of the two bytes swapped. */
  lemma {:induction false} I16beSwapped(s: Bytes, off: nat)
    ensures I16be(s, off) == I16le([At(s, off + 1), At(s, off)], 0)
  {
    var t: Bytes := [At(s, off + 1), At(s, off)];
    assert At(t, 0) == At(s, off + 1) && At(t, 1) == At(s, off);
  }

  /** `i32be` is `i32le` of the four bytes reversed. */
  lemma {:induction false} I32beReversed(s: Bytes, off: nat)
    ensures I32be(s, off) == I32le([At(s, off + 3), At(s, off + 2), At(s, off + 1), At(s, off)], 0)
  {
    var t: Bytes := [At(s, off + 3), At(s, off + 2), At(s, off + 1), At(s, off)];
    assert At(t, 0) == At(s, off + 3) && At(t, 1) == At(s, off + 2);
    assert At(t, 2) == At(s, off + 1) && At(t, 3) == At(s, off);
  }

  /** `i32le` is `u32le` less 2^32 from 2^31 on. */
  lemma {:induction false} I32leIsWrappedUnsigned(s: Bytes, off: nat)
    ensures I32le(s, off) == if U32le(s, off) >= TWO31 then U32le(s, off) - TWO32
                             else U32le(s, off)
  {
  }

  /** `i16Bizarre` flips bit 7 of the high byte and then reads `i16le`. */
  lemma {:induction false} I16BizarreFlipsHighBit(s: Bytes, off: nat)
    ensures I16Bizarre(s, off) == I16le([At(s, off), FlipHighBit(At(s, off + 1))], 0)
  {
    var t: Bytes := [At(s, off), FlipHighBit(At(s, off + 1))];
    assert At(t, 0) == At(s, off) && At(t, 1) == t[1];
  }

  /** Flipping that bit before sign extension makes `i16Bizarre` an offset-binary
      reading: the unsigned little-endian value less 0x8000. */
  lemma {:induction false} I16BizarreIsOffsetBinary(s: Bytes, off: nat)
    ensures I16Bizarre(s, off) == U16le(s, off) - 0x8000
  {
    var b0, b1 := At(s, off), At(s, off + 1);
    var z: int, u: int := I16Bizarre(s, off), U16le(s, off);
    assert u == b0 + 0x100 * b1;
    var f: int := if b1 >= 0x80 then b1 - 0x80 else b1 + 0x80;
    assert z == b0 + 0x100 * f - (if b1 < 0x80 then 0x1_0000 else 0);
    if b1 >= 0x80 {
      assert z == b0 + 0x100 * b1 - 0x8000;
    } else {
      assert z == b0 + 0x100 * b1 + 0x8000 - 0x1_0000;
    }
  }

  // ---------------------------------------------------------------------------
  // The byte layout the readers undo.

  /** The `n` little-endian bytes of `v` modulo 256^n (two's complement for negative
      `v`): the layout that the readers above decode. */
  function LeBytes(v: int, n: nat): (r: Bytes)
    ensures |r| == n
    decreases n
  {
    if n == 0 then []
    else
      var low: Byte := v % 256;
      [low] + LeBytes(v / 256, n - 1)
  }

  /** Peeling one byte off `v`. */
  lemma {:induction false} PeelByte(v: int)
    ensures v == v % 256 + 0x100 * (v / 256)
  {
  }

  // The base-256 digits of `v`, summed: pure arithmetic, kept apart from the byte lists.

  lemma {:induction false} Digits2(v: int)
    ensures v % 256 + 0x100 * ((v / 256) % 256) == v % 0x1_0000
  {
    var v1: int := v / 256;
    var v2: int := v1 / 256;
    PeelByte(v);
    PeelByte(v1);
    var sum: int := v % 256 + 0x100 * (v1 % 256);
    assert v == sum + 0x1_0000 * v2;
    assert 0 <= sum < 0x1_0000;
  }

  lemma {:induction false} Digits3(v: int)
    ensures v % 256 + 0x100 * ((v / 256) % 256) + 0x1_0000 * ((v / 256 / 256) % 256) == v % 0x100_0000
  {
    var v1: int := v / 256;
    var v2: int := v1 / 256;
    var v3: int := v2 / 256;
    PeelByte(v);
    PeelByte(v1);
    PeelByte(v2);
    var sum: int := v % 256 + 0x100 * (v1 % 256) + 0x1_0000 * (v2 % 256);
    assert v == sum + 0x100_0000 * v3;
    assert 0 <= sum < 0x100_0000;
  }

  lemma {:induction false} Digits4(v: int)
    ensures v % 256 + 0x100 * ((v / 256) % 256) + 0x1_0000 * ((v / 256 / 256) % 256)
            + 0x100_0000 * ((v / 256 / 256 / 256) % 256) == v % TWO32
  {
    var v1: int := v / 256;
    var v2: int := v1 / 256;
    var v3: int := v2 / 256;
    var v4: int := v3 / 256;
    PeelByte(v);
    PeelByte(v1);
    PeelByte(v2);
    PeelByte(v3);
    var sum: int := v % 256 + 0x100 * (v1 % 256) + 0x1_0000 * (v2 % 256) + 0x100_0000 * (v3 % 256);
    assert v == sum + TWO32 * v4;
    assert 0 <= sum < TWO32;
  }

  /** The four bytes of LeBytes(v, 4) sum back to `v` modulo 2^32. */
  lemma {:induction false} LeBytes4Sum(v: int)
    ensures var r := LeBytes(v, 4);
            r[0] as int + 0x100 * (r[1] as int) + 0x1_0000 * (r[2] as int) + 0x100_0000 * (r[3] as int) == v % TWO32
  {
    var r := LeBytes(v, 4);
    assert r[0] as int == v % 256 && r[1] as int == (v / 256) % 256;
    assert r[2] as int == (v / 256 / 256) % 256 && r[3] as int == (v / 256 / 256 / 256) % 256;
    Digits4(v);
  }

  /** The three bytes of LeBytes(v, 3) sum back to `v` modulo 2^24. */
  lemma {:induction false} LeBytes3Sum(v: int)
    ensures var r := LeBytes(v, 3);
            r[0] as int + 0x100 * (r[1] as int) + 0x1_0000 * (r[2] as int) == v % 0x100_0000
  {
    var r := LeBytes(v, 3);
    assert r[0] as int == v % 256 && r[1] as int == (v / 256) % 256;
    assert r[2] as int == (v / 256 / 256) % 256;
    Digits3(v);
  }

  /** The two bytes of LeBytes(v, 2) sum back to `v` modulo 2^16. */
  lemma {:induction false} LeBytes2Sum(v: int)
    ensures var r := LeBytes(v, 2);
            r[0] as int + 0x100 * (r[1] as int) == v % 0x1_0000
  {
    var r := LeBytes(v, 2);
    assert r[0] as int == v % 256 && r[1] as int == (v / 256) % 256;
    Digits2(v);
  }

  /** The bytes of LeBytes(x, 4) are those of the 32-bit image of `x`. */
  lemma {:induction false} LeBytesOfWordImage(x: int)
    ensures var u := ToUint32(x);
            LeBytes(x, 4) == [u % 256, (u / 0x100) % 256, (u / 0x1_0000) % 256, (u / 0x100_0000) % 256]
  {
    var u := ToUint32(x);
    var q := x / TWO32;
    assert x == u + TWO32 * q;
    var x1: int := x / 256;
    var x2: int := x1 / 256;
    var x3: int := x2 / 256;
    var u1: int := u / 256;
    var u2: int := u1 / 256;
    var u3: int := u2 / 256;
    assert x1 == u1 + 0x100_0000 * q;
    assert x2 == u2 + 0x1_0000 * q;
    assert x3 == u3 + 0x100 * q;
    assert u2 == u / 0x1_0000;
    assert u3 == u / 0x100_0000;
    assert 0 <= u3 < 256;
    ByteSplit(x3, q, u3);
    var r := LeBytes(x, 4);
    assert r[0] == x % 256 && r[1] == x1 % 256;
    assert r[2] == x2 % 256 && r[3] == x3 % 256;
  }

  /** What the source stores for a 32-bit word `x`, one `(x >> 8*j) & 0xff` per byte,
      is the little-endian layout of `x` modulo 2^32. */
  lemma {:induction false} StoredWordBytes(x: int)
    ensures LeBytes(x, 4) == [BitAnd(x, 0xff), BitAnd(ShiftRight(x, 8), 0xff),
                              BitAnd(ShiftRight(x, 16), 0xff), BitAnd(ShiftRight(x, 24), 0xff)]
  {
    Pow2Values();
    LeBytesOfWordImage(x);
    AndLowByte(x);
    ByteOfWord(x, 1);
    ByteOfWord(x, 2);
    ByteOfWord(x, 3);
  }

  /** The same for a 16-bit field: `x & 0xff` then `(x >> 8) & 0xff`. */
  lemma {:induction false} StoredHalfWordBytes(x: int)
    ensures LeBytes(x, 2) == [BitAnd(x, 0xff), BitAnd(ShiftRight(x, 8), 0xff)]
  {
    StoredWordBytes(x);
    var x1: int := x / 256;
    assert LeBytes(x, 2) == [x % 256, x1 % 256];
    assert LeBytes(x, 4)[..2] == [x % 256, x1 % 256];
  }

  /** Reading back the two bytes written for a 16-bit value gives the value:
      unsigned for `u16le`, signed for `i16le`, offset by 0x8000 for `i16Bizarre`,
      and byte-swapped for `i16be`. */
  lemma {:induction false} RoundTrip16(v: int)
    ensures 0 <= v < 0x1_0000 ==> U16le(LeBytes(v, 2), 0) == v
    ensures -0x8000 <= v < 0x8000 ==> I16le(LeBytes(v, 2), 0) == v
    ensures -0x8000 <= v < 0x8000 ==> I16Bizarre(LeBytes(v + 0x8000, 2), 0) == v
    ensures -0x8000 <= v < 0x8000 ==> var r := LeBytes(v, 2); I16be([r[1], r[0]], 0) == v
  {
    var r := LeBytes(v, 2);
    LeBytes2Sum(v);
    var sum: int := r[0] as int + 0x100 * (r[1] as int);
    assert U16le(r, 0) == sum;
    if -0x8000 <= v < 0x8000 {
      assert I16le(r, 0) == v;
      var t := LeBytes(v + 0x8000, 2);
      LeBytes2Sum(v + 0x8000);
      assert U16le(t, 0) == v + 0x8000;
      I16BizarreIsOffsetBinary(t, 0);
      var w: Bytes := [r[1], r[0]];
      I16beSwapped(w, 0);
      assert [At(w, 1), At(w, 0)] == r;
    }
  }

  /** Reading back the three bytes written for a signed 24-bit value gives the value. */
  lemma {:induction false} RoundTrip24(v: int)
    requires -0x80_0000 <= v < 0x80_0000
    ensures I24le(LeBytes(v, 3), 0) == v
  {
    var r := LeBytes(v, 3);
    LeBytes3Sum(v);
    var sum: int := r[0] as int + 0x100 * (r[1] as int) + 0x1_0000 * (r[2] as int);
    assert At(r, 0) == r[0] && At(r, 1) == r[1] && At(r, 2) == r[2];
    assert I24le(r, 0) == sum - (if r[2] >= 0x80 then 0x100_0000 else 0);
  }

  /** Reading back the four bytes written for a 32-bit value gives the value:
      unsigned for `u32le`, signed for `i32le`, and byte-reversed for `i32be`. */
  lemma {:induction false} RoundTrip32(v: int)
    ensures 0 <= v < TWO32 ==> U32le(LeBytes(v, 4), 0) == v
    ensures -TWO31 <= v < TWO31 ==> I32le(LeBytes(v, 4), 0) == v
    ensures -TWO31 <= v < TWO31 ==> var r := LeBytes(v, 4); I32be([r[3], r[2], r[1], r[0]], 0) == v
  {
    var r := LeBytes(v, 4);
    LeBytes4Sum(v);
    var sum: int := r[0] as int + 0x100 * (r[1] as int) + 0x1_0000 * (r[2] as int) + 0x100_0000 * (r[3] as int);
    assert U32le(r, 0) == sum;
    assert I32le(r, 0) == ToInt32(sum);
    if -TWO31 <= v < TWO31 {
      ToInt32OfInt32(v);
      assert ToInt32(sum) == ToInt32(v) by {
        ModuloWord(v, sum);
      }
      var w: Bytes := [r[3], r[2], r[1], r[0]];
      I32beReversed(w, 0);
      assert [At(w, 3), At(w, 2), At(w, 1), At(w, 0)] == r;
    }
  }

  /** ToInt32 depends only on the value modulo 2^32. */
  lemma {:induction false} ModuloWord(v: int, u: int)
    requires u == v % TWO32
    ensures ToInt32(u) == ToInt32(v)
  {
    assert u % TWO32 == u;
  }

  /** The bytes of a buffer are the LeBytes of the value read from them: no two
      different 4-byte windows read the same `u32le`, or the same `i32le`. */
  lemma {:induction false} LeBytesOfRead32(s: Bytes, off: nat)
    requires off + 4 <= |s|
    ensures LeBytes(U32le(s, off), 4) == s[off..off + 4]
    ensures LeBytes(I32le(s, off), 4) == s[off..off + 4]
  {
    var b0, b1, b2, b3 := s[off], s[off + 1], s[off + 2], s[off + 3];
    var m3: int := b3;
    var m2: int := b2 + 0x100 * m3;
    var m1: int := b1 + 0x100 * m2;
    var u: int := b0 + 0x100 * m1;
    assert U32le(s, off) == u;
    LowByteOf(m1, b0);
    LowByteOf(m2, b1);
    LowByteOf(m3, b2);
    LowByteOf(0, b3);
    var r := LeBytes(u, 4);
    assert r[0] == b0 && r[1] == b1 && r[2] == b2 && r[3] == b3;
    assert r == s[off..off + 4];
    var i := I32le(s, off);
    assert i == ToInt32(u);
    LeBytesModulo(i, u);
  }

  /** A word read from fewer than four bytes sees zeros past the end: it is the word of
      the bytes padded with zeros, and writing it back gives those padded bytes. */
  lemma {:induction false} ShortRead32(s: Bytes)
    requires |s| <= 4
    ensures LeBytes(U32le(s, 0), 4) == s + Zeros(4 - |s|)
  {
    var p := s + Zeros(4 - |s|);
    forall k | 0 <= k < 4 ensures At(s, k) == At(p, k) {
      if k < |s| {
        assert p[k] == s[k];
      } else {
        assert p[k] == Zeros(4 - |s|)[k - |s|];
      }
    }
    assert U32le(s, 0) == U32le(p, 0);
    LeBytesOfRead32(p, 0);
    assert p[0..4] == p;
  }

  /** LeBytes(_, 4) depends only on the value modulo 2^32. */
  lemma {:induction false} LeBytesModulo(i: int, u: int)
    requires 0 <= u < TWO32 && i == ToInt32(u)
    ensures LeBytes(i, 4) == LeBytes(u, 4)
  {
    if i != u {
      assert i == u - TWO32;
      var w: int := i / 256;
      assert w == u / 256 - 0x100_0000;
      var x: int := w / 256;
      assert x == (u / 256) / 256 - 0x1_0000;
      var y: int := x / 256;
      assert y == ((u / 256) / 256) / 256 - 0x100;
      assert LeBytes(i, 4) == [i % 256] + LeBytes(w, 3);
      assert LeBytes(w, 3) == [w % 256] + LeBytes(x, 2);
      assert LeBytes(x, 2) == [x % 256] + LeBytes(y, 1);
      assert LeBytes(i, 4)[0] == LeBytes(u, 4)[0];
    }
  }

  /** Sign extension at both ends of the 24-bit range (the readers agree with the source
      expressions by the lemmas above). */
  lemma {:induction false} I24leExamples()
    ensures I24le([0xFF, 0xFF, 0xFF], 0) == -1
    ensures I24le([0x00, 0x00, 0x80], 0) == -0x80_0000
    ensures I24le([0xFF, 0xFF, 0x7F], 0) == 0x7F_FFFF
  {
  }

  /** The magnetometer reader flips the high bit: 0x8000 reads as zero and 0x7FFF as -1,
      where the plain little-endian reader gives -0x8000 for 0x8000. */
  lemma {:induction false} I16BizarreExamples()
    ensures I16Bizarre([0x00, 0x80], 0) == 0
    ensures I16Bizarre([0xFF, 0x7F], 0) == -1
    ensures I16le([0x00, 0x80], 0) == -0x8000
  {
  }

  /** All-ones reads as the largest word unsigned and as -1 signed. */
  lemma {:induction false} Word32Examples()
    ensures U32le([0xFF, 0xFF, 0xFF, 0xFF], 0) == 0xFFFF_FFFF
    ensures I32le([0xFF, 0xFF, 0xFF, 0xFF], 0) == -1
  {
  }
}
