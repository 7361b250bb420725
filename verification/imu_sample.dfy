/** The IMU data report, `parseImuDataPacket`: a 64-byte report opening with one of two
    signatures, whose fields are read at fixed offsets.

      0 signature (2) | 2 temperature i16le | 4 timestamp u64le
      12 gyro:  multiplier i16le, divisor i32le, x y z i24le
      27 accel: multiplier i16le, divisor i32le, x y z i24le
      42 mag:   multiplier i16be, divisor i32be, x y z i16Bizarre
      54 .. 63 not read

    The driver turns each axis into a number as reading * multiplier / divisor and the
    temperature as raw / 132.48 + 25; that floating-point step is left out, and the model
    keeps the integer fields it is computed from. */
module ImuSample {
  import opened ByteSeq
  import opened Wrappers
  import opened JsInt
  import opened Pack

  /** A multiplier, a divisor and three raw readings. */
  datatype Axes = Axes(multiplier: int, divisor: int, x: int, y: int, z: int)

  /** The integer fields of one report. */
  datatype ImuSample = ImuSample(timestamp: int, temperature: int, gyro: Axes, accel: Axes, mag: Axes)

  const ImuReportSize: nat := 64

  /** The two signatures the parser accepts. */
  datatype Signature = Sig0102 | SigAA53

  function SignatureBytes(sig: Signature): (b: Bytes)
    ensures |b| == 2
  {
    match sig
    case Sig0102 => [0x01, 0x02]
    case SigAA53 => [0xAA, 0x53]
  }

  predicate HasSignature(p: Bytes) {
    |p| >= 2 && ((p[0] == 0x01 && p[1] == 0x02) || (p[0] == 0xAA && p[1] == 0x53))
  }

  predicate I16(v: int) { -0x8000 <= v < 0x8000 }
  predicate I24(v: int) { -0x80_0000 <= v < 0x80_0000 }
  predicate I32(v: int) { -TWO31 <= v < TWO31 }

  /** The ranges the fields of a block can take: the multiplier is a signed 16-bit
      field, the divisor a signed 32-bit one, and the readings signed 24-bit (gyro and
      accel) or signed 16-bit (mag). */
  predicate AxesInRange(a: Axes, readingBits24: bool) {
    && I16(a.multiplier) && I32(a.divisor)
    && (if readingBits24 then I24(a.x) && I24(a.y) && I24(a.z) else I16(a.x) && I16(a.y) && I16(a.z))
  }

  predicate InRange(s: ImuSample) {
    && 0 <= s.timestamp < TWO32 * TWO32
    && I16(s.temperature)
    && AxesInRange(s.gyro, true) && AxesInRange(s.accel, true) && AxesInRange(s.mag, false)
  }

  /** The parse: a report shorter than 64 bytes or without a signature is refused. */
  function ParseImuDataPacket(payload: Bytes): (r: Option<ImuSample>)
    ensures r.Some? <==> |payload| >= ImuReportSize && HasSignature(payload)
    ensures r.Some? ==> InRange(r.value)
  {
    if |payload| < ImuReportSize then None
    else if !HasSignature(payload) then None
    else
      Some(ImuSample(
        U64le(payload, 4),
        I16le(payload, 2),
        Axes(I16le(payload, 12), I32le(payload, 14), I24le(payload, 18), I24le(payload, 21), I24le(payload, 24)),
        Axes(I16le(payload, 27), I32le(payload, 29), I24le(payload, 33), I24le(payload, 36), I24le(payload, 39)),
        Axes(I16be(payload, 42), I32be(payload, 44), I16Bizarre(payload, 48), I16Bizarre(payload, 50),
             I16Bizarre(payload, 52))))
  }

  /** Only the first 54 bytes are read: two reports that agree on them parse alike. */
  lemma {:induction false} ParseReadsOnlyHead(p: Bytes, q: Bytes)
    requires |p| >= ImuReportSize && |q| >= ImuReportSize && p[..54] == q[..54]
    ensures ParseImuDataPacket(p) == ParseImuDataPacket(q)
  {
    forall j | 0 <= j < 54 ensures At(p, j) == At(q, j) {
      assert p[j] == p[..54][j];
    }
    assert p[0] == At(p, 0) && p[1] == At(p, 1) && q[0] == At(q, 0) && q[1] == At(q, 1);
    assert U64le(p, 4) == U64le(q, 4) && I16le(p, 2) == I16le(q, 2);
    assert I16le(p, 12) == I16le(q, 12) && I32le(p, 14) == I32le(q, 14);
    assert I24le(p, 18) == I24le(q, 18) && I24le(p, 21) == I24le(q, 21) && I24le(p, 24) == I24le(q, 24);
    assert I16le(p, 27) == I16le(q, 27) && I32le(p, 29) == I32le(q, 29);
    assert I24le(p, 33) == I24le(q, 33) && I24le(p, 36) == I24le(q, 36) && I24le(p, 39) == I24le(q, 39);
    assert I16be(p, 42) == I16be(q, 42) && I32be(p, 44) == I32be(q, 44);
    assert I16Bizarre(p, 48) == I16Bizarre(q, 48) && I16Bizarre(p, 50) == I16Bizarre(q, 50);
    assert I16Bizarre(p, 52) == I16Bizarre(q, 52);
  }

  // ---------------------------------------------------------------------------
  // Writing a report: the layout the parse undoes.

  /** The bytes of a gyro or accel block: little-endian throughout. */
  function LeBlock(a: Axes): (b: Bytes)
    ensures |b| == 15
  {
    var m, d := LeBytes(a.multiplier, 2), LeBytes(a.divisor, 4);
    var x, y, z := LeBytes(a.x, 3), LeBytes(a.y, 3), LeBytes(a.z, 3);
    [m[0], m[1], d[0], d[1], d[2], d[3], x[0], x[1], x[2], y[0], y[1], y[2], z[0], z[1], z[2]]
  }

  /** The bytes of the magnetometer block: multiplier and divisor big-endian, readings
      offset by 0x8000 and little-endian. */
  function MagBlock(a: Axes): (b: Bytes)
    ensures |b| == 12
  {
    var m, d := LeBytes(a.multiplier, 2), LeBytes(a.divisor, 4);
    var x, y, z := LeBytes(a.x + 0x8000, 2), LeBytes(a.y + 0x8000, 2), LeBytes(a.z + 0x8000, 2);
    [m[1], m[0], d[3], d[2], d[1], d[0], x[0], x[1], y[0], y[1], z[0], z[1]]
  }

  /** The first twelve bytes: signature, temperature and timestamp. */
  function HeadBlock(sig: Signature, s: ImuSample): (b: Bytes)
    ensures |b| == 12
  {
    var g, t := SignatureBytes(sig), LeBytes(s.temperature, 2);
    var lo, hi := LeBytes(s.timestamp % TWO32, 4), LeBytes(s.timestamp / TWO32, 4);
    [g[0], g[1], t[0], t[1], lo[0], lo[1], lo[2], lo[3], hi[0], hi[1], hi[2], hi[3]]
  }

  /** A report carrying `s`, the unread tail zeroed. */
  function EncodeImuPacket(sig: Signature, s: ImuSample): (p: Bytes)
    ensures |p| == ImuReportSize
  {
    HeadBlock(sig, s) + LeBlock(s.gyro) + LeBlock(s.accel) + MagBlock(s.mag) + Zeros(10)
  }

  /** Each part of a concatenation sits right after the parts before it. */
  lemma {:induction false} FourBlocks(h: Bytes, g: Bytes, a: Bytes, m: Bytes, t: Bytes)
    ensures var p, i, j, k := h + g + a + m + t, |h|, |h| + |g|, |h| + |g| + |a|;
            && p[..i] == h
            && p[i..j] == g
            && p[j..k] == a
            && p[k..k + |m|] == m
  {
  }

  /** The blocks sit at offsets 0, 12, 27 and 42. */
  lemma {:induction false} EncodedBlocks(sig: Signature, s: ImuSample)
    ensures var p := EncodeImuPacket(sig, s);
            && p[..12] == HeadBlock(sig, s)
            && p[12..27] == LeBlock(s.gyro)
            && p[27..42] == LeBlock(s.accel)
            && p[42..54] == MagBlock(s.mag)
  {
    FourBlocks(HeadBlock(sig, s), LeBlock(s.gyro), LeBlock(s.accel), MagBlock(s.mag), Zeros(10));
  }

  /** A window of a buffer reads, byte for byte, as the window itself. */
  lemma {:induction false} WindowBytes(p: Bytes, off: nat, w: Bytes)
    requires off + |w| <= |p| && p[off..off + |w|] == w
    ensures forall j :: 0 <= j < |w| ==> At(p, off + j) == w[j]
  {
    forall j | 0 <= j < |w| ensures At(p, off + j) == w[j] {
      assert p[off + j] == p[off..off + |w|][j];
    }
  }

  // One lemma per field kind: the bytes written for a value read back as it.

  lemma {:induction false} FieldI16le(p: Bytes, off: nat, v: int)
    requires I16(v)
    requires var b := LeBytes(v, 2); At(p, off) == b[0] && At(p, off + 1) == b[1]
    ensures I16le(p, off) == v
  {
    RoundTrip16(v);
  }

  lemma {:induction false} FieldI24le(p: Bytes, off: nat, v: int)
    requires I24(v)
    requires var b := LeBytes(v, 3); At(p, off) == b[0] && At(p, off + 1) == b[1] && At(p, off + 2) == b[2]
    ensures I24le(p, off) == v
  {
    RoundTrip24(v);
  }

  lemma {:induction false} FieldI32le(p: Bytes, off: nat, v: int)
    requires I32(v)
    requires var b := LeBytes(v, 4);
             At(p, off) == b[0] && At(p, off + 1) == b[1] && At(p, off + 2) == b[2] && At(p, off + 3) == b[3]
    ensures I32le(p, off) == v
  {
    RoundTrip32(v);
  }

  lemma {:induction false} FieldI16be(p: Bytes, off: nat, v: int)
    requires I16(v)
    requires var b := LeBytes(v, 2); At(p, off) == b[1] && At(p, off + 1) == b[0]
    ensures I16be(p, off) == v
  {
    RoundTrip16(v);
    var b := LeBytes(v, 2);
    assert I16be([b[1], b[0]], 0) == v;
  }

  lemma {:induction false} FieldI32be(p: Bytes, off: nat, v: int)
    requires I32(v)
    requires var b := LeBytes(v, 4);
             At(p, off) == b[3] && At(p, off + 1) == b[2] && At(p, off + 2) == b[1] && At(p, off + 3) == b[0]
    ensures I32be(p, off) == v
  {
    RoundTrip32(v);
    var b := LeBytes(v, 4);
    assert I32be([b[3], b[2], b[1], b[0]], 0) == v;
  }

  lemma {:induction false} FieldI16Bizarre(p: Bytes, off: nat, v: int)
    requires I16(v)
    requires var b := LeBytes(v + 0x8000, 2); At(p, off) == b[0] && At(p, off + 1) == b[1]
    ensures I16Bizarre(p, off) == v
  {
    RoundTrip16(v);
  }

  lemma {:induction false} FieldU64le(p: Bytes, off: nat, v: int)
    requires 0 <= v < TWO32 * TWO32
    requires var lo, hi := LeBytes(v % TWO32, 4), LeBytes(v / TWO32, 4);
             && At(p, off) == lo[0] && At(p, off + 1) == lo[1] && At(p, off + 2) == lo[2] && At(p, off + 3) == lo[3]
             && At(p, off + 4) == hi[0] && At(p, off + 5) == hi[1] && At(p, off + 6) == hi[2] && At(p, off + 7) == hi[3]
    ensures U64le(p, off) == v
  {
    RoundTrip32(v % TWO32);
    RoundTrip32(v / TWO32);
    assert U32le(p, off) == v % TWO32;
    assert U32le(p, off + 4) == v / TWO32;
  }

  /** A little-endian block reads back as its axes. */
  lemma {:induction false} ReadLeBlock(p: Bytes, off: nat, a: Axes)
    requires AxesInRange(a, true)
    requires off + 15 <= |p| && p[off..off + 15] == LeBlock(a)
    ensures I16le(p, off) == a.multiplier && I32le(p, off + 2) == a.divisor
    ensures I24le(p, off + 6) == a.x && I24le(p, off + 9) == a.y && I24le(p, off + 12) == a.z
  {
    var w := LeBlock(a);
    WindowBytes(p, off, w);
    assert I16le(p, off) == a.multiplier by {
      assert At(p, off + 0) == w[0] && At(p, off + 1) == w[1];
      FieldI16le(p, off, a.multiplier);
    }
    assert I32le(p, off + 2) == a.divisor by {
      assert At(p, off + 2) == w[2] && At(p, off + 3) == w[3] && At(p, off + 4) == w[4] && At(p, off + 5) == w[5];
      FieldI32le(p, off + 2, a.divisor);
    }
    assert I24le(p, off + 6) == a.x by {
      assert At(p, off + 6) == w[6] && At(p, off + 7) == w[7] && At(p, off + 8) == w[8];
      FieldI24le(p, off + 6, a.x);
    }
    assert I24le(p, off + 9) == a.y by {
      assert At(p, off + 9) == w[9] && At(p, off + 10) == w[10] && At(p, off + 11) == w[11];
      FieldI24le(p, off + 9, a.y);
    }
    assert I24le(p, off + 12) == a.z by {
      assert At(p, off + 12) == w[12] && At(p, off + 13) == w[13] && At(p, off + 14) == w[14];
      FieldI24le(p, off + 12, a.z);
    }
  }

  /** The magnetometer block reads back as its axes. */
  lemma {:induction false} ReadMagBlock(p: Bytes, off: nat, a: Axes)
    requires AxesInRange(a, false)
    requires off + 12 <= |p| && p[off..off + 12] == MagBlock(a)
    ensures I16be(p, off) == a.multiplier && I32be(p, off + 2) == a.divisor
    ensures I16Bizarre(p, off + 6) == a.x && I16Bizarre(p, off + 8) == a.y && I16Bizarre(p, off + 10) == a.z
  {
    var w := MagBlock(a);
    WindowBytes(p, off, w);
    assert I16be(p, off) == a.multiplier by {
      assert At(p, off + 0) == w[0] && At(p, off + 1) == w[1];
      FieldI16be(p, off, a.multiplier);
    }
    assert I32be(p, off + 2) == a.divisor by {
      assert At(p, off + 2) == w[2] && At(p, off + 3) == w[3] && At(p, off + 4) == w[4] && At(p, off + 5) == w[5];
      FieldI32be(p, off + 2, a.divisor);
    }
    assert I16Bizarre(p, off + 6) == a.x by {
      assert At(p, off + 6) == w[6] && At(p, off + 7) == w[7];
      FieldI16Bizarre(p, off + 6, a.x);
    }
    assert I16Bizarre(p, off + 8) == a.y by {
      assert At(p, off + 8) == w[8] && At(p, off + 9) == w[9];
      FieldI16Bizarre(p, off + 8, a.y);
    }
    assert I16Bizarre(p, off + 10) == a.z by {
      assert At(p, off + 10) == w[10] && At(p, off + 11) == w[11];
      FieldI16Bizarre(p, off + 10, a.z);
    }
  }

  /** The head block reads back as the signature, temperature and timestamp. */
  lemma {:induction false} ReadHeadBlock(p: Bytes, sig: Signature, s: ImuSample)
    requires 0 <= s.timestamp < TWO32 * TWO32 && I16(s.temperature)
    requires 12 <= |p| && p[..12] == HeadBlock(sig, s)
    ensures HasSignature(p)
    ensures I16le(p, 2) == s.temperature && U64le(p, 4) == s.timestamp
  {
    assert p[..12] == p[0..0 + 12];
    WindowBytes(p, 0, HeadBlock(sig, s));
    assert p[0] == At(p, 0) && p[1] == At(p, 1);
    FieldI16le(p, 2, s.temperature);
    FieldU64le(p, 4, s.timestamp);
  }

  /** Every sample whose fields are in range survives being written and parsed, under
      either signature. */
  lemma {:induction false} ParseOfEncoded(sig: Signature, s: ImuSample)
    requires InRange(s)
    ensures ParseImuDataPacket(EncodeImuPacket(sig, s)) == Some(s)
  {
    var p := EncodeImuPacket(sig, s);
    EncodedBlocks(sig, s);
    ReadHeadBlock(p, sig, s);
    ReadLeBlock(p, 12, s.gyro);
    ReadLeBlock(p, 27, s.accel);
    ReadMagBlock(p, 42, s.mag);
  }
}
