/**
 * The bucket codec of the median-cut quantizer: the HSIZE/MAXCOLORS
 * constants and the RGB/RED/GREEN/BLUE macros of ColorQuantizer.hpp.
 *
 * The macros are bit arithmetic on non-negative integers; here each bit
 * operation is written as its arithmetic equivalent:
 *   `x & (2^k - 1)` is `x % 2^k`, `x >> k` is `x / 2^k`, `x << k` is
 *   `x * 2^k`, `x & ~7` is `x - x % 8`, an OR of fields whose bits do not
 *   overlap is their sum, and the `(byte)` cast is `% 256`.
 */
module Codec {

  /** Number of histogram buckets: 5 bits per channel. */
  const HSIZE := 32768
  /** Capacity of the cube list, hence the largest palette. */
  const MAXCOLORS := 256

  type Byte = x: int | 0 <= x < 256
  type Word = x: int | 0 <= x < 65536
  /** A histogram index. */
  type Bucket = x: int | 0 <= x < HSIZE

  /** The three axes of colour space; `longdim` 0, 1 and 2 in the source. */
  datatype Axis = RedAxis | GreenAxis | BlueAxis

  /** RED(x): the low five bits, shifted back up to a byte. */
  function Red(x: Bucket): (c: Byte)
    ensures c <= 248
  {
    ShiftIntoByte(x % 32);
    ((x % 32) * 8) % 256
  }

  /**
   * GREEN(x): the mask 255 is wider than the five-bit field, so it keeps
   * three bits of blue; shifting left by 3 pushes them past bit 7, and the
   * byte cast drops them (see GreenIgnoresBlueBits).
   */
  function Green(x: Bucket): (c: Byte)
    ensures c <= 248
  {
    ShiftIntoByte((x / 32) % 256);
    (((x / 32) % 256) * 8) % 256
  }

  /** BLUE(x): bits 10..14 shifted back up to a byte. */
  function Blue(x: Bucket): (c: Byte)
    ensures c <= 248
  {
    ShiftIntoByte((x / 1024) % 256);
    (((x / 1024) % 256) * 8) % 256
  }

  /** The decoded value of bucket `x` on `axis`: the sort key of compare(). */
  function Channel(axis: Axis, x: Bucket): (c: Byte)
    ensures c <= 248
    ensures axis == RedAxis ==> c == Red(x)
    ensures axis == GreenAxis ==> c == Green(x)
    ensures axis == BlueAxis ==> c == Blue(x)
  {
    match axis
    case RedAxis => Red(x)
    case GreenAxis => Green(x)
    case BlueAxis => Blue(x)
  }

  /** Truncation of a channel to its top five bits, as a byte. */
  function Truncated(c: Byte): (t: Byte)
    ensures t % 8 == 0 && t <= c < t + 8
  {
    c / 8 * 8
  }

  /**
   * RGB(r, g, b) for byte-range channels: blue in bits 10..14, green in
   * bits 5..9, red in bits 0..4. Decoding the result gives back each
   * channel truncated to its top five bits.
   */
  function Encode(r: Byte, g: Byte, b: Byte): (x: Bucket)
    ensures Red(x) == Truncated(r)
    ensures Green(x) == Truncated(g)
    ensures Blue(x) == Truncated(b)
  {
    EncodeFields(r, g, b);
    (b - b % 8) * 128 + (g - g % 8) * 4 + r / 8
  }

  lemma EncodeFields(r: Byte, g: Byte, b: Byte)
    ensures var x := (b - b % 8) * 128 + (g - g % 8) * 4 + r / 8;
      0 <= x < HSIZE &&
      Red(x) == Truncated(r) && Green(x) == Truncated(g) && Blue(x) == Truncated(b)
  {
    var x := (b - b % 8) * 128 + (g - g % 8) * 4 + r / 8;
    assert b - b % 8 == (b / 8) * 8 && g - g % 8 == (g / 8) * 8;
    assert x == ((b / 8) * 32 + g / 8) * 32 + r / 8;
    var rq, gq, bq := Fields(x);
    DivModUnique(x, 32, (b / 8) * 32 + g / 8, r / 8);
    DivModUnique(x / 32, 32, b / 8, g / 8);
  }

  /** The bit-vector form of the RGB macro, exactly as the header spells it. */
  function EncodeBits(r: bv16, g: bv16, b: bv16): bv16
  {
    ((b & !7) << 7) | ((g & !7) << 2) | (r >> 3)
  }

  /** Euclidean division is determined by any quotient/remainder pair. */
  lemma DivModUnique(x: int, d: int, q: int, r: int)
    requires d > 0 && 0 <= r < d && x == q * d + r
    ensures x / d == q && x % d == r
  {
    var q0, r0 := x / d, x % d;
    assert (q - q0) * d == q * d - q0 * d;
    if q > q0 {
      MulAtLeast(q - q0, d);
    } else if q < q0 {
      assert (q0 - q) * d == q0 * d - q * d;
      MulAtLeast(q0 - q, d);
    }
  }

  lemma MulAtLeast(a: int, d: int)
    requires a >= 1 && d > 0
    ensures a * d >= d
  {
    if a > 1 {
      MulAtLeast(a - 1, d);
      assert a * d == (a - 1) * d + d;
    }
  }

  /** `(z << 3)` cast to a byte keeps the low five bits of `z`, shifted. */
  lemma ShiftIntoByte(z: nat)
    ensures (z * 8) % 256 == (z % 32) * 8
    ensures ((z % 32) * 8) % 8 == 0 && (z % 32) * 8 <= 248
  {
    DivModUnique(z * 8, 256, z / 32, (z % 32) * 8);
    DivModUnique((z % 32) * 8, 8, z % 32, 0);
  }

  /**
   * The three five-bit fields of a bucket, and what each decoder returns
   * for them.
   */
  lemma Fields(x: Bucket) returns (rq: int, gq: int, bq: int)
    ensures 0 <= rq < 32 && 0 <= gq < 32 && 0 <= bq < 32
    ensures x == bq * 1024 + gq * 32 + rq
    ensures rq == x % 32 && gq == x / 32 % 32 && bq == x / 32 / 32
    ensures Red(x) == rq * 8 && Green(x) == gq * 8 && Blue(x) == bq * 8
  {
    var y := x / 32;
    rq, gq, bq := x % 32, y % 32, y / 32;
    DivModUnique(x, 1024, bq, gq * 32 + rq);
    DivModUnique(y, 256, bq / 8, (bq % 8) * 32 + gq);
    DivModUnique((bq % 8) * 32 + gq, 32, bq % 8, gq);
    ShiftIntoByte(x % 32);
    ShiftIntoByte(y % 256);
    ShiftIntoByte(bq);
    DivModUnique(bq, 256, 0, bq);
    DivModUnique(rq, 32, 0, rq);
  }

  /** The arithmetic Encode agrees with the bit-level macro on byte-range channels. */
  lemma EncodeMatchesBits(r: bv16, g: bv16, b: bv16)
    requires r < 256 && g < 256 && b < 256
    ensures 0 <= r as int < 256 && 0 <= g as int < 256 && 0 <= b as int < 256
    ensures EncodeBits(r, g, b) as int == Encode(r as int, g as int, b as int)
  {
    BitsAsQuotients(r, g, b);
    EncodeQuotients(r as int, g as int, b as int);
  }

  lemma BitsAsQuotients(r: bv16, g: bv16, b: bv16)
    requires r < 256 && g < 256 && b < 256
    ensures 0 <= r as int < 256 && 0 <= g as int < 256 && 0 <= b as int < 256
    ensures EncodeBits(r, g, b) as int == ((b as int) / 8) * 1024 + ((g as int) / 8) * 32 + (r as int) / 8
  {
    ShiftToInt(r);
    ShiftToInt(g);
    ShiftToInt(b);
    BitsAsFields(r, g, b);
    FieldsToInt(b >> 3, g >> 3, r >> 3);
  }

  lemma BitsAsFields(r: bv16, g: bv16, b: bv16)
    requires r < 256 && g < 256 && b < 256
    ensures EncodeBits(r, g, b) == (b >> 3) * 1024 + (g >> 3) * 32 + (r >> 3)
  {
  }

  lemma FieldsToInt(bq: bv16, gq: bv16, rq: bv16)
    requires bq < 32 && gq < 32 && rq < 32
    ensures (bq * 1024 + gq * 32 + rq) as int == (bq as int) * 1024 + (gq as int) * 32 + rq as int
  {
  }

  lemma EncodeQuotients(r: Byte, g: Byte, b: Byte)
    ensures Encode(r, g, b) == (b / 8) * 1024 + (g / 8) * 32 + r / 8
  {
    assert b - b % 8 == (b / 8) * 8 && g - g % 8 == (g / 8) * 8;
  }

  /** `x >> 3` on a byte-range bit-vector is integer division by 8. */
  lemma ShiftToInt(x: bv16)
    requires x < 256
    ensures 0 <= x as int < 256 && (x >> 3) < 32
    ensures (x >> 3) as int == (x as int) / 8
  {
    assert x == (x >> 3) * 8 + (x & 7) && (x >> 3) < 32 && (x & 7) < 8;
    assert x as int == ((x >> 3) as int) * 8 + (x & 7) as int;
    DivModUnique(x as int, 8, (x >> 3) as int, (x & 7) as int);
  }

  /** Decode-then-encode is the identity on every bucket. */
  lemma EncodeOfDecode(x: Bucket)
    ensures Encode(Red(x), Green(x), Blue(x)) == x
  {
    var rq, gq, bq := Fields(x);
    DivModUnique(rq * 8, 8, rq, 0);
    DivModUnique(gq * 8, 8, gq, 0);
    DivModUnique(bq * 8, 8, bq, 0);
  }

  /** Two colours share a bucket exactly when every channel agrees in its top five bits. */
  lemma EncodeSameBucket(r: Byte, g: Byte, b: Byte, r': Byte, g': Byte, b': Byte)
    ensures Encode(r, g, b) == Encode(r', g', b') <==>
              r / 8 == r' / 8 && g / 8 == g' / 8 && b / 8 == b' / 8
  {
  }

  /**
   * GREEN's wide mask: `(x >> 5) & 255` may hold blue bits (for x = 1024 it
   * is 32), but after the byte cast only the green field remains.
   */
  lemma GreenIgnoresBlueBits(x: Bucket)
    ensures Green(x) == (x / 32 % 32) * 8
    ensures Green(1024) == 0 && (1024 / 32) % 256 == 32
  {
    var rq, gq, bq := Fields(x);
    var rq', gq', bq' := Fields(1024);
  }

  /** Extent differences of decoded values never wrap in byte arithmetic. */
  lemma ExtentFitsByte(x: Bucket, y: Bucket, axis: Axis)
    requires Channel(axis, x) <= Channel(axis, y)
    ensures 0 <= Channel(axis, y) - Channel(axis, x) <= 248
    ensures (Channel(axis, y) - Channel(axis, x)) % 256 == Channel(axis, y) - Channel(axis, x)
  {
  }
}
