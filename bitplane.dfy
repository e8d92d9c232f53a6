/**
 * The two-plane 1-bit format of the 4-tone e-paper display, shared by both encoders.
 *
 * A pixel has one of four levels.  Each level is a pair of bits: the ink ("black") bit and
 * the color bit; both 1 is black, both 0 is white, 1/0 is gray1 and 0/1 is gray2.  Each
 * plane packs one bit per pixel, eight pixels per byte, most significant bit first, and
 * only complete bytes are emitted.  The encoded body is the ink plane followed directly by
 * the color plane.
 */
module Bitplane {

  /** A value a Python `bytearray` accepts. */
  newtype byte = x: int | 0 <= x < 256

  function Pow2(k: nat): (r: nat)
    ensures r >= 1
  {
    if k == 0 then 1 else 2 * Pow2(k - 1)
  }

  /** Bit `pos` of `x`, counted from the least significant bit: `(x >> pos) & 1 == 1`. */
  function Bit(x: nat, pos: nat): bool
  {
    if pos == 0 then x % 2 == 1 else Bit(x / 2, pos - 1)
  }

  /** The four tones of the display, from darkest to lightest. */
  datatype Level = Black | Gray1 | Gray2 | White

  /** Darkness rank: White 0 up to Black 3. */
  function Darkness(l: Level): nat
  {
    match l
    case White => 0
    case Gray2 => 1
    case Gray1 => 2
    case Black => 3
  }

  /** The ink-plane bit of a level. */
  function InkBit(l: Level): bool
  {
    l == Black || l == Gray1
  }

  /** The color-plane bit of a level. */
  function ColorBit(l: Level): bool
  {
    l == Black || l == Gray2
  }

  /** The display's reading of a bit pair: the inverse of (InkBit, ColorBit). */
  function LevelOf(ink: bool, color: bool): (l: Level)
    ensures InkBit(l) == ink && ColorBit(l) == color
  {
    if ink && color then Black
    else if ink then Gray1
    else if color then Gray2
    else White
  }

  /** Every level is recovered from its two bits. */
  lemma LevelBitsRoundTrip(l: Level)
    ensures LevelOf(InkBit(l), ColorBit(l)) == l
  {
  }

  /**
   * The value of an accumulator into which `bits` were shifted one at a time, starting
   * from 0: each step doubles it and adds the new bit.
   */
  function PackBits(bits: seq<bool>): (r: nat)
    ensures r < Pow2(|bits|)
  {
    if bits == [] then 0
    else 2 * PackBits(bits[..|bits| - 1]) + (if bits[|bits| - 1] then 1 else 0)
  }

  /** The j-th bit shifted in sits at position |bits|-1-j of the accumulator. */
  lemma {:induction false} PackBitsAt(bits: seq<bool>, j: nat)
    requires j < |bits|
    ensures Bit(PackBits(bits), |bits| - 1 - j) == bits[j]
  {
    var init := bits[..|bits| - 1];
    var q := PackBits(init);
    var c := if bits[|bits| - 1] then 1 else 0;
    assert PackBits(bits) == 2 * q + c;
    if j == |bits| - 1 {
      assert (2 * q + c) % 2 == c;
    } else {
      assert (2 * q + c) / 2 == q;
      PackBitsAt(init, j);
      assert init[j] == bits[j];
    }
  }

  /** Shifting in one more bit doubles the accumulator and adds that bit. */
  lemma PackBitsSnoc(bits: seq<bool>, lo: nat, i: nat)
    requires lo <= i < |bits|
    ensures PackBits(bits[lo .. i + 1]) == 2 * PackBits(bits[lo .. i]) + (if bits[i] then 1 else 0)
    ensures Pow2(i + 1 - lo) == 2 * Pow2(i - lo)
  {
    assert bits[lo .. i + 1][..i - lo] == bits[lo .. i];
  }

  /** Byte k of the plane of `bits`: the eight bits 8k .. 8k+7 packed MSB first. */
  function PlaneByte(bits: seq<bool>, k: nat): byte
    requires 8 * k + 8 <= |bits|
  {
    assert Pow2(8) == 256;
    PackBits(bits[8 * k .. 8 * k + 8]) as byte
  }

  /** A full accumulator is the next byte of the plane. */
  lemma PlaneByteIsPacked(bits: seq<bool>, k: nat)
    requires 8 * k + 8 <= |bits|
    ensures PackBits(bits[8 * k .. 8 * k + 8]) < 256
    ensures PlaneByte(bits, k) as nat == PackBits(bits[8 * k .. 8 * k + 8])
  {
    assert Pow2(8) == 256;
  }

  /** A plane: one byte per complete group of eight bits; the trailing |bits| % 8 are dropped. */
  function Plane(bits: seq<bool>): (r: seq<byte>)
    ensures |r| == |bits| / 8
  {
    seq(|bits| / 8, k requires 0 <= k < |bits| / 8 => PlaneByte(bits, k))
  }

  /**
   * The state of an encoding loop after `i` pixels: the planes hold the complete bytes,
   * and each accumulator holds the `bit` bits shifted in since the last full byte.
   * `bit` may be 8 between the last shift and the flush.
   */
  ghost predicate InProgress(ink: seq<bool>, col: seq<bool>, i: nat, black: seq<byte>, color: seq<byte>,
                             blackByte: nat, colorByte: nat, bit: nat)
  {
    |ink| == |col| && i <= |ink| && bit <= 8 && i == 8 * |black| + bit && |color| == |black| &&
    black == Plane(ink[..8 * |black|]) && color == Plane(col[..8 * |color|]) &&
    blackByte == PackBits(ink[i - bit .. i]) && blackByte < Pow2(bit) &&
    colorByte == PackBits(col[i - bit .. i]) && colorByte < Pow2(bit)
  }

  /** Nothing has been encoded yet. */
  lemma StartEncoding(ink: seq<bool>, col: seq<bool>)
    requires |ink| == |col|
    ensures InProgress(ink, col, 0, [], [], 0, 0, 0)
  {
  }

  /** Shifting pixel i's two bits into the accumulators advances the state by one pixel. */
  lemma ShiftPixel(ink: seq<bool>, col: seq<bool>, i: nat, black: seq<byte>, color: seq<byte>,
                   blackByte: nat, colorByte: nat, bit: nat, blackNext: nat, colorNext: nat)
    requires InProgress(ink, col, i, black, color, blackByte, colorByte, bit)
    requires bit < 8 && i < |ink|
    requires blackNext == 2 * blackByte + (if ink[i] then 1 else 0)
    requires colorNext == 2 * colorByte + (if col[i] then 1 else 0)
    ensures InProgress(ink, col, i + 1, black, color, blackNext, colorNext, bit + 1)
  {
    ShiftPlane(ink, i, bit, blackByte, blackNext);
    ShiftPlane(col, i, bit, colorByte, colorNext);
  }

  /** One plane of ShiftPixel: the accumulator with bit i shifted in packs one more bit. */
  lemma ShiftPlane(bits: seq<bool>, i: nat, bit: nat, acc: nat, next: nat)
    requires bit <= i < |bits|
    requires acc == PackBits(bits[i - bit .. i]) && acc < Pow2(bit)
    requires next == 2 * acc + (if bits[i] then 1 else 0)
    ensures next == PackBits(bits[i + 1 - (bit + 1) .. i + 1]) && next < Pow2(bit + 1)
  {
    PackBitsSnoc(bits, i - bit, i);
  }

  /** After 8 shifts both accumulators are bytes; appending them and resetting keeps the state. */
  lemma FlushBytes(ink: seq<bool>, col: seq<bool>, i: nat, black: seq<byte>, color: seq<byte>,
                   blackByte: nat, colorByte: nat, bit: nat)
    requires InProgress(ink, col, i, black, color, blackByte, colorByte, bit) && bit == 8
    ensures blackByte < 256 && colorByte < 256
    ensures InProgress(ink, col, i, black + [blackByte as byte], color + [colorByte as byte], 0, 0, 0)
  {
    FlushPlane(ink, i, black, blackByte);
    FlushPlane(col, i, color, colorByte);
  }

  /** A full accumulator of one plane is its next byte. */
  lemma FlushPlane(bits: seq<bool>, i: nat, plane: seq<byte>, acc: nat)
    requires i == 8 * |plane| + 8 && i <= |bits|
    requires plane == Plane(bits[..8 * |plane|]) && acc == PackBits(bits[i - 8 .. i])
    ensures acc < 256 && plane + [acc as byte] == Plane(bits[..i])
  {
    PlaneByteIsPacked(bits, |plane|);
    PlaneExtend(bits, |plane|);
  }

  /** The plane of a prefix with one more complete byte is one byte longer. */
  lemma PlaneExtend(bits: seq<bool>, n: nat)
    requires 8 * n + 8 <= |bits|
    ensures Plane(bits[..8 * n + 8]) == Plane(bits[..8 * n]) + [PlaneByte(bits, n)]
  {
    forall k | 0 <= k <= n
      ensures PlaneByte(bits[..8 * n + 8], k) == PlaneByte(bits, k)
    {
      assert bits[..8 * n + 8][8 * k .. 8 * k + 8] == bits[8 * k .. 8 * k + 8];
    }
    forall k | 0 <= k < n
      ensures PlaneByte(bits[..8 * n], k) == PlaneByte(bits, k)
    {
      assert bits[..8 * n][8 * k .. 8 * k + 8] == bits[8 * k .. 8 * k + 8];
    }
  }

  /**
   * The end of a pixel in both encoders, given the accumulators with its bits shifted in:
   * the bit counter advances, and after the eighth bit both accumulators are appended to
   * their planes and reset.  Either way the state is that of `i + 1` pixels with a partial
   * byte of fewer than eight bits.
   */
  method CountAndFlush(ghost ink: seq<bool>, ghost col: seq<bool>, ghost i: nat,
                       black: seq<byte>, color: seq<byte>, blackByte: nat, colorByte: nat, bit: nat,
                       blackNext: nat, colorNext: nat)
    returns (newBlack: seq<byte>, newColor: seq<byte>, newBlackByte: nat, newColorByte: nat, newBit: nat)
    requires InProgress(ink, col, i, black, color, blackByte, colorByte, bit)
    requires bit < 8 && i < |ink|
    requires blackNext == 2 * blackByte + (if ink[i] then 1 else 0)
    requires colorNext == 2 * colorByte + (if col[i] then 1 else 0)
    ensures newBit < 8 && InProgress(ink, col, i + 1, newBlack, newColor, newBlackByte, newColorByte, newBit)
    ensures bit < 7 ==> newBlack == black && newColor == color && newBit == bit + 1
    ensures bit == 7 ==> |newBlack| == |black| + 1 && |newColor| == |color| + 1 && newBit == 0
  {
    ShiftPixel(ink, col, i, black, color, blackByte, colorByte, bit, blackNext, colorNext);
    newBlack, newColor, newBlackByte, newColorByte, newBit := black, color, blackNext, colorNext, bit + 1;
    if newBit == 8 {
      FlushBytes(ink, col, i + 1, black, color, blackNext, colorNext, newBit);
      newBit := 0;
      newBlack := black + [blackNext as byte];
      newColor := color + [colorNext as byte];
      newBlackByte := 0;
      newColorByte := 0;
    }
  }

  /** Only the complete bytes of the input make up its plane. */
  lemma PlaneOfCompleteBytes(bits: seq<bool>)
    ensures Plane(bits[..8 * (|bits| / 8)]) == Plane(bits)
  {
    var n := |bits| / 8;
    forall k | 0 <= k < n
      ensures PlaneByte(bits[..8 * n], k) == PlaneByte(bits, k)
    {
      assert bits[..8 * n][8 * k .. 8 * k + 8] == bits[8 * k .. 8 * k + 8];
    }
  }

  /** Once every pixel is consumed, the planes are complete and the partial byte is dropped. */
  lemma FinishEncoding(ink: seq<bool>, col: seq<bool>, black: seq<byte>, color: seq<byte>,
                       blackByte: nat, colorByte: nat, bit: nat)
    requires InProgress(ink, col, |ink|, black, color, blackByte, colorByte, bit)
    requires bit < 8
    ensures black == Plane(ink) && color == Plane(col)
  {
    assert |black| == |ink| / 8;
    PlaneOfCompleteBytes(ink);
    PlaneOfCompleteBytes(col);
  }

  /** The ink bit of every pixel, in order. */
  function InkBits(levels: seq<Level>): (r: seq<bool>)
    ensures |r| == |levels|
  {
    seq(|levels|, i requires 0 <= i < |levels| => InkBit(levels[i]))
  }

  /** The color bit of every pixel, in order. */
  function ColorBits(levels: seq<Level>): (r: seq<bool>)
    ensures |r| == |levels|
  {
    seq(|levels|, i requires 0 <= i < |levels| => ColorBit(levels[i]))
  }

  /** The encoded body: the ink plane, then the color plane, with no separator. */
  function Encode(levels: seq<Level>): (r: seq<byte>)
    ensures |r| == 2 * (|levels| / 8)
    ensures r[..|levels| / 8] == Plane(InkBits(levels))
    ensures r[|levels| / 8..] == Plane(ColorBits(levels))
  {
    Plane(InkBits(levels)) + Plane(ColorBits(levels))
  }

  /** Bit (7-j) of byte k of a plane is the bit of pixel 8k+j. */
  lemma PlaneBitAt(bits: seq<bool>, k: nat, j: nat)
    requires k < |bits| / 8 && j < 8
    ensures Bit(Plane(bits)[k] as nat, 7 - j) == bits[8 * k + j]
  {
    var chunk := bits[8 * k .. 8 * k + 8];
    PackBitsAt(chunk, j);
    assert chunk[j] == bits[8 * k + j];
  }

  /** Reads a plane back into its bits, MSB first within each byte. */
  function Unpack(plane: seq<byte>): (bits: seq<bool>)
    ensures |bits| == 8 * |plane|
  {
    seq(8 * |plane|, i requires 0 <= i < 8 * |plane| => Bit(plane[i / 8] as nat, 7 - i % 8))
  }

  /** Unpacking a plane gives back every bit that went into a complete byte. */
  lemma UnpackPlane(bits: seq<bool>)
    ensures Unpack(Plane(bits)) == bits[..8 * (|bits| / 8)]
  {
    var p := Plane(bits);
    forall i | 0 <= i < 8 * (|bits| / 8)
      ensures Unpack(p)[i] == bits[i]
    {
      PlaneBitAt(bits, i / 8, i % 8);
    }
  }

  /** Pairs up the bits of the two planes into levels. */
  function Levels(ink: seq<bool>, col: seq<bool>): (levels: seq<Level>)
    requires |ink| == |col|
    ensures |levels| == |ink|
  {
    seq(|ink|, i requires 0 <= i < |ink| => LevelOf(ink[i], col[i]))
  }

  /**
   * The display's reading of an encoded body: the first half is the ink plane, the second
   * the color plane, and pixel i is the level of its two bits.
   */
  function Decode(body: seq<byte>): (levels: seq<Level>)
    ensures |levels| == 8 * (|body| / 2)
  {
    var h := |body| / 2;
    Levels(Unpack(body[..h]), Unpack(body[h..2 * h]))
  }

  /** Decoding the encoded body reproduces the level of every pixel of a complete byte, in order. */
  lemma DecodeEncode(levels: seq<Level>)
    ensures Decode(Encode(levels)) == levels[..8 * (|levels| / 8)]
  {
    var body := Encode(levels);
    var h := |levels| / 8;
    assert |body| / 2 == h;
    assert body[..h] == Plane(InkBits(levels));
    assert body[h..2 * h] == Plane(ColorBits(levels));
    UnpackPlane(InkBits(levels));
    UnpackPlane(ColorBits(levels));
    var ink := InkBits(levels)[..8 * h];
    var col := ColorBits(levels)[..8 * h];
    forall i | 0 <= i < 8 * h
      ensures Levels(ink, col)[i] == levels[i]
    {
      LevelBitsRoundTrip(levels[i]);
    }
  }
}
