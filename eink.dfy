/**
 * The alpha-threshold encoder of the weather server (`to_eink`): each pixel's alpha sample
 * is classified against strict thresholds and shifted, one bit per plane, into two byte
 * accumulators; a full byte is appended to its plane and the accumulator restarts.
 */
module Eink {
  import opened Bitplane

  /**
   * First-match classification on strict `>`: above 125 black, above 80 gray1, above 35
   * gray2, otherwise white.  A boundary value falls into the lighter bucket.
   */
  function Classify(sample: int): (l: Level)
    ensures InkBit(l) <==> sample > 80
    ensures ColorBit(l) <==> (sample > 125 || 35 < sample <= 80)
  {
    if sample > 125 then Black
    else if sample > 80 then Gray1
    else if sample > 35 then Gray2
    else White
  }

  /** A larger sample is never lighter. */
  lemma ClassifyMonotone(s: int, t: int)
    requires s <= t
    ensures Darkness(Classify(s)) <= Darkness(Classify(t))
  {
  }

  /** The boundary samples land in the lighter bucket. */
  lemma ClassifyBoundaries()
    ensures Classify(126) == Black && Classify(125) == Gray1
    ensures Classify(81) == Gray1 && Classify(80) == Gray2
    ensures Classify(36) == Gray2 && Classify(35) == White && Classify(0) == White
  {
  }

  /** The level of every sample, in order. */
  function Classified(samples: seq<int>): (r: seq<Level>)
    ensures |r| == |samples|
  {
    seq(|samples|, i requires 0 <= i < |samples| => Classify(samples[i]))
  }

  /**
   * One sample of `to_eink`'s loop: both accumulators shift left (`<<= 1` on a non-negative
   * Python int) and take the sample's bit of the ink and of the color plane.
   */
  method ShiftSample(pixel: int, blackByte: nat, colorByte: nat) returns (blackNext: nat, colorNext: nat)
    ensures blackNext == 2 * blackByte + (if pixel > 80 then 1 else 0)
    ensures colorNext == 2 * colorByte + (if pixel > 125 || 35 < pixel <= 80 then 1 else 0)
  {
    blackNext := blackByte * 2;
    colorNext := colorByte * 2;
    if pixel > 125 {
      blackNext := blackNext + 1;
      colorNext := colorNext + 1;
    } else if pixel > 80 {
      blackNext := blackNext + 1;
    } else if pixel > 35 {
      colorNext := colorNext + 1;
    }
  }

  /** The two plane bits of sample i, as thresholds on the sample. */
  lemma SampleBits(pixels: seq<int>, i: nat)
    requires i < |pixels|
    ensures InkBits(Classified(pixels))[i] == (pixels[i] > 80)
    ensures ColorBits(Classified(pixels))[i] == (pixels[i] > 125 || 35 < pixels[i] <= 80)
  {
  }

  /**
   * The encoding loop of `to_eink`, over the alpha samples that the image library yields
   * in row-major order.  The result is the ink plane followed by the color plane.
   */
  method ToEink(pixels: seq<int>) returns (out: seq<byte>)
    ensures out == Encode(Classified(pixels))
    ensures |out| == 2 * (|pixels| / 8)
  {
    ghost var ink := InkBits(Classified(pixels));
    ghost var col := ColorBits(Classified(pixels));
    var black: seq<byte> := [];
    var color: seq<byte> := [];
    var blackByte: nat := 0;
    var colorByte: nat := 0;
    var bit: nat := 0;
    StartEncoding(ink, col);
    for i := 0 to |pixels|
      invariant bit < 8
      invariant InProgress(ink, col, i, black, color, blackByte, colorByte, bit)
    {
      var pixel := pixels[i];
      SampleBits(pixels, i);
      var blackNext, colorNext := ShiftSample(pixel, blackByte, colorByte);
      black, color, blackByte, colorByte, bit :=
        CountAndFlush(ink, col, i, black, color, blackByte, colorByte, bit, blackNext, colorNext);
    }
    FinishEncoding(ink, col, black, color, blackByte, colorByte, bit);
    out := black + color;
  }

  /** The response body of the eink format, as a function of the alpha samples. */
  function EinkBody(pixels: seq<int>): (r: seq<byte>)
    ensures |r| == 2 * (|pixels| / 8)
  {
    Encode(Classified(pixels))
  }

  /**
   * Bit (7-j) of byte k of the ink plane is set iff sample 8k+j is above 80; the same
   * bit of the color plane is set iff that sample is above 125 or in 36..80.
   */
  lemma EinkBitLayout(pixels: seq<int>, k: nat, j: nat)
    requires k < |pixels| / 8 && j < 8
    ensures Bit(EinkBody(pixels)[k] as nat, 7 - j) <==> pixels[8 * k + j] > 80
    ensures Bit(EinkBody(pixels)[|pixels| / 8 + k] as nat, 7 - j) <==>
              (pixels[8 * k + j] > 125 || 35 < pixels[8 * k + j] <= 80)
  {
    var levels := Classified(pixels);
    PlaneBitAt(InkBits(levels), k, j);
    PlaneBitAt(ColorBits(levels), k, j);
    assert EinkBody(pixels)[k] == Plane(InkBits(levels))[k];
    assert EinkBody(pixels)[|pixels| / 8 + k] == Plane(ColorBits(levels))[k];
  }

  /**
   * Reading the body back pixel by pixel reproduces the classification of the first
   * 8 * (n / 8) samples, in order; the last n % 8 samples leave no trace.
   */
  lemma EinkRoundTrip(pixels: seq<int>)
    ensures Decode(EinkBody(pixels)) == Classified(pixels[..8 * (|pixels| / 8)])
  {
    DecodeEncode(Classified(pixels));
    assert Classified(pixels)[..8 * (|pixels| / 8)] == Classified(pixels[..8 * (|pixels| / 8)]);
  }
}
