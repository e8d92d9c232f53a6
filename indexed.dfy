/**
 * The older palette-index encoder (the root `server.py`): each pixel of a 4-color indexed
 * image is a palette index, compared for equality with the index constants; the two
 * planes are written out one after the other.
 */
module Indexed {
  import opened Bitplane

  const BLACK := 0
  const GRAY1 := 1
  const GRAY2 := 2
  const WHITE := 3

  /** Exact match on the palette index; any value other than 0, 1, 2 sets neither bit. */
  function PaletteLevel(p: int): (l: Level)
    ensures InkBit(l) <==> (p == BLACK || p == GRAY1)
    ensures ColorBit(l) <==> (p == BLACK || p == GRAY2)
  {
    if p == BLACK then Black
    else if p == GRAY1 then Gray1
    else if p == GRAY2 then Gray2
    else White
  }

  /** The palette index the display shows for a level. */
  function PaletteIndex(l: Level): (p: int)
    ensures BLACK <= p <= WHITE
    ensures PaletteLevel(p) == l
  {
    match l
    case Black => BLACK
    case Gray1 => GRAY1
    case Gray2 => GRAY2
    case White => WHITE
  }

  /** The level of every pixel, in order. */
  function PaletteLevels(pixels: seq<int>): (r: seq<Level>)
    ensures |r| == |pixels|
  {
    seq(|pixels|, i requires 0 <= i < |pixels| => PaletteLevel(pixels[i]))
  }

  /** The two plane bits of pixel i, as equalities with the palette indices. */
  lemma IndexBits(pixels: seq<int>, i: nat)
    requires i < |pixels|
    ensures InkBits(PaletteLevels(pixels))[i] == (pixels[i] == BLACK || pixels[i] == GRAY1)
    ensures ColorBits(PaletteLevels(pixels))[i] == (pixels[i] == BLACK || pixels[i] == GRAY2)
  {
  }

  /** One pixel of the loop: both accumulators shift left and take the pixel's plane bits. */
  method ShiftIndex(p: int, blackByte: nat, colorByte: nat) returns (blackNext: nat, colorNext: nat)
    ensures blackNext == 2 * blackByte + (if p == BLACK || p == GRAY1 then 1 else 0)
    ensures colorNext == 2 * colorByte + (if p == BLACK || p == GRAY2 then 1 else 0)
  {
    blackNext := blackByte * 2;
    colorNext := colorByte * 2;
    if p == BLACK {
      blackNext := blackNext + 1;
      colorNext := colorNext + 1;
    } else if p == GRAY1 {
      blackNext := blackNext + 1;
    } else if p == GRAY2 {
      colorNext := colorNext + 1;
    }
  }

  /** The encoding loop of `do_GET`, over the flat pixel indices of the image. */
  method EncodeIndexed(pixels: seq<int>) returns (black: seq<byte>, color: seq<byte>)
    ensures black == Plane(InkBits(PaletteLevels(pixels)))
    ensures color == Plane(ColorBits(PaletteLevels(pixels)))
    ensures |black| == |color| == |pixels| / 8
    ensures black + color == Encode(PaletteLevels(pixels))
  {
    ghost var ink := InkBits(PaletteLevels(pixels));
    ghost var col := ColorBits(PaletteLevels(pixels));
    black := [];
    color := [];
    var blackByte: nat := 0;
    var colorByte: nat := 0;
    var bit: nat := 0;
    StartEncoding(ink, col);
    for i := 0 to |pixels|
      invariant bit < 8
      invariant InProgress(ink, col, i, black, color, blackByte, colorByte, bit)
    {
      var p := pixels[i];
      IndexBits(pixels, i);
      var blackNext, colorNext := ShiftIndex(p, blackByte, colorByte);
      black, color, blackByte, colorByte, bit :=
        CountAndFlush(ink, col, i, black, color, blackByte, colorByte, bit, blackNext, colorNext);
    }
    FinishEncoding(ink, col, black, color, blackByte, colorByte, bit);
  }

  /** What the handler writes: the black plane, then the color plane. */
  function IndexedBody(pixels: seq<int>): (r: seq<byte>)
    ensures |r| == 2 * (|pixels| / 8)
  {
    Encode(PaletteLevels(pixels))
  }

  /** Bit (7-j) of byte k of each plane is the corresponding bit of pixel 8k+j. */
  lemma IndexedBitLayout(pixels: seq<int>, k: nat, j: nat)
    requires k < |pixels| / 8 && j < 8
    ensures Bit(IndexedBody(pixels)[k] as nat, 7 - j) <==>
              (pixels[8 * k + j] == BLACK || pixels[8 * k + j] == GRAY1)
    ensures Bit(IndexedBody(pixels)[|pixels| / 8 + k] as nat, 7 - j) <==>
              (pixels[8 * k + j] == BLACK || pixels[8 * k + j] == GRAY2)
  {
    var levels := PaletteLevels(pixels);
    PlaneBitAt(InkBits(levels), k, j);
    PlaneBitAt(ColorBits(levels), k, j);
    assert IndexedBody(pixels)[k] == Plane(InkBits(levels))[k];
    assert IndexedBody(pixels)[|pixels| / 8 + k] == Plane(ColorBits(levels))[k];
  }

  /** The palette index of every pixel the display reads back from a body. */
  function DecodeIndices(body: seq<byte>): (r: seq<int>)
    ensures |r| == 8 * (|body| / 2)
  {
    var levels := Decode(body);
    seq(|levels|, i requires 0 <= i < |levels| => PaletteIndex(levels[i]))
  }

  /**
   * For a picture whose indices are all in 0..3, reading back the body gives the
   * original index of each of the first 8 * (n / 8) pixels.
   */
  lemma IndexedRoundTrip(pixels: seq<int>)
    requires forall i :: 0 <= i < |pixels| ==> BLACK <= pixels[i] <= WHITE
    ensures DecodeIndices(IndexedBody(pixels)) == pixels[..8 * (|pixels| / 8)]
  {
    var levels := PaletteLevels(pixels);
    DecodeEncode(levels);
    var r := DecodeIndices(IndexedBody(pixels));
    forall i | 0 <= i < 8 * (|pixels| / 8)
      ensures r[i] == pixels[i]
    {
      assert Decode(IndexedBody(pixels))[i] == levels[i];
    }
  }

  /** An index outside the palette is shown as white. */
  lemma OutOfPaletteIsWhite(p: int)
    requires p < BLACK || p > GRAY2
    ensures PaletteLevel(p) == White && PaletteIndex(PaletteLevel(p)) == WHITE
  {
  }
}
