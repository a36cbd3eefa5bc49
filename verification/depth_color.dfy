/**
 The per-sample colouring of the depth sample (Kinect_Depth): a raw depth
 sample holds a player index in its low bits and a distance in the rest; the
 distance is classified against the depth stream's three sentinels and
 painted as one Bgr32 pixel.
 */
module DepthColor {
  import opened CSharpInt
  import opened Wrappers

  /** The depth stream's sentinels and the frame's player-index width. The
      vendor runtime supplies all four; none of them is fixed here. */
  datatype DepthSettings = DepthSettings(
    unknownDepth: int,
    tooNearDepth: int,
    tooFarDepth: int,
    playerIndexBitmaskWidth: int)

  /** The colour channels written for one pixel, in Bgr32 byte order. */
  datatype Bgr = Bgr(blue: Byte, green: Byte, red: Byte)

  /** The band a distance falls in; the sentinels are checked in the order
      unknown, too near, too far, so the first match wins. */
  datatype DepthBand = Unknown | TooNear | TooFar | Measured(distance: int)

  /** What a pixel shows: one fixed colour per sentinel, or a level written
      to the green and red channels only (a shade of yellow in Bgr32). */
  datatype Shade = Red | Green | Blue | Level(level: Byte)

  /** The distance of a raw sample: the signed sample shifted right past the
      player-index bits. */
  function Distance(raw: Int16, s: DepthSettings): (d: int)
    ensures raw < 0 <==> d < 0
    ensures 0 <= raw ==> 0 <= d <= raw
    ensures raw < 0 ==> raw <= d < 0
  {
    ShiftRightKeepsSign(raw, s.playerIndexBitmaskWidth);
    ShiftRight(raw, s.playerIndexBitmaskWidth)
  }

  function Classify(distance: int, s: DepthSettings): (b: DepthBand)
    ensures b == Unknown <==> distance == s.unknownDepth
    ensures b == TooNear <==> distance == s.tooNearDepth && distance != s.unknownDepth
    ensures b == TooFar <==>
      distance == s.tooFarDepth && distance != s.unknownDepth && distance != s.tooNearDepth
    ensures b.Measured? <==>
      distance != s.unknownDepth && distance != s.tooNearDepth && distance != s.tooFarDepth
    ensures b.Measured? ==> b.distance == distance
  {
    if distance == s.unknownDepth then Unknown
    else if distance == s.tooNearDepth then TooNear
    else if distance == s.tooFarDepth then TooFar
    else Measured(distance)
  }

  /** The distance a band stands for. */
  function BandDistance(b: DepthBand, s: DepthSettings): int {
    match b
    case Unknown => s.unknownDepth
    case TooNear => s.tooNearDepth
    case TooFar => s.tooFarDepth
    case Measured(d) => d
  }

  /* Classification loses no information: the band determines the distance. */
  lemma ClassifyInverse(distance: int, s: DepthSettings)
    ensures BandDistance(Classify(distance, s), s) == distance
  {
  }

  /** The channel level of a measured distance: `255 * distance` divided by
      the too-far sentinel with C# truncating division, then cast to a byte.
      Nothing clamps the quotient first. Between zero and the sentinel the
      level is the distance's share of the sentinel scaled to 0..254, rounded
      down. */
  function DepthLevel(distance: int, tooFarDepth: int): (c: Byte)
    requires tooFarDepth != 0
    ensures 0 < tooFarDepth && 0 <= distance < tooFarDepth ==>
              c < 255 && c * tooFarDepth <= 255 * distance < (c + 1) * tooFarDepth
  {
    var q := TruncDiv(255 * distance, tooFarDepth);
    if 0 < tooFarDepth && 0 <= distance < tooFarDepth then
      LevelQuotientInRange(distance, tooFarDepth);
      ToByte(q)
    else
      ToByte(q)
  }

  /* Between zero and the too-far sentinel the quotient is below 255. */
  lemma LevelQuotientInRange(distance: int, tooFarDepth: int)
    requires 0 < tooFarDepth
    requires 0 <= distance < tooFarDepth
    ensures 0 <= TruncDiv(255 * distance, tooFarDepth) < 255
  {
    var q := TruncDiv(255 * distance, tooFarDepth);
    TruncDivSign(255 * distance, tooFarDepth);
    if 255 <= q {
      MulMonotone(255, q, tooFarDepth);
      assert false;
    }
  }

  /* Between zero and the too-far sentinel the level is below 255: the
     truncating cast never wraps there. */
  lemma DepthLevelInRange(distance: int, tooFarDepth: int)
    requires 0 < tooFarDepth
    requires 0 <= distance < tooFarDepth
    ensures DepthLevel(distance, tooFarDepth) == TruncDiv(255 * distance, tooFarDepth)
    ensures 0 <= DepthLevel(distance, tooFarDepth) < 255
  {
    LevelQuotientInRange(distance, tooFarDepth);
  }

  /* Between zero and the too-far sentinel a farther distance is never darker. */
  lemma DepthLevelMonotone(d1: int, d2: int, tooFarDepth: int)
    requires 0 < tooFarDepth
    requires 0 <= d1 <= d2 < tooFarDepth
    ensures DepthLevel(d1, tooFarDepth) <= DepthLevel(d2, tooFarDepth)
  {
    DepthLevelInRange(d1, tooFarDepth);
    DepthLevelInRange(d2, tooFarDepth);
    TruncDivMonotone(255 * d1, 255 * d2, tooFarDepth);
  }

  /* There is no clamp: past the too-far sentinel the levels wrap, and
     distances 256 sentinel-widths apart get the same level. */
  lemma DepthLevelWraps(distance: int, tooFarDepth: int)
    requires 0 < tooFarDepth
    requires 0 <= distance
    ensures DepthLevel(distance + 0x100 * tooFarDepth, tooFarDepth) == DepthLevel(distance, tooFarDepth)
  {
    var a := 255 * distance;
    var q := TruncDiv(a, tooFarDepth);
    var a' := 255 * (distance + 0x100 * tooFarDepth);
    assert a' - (q + 255 * 0x100) * tooFarDepth == a - q * tooFarDepth;
    TruncDivUnique(a', tooFarDepth, q + 255 * 0x100);
    ToBytePeriodic(q, 255);
  }

  /* Division truncates toward zero: a small negative distance is painted
     black, where a floor division would have given 255. */
  lemma SmallNegativeIsBlack(distance: int, tooFarDepth: int)
    requires 0 < tooFarDepth
    requires distance < 0 && -255 * distance < tooFarDepth
    ensures DepthLevel(distance, tooFarDepth) == 0
    ensures (255 * distance) / tooFarDepth == -1
  {
    TruncDivUnique(255 * distance, tooFarDepth, 0);
  }

  /** Painting a shade; every shade is painted differently, so the shade can
      be read back off the pixel. */
  function Paint(sh: Shade): (px: Bgr)
    ensures ShadeOf(px) == Some(sh)
  {
    match sh
    case Red => Bgr(0, 0, 255)
    case Green => Bgr(0, 255, 0)
    case Blue => Bgr(255, 0, 0)
    case Level(c) => Bgr(0, c, c)
  }

  /** The shade a pixel shows, if it is one the conversion paints. */
  function ShadeOf(px: Bgr): Option<Shade> {
    if px == Bgr(0, 0, 255) then Some(Red)
    else if px == Bgr(0, 255, 0) then Some(Green)
    else if px == Bgr(255, 0, 0) then Some(Blue)
    else if px.blue == 0 && px.green == px.red then Some(Level(px.green))
    else None
  }

  /* Reading a shade back off a pixel and painting it gives the pixel again. */
  lemma ShadeOfSound(px: Bgr, sh: Shade)
    requires ShadeOf(px) == Some(sh)
    ensures Paint(sh) == px
  {
  }

  /** The shade of a band: each sentinel band has its own fixed colour, and
      only a measured distance gets a level, the level of that distance. */
  function BandShade(b: DepthBand, tooFarDepth: int): (sh: Shade)
    requires tooFarDepth != 0
    ensures sh == Red <==> b == Unknown
    ensures sh == Green <==> b == TooNear
    ensures sh == Blue <==> b == TooFar
    ensures sh.Level? <==> b.Measured?
    ensures sh.Level? ==> sh.level == DepthLevel(b.distance, tooFarDepth)
  {
    match b
    case Unknown => Red
    case TooNear => Green
    case TooFar => Blue
    case Measured(d) => Level(DepthLevel(d, tooFarDepth))
  }

  /** The pixel painted for one raw depth sample. */
  function PixelColor(raw: Int16, s: DepthSettings): (px: Bgr)
    requires s.tooFarDepth != 0
    ensures var d := Distance(raw, s);
      && (d == s.unknownDepth ==> px == Bgr(0, 0, 255))
      && (d != s.unknownDepth && d == s.tooNearDepth ==> px == Bgr(0, 255, 0))
      && (d != s.unknownDepth && d != s.tooNearDepth && d == s.tooFarDepth ==> px == Bgr(255, 0, 0))
      && (d != s.unknownDepth && d != s.tooNearDepth && d != s.tooFarDepth ==>
            px == Bgr(0, DepthLevel(d, s.tooFarDepth), DepthLevel(d, s.tooFarDepth)))
  {
    Paint(BandShade(Classify(Distance(raw, s), s), s.tooFarDepth))
  }

  /* A pixel shows a sentinel colour exactly when its distance is that
     sentinel (earlier sentinels winning), and a channel level exactly otherwise. */
  lemma PixelColorReveals(raw: Int16, s: DepthSettings)
    requires s.tooFarDepth != 0
    ensures var d := Distance(raw, s);
      && (ShadeOf(PixelColor(raw, s)) == Some(Red) <==> d == s.unknownDepth)
      && (ShadeOf(PixelColor(raw, s)) == Some(Green) <==> d != s.unknownDepth && d == s.tooNearDepth)
      && (ShadeOf(PixelColor(raw, s)) == Some(Blue) <==>
            d != s.unknownDepth && d != s.tooNearDepth && d == s.tooFarDepth)
      && (ShadeOf(PixelColor(raw, s)).Some? && ShadeOf(PixelColor(raw, s)).value.Level? <==>
            d != s.unknownDepth && d != s.tooNearDepth && d != s.tooFarDepth)
  {
    var d := Distance(raw, s);
    var b := Classify(d, s);
    assert PixelColor(raw, s) == Paint(BandShade(b, s.tooFarDepth));
  }

  /* No int overflow: for every 16-bit sample `255 * distance` fits in a C# int. */
  lemma LevelProductFitsInt32(raw: Int16, s: DepthSettings)
    ensures InInt32(255 * Distance(raw, s))
  {
  }

  /* A sample whose bits above a 3-bit player index are all zero is at
     distance 0; with the too-near sentinel 0 it is painted as too near. */
  lemma ExamplePlayerOnlySample()
    ensures PixelColor(0x0007, DepthSettings(-1, 0, 4095, 3)) == Bgr(0, 255, 0)
  {
    assert ArithShift(0, 0) == 0;
    assert ArithShift(1, 1) == 0;
    assert ArithShift(3, 2) == 0;
    assert ArithShift(7, 3) == 0;
  }
}
