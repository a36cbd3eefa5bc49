/**
 The Bgr32 image built from one depth frame (Kinect_Depth): four bytes per
 sample, blue, green and red followed by an unused byte that stays zero.
 */
module DepthImage {
  import opened CSharpInt
  import opened DepthColor

  const Bgr32BitsPerPixel: nat := 32

  /** Bytes per Bgr32 pixel: the format's bits per pixel over eight. */
  const Bgr32BytesPerPixel: nat := 4

  /* A note on the constant above: Bgr32's 32 bits per pixel over eight
     bits per byte. */
  lemma BytesPerPixelFromBits()
    ensures Bgr32BytesPerPixel == Bgr32BitsPerPixel / 8
  {
  }

  /** The four bytes of one pixel; reading them back gives the pixel. */
  function PixelBytes(px: Bgr): (bs: seq<Byte>)
    ensures |bs| == Bgr32BytesPerPixel
    ensures bs[3] == 0
    ensures PixelAt(bs, 0) == px
  {
    [px.blue, px.green, px.red, 0]
  }

  /** The pixel stored at pixel index i of a Bgr32 buffer. */
  function PixelAt(bytes: seq<Byte>, i: nat): Bgr
    requires Bgr32BytesPerPixel * (i + 1) <= |bytes|
  {
    var k := Bgr32BytesPerPixel * i;
    Bgr(bytes[k], bytes[k + 1], bytes[k + 2])
  }

  /** The image of a sequence of depth samples: their pixels, in order. */
  function FrameBytes(samples: seq<Int16>, s: DepthSettings): (bytes: seq<Byte>)
    requires s.tooFarDepth != 0
    ensures |bytes| == Bgr32BytesPerPixel * |samples|
  {
    if |samples| == 0 then []
    else FrameBytes(samples[..|samples| - 1], s) + PixelBytes(PixelColor(samples[|samples| - 1], s))
  }

  /* The layout of the image: pixel i occupies bytes 4i to 4i+3, holds the
     colour of sample i, and its fourth byte is zero. */
  lemma {:induction false} FrameBytesLayout(samples: seq<Int16>, s: DepthSettings)
    requires s.tooFarDepth != 0
    ensures forall i :: 0 <= i < |samples| ==>
      PixelAt(FrameBytes(samples, s), i) == PixelColor(samples[i], s)
    ensures forall i :: 0 <= i < |samples| ==>
      FrameBytes(samples, s)[Bgr32BytesPerPixel * i + 3] == 0
  {
    if |samples| > 0 {
      var init := samples[..|samples| - 1];
      FrameBytesLayout(init, s);
      var bytes := FrameBytes(samples, s);
      assert bytes == FrameBytes(init, s) + PixelBytes(PixelColor(samples[|samples| - 1], s));
      forall i | 0 <= i < |samples|
        ensures PixelAt(bytes, i) == PixelColor(samples[i], s)
        ensures bytes[Bgr32BytesPerPixel * i + 3] == 0
      {
        if i < |init| {
          assert samples[i] == init[i];
          assert PixelAt(bytes, i) == PixelAt(FrameBytes(init, s), i);
        }
      }
    }
  }

  /** Reads every pixel back out of a Bgr32 buffer. */
  function DecodeFrame(bytes: seq<Byte>): (pixels: seq<Bgr>)
    requires |bytes| % Bgr32BytesPerPixel == 0
    ensures |pixels| == |bytes| / Bgr32BytesPerPixel
  {
    seq(|bytes| / Bgr32BytesPerPixel, i requires 0 <= i < |bytes| / Bgr32BytesPerPixel => PixelAt(bytes, i))
  }

  /* Decoding the image gives back the colour of every sample, in order. */
  lemma {:induction false} DecodeFrameBytes(samples: seq<Int16>, s: DepthSettings)
    requires s.tooFarDepth != 0
    ensures |DecodeFrame(FrameBytes(samples, s))| == |samples|
    ensures forall i :: 0 <= i < |samples| ==> DecodeFrame(FrameBytes(samples, s))[i] == PixelColor(samples[i], s)
  {
    FrameBytesLayout(samples, s);
    var bytes := FrameBytes(samples, s);
    var pixels := DecodeFrame(bytes);
    assert |bytes| / Bgr32BytesPerPixel == |samples|;
    forall i | 0 <= i < |samples|
      ensures pixels[i] == PixelColor(samples[i], s)
    {
      assert pixels[i] == PixelAt(bytes, i);
    }
  }

  /* Pixel i depends on sample i alone: two frames that agree on a sample
     agree on its pixel, whatever their other samples are. */
  lemma {:induction false} PixelDependsOnItsSampleOnly(xs: seq<Int16>, ys: seq<Int16>, i: nat, s: DepthSettings)
    requires s.tooFarDepth != 0
    requires i < |xs| && i < |ys|
    requires xs[i] == ys[i]
    ensures PixelAt(FrameBytes(xs, s), i) == PixelAt(FrameBytes(ys, s), i)
  {
    FrameBytesLayout(xs, s);
    FrameBytesLayout(ys, s);
  }

  /* Appending a sample appends its pixel. */
  lemma FrameBytesSnoc(samples: seq<Int16>, x: Int16, s: DepthSettings)
    requires s.tooFarDepth != 0
    ensures FrameBytes(samples + [x], s) == FrameBytes(samples, s) + PixelBytes(PixelColor(x, s))
  {
    assert (samples + [x])[..|samples|] == samples;
  }

  /** n zero bytes: the unwritten tail of a freshly allocated buffer. */
  function Zeros(n: nat): (z: seq<Byte>)
    ensures |z| == n
    ensures forall k :: 0 <= k < n ==> z[k] == 0
  {
    seq(n, _ => 0)
  }

  /* Writing a pixel's three channels just past a filled prefix, over zeros,
     appends that pixel (whose fourth byte is the untouched zero). */
  lemma PixelWritten(prefix: seq<Byte>, px: Bgr, m: nat)
    requires Bgr32BytesPerPixel <= m
    ensures var k := |prefix|;
      (prefix + Zeros(m))[k := px.blue][k + 1 := px.green][k + 2 := px.red]
        == (prefix + PixelBytes(px)) + Zeros(m - Bgr32BytesPerPixel)
  {
  }

  /* The pixel slot of a sample lies inside the buffer. */
  lemma PixelSlotInBounds(i: nat, n: nat)
    requires i < n
    ensures i * Bgr32BytesPerPixel + Bgr32BytesPerPixel <= Bgr32BytesPerPixel * n
  {
  }

  /* One iteration of the conversion loop: writing the channels of pixel i
     into a buffer that holds the first i pixels followed by zeros yields a
     buffer that holds the first i + 1 pixels followed by zeros. */
  lemma {:induction false} ConversionStep(samples: seq<Int16>, i: nat, s: DepthSettings, before: seq<Byte>, after: seq<Byte>)
    requires s.tooFarDepth != 0
    requires i < |samples|
    requires before == FrameBytes(samples[..i], s) + Zeros(Bgr32BytesPerPixel * (|samples| - i))
    requires var px := PixelColor(samples[i], s);
      var k := i * Bgr32BytesPerPixel;
      after == before[k := px.blue][k + 1 := px.green][k + 2 := px.red]
    ensures after == FrameBytes(samples[..i + 1], s) + Zeros(Bgr32BytesPerPixel * (|samples| - (i + 1)))
  {
    var px := PixelColor(samples[i], s);
    var filled := FrameBytes(samples[..i], s);
    var rest := Bgr32BytesPerPixel * (|samples| - i);
    PixelWritten(filled, px, rest);
    assert samples[..i + 1] == samples[..i] + [samples[i]];
    FrameBytesSnoc(samples[..i], samples[i], s);
  }

  /** Stores the blue, green and red bytes of the pixel starting at k. */
  method WriteChannels(depthColor: array<Byte>, k: nat, blue: Byte, green: Byte, red: Byte)
    requires k + 2 < depthColor.Length
    modifies depthColor
    ensures depthColor[..] == old(depthColor[..])[k := blue][k + 1 := green][k + 2 := red]
  {
    depthColor[k] := blue;
    depthColor[k + 1] := green;
    depthColor[k + 2] := red;
  }

  /** One iteration's body: the sample's distance is classified by the
      if/else chain (unknown, too near, too far, otherwise a channel level)
      and the chosen channels are stored at `colorIndex`. */
  method WritePixel(depthColor: array<Byte>, colorIndex: nat, raw: Int16, s: DepthSettings)
    requires s.tooFarDepth != 0
    requires colorIndex + 2 < depthColor.Length
    modifies depthColor
    ensures var px := PixelColor(raw, s);
      depthColor[..] == old(depthColor[..])[colorIndex := px.blue][colorIndex + 1 := px.green][colorIndex + 2 := px.red]
  {
    var distance := ShiftRight(raw, s.playerIndexBitmaskWidth);
    ghost var px := PixelColor(raw, s);
    assert distance == Distance(raw, s);

    if distance == s.unknownDepth {
      WriteChannels(depthColor, colorIndex, 0, 0, 255);
      assert px == Bgr(0, 0, 255);
    } else if distance == s.tooNearDepth {
      WriteChannels(depthColor, colorIndex, 0, 255, 0);
      assert px == Bgr(0, 255, 0);
    } else if distance == s.tooFarDepth {
      WriteChannels(depthColor, colorIndex, 255, 0, 0);
      assert px == Bgr(255, 0, 0);
    } else {
      var color := ToByte(TruncDiv(255 * distance, s.tooFarDepth));
      WriteChannels(depthColor, colorIndex, 0, color, color);
      assert px == Bgr(0, color, color);
    }
  }

  /** The conversion as the window performs it: a zero-filled byte array of
      four bytes per sample, filled one pixel at a time. */
  method ConvertDepthToColorImage(depthPixel: array<Int16>, s: DepthSettings) returns (depthColor: array<Byte>)
    requires s.tooFarDepth != 0
    ensures depthColor.Length == Bgr32BytesPerPixel * depthPixel.Length
    ensures depthColor[..] == FrameBytes(depthPixel[..], s)
  {
    depthColor := new Byte[depthPixel.Length * Bgr32BytesPerPixel](_ => 0);
    assert depthColor[..] == FrameBytes([], s) + Zeros(depthColor.Length);
    var index := 0;
    while index < depthPixel.Length
      invariant 0 <= index <= depthPixel.Length
      invariant depthColor.Length == Bgr32BytesPerPixel * depthPixel.Length
      invariant depthColor[..]
        == FrameBytes(depthPixel[..index], s) + Zeros(Bgr32BytesPerPixel * (depthPixel.Length - index))
    {
      var colorIndex := index * Bgr32BytesPerPixel;
      PixelSlotInBounds(index, depthPixel.Length);
      ghost var before: seq<Byte> := depthColor[..];
      WritePixel(depthColor, colorIndex, depthPixel[index], s);
      ConversionStep(depthPixel[..], index, s, before, depthColor[..]);
      index := index + 1;
    }
    assert depthPixel[..depthPixel.Length] == depthPixel[..];
  }

  /* The buffer handed to the bitmap matches its declared geometry: a frame
     of width * height samples yields height rows of `width * 4` bytes. */
  lemma BufferMatchesStride(samples: seq<Int16>, width: nat, height: nat, s: DepthSettings)
    requires s.tooFarDepth != 0
    requires |samples| == width * height
    ensures |FrameBytes(samples, s)| == (width * Bgr32BytesPerPixel) * height
  {
    calc {
      Bgr32BytesPerPixel * (width * height);
      (Bgr32BytesPerPixel * width) * height;
      (width * Bgr32BytesPerPixel) * height;
    }
  }
}
