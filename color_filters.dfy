// The per-sample and per-pixel kernels of src/filter.c: invert, brightness,
// contrast, grayscale and sepia. Each overwrites the image in place; each has
// one loop whose iterations the `use_thread` mode either runs in ascending
// order or hands to the OpenMP team (any order, each iteration once). The
// float weights are exact rationals here and `(unsigned char)` / `(int)` of a
// non-negative float is `Floor`.
module ColorFilters {
  import opened Raster
  import opened ImageUtils

  // ---- invert (src/filter.c:465-482) -----------------------------------

  /** Every colour sample (channel 0, 1 or 2 of its pixel) becomes 255 - c; the rest is kept. */
  function InvertImage(s: seq<Byte>, ch: nat): (r: seq<Byte>)
    requires ch > 0
    ensures |r| == |s|
  {
    seq(|s|, i requires 0 <= i < |s| => if ChannelOf(ch, i) < 3 then 255 - s[i] else s[i])
  }

  /** Inverting twice restores the buffer exactly. */
  lemma InvertInvolution(s: seq<Byte>, ch: nat)
    requires ch > 0
    ensures InvertImage(InvertImage(s, ch), ch) == s
  {
  }

  /** Channel 3 and above are never written; channels 0 .. min(3, channels)-1 are complemented. */
  lemma InvertWrites(s: seq<Byte>, ch: nat, i: nat)
    requires ch > 0 && i < |s|
    ensures ChannelOf(ch, i) >= 3 ==> InvertImage(s, ch)[i] == s[i]
    ensures ChannelOf(ch, i) < 3 ==> InvertImage(s, ch)[i] + s[i] == 255
  {
  }

  /** The inner loop of invert at pixel p: channels 0 .. min(3, channels)-1 are complemented. */
  method InvertPixel(image: array<Byte>, ch: nat, pixels: nat, p: nat, ghost orig: seq<Byte>)
    requires ch > 0 && image.Length == pixels * ch && |orig| == image.Length && p < pixels
    requires forall j | 0 <= j < image.Length && PixelOf(ch, j) == p :: image[j] == orig[j]
    modifies image
    ensures forall j | 0 <= j < image.Length ::
      image[j] == if PixelOf(ch, j) == p then InvertImage(orig, ch)[j] else old(image[j])
  {
    FlatFacts(ch, pixels);
    var i := Flat(ch, p, 0);
    var c := 0;
    while c < 3 && c < ch
      invariant 0 <= c <= ch && c <= 3
      invariant forall j | 0 <= j < image.Length ::
        image[j] == if PixelOf(ch, j) == p && ChannelOf(ch, j) < c then 255 - orig[j] else old(image[j])
    {
      assert i + c == Flat(ch, p, c);
      image[i + c] := 255 - image[i + c];
      c := c + 1;
    }
  }

  method Invert(image: array<Byte>, w: nat, h: nat, ch: nat, mode: Mode)
    requires IsImage(image[..], w, h, ch)
    modifies image
    ensures image[..] == InvertImage(old(image[..]), ch)
  {
    var pixels := w * h;
    var order := Schedule(mode, pixels);
    ghost var orig := image[..];
    assert image.Length == pixels * ch;
    for k := 0 to pixels
      invariant forall j | 0 <= j < image.Length ::
        image[j] == if PixelOf(ch, j) in order[..k] then InvertImage(orig, ch)[j] else orig[j]
    {
      ScheduleStep(order, pixels, k);
      InvertPixel(image, ch, pixels, order[k], orig);
    }
    ScheduleDone(order, pixels);
    FlatFacts(ch, pixels);
    forall j | 0 <= j < image.Length
      ensures image[j] == InvertImage(orig, ch)[j]
    {
      assert PixelOf(ch, j) in order[..pixels];
    }
  }

  // ---- brightness (src/filter.c:484-504) --------------------------------

  /** `new_val = c * factor`; 255 when it exceeds 255, its truncation otherwise:
      the largest byte not above `c * factor`. */
  function BrightnessSample(c: Byte, factor: real): (r: Byte)
    requires 0.1 <= factor <= 2.0
    ensures r as real <= c as real * factor
    ensures r == 255 || c as real * factor < (r + 1) as real
  {
    var newVal := c as real * factor;
    assert newVal >= 0.0 by {
      assert c as real >= 0.0 && factor > 0.0;
    }
    if newVal > 255.0 then 255 else newVal.Floor
  }

  function BrightnessImage(s: seq<Byte>, factor: real): (r: seq<Byte>)
    requires 0.1 <= factor <= 2.0
    ensures |r| == |s|
  {
    seq(|s|, i requires 0 <= i < |s| => BrightnessSample(s[i], factor))
  }

  predicate BrightnessInRange(factor: real)
  {
    !(factor < 0.1 || factor > 2.0)
  }

  /** Factor 1.0 leaves every sample unchanged. */
  lemma BrightnessIdentity(s: seq<Byte>)
    ensures BrightnessImage(s, 1.0) == s
  {
  }

  method Brightness(image: array<Byte>, w: nat, h: nat, ch: nat, factor: real, mode: Mode) returns (status: Status)
    requires IsImage(image[..], w, h, ch)
    modifies image
    ensures status == if BrightnessInRange(factor) then Applied else ParameterOutOfRange
    ensures status == Applied ==> image[..] == BrightnessImage(old(image[..]), factor)
    ensures status != Applied ==> image[..] == old(image[..])
  {
    if factor < 0.1 || factor > 2.0 {
      return ParameterOutOfRange;
    }
    var totalSize := w * h * ch;
    var order := Schedule(mode, totalSize);
    ghost var orig := image[..];
    for k := 0 to totalSize
      invariant forall j | 0 <= j < image.Length ::
        image[j] == if j in order[..k] then BrightnessSample(orig[j], factor) else orig[j]
    {
      ScheduleStep(order, totalSize, k);
      var i := order[k];
      var newVal := image[i] as real * factor;
      image[i] := if newVal > 255.0 then 255 else newVal.Floor;
    }
    ScheduleDone(order, totalSize);
    return Applied;
  }

  // ---- contrast (src/filter.c:506-526) ----------------------------------

  /** `CLAMP(factor*(c-128)+128)` truncated to an int. */
  function ContrastSample(c: Byte, factor: real): (r: Byte)
    ensures var v := factor * (c - 128) as real + 128.0;
      && (v > 255.0 ==> r == 255)
      && (v < 0.0 ==> r == 0)
      && (0.0 <= v <= 255.0 ==> r as real <= v < (r + 1) as real)
  {
    Clamp(factor * (c - 128) as real + 128.0).Floor
  }

  /** Every sample, alpha included, goes through the contrast curve. */
  function ContrastImage(s: seq<Byte>, factor: real): (r: seq<Byte>)
    ensures |r| == |s|
  {
    seq(|s|, i requires 0 <= i < |s| => ContrastSample(s[i], factor))
  }

  predicate ContrastInRange(factor: real)
  {
    !(factor < 0.1 || factor > 2.0)
  }

  /** Factor 1.0 is the identity. */
  lemma ContrastIdentity(s: seq<Byte>)
    ensures ContrastImage(s, 1.0) == s
  {
  }

  /** For a positive factor the contrast curve keeps the order of samples. */
  lemma ContrastMonotone(a: Byte, b: Byte, factor: real)
    requires a <= b && factor > 0.0
    ensures ContrastSample(a, factor) <= ContrastSample(b, factor)
  {
    var d := (b - a) as real;
    assert factor * d >= 0.0;
    assert factor * (b - 128) as real == factor * (a - 128) as real + factor * d;
    ClampMonotone(factor * (a - 128) as real + 128.0, factor * (b - 128) as real + 128.0);
  }

  method Contrast(image: array<Byte>, w: nat, h: nat, ch: nat, factor: real, mode: Mode) returns (status: Status)
    requires IsImage(image[..], w, h, ch)
    modifies image
    ensures status == if ContrastInRange(factor) then Applied else ParameterOutOfRange
    ensures status == Applied ==> image[..] == ContrastImage(old(image[..]), factor)
    ensures status != Applied ==> image[..] == old(image[..])
  {
    if factor < 0.1 || factor > 2.0 {
      return ParameterOutOfRange;
    }
    var totalSize := w * h * ch;
    var order := Schedule(mode, totalSize);
    ghost var orig := image[..];
    for k := 0 to totalSize
      invariant forall j | 0 <= j < image.Length ::
        image[j] == if j in order[..k] then ContrastSample(orig[j], factor) else orig[j]
    {
      ScheduleStep(order, totalSize, k);
      var i := order[k];
      var tmpImage: int := image[i];
      ghost var expected := ContrastSample(image[i], factor);
      tmpImage := Clamp(factor * (tmpImage - 128) as real + 128.0).Floor;
      assert tmpImage == expected;
      image[i] := tmpImage;
    }
    ScheduleDone(order, totalSize);
    return Applied;
  }

  // ---- grayscale (src/filter.c:411-463) ---------------------------------

  /** `(unsigned char)(0.298 R + 0.587 G + 0.114 B)`: the truncated weighted sum,
      which never exceeds the brightest of the three channels. */
  function GrayValue(px: Rgb): (g: Byte)
    ensures var v := 0.298 * px.r as real + 0.587 * px.g as real + 0.114 * px.b as real;
      g as real <= v < (g + 1) as real
    ensures g <= px.r || g <= px.g || g <= px.b
  {
    (0.298 * px.r as real + 0.587 * px.g as real + 0.114 * px.b as real).Floor
  }

  /** The grey value replicated into R, G and B. */
  function GrayTone(px: Rgb): Rgb
  {
    var g := GrayValue(px);
    Rgb(g, g, g)
  }

  function GrayscaleImage(s: seq<Byte>, w: nat, h: nat, ch: nat): (r: seq<Byte>)
    requires IsImage(s, w, h, ch) && 3 <= ch
    ensures |r| == |s|
  {
    Recolor(s, w, h, ch, GrayTone)
  }

  /** Channel c of pixel p after grayscale: the grey value of the pixel's original
      colours for c < 3, the original sample otherwise. */
  lemma {:induction false} GrayscaleSample(s: seq<Byte>, w: nat, h: nat, ch: nat, p: nat, c: nat)
    requires IsImage(s, w, h, ch) && 3 <= ch && p < w * h && c < ch
    ensures Flat(ch, p, c) < |s| && Flat(ch, p, 2) < |s|
    ensures GrayscaleImage(s, w, h, ch)[Flat(ch, p, c)] == if c < 3 then GrayValue(RgbAt(s, ch, p)) else s[Flat(ch, p, c)]
  {
    RecolorSample(s, w, h, ch, GrayTone, p, c);
  }

  /** After grayscale the three colour channels of every pixel are equal. */
  lemma {:induction false} GrayscaleUniform(s: seq<Byte>, w: nat, h: nat, ch: nat, p: nat)
    requires IsImage(s, w, h, ch) && 3 <= ch && p < w * h
    ensures var t := GrayscaleImage(s, w, h, ch);
      Flat(ch, p, 2) < |t| && t[Flat(ch, p, 0)] == t[Flat(ch, p, 1)] == t[Flat(ch, p, 2)]
  {
    GrayscaleSample(s, w, h, ch, p, 0);
    GrayscaleSample(s, w, h, ch, p, 1);
    GrayscaleSample(s, w, h, ch, p, 2);
  }

  /** A solid red pixel (255, 0, 0) becomes (75, 75, 75): 0.298 * 255 = 75.99, truncated. */
  lemma GrayOfRed()
    ensures GrayTone(Rgb(255, 0, 0)) == Rgb(75, 75, 75)
  {
  }

  /** The body of the innermost grayscale loop at pixel p: R, G and B all receive the
      truncated weighted sum. The pixel still holds its original samples `orig`. */
  method GrayscalePixel(image: array<Byte>, w: nat, h: nat, ch: nat, p: nat, ghost orig: seq<Byte>)
    requires IsImage(orig, w, h, ch) && 3 <= ch && image.Length == |orig| && p < w * h
    requires forall j | 0 <= j < image.Length && PixelOf(ch, j) == p :: image[j] == orig[j]
    modifies image
    ensures forall j | 0 <= j < image.Length ::
      image[j] == if PixelOf(ch, j) == p then GrayscaleImage(orig, w, h, ch)[j] else old(image[j])
  {
    ghost var g := GrayscaleImage(orig, w, h, ch);
    FlatBound(ch, w * h, p, 0);
    FlatBound(ch, w * h, p, 1);
    FlatBound(ch, w * h, p, 2);
    var idx := Flat(ch, p, 0);
    ghost var px := RgbAt(orig, ch, p);
    GrayscaleSample(orig, w, h, ch, p, 0);
    GrayscaleSample(orig, w, h, ch, p, 1);
    GrayscaleSample(orig, w, h, ch, p, 2);
    var gray := 0.298 * image[idx] as real + 0.587 * image[idx + 1] as real + 0.114 * image[idx + 2] as real;
    var grayByte: Byte := gray.Floor;
    assert grayByte == GrayValue(px);
    image[idx] := grayByte;
    image[idx + 1] := grayByte;
    image[idx + 2] := grayByte;
    forall j | 0 <= j < image.Length && PixelOf(ch, j) == p && j != idx && j != idx + 1 && j != idx + 2
      ensures image[j] == g[j]
    {
      SampleCoords(w, h, ch, j);
      GrayscaleSample(orig, w, h, ch, p, ChannelOf(ch, j));
    }
  }

  /** The `x` loop of one tile: row y, columns blockX .. maxX-1. The row segment still
      holds the original samples `orig`. */
  method GrayscaleTileRow(image: array<Byte>, w: nat, h: nat, ch: nat, blockX: nat, maxX: nat, y: nat, ghost orig: seq<Byte>)
    requires IsImage(orig, w, h, ch) && 3 <= ch && image.Length == |orig|
    requires y < h && blockX <= maxX <= w
    requires forall j | 0 <= j < image.Length && RowOf(w, ch, j) == y && blockX <= ColOf(w, ch, j) < maxX :: image[j] == orig[j]
    modifies image
    ensures forall j | 0 <= j < image.Length ::
      image[j] == if RowOf(w, ch, j) == y && blockX <= ColOf(w, ch, j) < maxX then GrayscaleImage(orig, w, h, ch)[j] else old(image[j])
  {
    ghost var g := GrayscaleImage(orig, w, h, ch);
    var x := blockX;
    while x < maxX
      invariant blockX <= x <= maxX
      invariant forall j | 0 <= j < image.Length ::
        image[j] == if RowOf(w, ch, j) == y && blockX <= ColOf(w, ch, j) < x then g[j] else old(image[j])
    {
      var p := Flat(w, y, x);
      FlatBound(w, h, y, x);
      forall j | 0 <= j < image.Length && PixelOf(ch, j) == p ensures image[j] == orig[j] {
        SampleCoords(w, h, ch, j);
      }
      GrayscalePixel(image, w, h, ch, p, orig);
      forall j | 0 <= j < image.Length
        ensures image[j] == if RowOf(w, ch, j) == y && blockX <= ColOf(w, ch, j) < x + 1 then g[j] else old(image[j])
      {
        SampleCoords(w, h, ch, j);
      }
      x := x + 1;
    }
  }

  /** The `y` loop of one tile: rows blockY .. maxY-1 of columns blockX .. maxX-1. */
  method GrayscaleTile(image: array<Byte>, w: nat, h: nat, ch: nat, blockX: nat, maxX: nat, blockY: nat, maxY: nat, ghost orig: seq<Byte>)
    requires IsImage(orig, w, h, ch) && 3 <= ch && image.Length == |orig|
    requires blockY <= maxY <= h && blockX <= maxX <= w
    requires forall j | 0 <= j < image.Length && blockY <= RowOf(w, ch, j) < maxY && blockX <= ColOf(w, ch, j) < maxX :: image[j] == orig[j]
    modifies image
    ensures forall j | 0 <= j < image.Length ::
      image[j] == if blockY <= RowOf(w, ch, j) < maxY && blockX <= ColOf(w, ch, j) < maxX then GrayscaleImage(orig, w, h, ch)[j] else old(image[j])
  {
    ghost var g := GrayscaleImage(orig, w, h, ch);
    var y := blockY;
    while y < maxY
      invariant blockY <= y <= maxY
      invariant forall j | 0 <= j < image.Length ::
        image[j] == if blockY <= RowOf(w, ch, j) < y && blockX <= ColOf(w, ch, j) < maxX then g[j] else old(image[j])
    {
      GrayscaleTileRow(image, w, h, ch, blockX, maxX, y, orig);
      y := y + 1;
    }
  }

  /** One iteration of the `block_y` loop: the 32-row band `band` of the image, walked
      in 32x32 tiles left to right. The band still holds the original samples `orig`. */
  method GrayscaleBand(image: array<Byte>, w: nat, h: nat, ch: nat, band: nat, ghost orig: seq<Byte>)
    requires IsImage(orig, w, h, ch) && 3 <= ch && image.Length == |orig|
    requires band * CacheBlockSize < h
    requires forall j | 0 <= j < image.Length && RowOf(w, ch, j) / CacheBlockSize == band :: image[j] == orig[j]
    modifies image
    ensures forall j | 0 <= j < image.Length ::
      image[j] == if RowOf(w, ch, j) / CacheBlockSize == band then GrayscaleImage(orig, w, h, ch)[j] else old(image[j])
  {
    ghost var g := GrayscaleImage(orig, w, h, ch);
    var blockY := band * CacheBlockSize;
    var maxY := if blockY + CacheBlockSize < h then blockY + CacheBlockSize else h;
    forall j | 0 <= j < image.Length && blockY <= RowOf(w, ch, j) < maxY ensures image[j] == orig[j] {
      SampleCoords(w, h, ch, j);
      InBand(band, RowOf(w, ch, j), h);
    }
    var blockX := 0;
    while blockX < w
      invariant forall j | 0 <= j < image.Length ::
        image[j] == if blockY <= RowOf(w, ch, j) < maxY && ColOf(w, ch, j) < blockX then g[j] else old(image[j])
    {
      var maxX := if blockX + CacheBlockSize < w then blockX + CacheBlockSize else w;
      GrayscaleTile(image, w, h, ch, blockX, maxX, blockY, maxY, orig);
      forall j | 0 <= j < image.Length
        ensures image[j] == if blockY <= RowOf(w, ch, j) < maxY && ColOf(w, ch, j) < blockX + CacheBlockSize then g[j] else old(image[j])
      {
        SampleCoords(w, h, ch, j);
      }
      blockX := blockX + CacheBlockSize;
    }
    forall j | 0 <= j < image.Length
      ensures image[j] == if RowOf(w, ch, j) / CacheBlockSize == band then g[j] else old(image[j])
    {
      SampleCoords(w, h, ch, j);
      InBand(band, RowOf(w, ch, j), h);
    }
  }

  /** Each of the `ceil(h / 32)` bands starts inside the image. */
  lemma BandStart(band: nat, h: nat)
    requires band < (h + CacheBlockSize - 1) / CacheBlockSize
    ensures band * CacheBlockSize < h
  {
    var n := (h + CacheBlockSize - 1) / CacheBlockSize;
    MulMonotone(band, n, CacheBlockSize);
  }

  /** Row `row` lies in band `band` exactly when it lies between the band's first row and
      the band's last row clipped to the image. */
  lemma InBand(band: nat, row: nat, h: nat)
    requires row < h
    ensures var blockY := band * CacheBlockSize;
      row / CacheBlockSize == band <==> blockY <= row < (if blockY + CacheBlockSize < h then blockY + CacheBlockSize else h)
  {
    var blockY := band * CacheBlockSize;
    if blockY <= row < blockY + CacheBlockSize {
      DivModUnique(CacheBlockSize, band, row - blockY);
    }
    if row / CacheBlockSize == band {
      FlatSplit(CacheBlockSize, band + 1, row);
    }
  }

  method Grayscale(image: array<Byte>, w: nat, h: nat, ch: nat, mode: Mode)
    requires IsImage(image[..], w, h, ch) && 3 <= ch
    modifies image
    ensures image[..] == GrayscaleImage(old(image[..]), w, h, ch)
  {
    var bands := (h + CacheBlockSize - 1) / CacheBlockSize;
    var order := Schedule(mode, bands);
    ghost var orig := image[..];
    IdxFacts(w, h, ch);
    for k := 0 to bands
      invariant forall j | 0 <= j < image.Length ::
        image[j] == if RowOf(w, ch, j) / CacheBlockSize in order[..k] then GrayscaleImage(orig, w, h, ch)[j] else orig[j]
    {
      ScheduleStep(order, bands, k);
      BandStart(order[k], h);
      GrayscaleBand(image, w, h, ch, order[k], orig);
    }
    ScheduleDone(order, bands);
  }

  // ---- sepia (src/filter.c:528-574) -------------------------------------

  /** The sepia matrix applied to the original R, G, B, each row CLAMPed and truncated. */
  function SepiaTone(px: Rgb): Rgb
  {
    var r, g, b := px.r as real, px.g as real, px.b as real;
    Rgb(Clamp(r * 0.393 + g * 0.769 + b * 0.189).Floor,
        Clamp(r * 0.349 + g * 0.686 + b * 0.168).Floor,
        Clamp(r * 0.272 + g * 0.534 + b * 0.131).Floor)
  }

  /** Every row of the sepia matrix weighs each channel no more than the row
      above it, so the result is always warm: red >= green >= blue. */
  lemma SepiaWarm(px: Rgb)
    ensures SepiaTone(px).r >= SepiaTone(px).g >= SepiaTone(px).b
  {
    var r, g, b := px.r as real, px.g as real, px.b as real;
    var red, green, blue := r * 0.393 + g * 0.769 + b * 0.189, r * 0.349 + g * 0.686 + b * 0.168, r * 0.272 + g * 0.534 + b * 0.131;
    assert red - green == r * 0.044 + g * 0.083 + b * 0.021;
    assert green - blue == r * 0.077 + g * 0.152 + b * 0.037;
    ClampMonotone(green, red);
    ClampMonotone(blue, green);
  }

  /** White turns into the pale sepia (255, 255, 238): the first two rows sum
      past 1 and saturate, the last sums to 0.937. */
  lemma SepiaOfWhite()
    ensures SepiaTone(Rgb(255, 255, 255)) == Rgb(255, 255, 238)
  {
    assert 255.0 * 0.272 + 255.0 * 0.534 + 255.0 * 0.131 == 238.935;
  }

  function SepiaImage(s: seq<Byte>, w: nat, h: nat, ch: nat): (r: seq<Byte>)
    requires IsImage(s, w, h, ch) && 3 <= ch
    ensures |r| == |s|
  {
    Recolor(s, w, h, ch, SepiaTone)
  }

  predicate SepiaChannelsSupported(ch: nat)
  {
    !(ch != 3 && ch != 4)
  }

  /** Sepia keeps the alpha channel of every pixel. */
  lemma {:induction false} SepiaKeepsAlpha(s: seq<Byte>, w: nat, h: nat, ch: nat, p: nat)
    requires IsImage(s, w, h, ch) && ch == 4 && p < w * h
    ensures Flat(ch, p, 3) < |s| && SepiaImage(s, w, h, ch)[Flat(ch, p, 3)] == s[Flat(ch, p, 3)]
  {
    FlatBound(ch, w * h, p, 3);
  }

  /** The body of the sepia loop at pixel p: all three colours are computed from the
      original R, G, B before any is written. The pixel still holds `orig`. */
  method SepiaPixel(image: array<Byte>, w: nat, h: nat, ch: nat, p: nat, ghost orig: seq<Byte>)
    requires IsImage(orig, w, h, ch) && 3 <= ch && image.Length == |orig| && p < w * h
    requires forall j | 0 <= j < image.Length && PixelOf(ch, j) == p :: image[j] == orig[j]
    modifies image
    ensures forall j | 0 <= j < image.Length ::
      image[j] == if PixelOf(ch, j) == p then SepiaImage(orig, w, h, ch)[j] else old(image[j])
  {
    ghost var sep := SepiaImage(orig, w, h, ch);
    FlatBound(ch, w * h, p, 0);
    FlatBound(ch, w * h, p, 1);
    FlatBound(ch, w * h, p, 2);
    var idx := Flat(ch, p, 0);
    ghost var tone := SepiaTone(RgbAt(orig, ch, p));
    RecolorSample(orig, w, h, ch, SepiaTone, p, 0);
    RecolorSample(orig, w, h, ch, SepiaTone, p, 1);
    RecolorSample(orig, w, h, ch, SepiaTone, p, 2);
    var r, g, b := image[idx], image[idx + 1], image[idx + 2];
    var sepiaRed: Byte := Clamp(r as real * 0.393 + g as real * 0.769 + b as real * 0.189).Floor;
    var sepiaGreen: Byte := Clamp(r as real * 0.349 + g as real * 0.686 + b as real * 0.168).Floor;
    var sepiaBlue: Byte := Clamp(r as real * 0.272 + g as real * 0.534 + b as real * 0.131).Floor;
    assert Rgb(sepiaRed, sepiaGreen, sepiaBlue) == tone;
    image[idx] := sepiaRed;
    image[idx + 1] := sepiaGreen;
    image[idx + 2] := sepiaBlue;
    forall j | 0 <= j < image.Length && PixelOf(ch, j) == p && j != idx && j != idx + 1 && j != idx + 2
      ensures image[j] == sep[j]
    {
      SampleCoords(w, h, ch, j);
      RecolorSample(orig, w, h, ch, SepiaTone, p, ChannelOf(ch, j));
    }
  }

  method Sepia(image: array<Byte>, w: nat, h: nat, ch: nat, mode: Mode) returns (status: Status)
    requires IsImage(image[..], w, h, ch)
    modifies image
    ensures status == if SepiaChannelsSupported(ch) then Applied else UnsupportedChannelCount
    ensures status == Applied ==> image[..] == SepiaImage(old(image[..]), w, h, ch)
    ensures status != Applied ==> image[..] == old(image[..])
  {
    if ch != 3 && ch != 4 {
      return UnsupportedChannelCount;
    }
    var totalPixels := w * h;
    var minPixelsPerThread := 10000;
    var order := Schedule(if mode == Parallel && totalPixels > minPixelsPerThread then Parallel else Sequential, totalPixels);
    ghost var orig := image[..];
    ghost var sep := SepiaImage(orig, w, h, ch);
    for k := 0 to totalPixels
      invariant forall j | 0 <= j < image.Length ::
        image[j] == if PixelOf(ch, j) in order[..k] then sep[j] else orig[j]
    {
      ScheduleStep(order, totalPixels, k);
      SepiaPixel(image, w, h, ch, order[k], orig);
    }
    forall j | 0 <= j < image.Length ensures image[j] == sep[j] {
      SampleCoords(w, h, ch, j);
      ScheduleDone(order, totalPixels);
    }
    return Applied;
  }
}
