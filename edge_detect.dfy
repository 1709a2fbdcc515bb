// `edge_detect` of src/filter.c: a Sobel edge detector. It snapshots the image
// into `temp`, computes a luma plane `gray` from the snapshot, marks every
// interior pixel 255 or 0 by comparing the Sobel gradient magnitude with the
// threshold, copies alpha back from the snapshot, and finally blacks out the
// one-pixel border ring in every non-alpha channel.
module EdgeDetect {
  import opened Raster

  // ---- Luma plane ---------------------------------------------------------

  /** `(unsigned char)(0.299 R + 0.587 G + 0.114 B)`, truncated. */
  function Luma(px: Rgb): (g: Byte)
    ensures var v := 0.299 * px.r as real + 0.587 * px.g as real + 0.114 * px.b as real;
      g as real <= v < (g + 1) as real
  {
    (0.299 * px.r as real + 0.587 * px.g as real + 0.114 * px.b as real).Floor
  }

  /** Luma of pixel p of the image. */
  function LumaAt(s: seq<Byte>, w: nat, h: nat, ch: nat, p: nat): Byte
    requires IsImage(s, w, h, ch) && 3 <= ch && p < w * h
  {
    FlatBound(ch, w * h, p, 2);
    Luma(RgbAt(s, ch, p))
  }

  /** The `gray` plane: one luma byte per pixel, row-major. */
  function LumaImage(s: seq<Byte>, w: nat, h: nat, ch: nat): (g: seq<Byte>)
    requires IsImage(s, w, h, ch) && 3 <= ch
    ensures |g| == w * h
    ensures forall p | 0 <= p < w * h :: g[p] == LumaAt(s, w, h, ch, p)
  {
    seq(w * h, p requires 0 <= p < w * h => LumaAt(s, w, h, ch, p))
  }

  // ---- Sobel gradient -----------------------------------------------------

  /** The horizontal and vertical Sobel kernels, row ky+1 and column kx+1 holding the
      weight of the neighbour at offset (kx, ky). */
  const SobelGx: seq<seq<int>> := [[-1, 0, 1], [-2, 0, 2], [-1, 0, 1]]
  const SobelGy: seq<seq<int>> := [[1, 2, 1], [0, 0, 0], [-1, -2, -1]]

  /** A pixel with all eight neighbours inside the image. */
  predicate Interior(w: nat, h: nat, x: nat, y: nat)
  {
    1 <= x && x + 1 < w && 1 <= y && y + 1 < h
  }

  /** The ring `y == 0 || y == height-1 || x == 0 || x == width-1`. */
  predicate Border(w: nat, h: nat, x: nat, y: nat)
  {
    y == 0 || y == h - 1 || x == 0 || x == w - 1
  }

  /** Inside the image the border ring is exactly the complement of the interior. */
  lemma BorderIsNotInterior(w: nat, h: nat, x: nat, y: nat)
    requires x < w && y < h
    ensures Border(w, h, x, y) <==> !Interior(w, h, x, y)
  {
  }

  /** Luma of pixel (x, y). */
  function GrayAt(g: seq<Byte>, w: nat, h: nat, x: nat, y: nat): Byte
    requires |g| == w * h && x < w && y < h
  {
    FlatBound(w, h, y, x);
    g[Flat(w, y, x)]
  }

  /** The first n taps (n <= 3, left to right) of kernel row ky at (x, y). */
  function RowConv(g: seq<Byte>, w: nat, h: nat, x: nat, y: nat, kernel: seq<seq<int>>, ky: int, n: nat): int
    requires |g| == w * h && Interior(w, h, x, y) && -1 <= ky <= 1 && n <= 3
    requires |kernel| == 3 && forall r | 0 <= r < 3 :: |kernel[r]| == 3
  {
    if n == 0 then 0
    else RowConv(g, w, h, x, y, kernel, ky, n - 1) + GrayAt(g, w, h, x + n - 2, y + ky) as int * kernel[ky + 1][n - 1]
  }

  /** The first `rows` kernel rows (top to bottom) of a 3x3 convolution at (x, y), in
      the order of the `ky`/`kx` loops. */
  function Conv(g: seq<Byte>, w: nat, h: nat, x: nat, y: nat, kernel: seq<seq<int>>, rows: nat): int
    requires |g| == w * h && Interior(w, h, x, y) && rows <= 3
    requires |kernel| == 3 && forall r | 0 <= r < 3 :: |kernel[r]| == 3
  {
    if rows == 0 then 0 else Conv(g, w, h, x, y, kernel, rows - 1) + RowConv(g, w, h, x, y, kernel, rows - 2, 3)
  }

  /** The horizontal gradient: right column minus left column, the middle row doubled. */
  function SobelX(g: seq<Byte>, w: nat, h: nat, x: nat, y: nat): int
    requires |g| == w * h && Interior(w, h, x, y)
  {
    (GrayAt(g, w, h, x + 1, y - 1) as int - GrayAt(g, w, h, x - 1, y - 1) as int)
    + 2 * (GrayAt(g, w, h, x + 1, y) as int - GrayAt(g, w, h, x - 1, y) as int)
    + (GrayAt(g, w, h, x + 1, y + 1) as int - GrayAt(g, w, h, x - 1, y + 1) as int)
  }

  /** The vertical gradient: top row minus bottom row, the middle column doubled. */
  function SobelY(g: seq<Byte>, w: nat, h: nat, x: nat, y: nat): int
    requires |g| == w * h && Interior(w, h, x, y)
  {
    (GrayAt(g, w, h, x - 1, y - 1) as int - GrayAt(g, w, h, x - 1, y + 1) as int)
    + 2 * (GrayAt(g, w, h, x, y - 1) as int - GrayAt(g, w, h, x, y + 1) as int)
    + (GrayAt(g, w, h, x + 1, y - 1) as int - GrayAt(g, w, h, x + 1, y + 1) as int)
  }

  /** The loops over the Gx table adds up to the horizontal gradient. */
  lemma ConvSobelX(g: seq<Byte>, w: nat, h: nat, x: nat, y: nat)
    requires |g| == w * h && Interior(w, h, x, y)
    ensures Conv(g, w, h, x, y, SobelGx, 3) == SobelX(g, w, h, x, y)
  {
    ConvUnfold(g, w, h, x, y, SobelGx);
  }

  /** The loops over the Gy table adds up to the vertical gradient. */
  lemma ConvSobelY(g: seq<Byte>, w: nat, h: nat, x: nat, y: nat)
    requires |g| == w * h && Interior(w, h, x, y)
    ensures Conv(g, w, h, x, y, SobelGy, 3) == SobelY(g, w, h, x, y)
  {
    ConvUnfold(g, w, h, x, y, SobelGy);
  }

  /** The nine terms of a 3x3 convolution written out. */
  lemma ConvUnfold(g: seq<Byte>, w: nat, h: nat, x: nat, y: nat, kernel: seq<seq<int>>)
    requires |g| == w * h && Interior(w, h, x, y)
    requires |kernel| == 3 && forall r | 0 <= r < 3 :: |kernel[r]| == 3
    ensures Conv(g, w, h, x, y, kernel, 3) ==
        GrayAt(g, w, h, x - 1, y - 1) as int * kernel[0][0] + GrayAt(g, w, h, x, y - 1) as int * kernel[0][1] + GrayAt(g, w, h, x + 1, y - 1) as int * kernel[0][2]
      + GrayAt(g, w, h, x - 1, y) as int * kernel[1][0] + GrayAt(g, w, h, x, y) as int * kernel[1][1] + GrayAt(g, w, h, x + 1, y) as int * kernel[1][2]
      + GrayAt(g, w, h, x - 1, y + 1) as int * kernel[2][0] + GrayAt(g, w, h, x, y + 1) as int * kernel[2][1] + GrayAt(g, w, h, x + 1, y + 1) as int * kernel[2][2]
  {
    RowConvUnfold(g, w, h, x, y, kernel, -1);
    RowConvUnfold(g, w, h, x, y, kernel, 0);
    RowConvUnfold(g, w, h, x, y, kernel, 1);
    assert Conv(g, w, h, x, y, kernel, 1) == RowConv(g, w, h, x, y, kernel, -1, 3);
    assert Conv(g, w, h, x, y, kernel, 2) == Conv(g, w, h, x, y, kernel, 1) + RowConv(g, w, h, x, y, kernel, 0, 3);
  }

  /** The three taps of kernel row ky written out. */
  lemma RowConvUnfold(g: seq<Byte>, w: nat, h: nat, x: nat, y: nat, kernel: seq<seq<int>>, ky: int)
    requires |g| == w * h && Interior(w, h, x, y) && -1 <= ky <= 1
    requires |kernel| == 3 && forall r | 0 <= r < 3 :: |kernel[r]| == 3
    ensures RowConv(g, w, h, x, y, kernel, ky, 3) ==
      GrayAt(g, w, h, x - 1, y + ky) as int * kernel[ky + 1][0] + GrayAt(g, w, h, x, y + ky) as int * kernel[ky + 1][1]
      + GrayAt(g, w, h, x + 1, y + ky) as int * kernel[ky + 1][2]
  {
    assert RowConv(g, w, h, x, y, kernel, ky, 1) == GrayAt(g, w, h, x - 1, y + ky) as int * kernel[ky + 1][0];
    assert RowConv(g, w, h, x, y, kernel, ky, 2) == RowConv(g, w, h, x, y, kernel, ky, 1) + GrayAt(g, w, h, x, y + ky) as int * kernel[ky + 1][1];
  }

  /** `sqrtf(gx*gx + gy*gy) > threshold`; for a threshold of at least 0 this is the
      squared magnitude exceeding the squared threshold. */
  predicate IsEdge(g: seq<Byte>, w: nat, h: nat, x: nat, y: nat, threshold: real)
    requires |g| == w * h && Interior(w, h, x, y)
  {
    var gx, gy := SobelX(g, w, h, x, y), SobelY(g, w, h, x, y);
    (gx * gx + gy * gy) as real > threshold * threshold
  }

  /** On a region of uniform luma both gradients vanish, so no pixel is an edge. */
  lemma FlatRegionHasNoEdge(g: seq<Byte>, w: nat, h: nat, x: nat, y: nat, threshold: real)
    requires |g| == w * h && Interior(w, h, x, y) && threshold >= 0.0
    requires forall p | 0 <= p < |g| :: g[p] == g[0]
    ensures SobelX(g, w, h, x, y) == 0 && SobelY(g, w, h, x, y) == 0
    ensures !IsEdge(g, w, h, x, y, threshold)
  {
    var v := g[0];
    FlatBound(w, h, y - 1, x - 1);
    FlatBound(w, h, y - 1, x);
    FlatBound(w, h, y - 1, x + 1);
    FlatBound(w, h, y, x - 1);
    FlatBound(w, h, y, x + 1);
    FlatBound(w, h, y + 1, x - 1);
    FlatBound(w, h, y + 1, x);
    FlatBound(w, h, y + 1, x + 1);
    assert GrayAt(g, w, h, x - 1, y - 1) == v && GrayAt(g, w, h, x, y - 1) == v && GrayAt(g, w, h, x + 1, y - 1) == v;
    assert GrayAt(g, w, h, x - 1, y) == v && GrayAt(g, w, h, x + 1, y) == v;
    assert GrayAt(g, w, h, x - 1, y + 1) == v && GrayAt(g, w, h, x, y + 1) == v && GrayAt(g, w, h, x + 1, y + 1) == v;
  }

  // ---- The result --------------------------------------------------------

  /** Channel 3 of a four-channel image, which edge detection never blackens. */
  predicate IsAlpha(ch: nat, c: nat)
  {
    ch == 4 && c == 3
  }

  /** Sample i of the result: alpha copied from the snapshot, 0 on the border ring,
      and inside 255 for an edge pixel and 0 otherwise. */
  function EdgeAt(s: seq<Byte>, w: nat, h: nat, ch: nat, threshold: real, i: nat): Byte
    requires IsImage(s, w, h, ch) && 3 <= ch && i < |s|
  {
    SampleCoords(w, h, ch, i);
    var x, y := ColOf(w, ch, i), RowOf(w, ch, i);
    if IsAlpha(ch, ChannelOf(ch, i)) then s[i]
    else if !Interior(w, h, x, y) then 0
    else if IsEdge(LumaImage(s, w, h, ch), w, h, x, y, threshold) then 255
    else 0
  }

  function EdgeImage(s: seq<Byte>, w: nat, h: nat, ch: nat, threshold: real): (t: seq<Byte>)
    requires IsImage(s, w, h, ch) && 3 <= ch
    ensures |t| == |s|
    ensures forall i | 0 <= i < |s| :: t[i] == EdgeAt(s, w, h, ch, threshold, i)
  {
    seq(|s|, i requires 0 <= i < |s| => EdgeAt(s, w, h, ch, threshold, i))
  }

  /** Every non-alpha sample of the result is black or white. */
  lemma EdgeIsBinary(s: seq<Byte>, w: nat, h: nat, ch: nat, threshold: real, i: nat)
    requires IsImage(s, w, h, ch) && 3 <= ch && i < |s| && !IsAlpha(ch, ChannelOf(ch, i))
    ensures EdgeImage(s, w, h, ch, threshold)[i] in {0, 255}
  {
  }

  /** The border ring is black in every non-alpha channel. */
  lemma EdgeBorderIsBlack(s: seq<Byte>, w: nat, h: nat, ch: nat, threshold: real, i: nat)
    requires IsImage(s, w, h, ch) && 3 <= ch && i < |s| && !IsAlpha(ch, ChannelOf(ch, i))
    requires Border(w, h, ColOf(w, ch, i), RowOf(w, ch, i))
    ensures EdgeImage(s, w, h, ch, threshold)[i] == 0
  {
    SampleCoords(w, h, ch, i);
  }

  /** Alpha is the original alpha everywhere. */
  lemma EdgeKeepsAlpha(s: seq<Byte>, w: nat, h: nat, threshold: real, i: nat)
    requires IsImage(s, w, h, 4) && i < |s| && ChannelOf(4, i) == 3
    ensures EdgeImage(s, w, h, 4, threshold)[i] == s[i]
  {
  }

  /** A non-alpha sample of an interior pixel is 255 exactly when the gradient
      magnitude of that pixel's luma neighbourhood exceeds the threshold. */
  lemma EdgeInteriorIff(s: seq<Byte>, w: nat, h: nat, ch: nat, threshold: real, i: nat)
    requires IsImage(s, w, h, ch) && 3 <= ch && i < |s| && !IsAlpha(ch, ChannelOf(ch, i))
    requires Interior(w, h, ColOf(w, ch, i), RowOf(w, ch, i))
    ensures EdgeImage(s, w, h, ch, threshold)[i] == 255 <==>
      IsEdge(LumaImage(s, w, h, ch), w, h, ColOf(w, ch, i), RowOf(w, ch, i), threshold)
  {
  }

  // ---- The kernel ---------------------------------------------------------

  /** The luma loop: one `gray` byte per pixel, read from the snapshot. */
  method LumaPass(temp: array<Byte>, gray: array<Byte>, w: nat, h: nat, ch: nat, mode: Mode)
    requires temp != gray && IsImage(temp[..], w, h, ch) && 3 <= ch && gray.Length == w * h
    modifies gray
    ensures gray[..] == LumaImage(temp[..], w, h, ch)
  {
    ghost var g := LumaImage(temp[..], w, h, ch);
    var n := w * h;
    var order := Schedule(mode, n);
    for k := 0 to n
      invariant forall q | 0 <= q < n && q in order[..k] :: gray[q] == g[q]
    {
      ScheduleStep(order, n, k);
      var i := order[k];
      var idx := Flat(ch, i, 0);
      FlatBound(ch, n, i, 2);
      ghost var expected := LumaAt(temp[..], w, h, ch, i);
      var luma: Byte := (0.299 * temp[idx] as real + 0.587 * temp[idx + 1] as real + 0.114 * temp[idx + 2] as real).Floor;
      assert luma == expected;
      gray[i] := luma;
    }
    ScheduleDone(order, n);
  }

  /** The `kx` loop for kernel row ky: the three taps of that row added to both sums. */
  method GradientRow(gray: array<Byte>, w: nat, h: nat, x: nat, y: nat, ky: int, gx0: int, gy0: int)
    returns (gx: int, gy: int)
    requires gray.Length == w * h && Interior(w, h, x, y) && -1 <= ky <= 1
    ensures gx == gx0 + RowConv(gray[..], w, h, x, y, SobelGx, ky, 3)
    ensures gy == gy0 + RowConv(gray[..], w, h, x, y, SobelGy, ky, 3)
  {
    ghost var g := gray[..];
    gx, gy := gx0, gy0;
    var kx := -1;
    while kx <= 1
      invariant -1 <= kx <= 2
      invariant gx == gx0 + RowConv(g, w, h, x, y, SobelGx, ky, kx + 1)
      invariant gy == gy0 + RowConv(g, w, h, x, y, SobelGy, ky, kx + 1)
    {
      FlatBound(w, h, y + ky, x + kx);
      var pixel := gray[(y + ky) * w + (x + kx)];
      assert pixel == GrayAt(g, w, h, x + kx, y + ky);
      gx := gx + pixel * SobelGx[ky + 1][kx + 1];
      gy := gy + pixel * SobelGy[ky + 1][kx + 1];
      kx := kx + 1;
    }
  }

  /** The 3x3 loops at interior pixel (x, y): the two convolutions of the luma plane. */
  method Gradients(gray: array<Byte>, w: nat, h: nat, x: nat, y: nat) returns (gx: int, gy: int)
    requires gray.Length == w * h && Interior(w, h, x, y)
    ensures gx == SobelX(gray[..], w, h, x, y) && gy == SobelY(gray[..], w, h, x, y)
  {
    gx, gy := 0, 0;
    var ky := -1;
    while ky <= 1
      invariant -1 <= ky <= 2
      invariant gx == Conv(gray[..], w, h, x, y, SobelGx, ky + 1)
      invariant gy == Conv(gray[..], w, h, x, y, SobelGy, ky + 1)
    {
      gx, gy := GradientRow(gray, w, h, x, y, ky, gx, gy);
      ky := ky + 1;
    }
    ConvSobelX(gray[..], w, h, x, y);
    ConvSobelY(gray[..], w, h, x, y);
  }

  /** The body of the Sobel loop at interior pixel (x, y): 255 or 0 into every channel,
      alpha taken from the snapshot. */
  method SobelPixel(image: array<Byte>, temp: array<Byte>, gray: array<Byte>, w: nat, h: nat, ch: nat,
                    threshold: real, x: nat, y: nat)
    requires image != temp && image != gray
    requires IsImage(temp[..], w, h, ch) && 3 <= ch && image.Length == temp.Length
    requires gray[..] == LumaImage(temp[..], w, h, ch) && threshold >= 0.0
    requires Interior(w, h, x, y)
    modifies image
    ensures forall j | 0 <= j < image.Length ::
      image[j] == if PixelOf(ch, j) == Flat(w, y, x) then EdgeImage(temp[..], w, h, ch, threshold)[j] else old(image[j])
  {
    ghost var e := EdgeImage(temp[..], w, h, ch, threshold);
    var gx, gy := Gradients(gray, w, h, x, y);
    var edgeValue: Byte := if (gx * gx + gy * gy) as real > threshold * threshold then 255 else 0;
    FlatBound(w, h, y, x);
    var p := Flat(w, y, x);
    var c := 0;
    while c < ch
      invariant 0 <= c <= ch
      invariant forall j | 0 <= j < image.Length ::
        image[j] == if PixelOf(ch, j) == p && ChannelOf(ch, j) < c then e[j] else old(image[j])
    {
      var idx := Flat(ch, p, c);
      IdxCoords(w, h, ch, x, y, c);
      if ch == 4 && c == 3 {
        image[idx] := temp[idx];
      } else {
        image[idx] := edgeValue;
      }
      forall j | 0 <= j < image.Length
        ensures image[j] == if PixelOf(ch, j) == p && ChannelOf(ch, j) < c + 1 then e[j] else old(image[j])
      {
        SampleCoords(w, h, ch, j);
      }
      c := c + 1;
    }
    forall j | 0 <= j < image.Length
      ensures image[j] == if PixelOf(ch, j) == p then e[j] else old(image[j])
    {
      SampleCoords(w, h, ch, j);
    }
  }

  /** One iteration of the Sobel `y` loop: the interior pixels of row y. */
  method SobelRow(image: array<Byte>, temp: array<Byte>, gray: array<Byte>, w: nat, h: nat, ch: nat,
                  threshold: real, y: nat)
    requires image != temp && image != gray
    requires IsImage(temp[..], w, h, ch) && 3 <= ch && image.Length == temp.Length
    requires gray[..] == LumaImage(temp[..], w, h, ch) && threshold >= 0.0
    requires 1 <= y && y + 1 < h
    modifies image
    ensures forall j | 0 <= j < image.Length ::
      image[j] == if RowOf(w, ch, j) == y && 1 <= ColOf(w, ch, j) && ColOf(w, ch, j) + 1 < w
                  then EdgeImage(temp[..], w, h, ch, threshold)[j] else old(image[j])
  {
    ghost var e := EdgeImage(temp[..], w, h, ch, threshold);
    var x := 1;
    while x + 1 < w
      invariant 1 <= x && (w >= 2 ==> x + 1 <= w)
      invariant forall j | 0 <= j < image.Length ::
        image[j] == if RowOf(w, ch, j) == y && 1 <= ColOf(w, ch, j) < x then e[j] else old(image[j])
    {
      SobelPixel(image, temp, gray, w, h, ch, threshold, x, y);
      forall j | 0 <= j < image.Length
        ensures image[j] == if RowOf(w, ch, j) == y && 1 <= ColOf(w, ch, j) < x + 1 then e[j] else old(image[j])
      {
        SampleCoords(w, h, ch, j);
        FlatBound(w, h, y, x);
      }
      x := x + 1;
    }
    forall j | 0 <= j < image.Length
      ensures image[j] == if RowOf(w, ch, j) == y && 1 <= ColOf(w, ch, j) && ColOf(w, ch, j) + 1 < w then e[j] else old(image[j])
    {
      SampleCoords(w, h, ch, j);
    }
  }

  /** The Sobel loop over rows 1 .. height-2, in the order of the mode's schedule. */
  method SobelPass(image: array<Byte>, temp: array<Byte>, gray: array<Byte>, w: nat, h: nat, ch: nat,
                   threshold: real, mode: Mode)
    requires image != temp && image != gray
    requires IsImage(temp[..], w, h, ch) && 3 <= ch && image.Length == temp.Length
    requires gray[..] == LumaImage(temp[..], w, h, ch) && threshold >= 0.0
    modifies image
    ensures forall j | 0 <= j < image.Length ::
      image[j] == if Interior(w, h, ColOf(w, ch, j), RowOf(w, ch, j)) then EdgeImage(temp[..], w, h, ch, threshold)[j] else old(image[j])
  {
    ghost var e := EdgeImage(temp[..], w, h, ch, threshold);
    var rows := if h >= 2 then h - 2 else 0;
    var order := Schedule(mode, rows);
    for k := 0 to rows
      invariant forall j | 0 <= j < image.Length ::
        image[j] == if 1 <= RowOf(w, ch, j) && RowOf(w, ch, j) - 1 in order[..k] && 1 <= ColOf(w, ch, j) && ColOf(w, ch, j) + 1 < w
                    then e[j] else old(image[j])
    {
      ScheduleStep(order, rows, k);
      SobelRow(image, temp, gray, w, h, ch, threshold, order[k] + 1);
    }
    forall j | 0 <= j < image.Length
      ensures image[j] == if Interior(w, h, ColOf(w, ch, j), RowOf(w, ch, j)) then e[j] else old(image[j])
    {
      SampleCoords(w, h, ch, j);
      ScheduleDone(order, rows);
    }
  }

  /** The channel loop of the border pass at pixel p: 0 into every channel but alpha. */
  method BlackenPixel(image: array<Byte>, w: nat, h: nat, ch: nat, p: nat)
    requires image.Length == w * h * ch && w > 0 && ch > 0 && p < w * h
    modifies image
    ensures forall j | 0 <= j < image.Length ::
      image[j] == if PixelOf(ch, j) == p && !IsAlpha(ch, ChannelOf(ch, j)) then 0 else old(image[j])
  {
    var c := 0;
    while c < ch
      invariant 0 <= c <= ch
      invariant forall j | 0 <= j < image.Length ::
        image[j] == if PixelOf(ch, j) == p && ChannelOf(ch, j) < c && !IsAlpha(ch, ChannelOf(ch, j)) then 0 else old(image[j])
    {
      if ch == 4 && c == 3 {
        c := c + 1;
        continue;
      }
      var idx := Flat(ch, p, c);
      FlatBound(ch, w * h, p, c);
      image[idx] := 0;
      forall j | 0 <= j < image.Length
        ensures image[j] == if PixelOf(ch, j) == p && ChannelOf(ch, j) < c + 1 && !IsAlpha(ch, ChannelOf(ch, j)) then 0 else old(image[j])
      {
        SampleCoords(w, h, ch, j);
      }
      c := c + 1;
    }
    forall j | 0 <= j < image.Length
      ensures image[j] == if PixelOf(ch, j) == p && !IsAlpha(ch, ChannelOf(ch, j)) then 0 else old(image[j])
    {
      SampleCoords(w, h, ch, j);
    }
  }

  /** One row of the border pass: the border pixels of row y blackened. */
  method BlackenBorderRow(image: array<Byte>, w: nat, h: nat, ch: nat, y: nat)
    requires image.Length == w * h * ch && w > 0 && ch > 0 && y < h
    modifies image
    ensures forall j | 0 <= j < image.Length ::
      image[j] == if RowOf(w, ch, j) == y && Border(w, h, ColOf(w, ch, j), y) && !IsAlpha(ch, ChannelOf(ch, j))
                  then 0 else old(image[j])
  {
    var x := 0;
    while x < w
      invariant 0 <= x <= w
      invariant forall j | 0 <= j < image.Length ::
        image[j] == if RowOf(w, ch, j) == y && ColOf(w, ch, j) < x && Border(w, h, ColOf(w, ch, j), y) && !IsAlpha(ch, ChannelOf(ch, j))
                    then 0 else old(image[j])
    {
      if y == 0 || y == h - 1 || x == 0 || x == w - 1 {
        FlatBound(w, h, y, x);
        BlackenPixel(image, w, h, ch, Flat(w, y, x));
      }
      forall j | 0 <= j < image.Length
        ensures image[j] == if RowOf(w, ch, j) == y && ColOf(w, ch, j) < x + 1 && Border(w, h, ColOf(w, ch, j), y) && !IsAlpha(ch, ChannelOf(ch, j))
                            then 0 else old(image[j])
      {
        SampleCoords(w, h, ch, j);
        FlatBound(w, h, y, x);
      }
      x := x + 1;
    }
    forall j | 0 <= j < image.Length
      ensures image[j] == if RowOf(w, ch, j) == y && Border(w, h, ColOf(w, ch, j), y) && !IsAlpha(ch, ChannelOf(ch, j))
                          then 0 else old(image[j])
    {
      SampleCoords(w, h, ch, j);
    }
  }

  /** The border loops: every border pixel blackened, row by row. */
  method BorderPass(image: array<Byte>, w: nat, h: nat, ch: nat)
    requires image.Length == w * h * ch && w > 0 && ch > 0
    modifies image
    ensures forall j | 0 <= j < image.Length ::
      image[j] == if Border(w, h, ColOf(w, ch, j), RowOf(w, ch, j)) && !IsAlpha(ch, ChannelOf(ch, j)) then 0 else old(image[j])
  {
    var y := 0;
    while y < h
      invariant 0 <= y <= h
      invariant forall j | 0 <= j < image.Length ::
        image[j] == if RowOf(w, ch, j) < y && Border(w, h, ColOf(w, ch, j), RowOf(w, ch, j)) && !IsAlpha(ch, ChannelOf(ch, j))
                    then 0 else old(image[j])
    {
      BlackenBorderRow(image, w, h, ch, y);
      y := y + 1;
    }
    forall j | 0 <= j < image.Length
      ensures image[j] == if Border(w, h, ColOf(w, ch, j), RowOf(w, ch, j)) && !IsAlpha(ch, ChannelOf(ch, j)) then 0 else old(image[j])
    {
      SampleCoords(w, h, ch, j);
    }
  }

  /** `edge_detect` with threshold check, snapshot, luma, Sobel and border passes. */
  method EdgeDetectFilter(image: array<Byte>, w: nat, h: nat, ch: nat, threshold: real, mode: Mode) returns (status: Status)
    requires IsImage(image[..], w, h, ch)
    requires 0.0 <= threshold <= 255.0 ==> 3 <= ch
    modifies image
    ensures status == if 0.0 <= threshold <= 255.0 then Applied else ParameterOutOfRange
    ensures status == Applied ==> image[..] == EdgeImage(old(image[..]), w, h, ch, threshold)
    ensures status != Applied ==> image[..] == old(image[..])
  {
    if threshold < 0.0 || threshold > 255.0 {
      return ParameterOutOfRange;
    }
    ghost var orig := image[..];
    var temp := new Byte[image.Length];
    var gray := new Byte[w * h];
    forall k | 0 <= k < image.Length {
      temp[k] := image[k];
    }
    assert temp[..] == orig;
    ghost var e := EdgeImage(orig, w, h, ch, threshold);
    LumaPass(temp, gray, w, h, ch, mode);
    SobelPass(image, temp, gray, w, h, ch, threshold, mode);
    ghost var afterSobel := image[..];
    assert forall j | 0 <= j < image.Length ::
      afterSobel[j] == if Interior(w, h, ColOf(w, ch, j), RowOf(w, ch, j)) then e[j] else orig[j];
    BorderPass(image, w, h, ch);
    forall j | 0 <= j < image.Length ensures image[j] == e[j] {
      SampleCoords(w, h, ch, j);
      BorderIsNotInterior(w, h, ColOf(w, ch, j), RowOf(w, ch, j));
      assert e[j] == EdgeAt(orig, w, h, ch, threshold, j);
    }
    assert image[..] == e;
    return Applied;
  }
}
