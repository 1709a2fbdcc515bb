// The separable box blur of src/filter.c: `box_h_blur` slides a window of
// 2*radius+1 samples along every row, `box_v_blur` along every column,
// `box_blur` chains the two through a scratch buffer, and `gaussian_blur`
// runs three box blurs in a row.
//
// Both passes keep one running sum per colour channel and, at every position,
// write the sum times `iarr = 1/(2*radius+1)`, truncated. Samples outside the
// line are replaced by the nearest end sample (replicate border). The model
// states each written value as the mean over that clipped window, and proves
// that the running sums of the source's four loop phases are exactly that
// window sum. The sums and `iarr` are exact numbers here (see README).
module BoxBlur {
  import opened Raster

  // ---- One line: clipped window sums ------------------------------------

  /** Position i moved into 0 .. n-1: the replicate-border rule. */
  function Clip(i: int, n: nat): (k: nat)
    requires n > 0
    ensures k < n
    ensures 0 <= i < n ==> k == i
    ensures i < 0 ==> k == 0
    ensures i >= n ==> k == n - 1
  {
    if i < 0 then 0 else if i >= n then n - 1 else i
  }

  /** The sum of `line[Clip(i)]` for lo <= i < hi. */
  function WindowSum(line: seq<Byte>, lo: int, hi: int): int
    requires |line| > 0
    decreases if hi > lo then hi - lo else 0
  {
    if hi <= lo then 0 else WindowSum(line, lo, hi - 1) + line[Clip(hi - 1, |line|)]
  }

  /** The sum of a window centred on position x with the given radius. */
  function Window(line: seq<Byte>, x: int, radius: nat): int
    requires |line| > 0
  {
    WindowSum(line, x - radius, x + radius + 1)
  }

  /** A window of k samples sums to at most 255 * k. */
  lemma {:induction false} WindowSumBound(line: seq<Byte>, lo: int, hi: int)
    requires |line| > 0 && lo <= hi
    ensures 0 <= WindowSum(line, lo, hi) <= 255 * (hi - lo)
    decreases hi - lo
  {
    if hi > lo {
      WindowSumBound(line, lo, hi - 1);
    }
  }

  /** Dropping the first position of a window. */
  lemma {:induction false} WindowSumDropFirst(line: seq<Byte>, lo: int, hi: int)
    requires |line| > 0 && lo < hi
    ensures WindowSum(line, lo, hi) == line[Clip(lo, |line|)] + WindowSum(line, lo + 1, hi)
    decreases hi - lo
  {
    if lo + 1 < hi {
      WindowSumDropFirst(line, lo, hi - 1);
    }
  }

  /** Sliding a window one step right removes its first sample and adds the next one:
      the update every phase of the running sum makes. */
  lemma WindowSlide(line: seq<Byte>, lo: int, hi: int)
    requires |line| > 0 && lo <= hi
    ensures WindowSum(line, lo + 1, hi + 1) == WindowSum(line, lo, hi) - line[Clip(lo, |line|)] + line[Clip(hi, |line|)]
  {
    if lo < hi {
      WindowSumDropFirst(line, lo, hi);
    }
  }

  /** The window at x is the window at x-1 with sample x-radius-1 out and x+radius in. */
  lemma WindowStep(line: seq<Byte>, x: int, radius: nat)
    requires |line| > 0
    ensures Window(line, x, radius) == Window(line, x - 1, radius) - line[Clip(x - 1 - radius, |line|)] + line[Clip(x + radius, |line|)]
  {
    WindowSlide(line, x - 1 - radius, x + radius);
  }

  /** The k positions left of the line all read sample 0. */
  lemma {:induction false} WindowLeftPad(line: seq<Byte>, k: nat, hi: nat)
    requires |line| > 0
    ensures WindowSum(line, -(k as int), hi) == line[0] * k + WindowSum(line, 0, hi)
    decreases k
  {
    if k > 0 {
      WindowSumDropFirst(line, -(k as int), hi);
      WindowLeftPad(line, k - 1, hi);
    }
  }

  /** The plain sum of a sequence. */
  function Sum(s: seq<Byte>): int
  {
    if s == [] then 0 else Sum(s[..|s| - 1]) + s[|s| - 1]
  }

  /** A window that does not leave the line is the plain sum of the samples it covers. */
  lemma {:induction false} WindowSumInside(line: seq<Byte>, lo: nat, hi: nat)
    requires lo <= hi <= |line| && |line| > 0
    ensures WindowSum(line, lo, hi) == Sum(line[lo..hi])
    decreases hi - lo
  {
    if lo < hi {
      WindowSumInside(line, lo, hi - 1);
      assert line[lo..hi][..hi - 1 - lo] == line[lo..hi - 1];
    }
  }

  /** On a line of a single value v every window of k samples sums to k * v. */
  lemma {:induction false} WindowSumUniform(line: seq<Byte>, v: Byte, lo: int, hi: int)
    requires |line| > 0 && lo <= hi
    requires forall k | 0 <= k < |line| :: line[k] == v
    ensures WindowSum(line, lo, hi) == (hi - lo) * v
    decreases hi - lo
  {
    if lo < hi {
      WindowSumUniform(line, v, lo, hi - 1);
    }
  }

  /** The quotient of a sum of n samples by n is a sample value bracketing the sum. */
  lemma MeanBounds(sum: int, n: nat)
    requires n > 0 && 0 <= sum <= 255 * n
    ensures 0 <= sum / n <= 255
    ensures (sum / n) * n <= sum < (sum / n + 1) * n
  {
    var q, r := sum / n, sum % n;
    assert sum == q * n + r && 0 <= r < n;
    assert (q + 1) * n == q * n + n;
    assert (q - 255) * n <= 0;
  }

  /** The truncated mean of a window: `(unsigned char)(val * iarr)`. */
  function BoxAt(line: seq<Byte>, x: int, radius: nat): (b: Byte)
    requires |line| > 0
    ensures b * (2 * radius + 1) <= Window(line, x, radius) < (b + 1) * (2 * radius + 1)
  {
    WindowSumBound(line, x - radius, x + radius + 1);
    MeanBounds(Window(line, x, radius), 2 * radius + 1);
    Window(line, x, radius) / (2 * radius + 1)
  }

  /** Away from the ends, the blurred value is the mean of the 2r+1 samples around x. */
  lemma BoxAtInterior(line: seq<Byte>, x: nat, radius: nat)
    requires radius <= x && x + radius < |line|
    ensures BoxAt(line, x, radius) == Sum(line[x - radius..x + radius + 1]) / (2 * radius + 1)
  {
    WindowSumInside(line, x - radius, x + radius + 1);
  }

  /** Blurring a uniform line gives back its value at every position. */
  lemma BoxAtUniform(line: seq<Byte>, v: Byte, x: int, radius: nat)
    requires |line| > 0 && forall k | 0 <= k < |line| :: line[k] == v
    ensures BoxAt(line, x, radius) == v
  {
    WindowSumUniform(line, v, x - radius, x + radius + 1);
    assert Window(line, x, radius) == v * (2 * radius + 1) + 0;
    DivModUnique(2 * radius + 1, v, 0);
  }

  /** `(unsigned char)(val * iarr)` with `iarr = 1/n`, in exact arithmetic, is val / n. */
  lemma FloorOfMean(val: int, n: nat)
    requires val >= 0 && n > 0
    ensures (val as real * (1.0 / n as real)).Floor == val / n
  {
    var q, m := val / n, val % n;
    assert val as real == q as real * n as real + m as real;
    var x := val as real * (1.0 / n as real);
    assert x == q as real + m as real / n as real;
    assert 0.0 <= m as real / n as real < 1.0;
  }

  // ---- Rows and columns -------------------------------------------------

  /** `box_h_blur` works along rows, `box_v_blur` along columns. */
  datatype Axis = Horizontal | Vertical

  function LineLength(axis: Axis, w: nat, h: nat): nat
  {
    if axis == Horizontal then w else h
  }

  function LineCount(axis: Axis, w: nat, h: nat): nat
  {
    if axis == Horizontal then h else w
  }

  /** Sample c at position k of line l: pixel (k, l) of row l, or pixel (l, k) of column l.
      The source writes `row_offset + x*channels + c` and `(y*width + x)*channels + c`,
      which are both this index. */
  function LineIdx(axis: Axis, w: nat, ch: nat, l: nat, k: nat, c: nat): nat
  {
    if axis == Horizontal then Idx(w, ch, k, l, c) else Idx(w, ch, l, k, c)
  }

  /** The line a sample index belongs to. */
  function LineOf(axis: Axis, w: nat, ch: nat, i: nat): nat
    requires w > 0 && ch > 0
  {
    if axis == Horizontal then RowOf(w, ch, i) else ColOf(w, ch, i)
  }

  /** The position of a sample index along its line. */
  function PosOf(axis: Axis, w: nat, ch: nat, i: nat): nat
    requires w > 0 && ch > 0
  {
    if axis == Horizontal then ColOf(w, ch, i) else RowOf(w, ch, i)
  }

  lemma LineIdxCoords(axis: Axis, w: nat, h: nat, ch: nat, l: nat, k: nat, c: nat)
    requires l < LineCount(axis, w, h) && k < LineLength(axis, w, h) && c < ch
    ensures LineIdx(axis, w, ch, l, k, c) < w * h * ch
    ensures LineOf(axis, w, ch, LineIdx(axis, w, ch, l, k, c)) == l
    ensures PosOf(axis, w, ch, LineIdx(axis, w, ch, l, k, c)) == k
    ensures ChannelOf(ch, LineIdx(axis, w, ch, l, k, c)) == c
  {
    if axis == Horizontal {
      IdxCoords(w, h, ch, k, l, c);
    } else {
      IdxCoords(w, h, ch, l, k, c);
    }
  }

  lemma SampleLineCoords(axis: Axis, w: nat, h: nat, ch: nat, i: nat)
    requires w > 0 && ch > 0 && i < w * h * ch
    ensures LineOf(axis, w, ch, i) < LineCount(axis, w, h) && PosOf(axis, w, ch, i) < LineLength(axis, w, h)
    ensures ChannelOf(ch, i) < ch
    ensures i == LineIdx(axis, w, ch, LineOf(axis, w, ch, i), PosOf(axis, w, ch, i), ChannelOf(ch, i))
  {
    SampleCoords(w, h, ch, i);
  }

  /** Sample c at position k of line l. */
  function LineAt(axis: Axis, s: seq<Byte>, w: nat, h: nat, ch: nat, l: nat, c: nat, k: nat): Byte
    requires IsImage(s, w, h, ch) && l < LineCount(axis, w, h) && c < ch && k < LineLength(axis, w, h)
  {
    LineIdxCoords(axis, w, h, ch, l, k, c);
    s[LineIdx(axis, w, ch, l, k, c)]
  }

  /** Channel c of line l, as a sequence of samples. */
  function Line(axis: Axis, s: seq<Byte>, w: nat, h: nat, ch: nat, l: nat, c: nat): (line: seq<Byte>)
    requires IsImage(s, w, h, ch) && l < LineCount(axis, w, h) && c < ch
    ensures |line| == LineLength(axis, w, h) && |line| > 0
    ensures forall k | 0 <= k < |line| :: line[k] == LineAt(axis, s, w, h, ch, l, c, k)
  {
    seq(LineLength(axis, w, h), k requires 0 <= k < LineLength(axis, w, h) => LineAt(axis, s, w, h, ch, l, c, k))
  }

  // ---- One pass ---------------------------------------------------------

  /** Sample i after one pass: the window mean along its line for R, G and B; alpha
      (channel 3 of a four-channel image) copied. */
  function BlurAt(axis: Axis, s: seq<Byte>, w: nat, h: nat, ch: nat, radius: nat, i: nat): Byte
    requires IsImage(s, w, h, ch) && 3 <= ch <= 4 && i < |s|
  {
    SampleLineCoords(axis, w, h, ch, i);
    var c := ChannelOf(ch, i);
    if c < 3 then BoxAt(Line(axis, s, w, h, ch, LineOf(axis, w, ch, i), c), PosOf(axis, w, ch, i), radius) else s[i]
  }

  /** The image one pass of `box_h_blur` (Horizontal) or `box_v_blur` (Vertical) writes. */
  function BlurImage(axis: Axis, s: seq<Byte>, w: nat, h: nat, ch: nat, radius: nat): (t: seq<Byte>)
    requires IsImage(s, w, h, ch) && 3 <= ch <= 4
    ensures IsImage(t, w, h, ch)
    ensures forall i | 0 <= i < |s| :: t[i] == BlurAt(axis, s, w, h, ch, radius, i)
  {
    seq(|s|, i requires 0 <= i < |s| => BlurAt(axis, s, w, h, ch, radius, i))
  }

  /** Colour c of the pixel at position k of line l after a pass: the mean of the
      clipped window of 2*radius+1 samples around k along that line. */
  lemma BlurSample(axis: Axis, s: seq<Byte>, w: nat, h: nat, ch: nat, radius: nat, l: nat, k: nat, c: nat)
    requires IsImage(s, w, h, ch) && 3 <= ch <= 4
    requires l < LineCount(axis, w, h) && k < LineLength(axis, w, h) && c < 3
    ensures LineIdx(axis, w, ch, l, k, c) < |s|
    ensures BlurImage(axis, s, w, h, ch, radius)[LineIdx(axis, w, ch, l, k, c)] == BoxAt(Line(axis, s, w, h, ch, l, c), k, radius)
  {
    LineIdxCoords(axis, w, h, ch, l, k, c);
  }

  /** A pass leaves the alpha channel of a four-channel image as it was. */
  lemma BlurKeepsAlpha(axis: Axis, s: seq<Byte>, w: nat, h: nat, radius: nat, i: nat)
    requires IsImage(s, w, h, 4) && i < |s| && ChannelOf(4, i) == 3
    ensures BlurImage(axis, s, w, h, 4, radius)[i] == s[i]
  {
  }

  /** Channels 0..2 of one pixel are the three samples after its channel 0, and they
      are the only samples of the image at that pixel's position with a channel below 3. */
  lemma LineIdxChannels(axis: Axis, w: nat, h: nat, ch: nat, l: nat, k: nat)
    requires l < LineCount(axis, w, h) && k < LineLength(axis, w, h) && 3 <= ch
    ensures LineIdx(axis, w, ch, l, k, 2) < w * h * ch
    ensures LineIdx(axis, w, ch, l, k, 1) == LineIdx(axis, w, ch, l, k, 0) + 1
    ensures LineIdx(axis, w, ch, l, k, 2) == LineIdx(axis, w, ch, l, k, 0) + 2
    ensures forall c | 0 <= c < 3 ::
      && LineOf(axis, w, ch, LineIdx(axis, w, ch, l, k, c)) == l
      && PosOf(axis, w, ch, LineIdx(axis, w, ch, l, k, c)) == k
      && ChannelOf(ch, LineIdx(axis, w, ch, l, k, c)) == c
  {
    LineIdxCoords(axis, w, h, ch, l, k, 0);
    LineIdxCoords(axis, w, h, ch, l, k, 1);
    LineIdxCoords(axis, w, h, ch, l, k, 2);
  }

  /** The three colour samples at position k of line l are the lines' k-th entries. */
  lemma LineRead(axis: Axis, s: seq<Byte>, w: nat, h: nat, ch: nat, l: nat, k: nat)
    requires IsImage(s, w, h, ch) && 3 <= ch && l < LineCount(axis, w, h) && k < LineLength(axis, w, h)
    ensures LineIdx(axis, w, ch, l, k, 0) + 2 < |s|
    ensures s[LineIdx(axis, w, ch, l, k, 0)] == Line(axis, s, w, h, ch, l, 0)[k]
    ensures s[LineIdx(axis, w, ch, l, k, 0) + 1] == Line(axis, s, w, h, ch, l, 1)[k]
    ensures s[LineIdx(axis, w, ch, l, k, 0) + 2] == Line(axis, s, w, h, ch, l, 2)[k]
  {
    LineIdxChannels(axis, w, h, ch, l, k);
  }

  /** `(unsigned char)(val * iarr)` for a running sum that equals the window at x. */
  method MeanByte(val: int, radius: nat, iarr: real, ghost line: seq<Byte>, ghost x: nat) returns (b: Byte)
    requires |line| > 0 && iarr == 1.0 / (radius + radius + 1) as real && val == Window(line, x, radius)
    ensures b == BoxAt(line, x, radius)
  {
    WindowSumBound(line, x - radius, x + radius + 1);
    FloorOfMean(val, radius + radius + 1);
    assert radius + radius + 1 == 2 * radius + 1;
    assert (val as real * iarr).Floor == val / (2 * radius + 1) == BoxAt(line, x, radius);
    b := (val as real * iarr).Floor;
  }

  /** The bytes `(unsigned char)(val * iarr)` for the three running sums, written to
      channels 0..2 of the pixel at position x of line l. */
  method EmitPixel(axis: Axis, src: array<Byte>, dst: array<Byte>, w: nat, h: nat, ch: nat, radius: nat,
                   l: nat, x: nat, valR: int, valG: int, valB: int, iarr: real)
    requires src != dst && IsImage(src[..], w, h, ch) && dst.Length == src.Length && 3 <= ch <= 4
    requires l < LineCount(axis, w, h) && x < LineLength(axis, w, h)
    requires iarr == 1.0 / (radius + radius + 1) as real
    requires valR == Window(Line(axis, src[..], w, h, ch, l, 0), x, radius)
    requires valG == Window(Line(axis, src[..], w, h, ch, l, 1), x, radius)
    requires valB == Window(Line(axis, src[..], w, h, ch, l, 2), x, radius)
    modifies dst
    ensures forall j | 0 <= j < dst.Length ::
      dst[j] == if LineOf(axis, w, ch, j) == l && PosOf(axis, w, ch, j) == x && ChannelOf(ch, j) < 3
                then BlurImage(axis, src[..], w, h, ch, radius)[j] else old(dst[j])
  {
    ghost var s := src[..];
    ghost var t := BlurImage(axis, s, w, h, ch, radius);
    var idx := LineIdx(axis, w, ch, l, x, 0);
    LineIdxChannels(axis, w, h, ch, l, x);
    var r := MeanByte(valR, radius, iarr, Line(axis, s, w, h, ch, l, 0), x);
    var g := MeanByte(valG, radius, iarr, Line(axis, s, w, h, ch, l, 1), x);
    var b := MeanByte(valB, radius, iarr, Line(axis, s, w, h, ch, l, 2), x);
    BlurSample(axis, s, w, h, ch, radius, l, x, 0);
    BlurSample(axis, s, w, h, ch, radius, l, x, 1);
    BlurSample(axis, s, w, h, ch, radius, l, x, 2);
    dst[idx] := r;
    dst[idx + 1] := g;
    dst[idx + 2] := b;
    forall j | 0 <= j < dst.Length
      ensures dst[j] == if LineOf(axis, w, ch, j) == l && PosOf(axis, w, ch, j) == x && ChannelOf(ch, j) < 3
                        then t[j] else old(dst[j])
    {
      SampleLineCoords(axis, w, h, ch, j);
    }
  }

  /** The starting sums: `radius+1` copies of sample 0 (its clipped left neighbours and
      itself) plus samples 0 .. radius-1, which is the window of position -1. */
  method InitialSums(axis: Axis, src: array<Byte>, w: nat, h: nat, ch: nat, radius: nat, l: nat)
    returns (valR: int, valG: int, valB: int)
    requires IsImage(src[..], w, h, ch) && 3 <= ch
    requires l < LineCount(axis, w, h) && 2 * radius + 1 <= LineLength(axis, w, h)
    ensures valR == Window(Line(axis, src[..], w, h, ch, l, 0), -1, radius)
    ensures valG == Window(Line(axis, src[..], w, h, ch, l, 1), -1, radius)
    ensures valB == Window(Line(axis, src[..], w, h, ch, l, 2), -1, radius)
  {
    ghost var s := src[..];
    ghost var lr, lg, lb := Line(axis, s, w, h, ch, l, 0), Line(axis, s, w, h, ch, l, 1), Line(axis, s, w, h, ch, l, 2);
    var first := LineIdx(axis, w, ch, l, 0, 0);
    LineRead(axis, s, w, h, ch, l, 0);
    valR := src[first] * (radius + 1);
    valG := src[first + 1] * (radius + 1);
    valB := src[first + 2] * (radius + 1);
    var x := 0;
    while x < radius
      invariant 0 <= x <= radius
      invariant valR == lr[0] * (radius + 1) + WindowSum(lr, 0, x)
      invariant valG == lg[0] * (radius + 1) + WindowSum(lg, 0, x)
      invariant valB == lb[0] * (radius + 1) + WindowSum(lb, 0, x)
    {
      var i := LineIdx(axis, w, ch, l, x, 0);
      LineRead(axis, s, w, h, ch, l, x);
      valR := valR + src[i];
      valG := valG + src[i + 1];
      valB := valB + src[i + 2];
      x := x + 1;
    }
    WindowLeftPad(lr, radius + 1, radius);
    WindowLeftPad(lg, radius + 1, radius);
    WindowLeftPad(lb, radius + 1, radius);
  }

  /** Which phase of the running sum: the left end (windows that start before sample 0),
      the interior, or the right end (windows that run past the last sample). */
  datatype Phase = LeftEnd | Interior | RightEnd

  /** The positions a phase writes, for a line of n samples. */
  function PhaseStart(phase: Phase, n: nat, radius: nat): int
  {
    match phase
    case LeftEnd => 0
    case Interior => radius + 1
    case RightEnd => n - radius
  }

  function PhaseEnd(phase: Phase, n: nat, radius: nat): int
  {
    match phase
    case LeftEnd => radius + 1
    case Interior => n - radius
    case RightEnd => n
  }

  /** The sum update at position x of a phase: the sample entering at x+radius (the last
      sample in the right-end phase) in, the one leaving at x-radius-1 (sample 0 in the
      left-end phase) out. */
  method SlideSums(phase: Phase, axis: Axis, src: array<Byte>, w: nat, h: nat, ch: nat, radius: nat, l: nat, x: nat,
                   valR0: int, valG0: int, valB0: int)
    returns (valR: int, valG: int, valB: int)
    requires IsImage(src[..], w, h, ch) && 3 <= ch
    requires l < LineCount(axis, w, h) && 2 * radius + 1 <= LineLength(axis, w, h)
    requires PhaseStart(phase, LineLength(axis, w, h), radius) <= x < PhaseEnd(phase, LineLength(axis, w, h), radius)
    requires && valR0 == Window(Line(axis, src[..], w, h, ch, l, 0), x - 1, radius)
             && valG0 == Window(Line(axis, src[..], w, h, ch, l, 1), x - 1, radius)
             && valB0 == Window(Line(axis, src[..], w, h, ch, l, 2), x - 1, radius)
    ensures && valR == Window(Line(axis, src[..], w, h, ch, l, 0), x, radius)
            && valG == Window(Line(axis, src[..], w, h, ch, l, 1), x, radius)
            && valB == Window(Line(axis, src[..], w, h, ch, l, 2), x, radius)
  {
    ghost var s := src[..];
    ghost var lr, lg, lb := Line(axis, s, w, h, ch, l, 0), Line(axis, s, w, h, ch, l, 1), Line(axis, s, w, h, ch, l, 2);
    var n := LineLength(axis, w, h);
    WindowStep(lr, x, radius);
    WindowStep(lg, x, radius);
    WindowStep(lb, x, radius);
    var addPos := if phase == RightEnd then n - 1 else x + radius;
    var dropPos := if phase == LeftEnd then 0 else x - radius - 1;
    assert addPos == Clip(x + radius, n) && dropPos == Clip(x - 1 - radius, n);
    var add := LineIdx(axis, w, ch, l, addPos, 0);
    var drop := LineIdx(axis, w, ch, l, dropPos, 0);
    LineRead(axis, s, w, h, ch, l, addPos);
    LineRead(axis, s, w, h, ch, l, dropPos);
    valR := valR0 + src[add] - src[drop];
    valG := valG0 + src[add + 1] - src[drop + 1];
    valB := valB0 + src[add + 2] - src[drop + 2];
  }

  /** One of the three writing loops of a line. Position x's sums are the previous
      window's plus the sample entering at x+radius (the last sample in the right-end
      phase) minus the one leaving at x-radius-1 (sample 0 in the left-end phase). */
  method SlidePhase(phase: Phase, axis: Axis, src: array<Byte>, dst: array<Byte>, w: nat, h: nat, ch: nat,
                    radius: nat, l: nat, iarr: real, valR0: int, valG0: int, valB0: int)
    returns (valR: int, valG: int, valB: int)
    requires src != dst && IsImage(src[..], w, h, ch) && dst.Length == src.Length && 3 <= ch <= 4
    requires l < LineCount(axis, w, h) && 2 * radius + 1 <= LineLength(axis, w, h)
    requires iarr == 1.0 / (radius + radius + 1) as real
    requires var x0 := PhaseStart(phase, LineLength(axis, w, h), radius);
      && valR0 == Window(Line(axis, src[..], w, h, ch, l, 0), x0 - 1, radius)
      && valG0 == Window(Line(axis, src[..], w, h, ch, l, 1), x0 - 1, radius)
      && valB0 == Window(Line(axis, src[..], w, h, ch, l, 2), x0 - 1, radius)
    modifies dst
    ensures var x1 := PhaseEnd(phase, LineLength(axis, w, h), radius);
      && valR == Window(Line(axis, src[..], w, h, ch, l, 0), x1 - 1, radius)
      && valG == Window(Line(axis, src[..], w, h, ch, l, 1), x1 - 1, radius)
      && valB == Window(Line(axis, src[..], w, h, ch, l, 2), x1 - 1, radius)
    ensures forall j | 0 <= j < dst.Length ::
      dst[j] == if LineOf(axis, w, ch, j) == l && ChannelOf(ch, j) < 3
                   && PhaseStart(phase, LineLength(axis, w, h), radius) <= PosOf(axis, w, ch, j) < PhaseEnd(phase, LineLength(axis, w, h), radius)
                then BlurImage(axis, src[..], w, h, ch, radius)[j] else old(dst[j])
  {
    ghost var s := src[..];
    ghost var t := BlurImage(axis, s, w, h, ch, radius);
    ghost var lr, lg, lb := Line(axis, s, w, h, ch, l, 0), Line(axis, s, w, h, ch, l, 1), Line(axis, s, w, h, ch, l, 2);
    var n := LineLength(axis, w, h);
    var x0 := PhaseStart(phase, n, radius);
    var x1 := PhaseEnd(phase, n, radius);
    valR, valG, valB := valR0, valG0, valB0;
    var x := x0;
    while x < x1
      invariant x0 <= x <= x1
      invariant valR == Window(lr, x - 1, radius) && valG == Window(lg, x - 1, radius) && valB == Window(lb, x - 1, radius)
      invariant forall j | 0 <= j < dst.Length ::
        dst[j] == if LineOf(axis, w, ch, j) == l && ChannelOf(ch, j) < 3 && x0 <= PosOf(axis, w, ch, j) < x
                  then t[j] else old(dst[j])
    {
      valR, valG, valB := SlideSums(phase, axis, src, w, h, ch, radius, l, x, valR, valG, valB);
      EmitPixel(axis, src, dst, w, h, ch, radius, l, x, valR, valG, valB, iarr);
      x := x + 1;
    }
  }

  /** The alpha loop: channel 3 of every pixel of the line copied from `src`. */
  method CopyAlpha(axis: Axis, src: array<Byte>, dst: array<Byte>, w: nat, h: nat, ch: nat, radius: nat, l: nat)
    requires src != dst && IsImage(src[..], w, h, ch) && dst.Length == src.Length && ch == 4
    requires l < LineCount(axis, w, h)
    modifies dst
    ensures forall j | 0 <= j < dst.Length ::
      dst[j] == if LineOf(axis, w, ch, j) == l && ChannelOf(ch, j) == 3 then BlurImage(axis, src[..], w, h, ch, radius)[j] else old(dst[j])
  {
    ghost var t := BlurImage(axis, src[..], w, h, ch, radius);
    var n := LineLength(axis, w, h);
    var x := 0;
    while x < n
      invariant 0 <= x <= n
      invariant forall j | 0 <= j < dst.Length ::
        dst[j] == if LineOf(axis, w, ch, j) == l && ChannelOf(ch, j) == 3 && PosOf(axis, w, ch, j) < x then t[j] else old(dst[j])
    {
      var a := LineIdx(axis, w, ch, l, x, 3);
      LineIdxCoords(axis, w, h, ch, l, x, 3);
      dst[a] := src[a];
      forall j | 0 <= j < dst.Length
        ensures dst[j] == if LineOf(axis, w, ch, j) == l && ChannelOf(ch, j) == 3 && PosOf(axis, w, ch, j) < x + 1 then t[j] else old(dst[j])
      {
        SampleLineCoords(axis, w, h, ch, j);
      }
      x := x + 1;
    }
    forall j | 0 <= j < dst.Length
      ensures dst[j] == if LineOf(axis, w, ch, j) == l && ChannelOf(ch, j) == 3 then t[j] else old(dst[j])
    {
      SampleLineCoords(axis, w, h, ch, j);
    }
  }

  /** One iteration of the outer loop of `box_h_blur` (a row) or `box_v_blur` (a
      column): the starting sums, the three writing phases, then the alpha copy. */
  method BlurLine(axis: Axis, src: array<Byte>, dst: array<Byte>, w: nat, h: nat, ch: nat, radius: nat, l: nat)
    requires src != dst && IsImage(src[..], w, h, ch) && dst.Length == src.Length && 3 <= ch <= 4
    requires l < LineCount(axis, w, h) && 2 * radius + 1 <= LineLength(axis, w, h)
    modifies dst
    ensures forall j | 0 <= j < dst.Length ::
      dst[j] == if LineOf(axis, w, ch, j) == l then BlurImage(axis, src[..], w, h, ch, radius)[j] else old(dst[j])
  {
    ghost var t := BlurImage(axis, src[..], w, h, ch, radius);
    var n := LineLength(axis, w, h);
    var iarr := 1.0 / (radius + radius + 1) as real;
    var valR, valG, valB := InitialSums(axis, src, w, h, ch, radius, l);
    valR, valG, valB := SlidePhase(LeftEnd, axis, src, dst, w, h, ch, radius, l, iarr, valR, valG, valB);
    valR, valG, valB := SlidePhase(Interior, axis, src, dst, w, h, ch, radius, l, iarr, valR, valG, valB);
    valR, valG, valB := SlidePhase(RightEnd, axis, src, dst, w, h, ch, radius, l, iarr, valR, valG, valB);
    if ch == 4 {
      CopyAlpha(axis, src, dst, w, h, ch, radius, l);
    }
    forall j | 0 <= j < dst.Length
      ensures dst[j] == if LineOf(axis, w, ch, j) == l then t[j] else old(dst[j])
    {
      SampleLineCoords(axis, w, h, ch, j);
    }
  }

  /** All lines of one pass, each run once in the order of the mode's schedule. */
  method BlurPass(axis: Axis, src: array<Byte>, dst: array<Byte>, w: nat, h: nat, ch: nat, radius: nat, mode: Mode)
    requires src != dst && IsImage(src[..], w, h, ch) && dst.Length == src.Length && 3 <= ch <= 4
    requires 2 * radius + 1 <= LineLength(axis, w, h)
    modifies dst
    ensures dst[..] == BlurImage(axis, src[..], w, h, ch, radius)
  {
    ghost var t := BlurImage(axis, src[..], w, h, ch, radius);
    var lines := LineCount(axis, w, h);
    var order := Schedule(mode, lines);
    for k := 0 to lines
      invariant forall j | 0 <= j < dst.Length ::
        dst[j] == if LineOf(axis, w, ch, j) in order[..k] then t[j] else old(dst[j])
    {
      ScheduleStep(order, lines, k);
      BlurLine(axis, src, dst, w, h, ch, radius, order[k]);
    }
    forall j | 0 <= j < dst.Length ensures dst[j] == t[j] {
      SampleLineCoords(axis, w, h, ch, j);
      ScheduleDone(order, lines);
    }
  }

  /** `box_h_blur`: every row of `src` blurred into `dst`. */
  method BoxHBlur(src: array<Byte>, dst: array<Byte>, w: nat, h: nat, ch: nat, radius: nat, mode: Mode)
    requires src != dst && IsImage(src[..], w, h, ch) && dst.Length == src.Length && 3 <= ch <= 4
    requires 2 * radius + 1 <= w
    modifies dst
    ensures dst[..] == BlurImage(Horizontal, src[..], w, h, ch, radius)
  {
    BlurPass(Horizontal, src, dst, w, h, ch, radius, mode);
  }

  /** `box_v_blur`: every column of `src` blurred into `dst`. */
  method BoxVBlur(src: array<Byte>, dst: array<Byte>, w: nat, h: nat, ch: nat, radius: nat, mode: Mode)
    requires src != dst && IsImage(src[..], w, h, ch) && dst.Length == src.Length && 3 <= ch <= 4
    requires 2 * radius + 1 <= h
    modifies dst
    ensures dst[..] == BlurImage(Vertical, src[..], w, h, ch, radius)
  {
    BlurPass(Vertical, src, dst, w, h, ch, radius, mode);
  }

  // ---- box_blur and gaussian_blur ---------------------------------------

  /** A horizontal pass followed by a vertical pass. */
  function BoxBlurImage(s: seq<Byte>, w: nat, h: nat, ch: nat, radius: nat): (t: seq<Byte>)
    requires IsImage(s, w, h, ch) && 3 <= ch <= 4
    ensures IsImage(t, w, h, ch)
  {
    BlurImage(Vertical, BlurImage(Horizontal, s, w, h, ch, radius), w, h, ch, radius)
  }

  /** The two passes of a box blur each keep alpha, so the blur does. */
  lemma BoxBlurKeepsAlpha(s: seq<Byte>, w: nat, h: nat, radius: nat, i: nat)
    requires IsImage(s, w, h, 4) && i < |s| && ChannelOf(4, i) == 3
    ensures BoxBlurImage(s, w, h, 4, radius)[i] == s[i]
  {
    var t := BlurImage(Horizontal, s, w, h, 4, radius);
    BlurKeepsAlpha(Horizontal, s, w, h, radius, i);
    BlurKeepsAlpha(Vertical, t, w, h, radius, i);
  }

  /** `box_blur`: `src` into `temp` along rows, then `temp` into `dst` along columns. */
  method BoxBlurPasses(src: array<Byte>, dst: array<Byte>, temp: array<Byte>, w: nat, h: nat, ch: nat, radius: nat, mode: Mode)
    requires src != dst && src != temp && dst != temp
    requires IsImage(src[..], w, h, ch) && dst.Length == src.Length && temp.Length == src.Length && 3 <= ch <= 4
    requires 2 * radius + 1 <= w && 2 * radius + 1 <= h
    modifies dst, temp
    ensures dst[..] == BoxBlurImage(old(src[..]), w, h, ch, radius)
  {
    BoxHBlur(src, temp, w, h, ch, radius, mode);
    BoxVBlur(temp, dst, w, h, ch, radius, mode);
  }

  /** Radii a box blur can be run with on a w x h image. */
  predicate RadiiFit(radii: seq<nat>, w: nat, h: nat)
  {
    forall k | 0 <= k < |radii| :: 2 * radii[k] + 1 <= w && 2 * radii[k] + 1 <= h
  }

  /** Box blurs with the given radii, first radius first, each reading the previous output. */
  function BlurChain(s: seq<Byte>, w: nat, h: nat, ch: nat, radii: seq<nat>): (t: seq<Byte>)
    requires IsImage(s, w, h, ch) && 3 <= ch <= 4
    ensures IsImage(t, w, h, ch)
    decreases |radii|
  {
    if radii == [] then s else BlurChain(BoxBlurImage(s, w, h, ch, radii[0]), w, h, ch, radii[1..])
  }

  /** Running one more box blur after a chain extends the chain by that radius. */
  lemma {:induction false} BlurChainSnoc(s: seq<Byte>, w: nat, h: nat, ch: nat, radii: seq<nat>, radius: nat)
    requires IsImage(s, w, h, ch) && 3 <= ch <= 4
    ensures BlurChain(s, w, h, ch, radii + [radius]) == BoxBlurImage(BlurChain(s, w, h, ch, radii), w, h, ch, radius)
    decreases |radii|
  {
    if radii != [] {
      assert (radii + [radius])[1..] == radii[1..] + [radius];
      BlurChainSnoc(BoxBlurImage(s, w, h, ch, radii[0]), w, h, ch, radii[1..], radius);
    } else {
      assert [radius][1..] == [];
    }
  }

  /** A chain of box blurs keeps the alpha channel. */
  lemma {:induction false} BlurChainKeepsAlpha(s: seq<Byte>, w: nat, h: nat, radii: seq<nat>, i: nat)
    requires IsImage(s, w, h, 4) && i < |s| && ChannelOf(4, i) == 3
    ensures BlurChain(s, w, h, 4, radii)[i] == s[i]
    decreases |radii|
  {
    if radii != [] {
      BoxBlurKeepsAlpha(s, w, h, radii[0], i);
      BlurChainKeepsAlpha(BoxBlurImage(s, w, h, 4, radii[0]), w, h, radii[1..], i);
    }
  }

  /** `gaussian_blur`'s range check on sigma. */
  predicate SigmaInRange(sigma: real)
  {
    !(sigma < 1.0 || sigma > 10.0)
  }

  /** What a blur with the given radii needs: three radii, each fitting the
      image (`2r+1` no larger than the width or the height), and three or four
      channels. Outside that the running sums read past a line. */
  predicate BlurFits(radii: seq<nat>, w: nat, h: nat, ch: nat)
  {
    3 <= ch <= 4 && |radii| == 3 && RadiiFit(radii, w, h)
  }

  /** `gaussian_blur`: three box blurs with the radii `box_radii` derives from
      sigma, here the function `boxRadii`. `buffer` holds the input of each
      blur, `temp` the horizontal pass, and the result of each blur lands in
      `image`. */
  method GaussianBlur(image: array<Byte>, w: nat, h: nat, ch: nat, sigma: real,
                      boxRadii: real -> seq<nat>, mode: Mode)
    returns (status: Status)
    requires IsImage(image[..], w, h, ch)
    requires SigmaInRange(sigma) ==> BlurFits(boxRadii(sigma), w, h, ch)
    modifies image
    ensures status == if SigmaInRange(sigma) then Applied else ParameterOutOfRange
    ensures status == Applied ==> image[..] == BlurChain(old(image[..]), w, h, ch, boxRadii(sigma))
    ensures status != Applied ==> image[..] == old(image[..])
  {
    if sigma < 1.0 || sigma > 10.0 {
      return ParameterOutOfRange;
    }
    var radii := boxRadii(sigma);
    ghost var orig := image[..];
    var temp := new Byte[image.Length];
    var buffer := new Byte[image.Length];
    forall k | 0 <= k < image.Length {
      buffer[k] := image[k];
    }
    for i := 0 to 3
      invariant i < 3 ==> buffer[..] == BlurChain(orig, w, h, ch, radii[..i])
      invariant i > 0 ==> image[..] == BlurChain(orig, w, h, ch, radii[..i])
    {
      BoxBlurPasses(buffer, image, temp, w, h, ch, radii[i], mode);
      BlurChainSnoc(orig, w, h, ch, radii[..i], radii[i]);
      assert radii[..i + 1] == radii[..i] + [radii[i]];
      if i < 2 {
        forall k | 0 <= k < image.Length {
          buffer[k] := image[k];
        }
      }
    }
    assert radii[..3] == radii;
    return Applied;
  }
}
