// The flat sample buffer the kernels of src/filter.c work on: `width*height*channels`
// bytes, row-major, channel-interleaved. Sample (x, y, c) lives at
// `(y*width + x)*channels + c`; this module names that arithmetic once and
// proves the facts about it the kernels need.
//
// It also models the `use_thread` switch. In parallel mode a kernel's
// `#pragma omp parallel for` runs every iteration of its loop exactly once,
// in an order the model leaves open; in sequential mode the same iterations
// run in ascending order.
module Raster {

  type Byte = b: int | 0 <= b < 256

  /** The value of the global `use_thread` seen by a kernel: 1 or 0. */
  datatype Mode = Parallel | Sequential

  /** What a kernel did: it ran, or it printed an error and returned before its first write. */
  datatype Status = Applied | ParameterOutOfRange | UnsupportedChannelCount

  /** A value that may be absent: a found index, an error code. */
  datatype Option<T> = None | Some(value: T)

  /** The three colour samples of one pixel. */
  datatype Rgb = Rgb(r: Byte, g: Byte, b: Byte)

  /** Index of element `minor` of block `major` when blocks are `stride` long. */
  function Flat(stride: nat, major: nat, minor: nat): nat
  {
    major * stride + minor
  }

  /** The block an index falls in. */
  function Major(stride: nat, i: nat): nat
    requires stride > 0
  {
    i / stride
  }

  /** The position of an index inside its block. */
  function Minor(stride: nat, i: nat): nat
    requires stride > 0
  {
    i % stride
  }

  lemma {:induction false} MulMonotone(a: nat, b: nat, k: nat)
    requires a < b
    ensures a * k + k <= b * k
  {
    assert b * k == a * k + (b - a) * k;
    assert (b - a) * k >= k by {
      assert (b - a) >= 1;
    }
  }

  lemma {:induction false} DivModUnique(stride: nat, q: nat, r: nat)
    requires r < stride
    ensures Major(stride, q * stride + r) == q
    ensures Minor(stride, q * stride + r) == r
  {
    var i := q * stride + r;
    var q', r' := i / stride, i % stride;
    assert i == q' * stride + r';
    if q' < q {
      MulMonotone(q', q, stride);
    } else if q < q' {
      MulMonotone(q, q', stride);
    }
  }

  /** Splitting a flat index into (block, position) and back is the identity, in both directions. */
  lemma {:induction false} FlatSplit(stride: nat, n: nat, i: nat)
    requires stride > 0 && i < n * stride
    ensures Major(stride, i) < n && Minor(stride, i) < stride
    ensures Flat(stride, Major(stride, i), Minor(stride, i)) == i
  {
    var q := i / stride;
    if q >= n {
      MulMonotone(n, q + 1, stride);
      assert (q + 1) * stride == q * stride + stride;
    }
  }

  lemma {:induction false} FlatBound(stride: nat, n: nat, major: nat, minor: nat)
    requires major < n && minor < stride
    ensures Flat(stride, major, minor) < n * stride
    ensures Major(stride, Flat(stride, major, minor)) == major
    ensures Minor(stride, Flat(stride, major, minor)) == minor
  {
    MulMonotone(major, n, stride);
    DivModUnique(stride, major, minor);
  }

  /** All the above, for every index of a buffer of `n` blocks, as quantified facts. */
  lemma FlatFacts(stride: nat, n: nat)
    requires stride > 0
    ensures forall a: nat, b: nat {:trigger Flat(stride, a, b)} :: a < n && b < stride ==>
      Flat(stride, a, b) < n * stride && Major(stride, Flat(stride, a, b)) == a && Minor(stride, Flat(stride, a, b)) == b
    ensures forall i: nat {:trigger Major(stride, i)} :: i < n * stride ==>
      Major(stride, i) < n && Minor(stride, i) < stride && Flat(stride, Major(stride, i), Minor(stride, i)) == i
  {
    forall a: nat, b: nat | a < n && b < stride
      ensures Flat(stride, a, b) < n * stride && Major(stride, Flat(stride, a, b)) == a && Minor(stride, Flat(stride, a, b)) == b
    {
      FlatBound(stride, n, a, b);
    }
    forall i: nat | i < n * stride
      ensures Major(stride, i) < n && Minor(stride, i) < stride && Flat(stride, Major(stride, i), Minor(stride, i)) == i
    {
      FlatSplit(stride, n, i);
    }
  }

  // ---- Image coordinates -------------------------------------------------

  /** A buffer of the size the kernels are given. */
  predicate IsImage(s: seq<Byte>, w: nat, h: nat, ch: nat)
  {
    w > 0 && h > 0 && ch > 0 && |s| == w * h * ch
  }

  /** Sample index of channel c of pixel (x, y): `(y*width + x)*channels + c`. */
  function Idx(w: nat, ch: nat, x: nat, y: nat, c: nat): nat
  {
    Flat(ch, Flat(w, y, x), c)
  }

  /** Pixel number `y*width + x` of a sample index. */
  function PixelOf(ch: nat, i: nat): nat
    requires ch > 0
  {
    Major(ch, i)
  }

  function ChannelOf(ch: nat, i: nat): nat
    requires ch > 0
  {
    Minor(ch, i)
  }

  function ColOf(w: nat, ch: nat, i: nat): nat
    requires w > 0 && ch > 0
  {
    Minor(w, Major(ch, i))
  }

  function RowOf(w: nat, ch: nat, i: nat): nat
    requires w > 0 && ch > 0
  {
    Major(w, Major(ch, i))
  }

  /** Every (x, y, c) inside the image has an index inside the buffer that decodes back to it,
      and every index of the buffer is the index of its decoded (x, y, c). */
  lemma IdxFacts(w: nat, h: nat, ch: nat)
    requires w > 0 && h > 0 && ch > 0
    ensures forall x: nat, y: nat, c: nat {:trigger Idx(w, ch, x, y, c)} :: x < w && y < h && c < ch ==>
      && Idx(w, ch, x, y, c) < w * h * ch
      && ColOf(w, ch, Idx(w, ch, x, y, c)) == x
      && RowOf(w, ch, Idx(w, ch, x, y, c)) == y
      && ChannelOf(ch, Idx(w, ch, x, y, c)) == c
      && PixelOf(ch, Idx(w, ch, x, y, c)) == Flat(w, y, x)
    ensures forall i: nat {:trigger Major(ch, i)} :: i < w * h * ch ==>
      && ColOf(w, ch, i) < w && RowOf(w, ch, i) < h && ChannelOf(ch, i) < ch
      && PixelOf(ch, i) < w * h
      && Idx(w, ch, ColOf(w, ch, i), RowOf(w, ch, i), ChannelOf(ch, i)) == i
  {
    assert w * h * ch == (h * w) * ch;
    FlatFacts(ch, h * w);
    FlatFacts(w, h);
    forall i: nat | i < w * h * ch
      ensures && ColOf(w, ch, i) < w && RowOf(w, ch, i) < h && ChannelOf(ch, i) < ch
              && PixelOf(ch, i) < w * h
              && Idx(w, ch, ColOf(w, ch, i), RowOf(w, ch, i), ChannelOf(ch, i)) == i
    {
      var p := Major(ch, i);
      assert p < h * w;
      assert Flat(w, Major(w, p), Minor(w, p)) == p;
    }
  }

  /** Sample (x, y, c) of an image lies inside the buffer and decodes back to (x, y, c). */
  lemma IdxCoords(w: nat, h: nat, ch: nat, x: nat, y: nat, c: nat)
    requires x < w && y < h && c < ch
    ensures Idx(w, ch, x, y, c) < w * h * ch && PixelOf(ch, Idx(w, ch, x, y, c)) == Flat(w, y, x)
    ensures ColOf(w, ch, Idx(w, ch, x, y, c)) == x && RowOf(w, ch, Idx(w, ch, x, y, c)) == y
    ensures ChannelOf(ch, Idx(w, ch, x, y, c)) == c
  {
    FlatBound(w, h, y, x);
    FlatBound(ch, h * w, Flat(w, y, x), c);
    assert w * h * ch == (h * w) * ch;
  }

  /** The coordinates of one sample index, and how they rebuild it. */
  lemma SampleCoords(w: nat, h: nat, ch: nat, i: nat)
    requires w > 0 && ch > 0 && i < w * h * ch
    ensures ColOf(w, ch, i) < w && RowOf(w, ch, i) < h && ChannelOf(ch, i) < ch && PixelOf(ch, i) < w * h
    ensures PixelOf(ch, i) == Flat(w, RowOf(w, ch, i), ColOf(w, ch, i))
    ensures i == Flat(ch, PixelOf(ch, i), ChannelOf(ch, i))
  {
    assert w * h * ch == (h * w) * ch;
    FlatSplit(ch, h * w, i);
    FlatSplit(w, h, PixelOf(ch, i));
  }

  /** Colour c (0 = R, 1 = G, 2 = B) of a pixel. */
  function ChannelValue(px: Rgb, c: nat): Byte
    requires c < 3
  {
    if c == 0 then px.r else if c == 1 then px.g else px.b
  }

  /** Samples 0..2 of pixel p, the bytes at `p*channels + 0, 1, 2`. */
  function RgbAt(s: seq<Byte>, ch: nat, p: nat): Rgb
    requires 3 <= ch && Flat(ch, p, 2) < |s|
  {
    Rgb(s[Flat(ch, p, 0)], s[Flat(ch, p, 1)], s[Flat(ch, p, 2)])
  }

  /** Every sample's pixel lies inside the buffer together with its three colour samples. */
  lemma PixelOfSample(s: seq<Byte>, w: nat, h: nat, ch: nat, i: nat)
    requires IsImage(s, w, h, ch) && 3 <= ch && i < |s|
    ensures PixelOf(ch, i) < w * h && ChannelOf(ch, i) < ch
    ensures Flat(ch, PixelOf(ch, i), 2) < |s|
  {
    FlatSplit(ch, w * h, i);
    FlatBound(ch, w * h, PixelOf(ch, i), 2);
  }

  /** Sample i after pixel recolouring by `f`. */
  function RecolorAt(s: seq<Byte>, w: nat, h: nat, ch: nat, f: Rgb -> Rgb, i: nat): Byte
    requires IsImage(s, w, h, ch) && 3 <= ch && i < |s|
  {
    PixelOfSample(s, w, h, ch, i);
    if ChannelOf(ch, i) < 3 then ChannelValue(f(RgbAt(s, ch, PixelOf(ch, i))), ChannelOf(ch, i)) else s[i]
  }

  /** The image in which the colour samples of every pixel are replaced by `f` of
      that pixel's original colours and every other sample is kept. */
  function Recolor(s: seq<Byte>, w: nat, h: nat, ch: nat, f: Rgb -> Rgb): (r: seq<Byte>)
    requires IsImage(s, w, h, ch) && 3 <= ch
    ensures |r| == |s|
    ensures forall i | 0 <= i < |s| :: r[i] == RecolorAt(s, w, h, ch, f, i)
  {
    seq(|s|, i requires 0 <= i < |s| => RecolorAt(s, w, h, ch, f, i))
  }

  /** Sample c of pixel p after recolouring by `f`. */
  lemma RecolorSample(s: seq<Byte>, w: nat, h: nat, ch: nat, f: Rgb -> Rgb, p: nat, c: nat)
    requires IsImage(s, w, h, ch) && 3 <= ch && p < w * h && c < ch
    ensures Flat(ch, p, c) < |s| && Flat(ch, p, 2) < |s|
    ensures Recolor(s, w, h, ch, f)[Flat(ch, p, c)] ==
      if c < 3 then ChannelValue(f(RgbAt(s, ch, p)), c) else s[Flat(ch, p, c)]
  {
    FlatBound(ch, w * h, p, c);
    FlatBound(ch, w * h, p, 2);
    assert Recolor(s, w, h, ch, f)[Flat(ch, p, c)] == RecolorAt(s, w, h, ch, f, Flat(ch, p, c));
  }

  // ---- Schedules of a parallel loop ---------------------------------------

  /** `order` runs each of the iterations 0 .. n-1 exactly once. */
  predicate IsSchedule(order: seq<nat>, n: nat)
  {
    && |order| == n
    && (forall k | 0 <= k < n :: order[k] < n)
    && (forall p: nat | p < n :: p in order)
    && (forall j, k | 0 <= j < k < n :: order[j] != order[k])
  }

  /** The ascending order of a sequential `for` loop. */
  function Iota(n: nat): (r: seq<nat>)
    ensures |r| == n && forall k | 0 <= k < n :: r[k] == k
  {
    seq(n, k requires 0 <= k < n => k)
  }

  lemma IotaIsSchedule(n: nat)
    ensures IsSchedule(Iota(n), n)
  {
    var r := Iota(n);
    forall p: nat | p < n ensures p in r {
      assert r[p] == p;
    }
  }

  /** The order in which a kernel's outer loop runs its `n` iterations. */
  method Schedule(mode: Mode, n: nat) returns (order: seq<nat>)
    ensures IsSchedule(order, n)
    ensures mode == Sequential ==> order == Iota(n)
  {
    IotaIsSchedule(n);
    if mode == Sequential {
      order := Iota(n);
    } else {
      order :| IsSchedule(order, n);
    }
  }

  /** Extending the done-prefix of a schedule by one step adds exactly that step's iteration. */
  lemma ScheduleStep(order: seq<nat>, n: nat, k: nat)
    requires IsSchedule(order, n) && k < n
    ensures order[k] !in order[..k]
    ensures forall p :: p in order[..k + 1] <==> p in order[..k] || p == order[k]
  {
    assert order[..k + 1] == order[..k] + [order[k]];
  }

  lemma ScheduleDone(order: seq<nat>, n: nat)
    requires IsSchedule(order, n)
    ensures forall p: nat :: p < n <==> p in order[..n]
  {
    assert order[..n] == order;
  }
}
