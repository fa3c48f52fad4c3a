/** Colour formulas, planes and subsampling of the converters from packed RGB to 4:2:0. */
module Yuv {

  type byte = x: int | 0 <= x < 256

  datatype Pixel = Pixel(r: byte, g: byte, b: byte)

  // ----- the colour formulas; `>> 8` rounds down also for negative numbers

  function Luma(p: Pixel): (y: int)
    ensures 16 <= y <= 235
  {
    (66 * p.r + 129 * p.g + 25 * p.b + 128) / 256 + 16
  }

  function U(p: Pixel): (u: int)
    ensures 16 <= u <= 240
  {
    (-38 * p.r - 74 * p.g + 112 * p.b + 128) / 256 + 128
  }

  function V(p: Pixel): (v: int)
    ensures 16 <= v <= 240
  {
    (112 * p.r - 94 * p.g - 18 * p.b + 128) / 256 + 128
  }

  function Clamp(x: int): byte {
    if x < 0 then 0 else if x > 255 then 255 else x
  }

  /** The clamps of the converters never change a value. */
  lemma NoClamp(p: Pixel)
    ensures Clamp(Luma(p)) == Luma(p) && Clamp(U(p)) == U(p) && Clamp(V(p)) == V(p)
  {
  }

  // ----- ITU-R BT.601, in exact arithmetic

  function Weighted(p: Pixel): real {
    0.299 * p.r as real + 0.587 * p.g as real + 0.114 * p.b as real
  }

  function ExactLuma(p: Pixel): real {
    16.0 + 219.0 / 255.0 * Weighted(p)
  }

  function ExactU(p: Pixel): real {
    128.0 + 224.0 / 255.0 / 1.772 * (p.b as real - Weighted(p))
  }

  function ExactV(p: Pixel): real {
    128.0 + 224.0 / 255.0 / 1.402 * (p.r as real - Weighted(p))
  }

  predicate Near(x: int, y: real, d: real) {
    -d < x as real - y < d
  }

  /** The integer formulas are those of the standard to within one, rounding included. */
  lemma NearStandard(p: Pixel)
    ensures Near(Luma(p), ExactLuma(p), 0.8) && Near(U(p), ExactU(p), 1.0) && Near(V(p), ExactV(p), 1.0)
  {
    hide Luma, U, V, ExactLuma, ExactU, ExactV;
    NearLuma(p);
    NearU(p);
    NearV(p);
  }

  lemma NearLuma(p: Pixel)
    ensures Near(Luma(p), ExactLuma(p), 0.8)
  {
    var r, g, b := p.r as real, p.g as real, p.b as real;
    var x := 66 * p.r + 129 * p.g + 25 * p.b;
    Rounded(x);
    assert x as real == 66.0 * r + 129.0 * g + 25.0 * b;
  }

  lemma NearU(p: Pixel)
    ensures Near(U(p), ExactU(p), 1.0)
  {
    var r, g, b := p.r as real, p.g as real, p.b as real;
    var x := -38 * p.r - 74 * p.g + 112 * p.b;
    Rounded(x);
    assert x as real == -38.0 * r - 74.0 * g + 112.0 * b;
  }

  lemma NearV(p: Pixel)
    ensures Near(V(p), ExactV(p), 1.0)
  {
    var r, g, b := p.r as real, p.g as real, p.b as real;
    var x := 112 * p.r - 94 * p.g - 18 * p.b;
    Rounded(x);
    assert x as real == 112.0 * r - 94.0 * g - 18.0 * b;
  }

  lemma Rounded(x: int)
    ensures var y := (x + 128) / 256; -0.5 < y as real - x as real / 256.0 <= 0.5
  {
    var y := (x + 128) / 256;
    assert 256 * y <= x + 128 < 256 * y + 256;
  }

  // ----- pictures and planes

  /** The pixels of packed B, G, R bytes. */
  function Pixels24(rgb: seq<byte>): (px: seq<Pixel>)
    ensures |px| == |rgb| / 3
  {
    seq(|rgb| / 3, k requires 0 <= k < |rgb| / 3 => Pixel(rgb[3 * k + 2], rgb[3 * k + 1], rgb[3 * k]))
  }

  /** The pixels of packed B, G, R, unused bytes. */
  function Pixels32(src: seq<byte>): (px: seq<Pixel>)
    ensures |px| == |src| / 4
  {
    seq(|src| / 4, k requires 0 <= k < |src| / 4 => Pixel(src[4 * k + 2], src[4 * k + 1], src[4 * k]))
  }

  /** Which byte is which colour, by what the luma of the pixel is near to. */
  lemma BytesOf24(rgb: seq<byte>, k: nat)
    requires k < |rgb| / 3
    ensures 3 * k + 2 < |rgb|
    ensures Near(Luma(Pixels24(rgb)[k]),
                 16.0 + 219.0 / 255.0 * (0.114 * rgb[3 * k] as real + 0.587 * rgb[3 * k + 1] as real
                                         + 0.299 * rgb[3 * k + 2] as real), 0.8)
  {
    hide Luma;
    NearLuma(Pixels24(rgb)[k]);
  }

  lemma BytesOf32(src: seq<byte>, k: nat)
    requires k < |src| / 4
    ensures 4 * k + 3 < |src|
    ensures Near(Luma(Pixels32(src)[k]),
                 16.0 + 219.0 / 255.0 * (0.114 * src[4 * k] as real + 0.587 * src[4 * k + 1] as real
                                         + 0.299 * src[4 * k + 2] as real), 0.8)
  {
    hide Luma;
    NearLuma(Pixels32(src)[k]);
  }

  function YPlane(px: seq<Pixel>): (s: seq<byte>)
    ensures |s| == |px|
  {
    seq(|px|, k requires 0 <= k < |px| => Luma(px[k]))
  }

  function UPlane(px: seq<Pixel>): (s: seq<byte>)
    ensures |s| == |px|
  {
    seq(|px|, k requires 0 <= k < |px| => U(px[k]))
  }

  function VPlane(px: seq<Pixel>): (s: seq<byte>)
    ensures |s| == |px|
  {
    seq(|px|, k requires 0 <= k < |px| => V(px[k]))
  }

  /** `a[0], b[0], a[1], b[1]`, and so on. */
  function Interleaved(a: seq<byte>, b: seq<byte>): (s: seq<byte>)
    requires |a| == |b|
    ensures |s| == 2 * |a|
  {
    if a == [] then [] else [a[0], b[0]] + Interleaved(a[1..], b[1..])
  }

  // ----- subsampling

  predicate Corner(k: nat, width: nat)
    requires width > 0
  {
    k / width % 2 == 0 && k % width % 2 == 0
  }

  /** Of the first `n` pixels of a picture, in scan order, the upper left ones of the 2x2
      blocks. */
  function Sampled(px: seq<Pixel>, width: nat, n: nat): (s: seq<Pixel>)
    requires n <= |px| && width > 0
  {
    if n == 0 then []
    else Sampled(px, width, n - 1) + (if Corner(n - 1, width) then [px[n - 1]] else [])
  }

  lemma MulLess(a: nat, b: nat, c: nat)
    requires a < b
    ensures a * c + c <= b * c
  {
    assert (a + 1) * c <= b * c;
  }

  lemma RowCol(i: nat, j: nat, width: nat)
    requires j < width
    ensures (i * width + j) / width == i && (i * width + j) % width == j
  {
    var n := i * width + j;
    var q, r := n / width, n % width;
    assert n == q * width + r && 0 <= r < width;
    if q < i {
      MulLess(q, i, width);
      assert false;
    } else if q > i {
      MulLess(i, q, width);
      assert false;
    }
  }

  lemma RowEnd(i: nat, height: nat, width: nat)
    requires i < height
    ensures (i + 1) * width == i * width + width <= height * width
  {
  }

  /** How many pixels have been sampled before row `i`, column `j`. */
  function SampleCount(i: nat, j: nat, width: nat): nat {
    (i + 1) / 2 * ((width + 1) / 2) + (if i % 2 == 0 then (j + 1) / 2 else 0)
  }

  lemma CountAcross(i: nat, j: nat, width: nat)
    requires 0 < j <= width
    ensures SampleCount(i, j, width)
         == SampleCount(i, j - 1, width) + (if i % 2 == 0 && (j - 1) % 2 == 0 then 1 else 0)
  {
  }

  lemma CountDown(i: nat, width: nat)
    requires i > 0
    ensures SampleCount(i, 0, width) == SampleCount(i - 1, width, width)
  {
    if i % 2 == 1 {
      var a := i / 2;
      assert (i + 1) / 2 == a + 1;
      assert (a + 1) * ((width + 1) / 2) == a * ((width + 1) / 2) + (width + 1) / 2;
    }
  }

  lemma SampledNext(px: seq<Pixel>, width: nat, i: nat, j: nat)
    requires j < width && i * width + j < |px|
    ensures Sampled(px, width, i * width + j + 1)
         == Sampled(px, width, i * width + j) + (if i % 2 == 0 && j % 2 == 0 then [px[i * width + j]] else [])
  {
    RowCol(i, j, width);
  }

  lemma {:induction false} SampledLength(px: seq<Pixel>, width: nat, i: nat, j: nat)
    requires width > 0 && j <= width && i * width + j <= |px|
    ensures |Sampled(px, width, i * width + j)| == SampleCount(i, j, width)
    decreases i, j
  {
    hide SampleCount, Corner;
    if j > 0 {
      CountAcross(i, j, width);
      SampledLength(px, width, i, j - 1);
      SampledNext(px, width, i, j - 1);
    } else if i > 0 {
      CountDown(i, width);
      assert (i - 1) * width + width == i * width;
      SampledLength(px, width, i - 1, width);
    } else {
      assert i * width + j == 0;
      assert SampleCount(0, 0, width) == 0 by { CountZero(width); }
    }
  }

  lemma CountZero(width: nat)
    ensures SampleCount(0, 0, width) == 0
  {
  }

  lemma {:induction false} SampledPrefix(px: seq<Pixel>, width: nat, m: nat, n: nat)
    requires m <= n <= |px| && width > 0
    ensures Sampled(px, width, m) <= Sampled(px, width, n)
    decreases n
  {
    if m < n {
      SampledPrefix(px, width, m, n - 1);
    }
  }

  /** The number of 2x2 blocks, those cut off at odd sides included. */
  function Blocks(width: nat, height: nat): nat {
    (height + 1) / 2 * ((width + 1) / 2)
  }

  predicate Picture(px: seq<Pixel>, width: nat, height: nat) {
    |px| == width * height
  }

  /** The samples of a whole picture. */
  function Samples(px: seq<Pixel>, width: nat): seq<Pixel> {
    if width == 0 then [] else Sampled(px, width, |px|)
  }

  lemma SamplesLength(px: seq<Pixel>, width: nat, height: nat)
    requires Picture(px, width, height)
    ensures |Samples(px, width)| == Blocks(width, height)
  {
    hide Sampled;
    if width > 0 {
      SampledLength(px, width, height, 0);
      assert height * width + 0 == |px|;
    } else {
      NoBlocks(width, height);
    }
  }

  /** Four times the blocks, less the pixels: what odd sides add. */
  lemma Excess(width: nat, height: nat)
    ensures var a, b := (width + 1) / 2, (height + 1) / 2;
      4 * Blocks(width, height) - width * height
        == (if width % 2 == 0 then 0 else 2 * b) + (if height % 2 == 0 then 0 else width)
  {
    var a, b := (width + 1) / 2, (height + 1) / 2;
    if height % 2 == 0 {
      Halves(width, b);
    } else {
      Halves(width, b);
      assert width * height == width * (2 * b) - width;
    }
  }

  lemma DoubleProduct(a: int, b: int)
    ensures 2 * a * (2 * b) == 4 * (b * a)
  {
  }

  lemma OneLess(x: int, y: int)
    ensures (x - 1) * y == x * y - y
  {
  }

  lemma Halves(width: nat, b: nat)
    ensures 4 * (b * ((width + 1) / 2)) == width * (2 * b) + (if width % 2 == 0 then 0 else 2 * b)
  {
    var a := (width + 1) / 2;
    DoubleProduct(a, b);
    if width % 2 == 0 {
      assert width == 2 * a;
    } else {
      assert width == 2 * a - 1;
      OneLess(2 * a, 2 * b);
    }
  }

  lemma EmptyPicture(width: nat, height: nat)
    ensures width * height == 0 <==> width == 0 || height == 0
  {
  }

  /** A quarter of the pixels is sampled exactly if both sides are even or there are none;
      otherwise more are. */
  lemma Quarter(width: nat, height: nat)
    ensures Blocks(width, height) >= width * height / 4
    ensures Blocks(width, height) == width * height / 4 <==>
      (width % 2 == 0 && height % 2 == 0) || width * height == 0
  {
    hide Blocks;
    Excess(width, height);
    EmptyPicture(width, height);
    if width == 0 || height == 0 {
      NoBlocks(width, height);
    }
  }

  lemma NoBlocks(width: nat, height: nat)
    requires width == 0 || height == 0
    ensures Blocks(width, height) == 0
  {
    assert (width + 1) / 2 == 0 || (height + 1) / 2 == 0;
  }

  /** The samples before a corner, and with it, are a prefix of all. */
  lemma RoomForSample(px: seq<Pixel>, width: nat, height: nat, i: nat, j: nat)
    requires width > 0 && Picture(px, width, height) && j < width && i * width + j < |px|
    ensures |Sampled(px, width, i * width + j)| <= Blocks(width, height)
    ensures i % 2 == 0 && j % 2 == 0 ==> |Sampled(px, width, i * width + j)| < Blocks(width, height)
  {
    hide Sampled;
    SamplesLength(px, width, height);
    SampledNext(px, width, i, j);
    SampledPrefix(px, width, i * width + j + 1, |px|);
  }

  lemma CornerCount(i: nat, j: nat, width: nat)
    ensures SampleCount(2 * i, 2 * j, width) == i * ((width + 1) / 2) + j
  {
    assert (2 * i + 1) / 2 == i && (2 * j + 1) / 2 == j;
  }

  /** The samples are the upper left pixels, row of blocks by row of blocks. */
  lemma SampleAt(px: seq<Pixel>, width: nat, height: nat, i: nat, j: nat)
    requires Picture(px, width, height) && 2 * i < height && 2 * j < width
    ensures i * ((width + 1) / 2) + j < |Samples(px, width)| == Blocks(width, height)
    ensures 2 * i * width + 2 * j < |px|
    ensures Samples(px, width)[i * ((width + 1) / 2) + j] == px[2 * i * width + 2 * j]
  {
    hide Sampled, SampleCount, Blocks;
    RowEnd(2 * i, height, width);
    SamplesLength(px, width, height);
    CornerCount(i, j, width);
    SampledLength(px, width, 2 * i, 2 * j);
    SampledNext(px, width, 2 * i, 2 * j);
    SampledPrefix(px, width, 2 * i * width + 2 * j + 1, |px|);
  }

  // ----- what is written where

  /** The indices from `lo` to `hi`, each once. */
  function Range(lo: nat, hi: nat): multiset<nat>
    requires lo <= hi
    decreases hi
  {
    if lo == hi then multiset{} else Range(lo, hi - 1) + multiset{hi - 1}
  }

  lemma RangeNext(lo: nat, hi: nat)
    requires lo <= hi
    ensures Range(lo, hi + 1) == Range(lo, hi) + multiset{hi}
  {
  }

  lemma {:induction false} RangeCount(lo: nat, hi: nat, k: nat)
    requires lo <= hi
    ensures Range(lo, hi)[k] == if lo <= k < hi then 1 else 0
    decreases hi
  {
    if lo < hi {
      RangeCount(lo, hi - 1, k);
    }
  }

  lemma {:induction false} RangeJoin(lo: nat, mid: nat, hi: nat)
    requires lo <= mid <= hi
    ensures Range(lo, mid) + Range(mid, hi) == Range(lo, hi)
    decreases hi
  {
    if mid < hi {
      RangeJoin(lo, mid, hi - 1);
    }
  }

  /** Writes one byte; `log` holds the indices that were written before, each as often. */
  method Put(a: array<byte>, i: nat, b: byte, ghost log: multiset<nat>) returns (ghost log': multiset<nat>)
    requires i < a.Length
    modifies a
    ensures a[..] == old(a[..])[i := b]
    ensures log' == log + multiset{i}
  {
    a[i] := b;
    log' := log + multiset{i};
  }

  /** The three bytes of a pixel. */
  method Fetch(rgb: seq<byte>, k: nat) returns (p: Pixel)
    requires 3 * k + 2 < |rgb|
    ensures p == Pixels24(rgb)[k]
  {
    var B := rgb[k * 3 + 0];
    var G := rgb[k * 3 + 1];
    var R := rgb[k * 3 + 2];
    p := Pixel(R, G, B);
  }

  lemma PlaneNext(s: seq<Pixel>, p: Pixel)
    ensures UPlane(s + [p]) == UPlane(s) + [U(p)] && VPlane(s + [p]) == VPlane(s) + [V(p)]
    ensures YPlane(s + [p]) == YPlane(s) + [Luma(p)]
  {
  }

  lemma SliceKeeps(a: seq<byte>, i: nat, x: byte, lo: nat, hi: nat)
    requires i < |a| && lo <= hi <= |a| && (i < lo || hi <= i)
    ensures a[i := x][lo..hi] == a[lo..hi]
  {
  }

  lemma SliceGrows(a: seq<byte>, lo: nat, hi: nat)
    requires lo <= hi < |a|
    ensures a[lo..hi + 1] == a[lo..hi] + [a[hi]]
  {
  }

  /** A slice that loses `d` bytes at its start and gets one at its end. */
  lemma SliceMoves(a: seq<byte>, i: nat, x: byte, lo: nat, hi: nat, z: byte, d: nat)
    requires i < lo + d <= hi < |a|
    ensures a[i := x][hi := z][lo + d..hi + 1] == a[lo..hi][d..] + [z]
  {
  }

  lemma PairGrows(a: seq<byte>, lo: nat, hi: nat, x: byte, z: byte)
    requires lo <= hi && hi + 1 < |a|
    ensures a[hi := x][hi + 1 := z][..lo] == a[..lo]
    ensures a[hi := x][hi + 1 := z][lo..hi + 2] == a[lo..hi] + [x, z]
  {
  }

  lemma TailGrows(a: seq<byte>, k: nat, d: nat, z: byte)
    requires k + d <= |a|
    ensures (a + [z])[k + d..] == a[k..][d..] + [z]
  {
  }

  lemma ThreeParts(a: seq<byte>, lo: nat, hi: nat)
    requires lo <= hi <= |a|
    ensures a == a[..lo] + a[lo..hi] + a[hi..|a|]
  {
  }
}
