/** `rgb32_to_i420`: planes of 2x2 blocks, two rows at a time, each colour of a block averaged
    before the formulas. With an odd width the row pointers fall behind the rows. */
module YuvBlocks {
  import opened Yuv

  function Mean(a: byte, b: byte, c: byte, d: byte): byte {
    (a + b + c + d) / 4
  }

  /** The average of the block with upper left corner `k`. */
  function Average(px: seq<Pixel>, width: nat, k: nat): Pixel
    requires k + width + 1 < |px|
  {
    var a, b, c, d := px[k], px[k + 1], px[k + width], px[k + width + 1];
    Pixel(Mean(a.r, b.r, c.r, d.r), Mean(a.g, b.g, c.g, d.g), Mean(a.b, b.b, c.b, d.b))
  }

  /** Colour by colour the average is a quarter of the sum of the four pixels, rounded down. */
  lemma QuarterOfSum(px: seq<Pixel>, width: nat, k: nat)
    requires k + width + 1 < |px|
    ensures var p := Average(px, width, k);
            && 0 <= px[k].r + px[k + 1].r + px[k + width].r + px[k + width + 1].r - 4 * p.r < 4
            && 0 <= px[k].g + px[k + 1].g + px[k + width].g + px[k + width + 1].g - 4 * p.g < 4
            && 0 <= px[k].b + px[k + 1].b + px[k + width].b + px[k + width + 1].b - 4 * p.b < 4
  {
  }

  // ----- where the pointers are

  /** How far the even row pointer goes in one row of blocks. */
  function Stride(width: nat): nat {
    2 * (width / 2) + width
  }

  /** The even row pointer at block row `i`, block column `j`. */
  function Corner(width: nat, i: nat, j: nat): nat {
    i * Stride(width) + 2 * j
  }

  /** The blocks there are. */
  predicate Block(width: nat, height: nat, i: nat, j: nat) {
    2 * i + 1 < height && 2 * j + 1 < width
  }

  /** Where the loops can be: before a block, or behind a row of them. */
  predicate Place(width: nat, height: nat, i: nat, j: nat) {
    2 * j <= width && (if j == 0 then 2 * i <= height else 2 * i + 1 < height)
  }

  lemma StrideBound(width: nat, i: nat)
    ensures i * Stride(width) <= 2 * i * width
    ensures width % 2 == 0 ==> i * Stride(width) == 2 * i * width
  {
    var d := 2 * width - Stride(width);
    assert i * Stride(width) == i * (2 * width) - i * d;
  }

  lemma BlockFits(width: nat, height: nat, i: nat, j: nat)
    requires Block(width, height, i, j)
    ensures Corner(width, i, j) + width + 1 < width * height
  {
    hide Stride;
    StrideBound(width, i);
    MulLess(2 * i + 1, height, width);
    assert (2 * i + 1) * width == 2 * i * width + width;
  }

  lemma CornerWrap(width: nat, i: nat)
    ensures Corner(width, i + 1, 0) == Corner(width, i, width / 2) + width
  {
    assert (i + 1) * Stride(width) == i * Stride(width) + Stride(width);
  }

  /** The averages of the blocks before block row `i`, block column `j`. */
  function Averaged(px: seq<Pixel>, width: nat, height: nat, i: nat, j: nat): (s: seq<Pixel>)
    requires Picture(px, width, height) && Place(width, height, i, j)
    ensures |s| == i * (width / 2) + j
    decreases i, j
  {
    if j > 0 then
      BlockFits(width, height, i, j - 1);
      Averaged(px, width, height, i, j - 1) + [Average(px, width, Corner(width, i, j - 1))]
    else if i > 0 then
      assert (i - 1) * (width / 2) + width / 2 == i * (width / 2);
      Averaged(px, width, height, i - 1, width / 2)
    else []
  }

  lemma AveragedNext(px: seq<Pixel>, width: nat, height: nat, i: nat, j: nat)
    requires Picture(px, width, height) && Block(width, height, i, j)
    ensures Corner(width, i, j) + width + 1 < |px|
    ensures Averaged(px, width, height, i, j + 1)
         == Averaged(px, width, height, i, j) + [Average(px, width, Corner(width, i, j))]
  {
    hide Average, Corner;
    BlockFits(width, height, i, j);
  }

  lemma AveragedWrap(px: seq<Pixel>, width: nat, height: nat, i: nat)
    requires Picture(px, width, height) && 0 < i && 2 * i <= height
    ensures Averaged(px, width, height, i, 0) == Averaged(px, width, height, i - 1, width / 2)
  {
  }

  /** There are at most a quarter as many blocks as pixels. */
  lemma BlockCount(width: nat, height: nat, i: nat, j: nat)
    requires Block(width, height, i, j)
    ensures i * (width / 2) + j < width * height / 4
  {
    var a, b := width / 2, height / 2;
    MulLess(i, b, a);
    FourTimes(a, b, width, height);
  }

  lemma FourTimes(a: nat, b: nat, width: nat, height: nat)
    requires 2 * a <= width && 2 * b <= height
    ensures 4 * (b * a) <= width * height
  {
    DoubleProduct(a, b);
    MulLeq(2 * a, width, 2 * b);
    MulLeq(2 * b, height, width);
  }

  lemma MulLeq(a: nat, b: nat, c: nat)
    requires a <= b
    ensures a * c <= b * c
  {
  }

  // ----- what is written

  /** The four indices of a block. */
  function Indices(k: nat, width: nat): multiset<nat> {
    multiset{k, k + 1, k + width, k + width + 1}
  }

  /** The luma bytes of the blocks before block row `i`, block column `j`. */
  function LumaLog(width: nat, i: nat, j: nat): multiset<nat>
    decreases i, j
  {
    if j > 0 then
      LumaLog(width, i, j - 1) + Indices(Corner(width, i, j - 1), width)
    else if i > 0 then LumaLog(width, i - 1, width / 2)
    else multiset{}
  }

  /** The bytes written are the luma of their pixels, the others what they were. */
  ghost predicate Lumas(dst: seq<byte>, orig: seq<byte>, px: seq<Pixel>, log: multiset<nat>)
    requires |px| <= |dst| == |orig|
  {
    forall k :: 0 <= k < |px| ==> dst[k] == if k in log then Luma(px[k]) else orig[k]
  }

  /** The chroma planes hold the colours of `s`, and behind those what they held before. */
  ghost predicate Chroma(dst: seq<byte>, orig: seq<byte>, n: nat, s: seq<Pixel>)
    requires n + 2 * (n / 4) == |dst| == |orig|
  {
    && |s| <= n / 4
    && dst[n..n + |s|] == UPlane(s) && dst[n + n / 4..n + n / 4 + |s|] == VPlane(s)
    && dst[n + |s|..n + n / 4] == orig[n + |s|..n + n / 4]
    && dst[n + n / 4 + |s|..] == orig[n + n / 4 + |s|..]
  }

  function Log(width: nat, n: nat, i: nat, j: nat, m: nat): multiset<nat> {
    LumaLog(width, i, j) + Range(n, n + m) + Range(n + n / 4, n + n / 4 + m)
  }

  /** The converter before block row `i`, block column `j`. */
  ghost predicate State(dst: seq<byte>, orig: seq<byte>, log: multiset<nat>, px: seq<Pixel>, width: nat, height: nat,
                        i: nat, j: nat, even: nat, odd: nat, u: nat, v: nat)
    requires Picture(px, width, height)
  {
    && Place(width, height, i, j)
    && var s := Averaged(px, width, height, i, j); var n := |px|;
    && |dst| == |orig| == n + 2 * (n / 4)
    && even == Corner(width, i, j) && odd == even + width
    && u == n + |s| && v == n + n / 4 + |s|
    && Lumas(dst, orig, px, LumaLog(width, i, j)) && Chroma(dst, orig, n, s)
    && log == Log(width, n, i, j, |s|)
  }

  lemma Start(orig: seq<byte>, px: seq<Pixel>, width: nat, height: nat)
    requires Picture(px, width, height) && |orig| == |px| + 2 * (|px| / 4)
    ensures State(orig, orig, multiset{}, px, width, height, 0, 0, 0, width, |px|, |px| + |px| / 4)
  {
  }

  /** From the end of a row of blocks to the next. */
  lemma Wrap(dst: seq<byte>, orig: seq<byte>, log: multiset<nat>, px: seq<Pixel>, width: nat, height: nat,
             i: nat, even: nat, odd: nat, u: nat, v: nat)
    requires Picture(px, width, height) && 2 * i + 1 < height
    requires State(dst, orig, log, px, width, height, i, width / 2, even, odd, u, v)
    ensures State(dst, orig, log, px, width, height, i + 1, 0, even + width, odd + width, u, v)
  {
    hide Corner, Lumas, Chroma, Averaged, LumaLog, Range;
    CornerWrap(width, i);
    AveragedWrap(px, width, height, i + 1);
    LumaLogWrap(width, i);
  }

  lemma LumaLogWrap(width: nat, i: nat)
    ensures LumaLog(width, i + 1, 0) == LumaLog(width, i, width / 2)
  {
    hide Corner, Indices;
  }

  // ----- one block

  /** Four bytes of a sequence. */
  function Four(a: seq<byte>, px: seq<Pixel>, k: nat, width: nat): (r: seq<byte>)
    requires k + width + 1 < |px| <= |a|
    ensures |r| == |a|
  {
    a[k := Luma(px[k])][k + 1 := Luma(px[k + 1])][k + width := Luma(px[k + width])]
      [k + width + 1 := Luma(px[k + width + 1])]
  }

  lemma LumaNext(dst: seq<byte>, orig: seq<byte>, px: seq<Pixel>, width: nat, i: nat, j: nat)
    requires |px| <= |dst| == |orig| && Corner(width, i, j) + width + 1 < |px|
    requires Lumas(dst, orig, px, LumaLog(width, i, j))
    ensures Lumas(Four(dst, px, Corner(width, i, j), width), orig, px, LumaLog(width, i, j + 1))
  {
    hide Luma, Corner, LumaLog;
    var k := Corner(width, i, j);
    LumaLogNext(width, i, j);
    var done, next := LumaLog(width, i, j), LumaLog(width, i, j + 1);
    var after := Four(dst, px, k, width);
    forall x | 0 <= x < |px|
      ensures after[x] == if x in next then Luma(px[x]) else orig[x]
    {
      assert x in next <==> x in done || x in {k, k + 1, k + width, k + width + 1};
    }
  }

  lemma LumaLogNext(width: nat, i: nat, j: nat)
    ensures LumaLog(width, i, j + 1) == LumaLog(width, i, j) + Indices(Corner(width, i, j), width)
  {
    hide Corner, Indices;
  }

  lemma ChromaKeeps(dst: seq<byte>, orig: seq<byte>, px: seq<Pixel>, s: seq<Pixel>, k: nat, width: nat)
    requires |px| + 2 * (|px| / 4) == |dst| == |orig| && k + width + 1 < |px|
    requires Chroma(dst, orig, |px|, s)
    ensures Chroma(Four(dst, px, k, width), orig, |px|, s)
  {
    hide Luma, UPlane, VPlane;
    var after, n := Four(dst, px, k, width), |px|;
    assert after[n..] == dst[n..];
    TailSlice(after, dst, n, n, n + |s|);
    TailSlice(after, dst, n, n + n / 4, n + n / 4 + |s|);
    TailSlice(after, dst, n, n + |s|, n + n / 4);
    TailSlice(after, dst, n, n + n / 4 + |s|, |dst|);
  }

  lemma TailSlice(a: seq<byte>, b: seq<byte>, n: nat, lo: nat, hi: nat)
    requires n <= lo <= hi <= |a| == |b| && a[n..] == b[n..]
    ensures a[lo..hi] == b[lo..hi]
  {
    forall k | lo <= k < hi
      ensures a[k] == b[k]
    {
      assert a[k] == a[n..][k - n] && b[k] == b[n..][k - n];
    }
  }

  lemma SliceDrops(a: seq<byte>, lo: nat, hi: nat)
    requires lo < hi <= |a|
    ensures a[lo..hi][1..] == a[lo + 1..hi]
  {
  }

  lemma LastDrops(a: seq<byte>, b: seq<byte>, i: nat, x: byte, k: nat, y: byte)
    requires i < k < |a| == |b| && a[k..] == b[k..]
    ensures a[i := x][k := y][k + 1..] == b[k + 1..]
  {
    assert a[k + 1..] == a[k..][1..] && b[k + 1..] == b[k..][1..];
  }

  lemma ChromaNext(dst: seq<byte>, orig: seq<byte>, n: nat, s: seq<Pixel>, p: Pixel)
    requires n + 2 * (n / 4) == |dst| == |orig| && |s| < n / 4 && Chroma(dst, orig, n, s)
    ensures Chroma(dst[n + |s| := U(p)][n + n / 4 + |s| := V(p)], orig, n, s + [p])
  {
    hide U, V, UPlane, VPlane;
    var c, m := n / 4, |s|;
    PlaneNext(s, p);
    TwoGrow(dst, n, n + m, U(p), n + c, n + c + m, V(p));
    SliceDrops(dst, n + m, n + c);
    SliceDrops(orig, n + m, n + c);
    LastDrops(dst, orig, n + m, U(p), n + c + m, V(p));
  }

  /** Two slices that each get one byte more, and what lies between them. */
  lemma TwoGrow(a: seq<byte>, lo: nat, i: nat, x: byte, mid: nat, k: nat, y: byte)
    requires lo <= i < mid <= k < |a|
    ensures var after := a[i := x][k := y];
      after[lo..i + 1] == a[lo..i] + [x] && after[mid..k + 1] == a[mid..k] + [y] && after[i + 1..mid] == a[i + 1..mid]
  {
  }

  /** The luma of a pixel; the value always fits a byte. */
  method PutLuma(dst: array<byte>, ghost log: multiset<nat>, k: nat, p: Pixel) returns (ghost log': multiset<nat>)
    requires k < dst.Length
    modifies dst
    ensures dst[..] == old(dst[..])[k := Luma(p)] && log' == log + multiset{k}
  {
    log' := Put(dst, k, (p.r * 66 + p.g * 129 + p.b * 25 + 128) / 256 + 16, log);
  }

  method PutChroma(dst: array<byte>, ghost log: multiset<nat>, u: nat, v: nat, p: Pixel) returns (ghost log': multiset<nat>)
    requires u < v < dst.Length
    modifies dst
    ensures dst[..] == old(dst[..])[u := U(p)][v := V(p)] && log' == log + multiset{u} + multiset{v}
  {
    log' := Put(dst, u, (p.r * -38 - p.g * 74 + p.b * 112 + 128) / 256 + 128, log);
    log' := Put(dst, v, (p.r * 112 - p.g * 94 - p.b * 18 + 128) / 256 + 128, log');
  }

  method Fetch32(src: seq<byte>, at: nat, ghost k: nat) returns (p: Pixel)
    requires at == 4 * k && at + 3 < |src|
    ensures p == Pixels32(src)[k]
  {
    var b := src[at];
    var g := src[at + 1];
    var r := src[at + 2];
    p := Pixel(r, g, b);
  }

  /** Reads a pixel and writes its luma. */
  method Copy(dst: array<byte>, ghost log: multiset<nat>, src: seq<byte>, at: nat, k: nat)
    returns (ghost log': multiset<nat>, p: Pixel)
    requires at == 4 * k && k < |Pixels32(src)| <= dst.Length
    modifies dst
    ensures p == Pixels32(src)[k] && dst[..] == old(dst[..])[k := Luma(p)] && log' == log + multiset{k}
  {
    hide Luma;
    p := Fetch32(src, at, k);
    log' := PutLuma(dst, log, k, p);
  }

  /** The four luma bytes of a block, and its average. */
  method PutBlock(dst: array<byte>, ghost log: multiset<nat>, src: seq<byte>, ghost width: nat, even: nat, odd: nat,
                  srcEven: nat, srcOdd: nat)
    returns (ghost log': multiset<nat>, p: Pixel)
    requires srcEven == 4 * even && srcOdd == 4 * odd && odd == even + width
    requires even + width + 1 < |Pixels32(src)| <= dst.Length
    modifies dst
    ensures dst[..] == Four(old(dst[..]), Pixels32(src), even, width)
    ensures log' == log + Indices(even, width)
    ensures p == Average(Pixels32(src), width, even)
  {
    hide Luma, Pixels32, Average, Mean, Indices;
    var a, b, c, d;
    log', a := Copy(dst, log, src, srcEven, even);
    log', b := Copy(dst, log', src, srcEven + 4, even + 1);
    log', c := Copy(dst, log', src, srcOdd, odd);
    log', d := Copy(dst, log', src, srcOdd + 4, odd + 1);
    p := Divide(a, b, c, d);
    AverageIs(Pixels32(src), width, even, p);
    IndicesAre(even, width);
  }

  /** The sums of the three colours, divided by four. */
  method Divide(a: Pixel, b: Pixel, c: Pixel, d: Pixel) returns (p: Pixel)
    ensures p.r == Mean(a.r, b.r, c.r, d.r) && p.g == Mean(a.g, b.g, c.g, d.g) && p.b == Mean(a.b, b.b, c.b, d.b)
  {
    var r: nat, g: nat, b': nat := a.r, a.g, a.b;
    r, g, b' := r + b.r, g + b.g, b' + b.b;
    r, g, b' := r + c.r, g + c.g, b' + c.b;
    r, g, b' := r + d.r, g + d.g, b' + d.b;
    p := Pixel(r / 4, g / 4, b' / 4);
  }

  lemma IndicesAre(k: nat, width: nat)
    ensures Indices(k, width) == multiset{k} + multiset{k + 1} + multiset{k + width} + multiset{k + width + 1}
  {
  }

  lemma AverageIs(px: seq<Pixel>, width: nat, k: nat, p: Pixel)
    requires k + width + 1 < |px|
    requires var a, b, c, d := px[k], px[k + 1], px[k + width], px[k + width + 1];
      p.r == Mean(a.r, b.r, c.r, d.r) && p.g == Mean(a.g, b.g, c.g, d.g) && p.b == Mean(a.b, b.b, c.b, d.b)
    ensures p == Average(px, width, k)
  {
    hide Mean;
  }

  /** Where the next block is read and written. */
  lemma Fits(dst: seq<byte>, orig: seq<byte>, log: multiset<nat>, px: seq<Pixel>, width: nat, height: nat,
             i: nat, j: nat, even: nat, odd: nat, u: nat, v: nat)
    requires Picture(px, width, height) && Block(width, height, i, j)
    requires State(dst, orig, log, px, width, height, i, j, even, odd, u, v)
    ensures even + width + 1 < |px| <= |dst| && |px| <= u < v < |dst| && odd == even + width
  {
    hide Average, Averaged, Lumas, Chroma, LumaLog, Range, Corner;
    BlockCount(width, height, i, j);
    BlockFits(width, height, i, j);
  }

  /** A block more. */
  lemma Next(dst: seq<byte>, after: seq<byte>, orig: seq<byte>, log: multiset<nat>, px: seq<Pixel>, p: Pixel,
             width: nat, height: nat, i: nat, j: nat, even: nat, odd: nat, u: nat, v: nat)
    requires even + width + 1 < |px| <= |dst| && |px| <= u < v < |dst| && p == Average(px, width, even)
    requires after == Four(dst, px, even, width)[u := U(p)][v := V(p)]
    requires Picture(px, width, height) && Block(width, height, i, j)
    requires State(dst, orig, log, px, width, height, i, j, even, odd, u, v)
    ensures State(after, orig, log + Indices(even, width) + multiset{u} + multiset{v},
                  px, width, height, i, j + 1, even + 2, odd + 2, u + 1, v + 1)
  {
    hide Luma, U, V, Average, Averaged, Lumas, Chroma, LumaLog, Range, Four, Indices;
    BlockCount(width, height, i, j);
    AveragedNext(px, width, height, i, j);
    var n, s := |px|, Averaged(px, width, height, i, j);
    LumaNext(dst, orig, px, width, i, j);
    LumaLogNext(width, i, j);
    ChromaKeeps(dst, orig, px, s, even, width);
    var four := Four(dst, px, even, width);
    ChromaNext(four, orig, n, s, p);
    LumasKeep(four, orig, px, LumaLog(width, i, j + 1), u, v, U(p), V(p));
    RangeNext(n, u);
    RangeNext(n + n / 4, v);
  }

  lemma LumasKeep(dst: seq<byte>, orig: seq<byte>, px: seq<Pixel>, log: multiset<nat>, u: nat, v: nat, x: byte, y: byte)
    requires |px| <= |dst| == |orig| && |px| <= u < |dst| && |px| <= v < |dst| && Lumas(dst, orig, px, log)
    ensures Lumas(dst[u := x][v := y], orig, px, log)
  {
    hide Luma;
  }

  // ----- the loops

  /** The body of the inner loop. */
  method OneBlock(dst: array<byte>, ghost log: multiset<nat>, ghost orig: seq<byte>, src: seq<byte>, width: nat, height: nat,
                  ghost i: nat, ghost j: nat, even: nat, odd: nat, srcEven: nat, srcOdd: nat, u: nat, v: nat)
    returns (ghost log': multiset<nat>)
    requires Picture(Pixels32(src), width, height) && Block(width, height, i, j)
    requires State(dst[..], orig, log, Pixels32(src), width, height, i, j, even, odd, u, v)
    requires srcEven == 4 * even && srcOdd == 4 * odd
    modifies dst
    ensures State(dst[..], orig, log', Pixels32(src), width, height, i, j + 1, even + 2, odd + 2, u + 1, v + 1)
  {
    hide U, V, Average, Four, Pixels32, State, Place, Block, Indices;
    ghost var px, before := Pixels32(src), dst[..];
    Fits(before, orig, log, px, width, height, i, j, even, odd, u, v);
    var p;
    log', p := PutBlock(dst, log, src, width, even, odd, srcEven, srcOdd);
    log' := PutChroma(dst, log', u, v, p);
    Next(before, dst[..], orig, log, px, p, width, height, i, j, even, odd, u, v);
  }

  /** One row of blocks. */
  method Row(dst: array<byte>, ghost log0: multiset<nat>, ghost orig: seq<byte>, src: seq<byte>, width: nat, height: nat,
             ghost i: nat, even0: nat, odd0: nat, srcEven0: nat, srcOdd0: nat, u0: nat, v0: nat)
    returns (ghost log: multiset<nat>, even: nat, odd: nat, srcEven: nat, srcOdd: nat, u: nat, v: nat)
    requires Picture(Pixels32(src), width, height) && 2 * i + 1 < height
    requires State(dst[..], orig, log0, Pixels32(src), width, height, i, 0, even0, odd0, u0, v0)
    requires srcEven0 == 4 * even0 && srcOdd0 == 4 * odd0
    modifies dst
    ensures State(dst[..], orig, log, Pixels32(src), width, height, i, width / 2, even, odd, u, v)
    ensures srcEven == 4 * even && srcOdd == 4 * odd
  {
    hide State, Pixels32;
    log, even, odd, srcEven, srcOdd, u, v := log0, even0, odd0, srcEven0, srcOdd0, u0, v0;
    var j := 0;
    while j < width / 2
      invariant 0 <= j <= width / 2
      invariant State(dst[..], orig, log, Pixels32(src), width, height, i, j, even, odd, u, v)
      invariant srcEven == 4 * even && srcOdd == 4 * odd
    {
      log := OneBlock(dst, log, orig, src, width, height, i, j, even, odd, srcEven, srcOdd, u, v);
      even, odd, srcEven, srcOdd, u, v := even + 2, odd + 2, srcEven + 8, srcOdd + 8, u + 1, v + 1;
      j := j + 1;
    }
  }

  /** All rows of blocks. */
  method Rows(dst: array<byte>, src: seq<byte>, width: nat, height: nat)
    returns (ghost log: multiset<nat>, ghost even: nat, ghost odd: nat, ghost u: nat, ghost v: nat)
    requires Picture(Pixels32(src), width, height)
    requires dst.Length == width * height + 2 * (width * height / 4)
    modifies dst
    ensures State(dst[..], old(dst[..]), log, Pixels32(src), width, height, height / 2, 0, even, odd, u, v)
  {
    hide State, Pixels32;
    ghost var orig := dst[..];
    log := multiset{};
    var srcEven: nat, srcOdd: nat := 0, width * 4;
    var e: nat, o: nat := 0, width;
    var x: nat := width * height;
    var y: nat := x + width * height / 4;
    Start(orig, Pixels32(src), width, height);
    var i := 0;
    while i < height / 2
      invariant 0 <= i <= height / 2
      invariant State(dst[..], orig, log, Pixels32(src), width, height, i, 0, e, o, x, y)
      invariant srcEven == 4 * e && srcOdd == 4 * o
    {
      log, e, o, srcEven, srcOdd, x, y := Row(dst, log, orig, src, width, height, i, e, o, srcEven, srcOdd, x, y);
      Wrap(dst[..], orig, log, Pixels32(src), width, height, i, e, o, x, y);
      e, o := e + width, o + width;
      srcEven, srcOdd := srcEven + width * 4, srcOdd + width * 4;
      i := i + 1;
    }
    even, odd, u, v := e, o, x, y;
  }

  // ----- the whole picture

  /** What the converter makes of the memory, for any sides. */
  ghost predicate Converted(dst: seq<byte>, orig: seq<byte>, log: multiset<nat>, px: seq<Pixel>, width: nat, height: nat)
    requires Picture(px, width, height)
  {
    var s := Averaged(px, width, height, height / 2, 0);
    && |dst| == |orig| == |px| + 2 * (|px| / 4)
    && Lumas(dst, orig, px, LumaLog(width, height / 2, 0)) && Chroma(dst, orig, |px|, s)
    && log == Log(width, |px|, height / 2, 0, |s|)
  }

  lemma Done(dst: seq<byte>, orig: seq<byte>, log: multiset<nat>, px: seq<Pixel>, width: nat, height: nat,
             even: nat, odd: nat, u: nat, v: nat)
    requires Picture(px, width, height)
    requires State(dst, orig, log, px, width, height, height / 2, 0, even, odd, u, v)
    ensures Converted(dst, orig, log, px, width, height)
  {
    hide Lumas, Chroma, Averaged, LumaLog, Range, Corner;
  }

  /** With an even width the luma of the blocks fills rows. */
  lemma {:induction false} EvenLumaLog(width: nat, i: nat, j: nat)
    requires width % 2 == 0 && 2 * j <= width
    ensures LumaLog(width, i, j)
         == Range(0, 2 * i * width + 2 * j) + Range(2 * i * width + width, 2 * i * width + width + 2 * j)
    decreases i, j
  {
    hide Range, LumaLog, Corner, Indices;
    var row := 2 * i * width;
    if j > 0 {
      EvenLumaLog(width, i, j - 1);
      LumaLogNext(width, i, j - 1);
      EvenCorner(width, i, j - 1);
      TwoRanges(row + 2 * j - 2, row + width, width);
    } else if i > 0 {
      EvenLumaLog(width, i - 1, width / 2);
      LumaLogWrap(width, i - 1);
      var above := 2 * (i - 1) * width;
      assert row == above + 2 * width;
      FullRanges(above, width);
    } else {
      NoLumaLog(width);
      NoRange(0);
      NoRange(width);
      assert row == 0;
    }
  }

  lemma TwoRanges(k: nat, lo: nat, width: nat)
    requires lo <= k + width
    ensures Range(0, k) + Range(lo, k + width) + Indices(k, width) == Range(0, k + 2) + Range(lo, k + width + 2)
  {
    hide Range, Indices;
    IndicesAre(k, width);
    RangeNext(0, k);
    RangeNext(0, k + 1);
    RangeNext(lo, k + width);
    RangeNext(lo, k + width + 1);
    Regroup(Range(0, k), Range(lo, k + width),
            multiset{k}, multiset{k + 1}, multiset{k + width}, multiset{k + width + 1});
  }

  lemma Regroup(a: multiset<nat>, b: multiset<nat>, w: multiset<nat>, x: multiset<nat>, y: multiset<nat>, z: multiset<nat>)
    ensures a + b + (w + x + y + z) == (a + w + x) + (b + y + z)
  {
  }

  lemma FullRanges(above: nat, width: nat)
    ensures Range(0, above + width) + Range(above + width, above + width + width)
         == Range(0, above + 2 * width) + Range(above + 3 * width, above + 3 * width)
  {
    hide Range;
    RangeJoin(0, above + width, above + 2 * width);
    NoRange(above + 3 * width);
  }

  lemma NoRange(k: nat)
    ensures Range(k, k) == multiset{}
  {
  }

  lemma NoLumaLog(width: nat)
    ensures LumaLog(width, 0, 0) == multiset{}
  {
  }

  lemma EvenCorner(width: nat, i: nat, j: nat)
    requires width % 2 == 0
    ensures Corner(width, i, j) == 2 * i * width + 2 * j
  {
    hide Stride;
    StrideBound(width, i);
  }

  lemma EvenBlocks(width: nat, height: nat)
    requires width % 2 == 0 && height % 2 == 0
    ensures 2 * (height / 2) * width == width * height && height / 2 * (width / 2) == width * height / 4
  {
    DoubleProduct(width / 2, height / 2);
  }

  /** For even sides every byte is written once. */
  lemma EvenLog(width: nat, height: nat)
    requires width % 2 == 0 && height % 2 == 0
    ensures var n := width * height;
      && LumaLog(width, height / 2, 0) == Range(0, n)
      && Log(width, n, height / 2, 0, n / 4) == Range(0, n + 2 * (n / 4))
  {
    hide LumaLog, Range;
    var n, c := width * height, width * height / 4;
    EvenBlocks(width, height);
    EvenLumaLog(width, height / 2, 0);
    NoRange(n + width);
    RangeJoin(0, n, n + c);
    RangeJoin(0, n + c, n + c + c);
  }

  /** For even sides the picture is the three planes. */
  lemma EvenPicture(dst: seq<byte>, orig: seq<byte>, log: multiset<nat>, px: seq<Pixel>, width: nat, height: nat)
    requires Picture(px, width, height) && width % 2 == 0 && height % 2 == 0
    requires Converted(dst, orig, log, px, width, height)
    ensures var s := Averaged(px, width, height, height / 2, 0); dst == YPlane(px) + UPlane(s) + VPlane(s)
    ensures log == Range(0, |dst|)
  {
    hide Lumas, YPlane, UPlane, VPlane, Averaged, LumaLog, Range, Log;
    var n, c := |px|, |px| / 4;
    EvenBlocks(width, height);
    EvenLog(width, height);
    AllLuma(dst, orig, px, LumaLog(width, height / 2, 0));
    ThreeParts(dst, n, n + c);
  }

  lemma AllLuma(dst: seq<byte>, orig: seq<byte>, px: seq<Pixel>, done: multiset<nat>)
    requires |px| <= |dst| == |orig| && Lumas(dst, orig, px, done) && done == Range(0, |px|)
    ensures dst[..|px|] == YPlane(px)
  {
    hide Luma, Range;
    forall k: nat | k < |px|
      ensures dst[k] == Luma(px[k])
    {
      RangeCount(0, |px|, k);
    }
  }

  /** `rgb32_to_i420` into a picture's memory. For any sides: the luma bytes of the blocks, the
      colours of their averages, and nothing else is written. For even sides: the three planes,
      every byte written once; `log` holds every write. */
  method Rgb32ToI420(width: nat, height: nat, src: seq<byte>, dst: array<byte>) returns (ghost log: multiset<nat>)
    requires |src| == 4 * (width * height)
    requires dst.Length == width * height + 2 * (width * height / 4)
    modifies dst
    ensures Converted(dst[..], old(dst[..]), log, Pixels32(src), width, height)
    ensures width % 2 == 0 && height % 2 == 0 ==>
              var px := Pixels32(src); var s := Averaged(px, width, height, height / 2, 0);
              dst[..] == YPlane(px) + UPlane(s) + VPlane(s) && log == Range(0, dst.Length)
  {
    hide State, Pixels32, Converted, Averaged, YPlane, UPlane, VPlane, Range;
    ghost var orig := dst[..];
    ghost var even, odd, u, v;
    log, even, odd, u, v := Rows(dst, src, width, height);
    Done(dst[..], orig, log, Pixels32(src), width, height, even, odd, u, v);
    if width % 2 == 0 && height % 2 == 0 {
      EvenPicture(dst[..], orig, log, Pixels32(src), width, height);
    }
  }

  // ----- when averages are samples

  /** All four pixels of every 2x2 block are equal. */
  ghost predicate FlatBlocks(px: seq<Pixel>, width: nat, height: nat)
    requires Picture(px, width, height)
  {
    forall i: nat, j: nat :: Block(width, height, i, j) ==> FlatAt(px, width, height, i, j)
  }

  ghost predicate FlatAt(px: seq<Pixel>, width: nat, height: nat, i: nat, j: nat)
    requires Picture(px, width, height) && Block(width, height, i, j)
  {
    BlockFits(width, height, i, j);
    var k := Corner(width, i, j);
    px[k] == px[k + 1] == px[k + width] == px[k + width + 1]
  }

  /** An odd row gives no samples. */
  lemma {:induction false} OddRow(px: seq<Pixel>, width: nat, i: nat, j: nat)
    requires width > 0 && i % 2 == 1 && j <= width && i * width + j <= |px|
    ensures Sampled(px, width, i * width + j) == Sampled(px, width, i * width)
    decreases j
  {
    hide Sampled;
    if j > 0 {
      SampledNext(px, width, i, j - 1);
      OddRow(px, width, i, j - 1);
    } else {
      assert i * width + j == i * width;
    }
  }

  lemma FlatAverage(px: seq<Pixel>, width: nat, k: nat)
    requires k + width + 1 < |px| && px[k] == px[k + 1] == px[k + width] == px[k + width + 1]
    ensures Average(px, width, k) == px[k]
  {
  }

  /** Two columns of an even row give one sample. */
  lemma TwoColumns(px: seq<Pixel>, width: nat, height: nat, i: nat, j: nat)
    requires Picture(px, width, height) && width % 2 == 0 && FlatBlocks(px, width, height)
    requires Block(width, height, i, j)
    ensures var k := 2 * i * width + 2 * j;
            && k + width + 1 < |px| && k == Corner(width, i, j)
            && Sampled(px, width, k + 2) == Sampled(px, width, k) + [Average(px, width, k)]
  {
    hide Sampled, Average;
    EvenCorner(width, i, j);
    BlockFits(width, height, i, j);
    assert FlatAt(px, width, height, i, j);
    var k := 2 * i * width + 2 * j;
    FlatAverage(px, width, k);
    SampledNext(px, width, 2 * i, 2 * j);
    SampledNext(px, width, 2 * i, 2 * j + 1);
    assert 2 * i * width + (2 * j + 1) + 1 == k + 2;
  }

  lemma TwoRows(i: nat, width: nat)
    requires i > 0 && width % 2 == 0
    ensures 2 * (i - 1) * width + 2 * (width / 2) == (2 * i - 1) * width
    ensures (2 * i - 1) * width + width == 2 * i * width
  {
    assert (2 * i - 2) * width + width == (2 * i - 1) * width;
  }

  lemma NoneAveraged(px: seq<Pixel>, width: nat, height: nat)
    requires Picture(px, width, height) && width > 0
    ensures Averaged(px, width, height, 0, 0) == Sampled(px, width, 0) == []
  {
  }

  /** On flat blocks the averages, taken block by block, are the samples, taken pixel by
      pixel. */
  lemma {:induction false} FlatAveraged(px: seq<Pixel>, width: nat, height: nat, i: nat, j: nat)
    requires Picture(px, width, height) && width % 2 == 0 && width > 0 && FlatBlocks(px, width, height)
    requires Place(width, height, i, j) && 2 * i * width + 2 * j <= |px|
    ensures Averaged(px, width, height, i, j) == Sampled(px, width, 2 * i * width + 2 * j)
    decreases i, j
  {
    hide Sampled, Averaged, Average, FlatBlocks, Corner;
    if j > 0 {
      FlatAveraged(px, width, height, i, j - 1);
      AveragedNext(px, width, height, i, j - 1);
      TwoColumns(px, width, height, i, j - 1);
    } else if i > 0 {
      TwoRows(i, width);
      FlatAveraged(px, width, height, i - 1, width / 2);
      AveragedWrap(px, width, height, i);
      OddRow(px, width, 2 * i - 1, width);
    } else {
      NoneAveraged(px, width, height);
    }
  }

  /** Of a picture of even sides and flat blocks both planar converters write the same planes. */
  lemma FlatPlanes(px: seq<Pixel>, width: nat, height: nat)
    requires Picture(px, width, height) && width % 2 == 0 && height % 2 == 0 && FlatBlocks(px, width, height)
    ensures Averaged(px, width, height, height / 2, 0) == Samples(px, width)
  {
    hide Sampled, Averaged, FlatBlocks;
    EvenBlocks(width, height);
    if width == 0 {
      assert |Averaged(px, width, height, height / 2, 0)| == 0;
    } else {
      FlatAveraged(px, width, height, height / 2, 0);
    }
  }
}
