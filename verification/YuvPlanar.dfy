/** `rgb_to_yuv420p`: a Y plane, then a U plane, then a V plane. The V plane starts a quarter
    of the pixels behind the U plane, which is too early when a side is odd. */
module YuvPlanar {
  import opened Yuv

  /** The planes after `y` pixels, `s` of them sampled. Where the U plane has grown into the V
      plane its bytes are the later ones, but when both start at the same place. */
  ghost predicate Planes(out: seq<byte>, px: seq<Pixel>, s: seq<Pixel>, y: nat) {
    var n, c, m := |px|, |px| / 4, |s|;
    var k := if m > c then m - c else 0;
    && y <= n && n + c + m <= |out|
    && out[..y] == YPlane(px[..y])
    && out[n..n + m] == (if c == 0 then VPlane(s) else UPlane(s))
    && out[n + c + k..n + c + m] == VPlane(s)[k..]
  }

  /** The whole picture. */
  function PlanarBytes(px: seq<Pixel>, s: seq<Pixel>): seq<byte>
    requires |s| >= |px| / 4
  {
    var c := |px| / 4;
    YPlane(px) + (if c == 0 then VPlane(s) else UPlane(s) + VPlane(s)[|s| - c..])
  }

  lemma LumaNext(out: seq<byte>, px: seq<Pixel>, s: seq<Pixel>, y: nat)
    requires Planes(out, px, s, y) && y < |px|
    ensures Planes(out[y := Luma(px[y])], px, s, y + 1)
  {
    hide Luma, U, V, UPlane, VPlane;
    var n, c, m := |px|, |px| / 4, |s|;
    var k := if m > c then m - c else 0;
    var after := out[y := Luma(px[y])];
    assert after[..y + 1] == out[..y] + [Luma(px[y])];
    assert px[..y + 1] == px[..y] + [px[y]];
    PlaneNext(px[..y], px[y]);
    assert after[n..n + m] == out[n..n + m];
    assert after[n + c + k..n + c + m] == out[n + c + k..n + c + m];
  }

  lemma ChromaNext(out: seq<byte>, px: seq<Pixel>, s: seq<Pixel>, p: Pixel, y: nat)
    requires Planes(out, px, s, y) && |px| + |px| / 4 + |s| < |out|
    ensures Planes(out[|px| + |s| := U(p)][|px| + |px| / 4 + |s| := V(p)], px, s + [p], y)
  {
    hide Luma, U, V, YPlane, UPlane, VPlane;
    var n, c, m := |px|, |px| / 4, |s|;
    var mid := out[n + m := U(p)];
    var after := mid[n + c + m := V(p)];
    PlaneNext(s, p);
    SliceKeeps(out, n + m, U(p), 0, y);
    SliceKeeps(mid, n + c + m, V(p), 0, y);
    SliceKeeps(out, n + m, U(p), n, n + m);
    SliceKeeps(mid, n + c + m, V(p), n, n + m);
    SliceGrows(after, n, n + m);
    if c > 0 {
      LaterV(out, px, s, p, y);
    } else {
      assert VPlane(s + [p])[m + 1..] == [];
    }
  }

  /** What is left to see of the V plane. */
  lemma LaterV(out: seq<byte>, px: seq<Pixel>, s: seq<Pixel>, p: Pixel, y: nat)
    requires Planes(out, px, s, y) && |px| + |px| / 4 + |s| < |out| && |px| / 4 > 0
    ensures var n, c, m := |px|, |px| / 4, |s|;
      var l := if m + 1 > c then m + 1 - c else 0;
      out[n + m := U(p)][n + c + m := V(p)][n + c + l..n + c + m + 1] == VPlane(s + [p])[l..]
  {
    hide Luma, U, V, YPlane, UPlane, VPlane;
    var n, c, m := |px|, |px| / 4, |s|;
    var k, l := (if m > c then m - c else 0), (if m + 1 > c then m + 1 - c else 0);
    PlaneNext(s, p);
    SliceMoves(out, n + m, U(p), n + c + k, n + c + m, V(p), l - k);
    TailGrows(VPlane(s), k, l - k, V(p));
  }

  /** What has been written. */
  function Log(n: nat, y: nat, m: nat): multiset<nat> {
    Range(0, y) + Range(n, n + m) + Range(n + n / 4, n + n / 4 + m)
  }

  /** The converter after `y` pixels: planes, log and indices. */
  ghost predicate State(out: seq<byte>, log: multiset<nat>, px: seq<Pixel>, width: nat, y: nat, u: nat, v: nat) {
    && width > 0 && y <= |px|
    && var s := Sampled(px, width, y);
    && u == |px| + |s| && v == |px| + |px| / 4 + |s|
    && Planes(out, px, s, y) && log == Log(|px|, y, |s|)
  }

  /** A pixel that is not sampled. */
  lemma PlainNext(out: seq<byte>, log: multiset<nat>, px: seq<Pixel>, width: nat, i: nat, j: nat, y: nat, u: nat, v: nat)
    requires State(out, log, px, width, y, u, v) && j < width && y == i * width + j < |px|
    requires i % 2 != 0 || j % 2 != 0
    ensures y < |out| && State(out[y := Luma(px[y])], log + multiset{y}, px, width, y + 1, u, v)
  {
    hide Luma, Sampled, Planes, Range;
    var s := Sampled(px, width, y);
    Within(out, px, s, y);
    SampledNext(px, width, i, j);
    assert Sampled(px, width, y + 1) == s;
    LogNext(|px|, y, |s|);
    LumaNext(out, px, s, y);
  }

  /** A pixel that is. */
  lemma CornerNext(out: seq<byte>, log: multiset<nat>, px: seq<Pixel>, width: nat, i: nat, j: nat, y: nat, u: nat, v: nat)
    requires State(out, log, px, width, y, u, v) && j < width && y == i * width + j < |px|
    requires i % 2 == 0 && j % 2 == 0 && v < |out|
    ensures y < u <= v < |out|
    ensures State(out[y := Luma(px[y])][u := U(px[y])][v := V(px[y])], log + multiset{y} + multiset{u} + multiset{v},
                  px, width, y + 1, u + 1, v + 1)
  {
    hide Luma, U, V, Sampled, Planes, Range;
    var s := Sampled(px, width, y);
    Within(out, px, s, y);
    SampledNext(px, width, i, j);
    LogNext(|px|, y, |s|);
    LumaNext(out, px, s, y);
    ChromaNext(out[y := Luma(px[y])], px, s, px[y], y + 1);
  }

  /** One pixel. */
  method PutPixel(yuv420p: array<byte>, ghost log: multiset<nat>, ghost px: seq<Pixel>, p: Pixel, i: nat, j: nat,
                  ghost width: nat, yIndex: nat, uIndex: nat, vIndex: nat)
    returns (ghost log': multiset<nat>, uIndex': nat, vIndex': nat)
    requires j < width && yIndex == i * width + j < |px| && p == px[yIndex]
    requires State(yuv420p[..], log, px, width, yIndex, uIndex, vIndex)
    requires i % 2 == 0 && j % 2 == 0 ==> vIndex < yuv420p.Length
    modifies yuv420p
    ensures State(yuv420p[..], log', px, width, yIndex + 1, uIndex', vIndex')
  {
    hide Luma, U, V, Clamp, State;
    NoClamp(p);
    uIndex', vIndex' := uIndex, vIndex;
    if i % 2 == 0 && j % 2 == 0 {
      CornerNext(yuv420p[..], log, px, width, i, j, yIndex, uIndex, vIndex);
    } else {
      PlainNext(yuv420p[..], log, px, width, i, j, yIndex, uIndex, vIndex);
    }
    log' := Put(yuv420p, yIndex, Clamp(Luma(p)), log);
    if i % 2 == 0 && j % 2 == 0 {
      log' := Put(yuv420p, uIndex', Clamp(U(p)), log');
      uIndex' := uIndex' + 1;
      log' := Put(yuv420p, vIndex', Clamp(V(p)), log');
      vIndex' := vIndex' + 1;
    }
  }

  lemma Within(out: seq<byte>, px: seq<Pixel>, s: seq<Pixel>, y: nat)
    requires Planes(out, px, s, y)
    ensures y <= |px| && |px| + |px| / 4 + |s| <= |out|
  {
  }

  lemma LogNext(n: nat, y: nat, m: nat)
    ensures Log(n, y + 1, m) == Log(n, y, m) + multiset{y}
    ensures Log(n, y + 1, m + 1) == Log(n, y, m) + multiset{y} + multiset{n + m} + multiset{n + n / 4 + m}
  {
  }

  /** The body of the inner loop. */
  method OnePixel(yuv420p: array<byte>, ghost log: multiset<nat>, rgb: seq<byte>, width: nat, height: nat, i: nat, j: nat,
                  yIndex: nat, uIndex: nat, vIndex: nat)
    returns (ghost log': multiset<nat>, uIndex': nat, vIndex': nat)
    requires i < height && j < width && |rgb| == 3 * (width * height) && yIndex == i * width + j
    requires yuv420p.Length == width * height + width * height / 4 + Blocks(width, height)
    requires State(yuv420p[..], log, Pixels24(rgb), width, yIndex, uIndex, vIndex)
    modifies yuv420p
    ensures State(yuv420p[..], log', Pixels24(rgb), width, yIndex + 1, uIndex', vIndex')
  {
    hide Sampled, Planes, Pixels24, Log, Blocks;
    RowEnd(i, height, width);
    var p := Fetch(rgb, yIndex);
    ghost var px := Pixels24(rgb);
    RoomForSample(px, width, height, i, j);
    log', uIndex', vIndex' := PutPixel(yuv420p, log, px, p, i, j, width, yIndex, uIndex, vIndex);
  }

  /** The inner loop. */
  method Row(yuv420p: array<byte>, ghost log0: multiset<nat>, rgb: seq<byte>, width: nat, height: nat, i: nat,
             yIndex0: nat, uIndex0: nat, vIndex0: nat)
    returns (ghost log: multiset<nat>, yIndex: nat, uIndex: nat, vIndex: nat)
    requires i < height && |rgb| == 3 * (width * height) && yIndex0 == i * width
    requires yuv420p.Length == width * height + width * height / 4 + Blocks(width, height)
    requires State(yuv420p[..], log0, Pixels24(rgb), width, yIndex0, uIndex0, vIndex0)
    modifies yuv420p
    ensures yIndex == (i + 1) * width
    ensures State(yuv420p[..], log, Pixels24(rgb), width, yIndex, uIndex, vIndex)
  {
    hide State, Pixels24, Blocks;
    log, yIndex, uIndex, vIndex := log0, yIndex0, uIndex0, vIndex0;
    var j := 0;
    while j < width
      invariant 0 <= j <= width && yIndex == yIndex0 + j
      invariant State(yuv420p[..], log, Pixels24(rgb), width, yIndex, uIndex, vIndex)
    {
      log, uIndex, vIndex := OnePixel(yuv420p, log, rgb, width, height, i, j, yIndex, uIndex, vIndex);
      yIndex := yIndex + 1;
      j := j + 1;
    }
  }

  /** The outer loop. */
  method Rows(yuv420p: array<byte>, ghost log0: multiset<nat>, rgb: seq<byte>, width: nat, height: nat,
              uIndex0: nat, vIndex0: nat)
    returns (ghost log: multiset<nat>, ghost u: nat, ghost v: nat)
    requires |rgb| == 3 * (width * height)
    requires yuv420p.Length == width * height + width * height / 4 + Blocks(width, height)
    requires State(yuv420p[..], log0, Pixels24(rgb), width, 0, uIndex0, vIndex0)
    modifies yuv420p
    ensures State(yuv420p[..], log, Pixels24(rgb), width, width * height, u, v)
  {
    hide State, Pixels24, Blocks;
    log := log0;
    var yIndex: nat, uIndex, vIndex := 0, uIndex0, vIndex0;
    var i := 0;
    while i < height
      invariant 0 <= i <= height && yIndex == i * width
      invariant State(yuv420p[..], log, Pixels24(rgb), width, yIndex, uIndex, vIndex)
    {
      log, yIndex, uIndex, vIndex := Row(yuv420p, log, rgb, width, height, i, yIndex, uIndex, vIndex);
      i := i + 1;
    }
    u, v := uIndex, vIndex;
    assert yIndex == width * height;
  }

  lemma Start(out: seq<byte>, px: seq<Pixel>, width: nat)
    requires width > 0 && |px| + |px| / 4 <= |out|
    ensures State(out, multiset{}, px, width, 0, |px|, |px| + |px| / 4)
  {
  }

  lemma Done(out: seq<byte>, log: multiset<nat>, px: seq<Pixel>, width: nat, height: nat, u: nat, v: nat)
    requires width > 0 && Picture(px, width, height) && |out| == |px| + |px| / 4 + Blocks(width, height)
    requires State(out, log, px, width, |px|, u, v)
    ensures |Samples(px, width)| == Blocks(width, height) >= |px| / 4
    ensures out == PlanarBytes(px, Samples(px, width))
    ensures log == Log(|px|, |px|, Blocks(width, height))
  {
    hide YPlane, UPlane, VPlane, Sampled, Blocks, Log;
    SamplesLength(px, width, height);
    Quarter(width, height);
    assert px[..|px|] == px;
    var n, c, m := |px|, |px| / 4, Blocks(width, height);
    ThreeParts(out, n, n + m);
    if c == 0 {
      assert out[n + m..|out|] == [];
    }
  }

  /** Every byte is written once exactly if as many pixels are sampled as lie between the
      starts of the planes. */
  lemma OnceExactly(n: nat, m: nat)
    requires m >= n / 4
    ensures Log(n, n, m) == Range(0, n + n / 4 + m) <==> m == n / 4
  {
    hide Range;
    var c := n / 4;
    if m == c {
      RangeJoin(0, n, n + m);
      RangeJoin(0, n + m, n + c + m);
    } else {
      Twice(n, m);
      RangeCount(0, n + c + m, n + c);
    }
  }

  lemma Twice(n: nat, m: nat)
    requires m > n / 4
    ensures Log(n, n, m)[n + n / 4] == 2
  {
    hide Range;
    var k := n + n / 4;
    RangeCount(0, n, k);
    RangeCount(n, n + m, k);
    RangeCount(k, k + m, k);
  }

  /** The converter on a picture that is at least one pixel wide. */
  method Convert(yuv420p: array<byte>, rgb: seq<byte>, width: nat, height: nat)
    returns (ghost log: multiset<nat>)
    requires width > 0 && |rgb| == 3 * (width * height)
    requires yuv420p.Length == width * height + width * height / 4 + Blocks(width, height)
    modifies yuv420p
    ensures var px := Pixels24(rgb); var s := Samples(px, width);
            && |s| == Blocks(width, height) >= |px| / 4 && yuv420p[..] == PlanarBytes(px, s)
            && log == Log(|px|, |px|, |s|)
  {
    hide State, Samples, Blocks, PlanarBytes, Log;
    var frameSize := width * height;
    var chromaSize := frameSize / 4;
    ghost var px := Pixels24(rgb);
    Start(yuv420p[..], px, width);
    ghost var u, v;
    log, u, v := Rows(yuv420p, multiset{}, rgb, width, height, frameSize, frameSize + chromaSize);
    Done(yuv420p[..], log, px, width, height, u, v);
  }

  /** `rgb_to_yuv420p` into memory just large enough for all it writes. For even sides, and else
      only for an empty picture, every byte is written once; `log` holds every write. */
  method RgbToYuv420p(yuv420p: array<byte>, rgb: seq<byte>, width: nat, height: nat)
    returns (ghost log: multiset<nat>)
    requires |rgb| == 3 * (width * height)
    requires yuv420p.Length == width * height + width * height / 4 + Blocks(width, height)
    modifies yuv420p
    ensures var px := Pixels24(rgb); var s := Samples(px, width);
            && |s| == Blocks(width, height) >= |px| / 4 && yuv420p[..] == PlanarBytes(px, s)
            && log == Log(|px|, |px|, |s|)
    ensures log == Range(0, yuv420p.Length) <==> (width % 2 == 0 && height % 2 == 0) || width * height == 0
    ensures var px := Pixels24(rgb); var s := Samples(px, width);
            width % 2 == 0 && height % 2 == 0 ==> yuv420p[..] == YPlane(px) + UPlane(s) + VPlane(s)
  {
    hide Samples, Blocks, Pixels24, PlanarBytes, Log, YPlane, UPlane, VPlane, Range;
    Quarter(width, height);
    EvenPlanes(Pixels24(rgb), width, height);
    OnceExactly(width * height, Blocks(width, height));
    if width == 0 {
      log := multiset{};
      Nothing(Pixels24(rgb), height);
    } else {
      log := Convert(yuv420p, rgb, width, height);
    }
  }

  lemma Nothing(px: seq<Pixel>, height: nat)
    requires px == []
    ensures Blocks(0, height) == 0 && Samples(px, 0) == [] && PlanarBytes(px, []) == []
    ensures Log(0, 0, 0) == multiset{}
  {
  }

  lemma EvenPlanes(px: seq<Pixel>, width: nat, height: nat)
    requires Picture(px, width, height)
    ensures var s := Samples(px, width);
      && |s| == Blocks(width, height) >= |px| / 4
      && (width % 2 == 0 && height % 2 == 0 ==> PlanarBytes(px, s) == YPlane(px) + UPlane(s) + VPlane(s))
  {
    hide Blocks, Sampled, YPlane, UPlane, VPlane;
    SamplesLength(px, width, height);
    Quarter(width, height);
    var s := Samples(px, width);
    if width % 2 == 0 && height % 2 == 0 {
      assert VPlane(s)[0..] == VPlane(s);
      if |s| == 0 {
        assert UPlane(s) == [] && VPlane(s) == [];
      }
    }
  }

  /** Of a picture of one pixel the U byte is lost: V is written over it. */
  lemma OddLosesU(p: Pixel)
    ensures Samples([p], 1) == [p] && PlanarBytes([p], [p]) == [Luma(p), V(p)]
    ensures Log(1, 1, 1)[1] == 2
  {
    hide Luma, U, V, PlanarBytes, Log;
    OneSample(p);
    OnePlanes(p);
    Twice(1, 1);
  }

  lemma OneSample(p: Pixel)
    ensures Samples([p], 1) == [p]
  {
    hide Corner;
    FirstCorner();
    assert Sampled([p], 1, 0) == [];
  }

  lemma FirstCorner()
    ensures Corner(0, 1)
  {
  }

  lemma OnePlanes(p: Pixel)
    ensures PlanarBytes([p], [p]) == [Luma(p), V(p)]
  {
    hide Luma, U, V;
  }
}
