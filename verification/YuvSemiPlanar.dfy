/** `encodeYUV420sp`: a Y plane, then V and U interleaved. */
module YuvSemiPlanar {
  import opened Yuv

  lemma {:induction false} InterleavedNext(a: seq<byte>, b: seq<byte>, x: byte, y: byte)
    requires |a| == |b|
    ensures Interleaved(a + [x], b + [y]) == Interleaved(a, b) + [x, y]
  {
    if a == [] {
      assert [x][1..] == [] && [y][1..] == [];
    } else {
      InterleavedNext(a[1..], b[1..], x, y);
      assert (a + [x])[1..] == a[1..] + [x] && (b + [y])[1..] == b[1..] + [y];
    }
  }

  function VU(s: seq<Pixel>): (r: seq<byte>)
    ensures |r| == 2 * |s|
  {
    Interleaved(VPlane(s), UPlane(s))
  }

  lemma VUNext(s: seq<Pixel>, p: Pixel)
    ensures VU(s + [p]) == VU(s) + [V(p), U(p)]
  {
    hide U, V, UPlane, VPlane;
    PlaneNext(s, p);
    InterleavedNext(VPlane(s), UPlane(s), V(p), U(p));
  }

  /** The converter after `y` pixels: planes, log and index. */
  ghost predicate State(out: seq<byte>, log: multiset<nat>, px: seq<Pixel>, width: nat, y: nat, uv: nat) {
    && width > 0 && y <= |px|
    && var s := Sampled(px, width, y);
    && uv == |px| + 2 * |s| <= |out|
    && out[..y] == YPlane(px[..y]) && out[|px|..uv] == VU(s)
    && log == Range(0, y) + Range(|px|, uv)
  }

  lemma LumaNext(out: seq<byte>, px: seq<Pixel>, y: nat)
    requires y < |px| <= |out| && out[..y] == YPlane(px[..y])
    ensures out[y := Luma(px[y])][..y + 1] == YPlane(px[..y + 1])
  {
    hide Luma, YPlane;
    var after := out[y := Luma(px[y])];
    assert after[..y + 1] == out[..y] + [Luma(px[y])];
    assert px[..y + 1] == px[..y] + [px[y]];
    PlaneNext(px[..y], px[y]);
  }

  /** A pixel that is not sampled. */
  lemma PlainNext(out: seq<byte>, log: multiset<nat>, px: seq<Pixel>, width: nat, i: nat, j: nat, y: nat, uv: nat)
    requires State(out, log, px, width, y, uv) && j < width && y == i * width + j < |px|
    requires i % 2 != 0 || j % 2 != 0
    ensures y < |out| && State(out[y := Luma(px[y])], log + multiset{y}, px, width, y + 1, uv)
  {
    hide Luma, Sampled, VU, YPlane, Range;
    RangeNext(0, y);
    SampledNext(px, width, i, j);
    assert Sampled(px, width, y + 1) == Sampled(px, width, y);
    LumaNext(out, px, y);
    SliceKeeps(out, y, Luma(px[y]), |px|, uv);
  }

  /** A pixel that is. */
  lemma CornerNext(out: seq<byte>, log: multiset<nat>, px: seq<Pixel>, width: nat, i: nat, j: nat, y: nat, uv: nat)
    requires State(out, log, px, width, y, uv) && j < width && y == i * width + j < |px|
    requires i % 2 == 0 && j % 2 == 0 && uv + 1 < |out|
    ensures y < uv
    ensures State(out[y := Luma(px[y])][uv := V(px[y])][uv + 1 := U(px[y])],
                  log + multiset{y} + multiset{uv} + multiset{uv + 1}, px, width, y + 1, uv + 2)
  {
    hide Luma, U, V, Sampled, VU, YPlane, Range;
    var p, s := px[y], Sampled(px, width, y);
    SampledNext(px, width, i, j);
    assert Sampled(px, width, y + 1) == s + [p];
    VUNext(s, p);
    LumaNext(out, px, y);
    SliceKeeps(out, y, Luma(p), |px|, uv);
    PairGrows(out[y := Luma(p)], y + 1, uv, V(p), U(p));
    PairGrows(out[y := Luma(p)], |px|, uv, V(p), U(p));
    RangeNext(0, y);
    RangeNext(|px|, uv);
    RangeNext(|px|, uv + 1);
  }

  /** One pixel. */
  method PutPixel(yuv420sp: array<byte>, ghost log: multiset<nat>, ghost px: seq<Pixel>, p: Pixel, i: nat, j: nat,
                  ghost width: nat, yIndex: nat, uvIndex: nat)
    returns (ghost log': multiset<nat>, uvIndex': nat)
    requires j < width && yIndex == i * width + j < |px| && p == px[yIndex]
    requires State(yuv420sp[..], log, px, width, yIndex, uvIndex)
    requires i % 2 == 0 && j % 2 == 0 ==> uvIndex + 1 < yuv420sp.Length
    modifies yuv420sp
    ensures State(yuv420sp[..], log', px, width, yIndex + 1, uvIndex')
  {
    hide Luma, U, V, Clamp, State;
    NoClamp(p);
    uvIndex' := uvIndex;
    if i % 2 == 0 && j % 2 == 0 {
      CornerNext(yuv420sp[..], log, px, width, i, j, yIndex, uvIndex);
    } else {
      PlainNext(yuv420sp[..], log, px, width, i, j, yIndex, uvIndex);
    }
    log' := Put(yuv420sp, yIndex, Clamp(Luma(p)), log);
    if i % 2 == 0 && j % 2 == 0 {
      log' := Put(yuv420sp, uvIndex', Clamp(V(p)), log');
      uvIndex' := uvIndex' + 1;
      log' := Put(yuv420sp, uvIndex', Clamp(U(p)), log');
      uvIndex' := uvIndex' + 1;
    }
  }

  /** The body of the inner loop. */
  method OnePixel(yuv420sp: array<byte>, ghost log: multiset<nat>, rgb: seq<byte>, width: nat, height: nat, i: nat, j: nat,
                  yIndex: nat, uvIndex: nat)
    returns (ghost log': multiset<nat>, uvIndex': nat)
    requires i < height && j < width && |rgb| == 3 * (width * height) && yIndex == i * width + j
    requires yuv420sp.Length == width * height + 2 * Blocks(width, height)
    requires State(yuv420sp[..], log, Pixels24(rgb), width, yIndex, uvIndex)
    modifies yuv420sp
    ensures State(yuv420sp[..], log', Pixels24(rgb), width, yIndex + 1, uvIndex')
  {
    hide Sampled, Pixels24, Blocks, Range, VU, YPlane;
    RowEnd(i, height, width);
    var p := Fetch(rgb, yIndex);
    ghost var px := Pixels24(rgb);
    RoomForSample(px, width, height, i, j);
    log', uvIndex' := PutPixel(yuv420sp, log, px, p, i, j, width, yIndex, uvIndex);
  }

  /** The inner loop. */
  method Row(yuv420sp: array<byte>, ghost log0: multiset<nat>, rgb: seq<byte>, width: nat, height: nat, i: nat,
             yIndex0: nat, uvIndex0: nat)
    returns (ghost log: multiset<nat>, yIndex: nat, uvIndex: nat)
    requires i < height && |rgb| == 3 * (width * height) && yIndex0 == i * width
    requires yuv420sp.Length == width * height + 2 * Blocks(width, height)
    requires State(yuv420sp[..], log0, Pixels24(rgb), width, yIndex0, uvIndex0)
    modifies yuv420sp
    ensures yIndex == (i + 1) * width
    ensures State(yuv420sp[..], log, Pixels24(rgb), width, yIndex, uvIndex)
  {
    hide State, Pixels24, Blocks;
    log, yIndex, uvIndex := log0, yIndex0, uvIndex0;
    var j := 0;
    while j < width
      invariant 0 <= j <= width && yIndex == yIndex0 + j
      invariant State(yuv420sp[..], log, Pixels24(rgb), width, yIndex, uvIndex)
    {
      log, uvIndex := OnePixel(yuv420sp, log, rgb, width, height, i, j, yIndex, uvIndex);
      yIndex := yIndex + 1;
      j := j + 1;
    }
  }

  /** The outer loop. */
  method Rows(yuv420sp: array<byte>, ghost log0: multiset<nat>, rgb: seq<byte>, width: nat, height: nat, uvIndex0: nat)
    returns (ghost log: multiset<nat>, ghost uv: nat)
    requires |rgb| == 3 * (width * height)
    requires yuv420sp.Length == width * height + 2 * Blocks(width, height)
    requires State(yuv420sp[..], log0, Pixels24(rgb), width, 0, uvIndex0)
    modifies yuv420sp
    ensures State(yuv420sp[..], log, Pixels24(rgb), width, width * height, uv)
  {
    hide State, Pixels24, Blocks;
    log := log0;
    var yIndex: nat, uvIndex := 0, uvIndex0;
    var i := 0;
    while i < height
      invariant 0 <= i <= height && yIndex == i * width
      invariant State(yuv420sp[..], log, Pixels24(rgb), width, yIndex, uvIndex)
    {
      log, yIndex, uvIndex := Row(yuv420sp, log, rgb, width, height, i, yIndex, uvIndex);
      i := i + 1;
    }
    uv := uvIndex;
    assert yIndex == width * height;
  }

  lemma Start(out: seq<byte>, px: seq<Pixel>, width: nat)
    requires width > 0 && |px| <= |out|
    ensures State(out, multiset{}, px, width, 0, |px|)
  {
  }

  lemma Done(out: seq<byte>, log: multiset<nat>, px: seq<Pixel>, width: nat, height: nat, uv: nat)
    requires width > 0 && Picture(px, width, height) && |out| == |px| + 2 * Blocks(width, height)
    requires State(out, log, px, width, |px|, uv)
    ensures out == YPlane(px) + VU(Samples(px, width)) && log == Range(0, |out|)
  {
    hide YPlane, VU, Sampled, Blocks, Range;
    SamplesLength(px, width, height);
    RangeJoin(0, |px|, |out|);
    assert px[..|px|] == px;
    ThreeParts(out, |px|, |out|);
    assert out[|out|..|out|] == [];
  }

  /** `encodeYUV420sp` on any sides, into memory just large enough: the Y plane, and the V and U
      samples interleaved; every byte is written once. */
  method EncodeYUV420sp(yuv420sp: array<byte>, rgb: seq<byte>, width: nat, height: nat)
    returns (ghost log: multiset<nat>)
    requires |rgb| == 3 * (width * height)
    requires yuv420sp.Length == width * height + 2 * Blocks(width, height)
    modifies yuv420sp
    ensures var px := Pixels24(rgb); var s := Samples(px, width);
            yuv420sp[..] == YPlane(px) + Interleaved(VPlane(s), UPlane(s))
    ensures log == Range(0, yuv420sp.Length)
  {
    hide State, Sampled, Blocks, Pixels24, YPlane, Interleaved;
    ghost var px := Pixels24(rgb);
    if width == 0 {
      log := multiset{};
      Nothing(px, height);
      return;
    }
    var frameSize := width * height;
    Start(yuv420sp[..], px, width);
    ghost var uv;
    log, uv := Rows(yuv420sp, multiset{}, rgb, width, height, frameSize);
    Done(yuv420sp[..], log, px, width, height, uv);
  }

  lemma Nothing(px: seq<Pixel>, height: nat)
    requires px == []
    ensures Blocks(0, height) == 0 && Samples(px, 0) == [] && Range(0, 0) == multiset{}
    ensures YPlane(px) + Interleaved(VPlane([]), UPlane([])) == []
  {
    NoBlocks(0, height);
  }
}
