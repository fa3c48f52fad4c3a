/** The frames of a pass over a stream of NAL units (Annex B and Table 7-1 of ITU-T H.264):
    whole units, one picture to a frame. */
module H264Units {
  import opened H264
  import opened H264Laws

  // ----- the stream

  /** A NAL unit behind a start code of three bytes, or of four. */
  datatype Unit = Unit(long: bool, bytes: seq<byte>)

  /** Section 7.4.1: a unit is not empty, does not end in a zero byte and holds no start code. */
  predicate ValidUnit(u: Unit) {
    && u.bytes != [] && u.bytes[|u.bytes| - 1] != 0
    && forall i {:trigger u.bytes[i]} :: 0 <= i < |u.bytes| - 2 ==>
         !(u.bytes[i] == 0 && u.bytes[i + 1] == 0 && u.bytes[i + 2] <= 1)
  }

  predicate ValidUnits(us: seq<Unit>) {
    forall i :: 0 <= i < |us| ==> ValidUnit(us[i])
  }

  function Code(u: Unit): seq<byte> {
    if u.long then [0, 0, 0, 1] else [0, 0, 1]
  }

  function Bytes(u: Unit): seq<byte> {
    Code(u) + u.bytes
  }

  function Stream(us: seq<Unit>): seq<byte> {
    if us == [] then [] else Bytes(us[0]) + Stream(us[1..])
  }

  /** Table 7-1: the type is the low five bits of the first byte. */
  function UnitType(u: Unit): nat
    requires u.bytes != []
  {
    u.bytes[0] % 32
  }

  const SLICE := 1
  const IDR_SLICE := 5
  const SEI := 6
  const SEQUENCE_PARAMETERS := 7
  const PICTURE_PARAMETERS := 8

  /** The first slice of a picture: its first_mb_in_slice is 0, the single bit 1. */
  predicate StartsPicture(u: Unit)
    requires ValidUnit(u)
  {
    UnitType(u) in {SLICE, IDR_SLICE} && |u.bytes| >= 2 && u.bytes[1] / 128 == 1
  }

  /** A unit that belongs to the picture behind it. */
  predicate StartsFrame(u: Unit)
    requires ValidUnit(u)
  {
    UnitType(u) in {SEI, SEQUENCE_PARAMETERS, PICTURE_PARAMETERS} || StartsPicture(u)
  }

  /** The scans look at start codes with five more bytes behind the first: only a last unit
      of one or two bytes can escape them. */
  predicate Seen(us: seq<Unit>, k: nat)
    requires k < |us|
  {
    k + 1 < |us| || |Bytes(us[k])| >= 6
  }

  /** One picture: units up to its first slice, and after it none that starts a frame. */
  ghost predicate OnePicture(us: seq<Unit>, j: nat)
    requires ValidUnits(us)
  {
    && j < |us| && StartsPicture(us[j])
    && (forall i :: 0 <= i < j ==> !StartsPicture(us[i]))
    && (forall i :: j < i < |us| ==> !StartsFrame(us[i]))
  }

  function Flat(groups: seq<seq<Unit>>): seq<Unit> {
    if groups == [] then [] else groups[0] + Flat(groups[1..])
  }

  // ----- where the start codes are

  lemma StreamLong(us: seq<Unit>)
    requires ValidUnits(us) && us != []
    ensures |Stream(us)| >= 4 && Stream(us)[0] == 0
  {
  }

  /** No start code begins behind that of the unit. */
  lemma NoCodeInside(u: Unit, g: seq<byte>, i: nat)
    requires ValidUnit(u) && |Code(u)| <= i < |Bytes(u)|
    ensures !Opens(Bytes(u) + g, i) && !Closes(Bytes(u) + g, i)
  {
    var f, k := Bytes(u) + g, i - |Code(u)|;
    assert f[i] == u.bytes[k];
    if k + 1 < |u.bytes| {
      assert f[i + 1] == u.bytes[k + 1];
      if k + 2 < |u.bytes| {
        assert f[i + 2] == u.bytes[k + 2];
      }
    }
  }

  lemma HighBit(u: Unit)
    requires ValidUnit(u)
    ensures StartsPicture(u) <==> UnitType(u) in {5, 1} && |u.bytes| >= 2 && u.bytes[1] >= 0x80
    ensures StartsFrame(u) <==> UnitType(u) in {7, 8, 6} || StartsPicture(u)
  {
  }

  /** The start code, and the two bytes behind it. */
  lemma CodeThen(u: Unit, g: seq<byte>)
    requires ValidUnit(u) && (g == [] || (|g| >= 4 && g[0] == 0))
    ensures var f, n := Bytes(u) + g, |Code(u)|;
            && (5 < |f| <==> g != [] || |Bytes(u)| >= 6)
            && f[n] == u.bytes[0]
            && (5 < |f| ==> CodeLength(f, 0) == n && f[n + 1] == if |u.bytes| >= 2 then u.bytes[1] else 0)
  {
    hide ValidUnit;
    var f, n := Bytes(u) + g, |Code(u)|;
    assert u.bytes != [] by {
      UnitLong(u);
    }
    assert f == Code(u) + (u.bytes + g);
    if |u.bytes| < 2 && g != [] {
      assert f[n + 1] == g[0];
    }
  }

  /** What the scans see at a start code. */
  lemma AtCode(us: seq<Unit>)
    requires ValidUnits(us) && us != []
    ensures var f := Stream(us);
            && (Opens(f, 0) <==> Seen(us, 0) && StartsPicture(us[0]))
            && (Closes(f, 0) <==> Seen(us, 0) && StartsFrame(us[0]))
  {
    hide Stream, StartsPicture, StartsFrame, Bytes, Code, CodeLength, ValidUnit;
    var u, g := us[0], Stream(us[1..]);
    UnitLong(u);
    HighBit(u);
    StreamStep(us);
    if us[1..] != [] {
      StreamLong(us[1..]);
    } else {
      StreamEmpty();
    }
    CodeThen(u, g);
  }

  lemma StreamStep(us: seq<Unit>)
    requires us != []
    ensures Stream(us) == Bytes(us[0]) + Stream(us[1..])
  {
  }

  lemma StreamEmpty()
    ensures Stream([]) == []
  {
  }

  /** The short form of a long start code, one byte further on, shows nothing new. */
  lemma InsideCode(us: seq<Unit>, i: nat)
    requires ValidUnits(us) && us != [] && 0 < i < |Code(us[0])|
    ensures Opens(Stream(us), i) ==> i == 1 && us[0].long && Opens(Stream(us), 0)
    ensures Closes(Stream(us), i) ==> i == 1 && us[0].long && Closes(Stream(us), 0)
  {
    hide Stream;
    var u, g := us[0], Stream(us[1..]);
    var f := Bytes(u) + g;
    assert f == Stream(us) by { StreamStep(us); }
    assert u.long ==> f[0] == 0 && f[1] == 0 && f[2] == 0 && f[3] == 1;
    assert !u.long ==> f[0] == 0 && f[1] == 0 && f[2] == 1;
  }

  lemma Behind(u: Unit, g: seq<byte>, i: nat)
    requires i >= |Bytes(u)|
    ensures Opens(Bytes(u) + g, i) <==> Opens(g, i - |Bytes(u)|)
    ensures Closes(Bytes(u) + g, i) <==> Closes(g, i - |Bytes(u)|)
  {
    assert (Bytes(u) + g)[|Bytes(u)|..] == g;
    Shift(Bytes(u) + g, |Bytes(u)|, i - |Bytes(u)|);
  }

  // ----- the scans, unit by unit

  /** Index of the first unit from `k` on that the first scan stops at, or the number of units. */
  function PictureFrom(us: seq<Unit>, k: nat): (j: nat)
    requires ValidUnits(us) && k <= |us|
    ensures k <= j <= |us|
    ensures forall i :: k <= i < j ==> !(Seen(us, i) && StartsPicture(us[i]))
    ensures j < |us| ==> Seen(us, j) && StartsPicture(us[j])
    decreases |us| - k
  {
    if k == |us| || (Seen(us, k) && StartsPicture(us[k])) then k else PictureFrom(us, k + 1)
  }

  function FrameFrom(us: seq<Unit>, k: nat): (j: nat)
    requires ValidUnits(us) && k <= |us|
    ensures k <= j <= |us|
    ensures forall i :: k <= i < j ==> !(Seen(us, i) && StartsFrame(us[i]))
    ensures j < |us| ==> Seen(us, j) && StartsFrame(us[j])
    decreases |us| - k
  {
    if k == |us| || (Seen(us, k) && StartsFrame(us[k])) then k else FrameFrom(us, k + 1)
  }

  lemma {:induction false} StreamAppend(a: seq<Unit>, b: seq<Unit>)
    ensures Stream(a + b) == Stream(a) + Stream(b)
  {
    if a == [] {
      assert a + b == b;
    } else {
      assert (a + b)[1..] == a[1..] + b;
      StreamAppend(a[1..], b);
    }
  }

  function Offset(us: seq<Unit>, k: nat): nat
    requires k <= |us|
  {
    |Stream(us[..k])|
  }

  lemma SuffixAt(us: seq<Unit>, k: nat)
    requires k <= |us|
    ensures Offset(us, k) <= |Stream(us)| && Stream(us)[Offset(us, k)..] == Stream(us[k..])
    ensures k < |us| ==> Offset(us, k + 1) == Offset(us, k) + |Bytes(us[k])|
    ensures k == |us| ==> Offset(us, k) == |Stream(us)|
  {
    hide Stream, Bytes;
    StreamAppend(us[..k], us[k..]);
    assert us == us[..k] + us[k..];
    if k < |us| {
      StreamAppend(us[..k], [us[k]]);
      assert us[..k + 1] == us[..k] + [us[k]];
      OneUnit(us[k]);
    } else {
      assert us[..k] == us;
    }
  }

  lemma OneUnit(u: Unit)
    ensures Stream([u]) == Bytes(u)
  {
    assert [u][1..] == [];
    assert Bytes(u) + [] == Bytes(u);
  }

  /** What the scans see at and behind the start of unit `k`. */
  lemma AtUnit(us: seq<Unit>, k: nat, i: nat)
    requires ValidUnits(us) && k < |us| && i < |Bytes(us[k])|
    ensures var f, o := Stream(us), Offset(us, k);
            && (i == 0 ==> (Opens(f, o) <==> Seen(us, k) && StartsPicture(us[k])))
            && (i == 0 ==> (Closes(f, o) <==> Seen(us, k) && StartsFrame(us[k])))
            && (0 < i && Opens(f, o + i) ==> i == 1 && us[k].long && Opens(f, o))
            && (0 < i && Closes(f, o + i) ==> i == 1 && us[k].long && Closes(f, o))
  {
    hide Stream, Opens, Closes, StartsPicture, StartsFrame, Bytes, Code;
    var f, o, vs := Stream(us), Offset(us, k), us[k..];
    SuffixAt(us, k);
    Shift(f, o, i);
    Shift(f, o, 0);
    AtCode(vs);
    StreamStep(vs);
    if 0 < i < |Code(us[k])| {
      InsideCode(vs, i);
    } else if i > 0 {
      NoCodeInside(us[k], Stream(vs[1..]), i);
    }
  }

  /** The first picture start of the stream, from the start of unit `k` on. */
  lemma {:induction false} FirstOpenIs(us: seq<Unit>, k: nat)
    requires ValidUnits(us) && k <= |us|
    ensures var j := PictureFrom(us, k);
      FirstOpen(Stream(us), Offset(us, k)) == if j < |us| then Some(Offset(us, j)) else None
    decreases |us| - k
  {
    hide Stream, Opens, StartsPicture, Offset;
    SuffixAt(us, k);
    if k < |us| {
      AtUnit(us, k, 0);
      if !(Seen(us, k) && StartsPicture(us[k])) {
        FirstOpenIs(us, k + 1);
        OpenSkips(us, k, 0);
      }
    }
  }

  lemma {:induction false} OpenSkips(us: seq<Unit>, k: nat, i: nat)
    requires ValidUnits(us) && k < |us| && i <= |Bytes(us[k])| && !Opens(Stream(us), Offset(us, k))
    ensures FirstOpen(Stream(us), Offset(us, k) + i) == FirstOpen(Stream(us), Offset(us, k + 1))
    decreases |Bytes(us[k])| - i
  {
    hide Stream, Opens, Bytes, Offset;
    SuffixAt(us, k);
    if i < |Bytes(us[k])| {
      AtUnit(us, k, i);
      OpenSkips(us, k, i + 1);
      OpenStep(Stream(us), Offset(us, k) + i);
    }
  }

  lemma OpenStep(f: seq<byte>, i: nat)
    requires !Opens(f, i)
    ensures FirstOpen(f, i) == FirstOpen(f, i + 1)
  {
  }

  lemma CloseStep(f: seq<byte>, i: nat)
    requires !Closes(f, i)
    ensures FirstClose(f, i) == FirstClose(f, i + 1)
  {
  }

  /** The first frame end, from `i` bytes into unit `k` on, where no start code is left in it. */
  lemma {:induction false} CloseSkips(us: seq<Unit>, k: nat, i: nat)
    requires ValidUnits(us) && k < |us| && i <= |Bytes(us[k])|
    requires i >= |Code(us[k])| || !Closes(Stream(us), Offset(us, k))
    ensures FirstClose(Stream(us), Offset(us, k) + i) == FirstClose(Stream(us), Offset(us, k + 1))
    decreases |Bytes(us[k])| - i
  {
    hide Stream, Closes, Bytes, Offset;
    SuffixAt(us, k);
    if i < |Bytes(us[k])| {
      AtUnit(us, k, i);
      CloseSkips(us, k, i + 1);
      CloseStep(Stream(us), Offset(us, k) + i);
    }
  }

  lemma {:induction false} FirstCloseIs(us: seq<Unit>, k: nat)
    requires ValidUnits(us) && k <= |us|
    ensures var j := FrameFrom(us, k);
      FirstClose(Stream(us), Offset(us, k)) == if j < |us| then Some(Offset(us, j)) else None
    decreases |us| - k
  {
    hide Stream, Closes, StartsFrame, Offset;
    SuffixAt(us, k);
    if k < |us| {
      AtUnit(us, k, 0);
      if !(Seen(us, k) && StartsFrame(us[k])) {
        FirstCloseIs(us, k + 1);
        CloseSkips(us, k, 0);
      }
    }
  }

  lemma PictureLong(u: Unit)
    requires ValidUnit(u) && StartsPicture(u)
    ensures |Code(u)| <= 4 < |Bytes(u)|
  {
  }

  lemma {:induction false} OpenShift(f: seq<byte>, o: nat, i: nat)
    requires o <= |f|
    ensures FirstOpen(f[o..], i)
              == match FirstOpen(f, o + i) case None => None case Some(x) => if x >= o then Some(x - o) else None
    decreases |f| - o - i
  {
    hide Opens;
    Shift(f, o, i);
    if i + 5 < |f[o..]| && !Opens(f[o..], i) {
      OpenShift(f, o, i + 1);
    }
  }

  lemma {:induction false} CloseShift(f: seq<byte>, o: nat, i: nat)
    requires o <= |f|
    ensures FirstClose(f[o..], i)
              == match FirstClose(f, o + i) case None => None case Some(x) => if x >= o then Some(x - o) else None
    decreases |f| - o - i
  {
    hide Closes;
    Shift(f, o, i);
    if i + 5 < |f[o..]| && !Closes(f[o..], i) {
      CloseShift(f, o, i + 1);
    }
  }

  lemma {:induction false} OffsetGrows(us: seq<Unit>, k: nat, m: nat)
    requires k <= m <= |us|
    ensures Offset(us, k) <= Offset(us, m) <= |Stream(us)|
    ensures Stream(us)[Offset(us, k)..Offset(us, m)] == Stream(us[k..m])
  {
    hide Stream;
    SuffixAt(us, m);
    StreamAppend(us[..k], us[k..m]);
    assert us[..m] == us[..k] + us[k..m];
    StreamAppend(us[..m], us[m..]);
    assert us == us[..m] + us[m..];
  }

  /** What the rest of the stream from unit `k` on gives. */
  lemma CutAt(us: seq<Unit>, k: nat, count: nat)
    requires ValidUnits(us) && k <= |us|
    ensures Offset(us, k) <= |Stream(us)|
    ensures var w, j := Stream(us)[Offset(us, k)..], PictureFrom(us, k);
      CutWindow(w, count)
        == if j == |us| then Bad
           else
             var m := FrameFrom(us, j + 1);
             if m < |us| then OffsetGrows(us, k, m); Frame(Offset(us, m) - Offset(us, k), false)
             else if count > 0 then Frame(|w|, true) else Bad
  {
    hide Stream, Opens, Closes, StartsFrame, StartsPicture, Bytes, Code, Offset, Seen;
    var f, o := Stream(us), Offset(us, k);
    SuffixAt(us, k);
    var w := f[o..];
    var j := PictureFrom(us, k);
    FirstOpenIs(us, k);
    OpenShift(f, o, 0);
    if j < |us| {
      OffsetGrows(us, k, j);
      FirstCloseIs(us, j + 1);
      PictureLong(us[j]);
      CloseSkips(us, j, 4);
      CloseShift(f, o, Offset(us, j) - o + 4);
      if FrameFrom(us, j + 1) < |us| {
        OffsetGrows(us, k, FrameFrom(us, j + 1));
      }
    }
  }

  // ----- a pass

  /** What a window cuts off before its end is what the whole rest would. */
  lemma WindowCut(f: seq<byte>, bufSize: nat, r: Reader)
    requires Sound(f, r) && r.isOpen && r.used <= |f|
    requires var c := CutNext(f, bufSize, r); c.Frame? && !c.last
    ensures CutNext(f, bufSize, r) == CutWindow(f[r.used..], r.count)
  {
    hide Opens, Closes;
    if Window(f, bufSize, r.used) == [] {
      RewindFails(f, bufSize, r);
    } else {
      var rest := f[r.used..];
      var w := Window(f, bufSize, r.used);
      assert w == rest[..|w|];
      forall i: nat
        ensures Opens(w, i) <==> i + 5 < |w| && Opens(rest, i)
        ensures Closes(w, i) <==> i + 5 < |w| && Closes(rest, i)
      {
        Widen(rest, |w|, i);
      }
      SameCut(w, rest, r.count);
    }
  }

  lemma SameCut(w: seq<byte>, rest: seq<byte>, count: nat)
    requires forall i: nat :: Opens(w, i) <==> i + 5 < |w| && Opens(rest, i)
    requires forall i: nat :: Closes(w, i) <==> i + 5 < |w| && Closes(rest, i)
    requires var c := CutWindow(w, count); c.Frame? && !c.last
    ensures CutWindow(rest, count) == CutWindow(w, count)
  {
    hide Opens, Closes;
    var s := FirstOpen(w, 0).value;
    var e := FirstClose(w, s + 4).value;
    assert Opens(rest, s) && Closes(rest, e);
    assert FirstOpen(rest, 0) == Some(s);
    assert FirstClose(rest, s + 4) == Some(e);
  }

  /** The frames are whole units: every one but the last is one picture, up to the next unit
      that starts a frame; the last is what the buffer holds of the units that are left. */
  ghost predicate FramesOf(frames: seq<seq<byte>>, groups: seq<seq<Unit>>, bufSize: nat) {
    && |frames| == |groups| > 0 && ValidUnits(groups[0])
    && if |groups| == 1 then
         && frames[0] == Window(Stream(groups[0]), bufSize, 0)
         && (|Stream(groups[0])| <= bufSize ==> exists j :: LastUnits(groups[0], j))
       else
         && frames[0] == Stream(groups[0]) && (exists j :: OnePicture(groups[0], j))
         && ValidUnits(groups[1]) && groups[1] != [] && StartsFrame(groups[1][0])
         && FramesOf(frames[1..], groups[1..], bufSize)
  }

  /** As `OnePicture`, but for a last unit that the scans do not see. */
  ghost predicate LastUnits(us: seq<Unit>, j: nat)
    requires ValidUnits(us)
  {
    && j < |us| && Seen(us, j) && StartsPicture(us[j])
    && (forall i :: 0 <= i < j ==> !StartsPicture(us[i]))
    && (forall i :: j < i < |us| && Seen(us, i) ==> !StartsFrame(us[i]))
  }

  lemma PictureGroup(us: seq<Unit>, k: nat, j: nat, m: nat)
    requires ValidUnits(us) && k <= |us| && j == PictureFrom(us, k) < |us| && m == FrameFrom(us, j + 1) < |us|
    ensures ValidUnits(us[k..m]) && ValidUnits(us[m..]) && OnePicture(us[k..m], j - k) && StartsFrame(us[m])
  {
    hide StartsFrame, StartsPicture, ValidUnit;
  }

  lemma LastGroup(us: seq<Unit>, k: nat, bufSize: nat, r: Reader)
    requires ValidUnits(us) && k <= |us| && r.used == Offset(us, k) < |Stream(us)| && r.isOpen
    requires Sound(Stream(us), r)
    requires var c := CutNext(Stream(us), bufSize, r); c.Frame? && c.last
    ensures k < |us| && ValidUnits(us[k..])
    ensures Window(Stream(us), bufSize, r.used) == Window(Stream(us[k..]), bufSize, 0)
    ensures |Stream(us[k..])| <= bufSize ==> exists j :: LastUnits(us[k..], j)
  {
    hide Stream, CutWindow, StartsFrame, StartsPicture, Offset, ValidUnit, Seen;
    SuffixAt(us, k);
    var f, rest := Stream(us), Stream(us[k..]);
    assert Window(f, bufSize, r.used) == Window(rest, bufSize, 0);
    if |rest| <= bufSize {
      assert Window(f, bufSize, r.used) == rest;
      CutAt(us, k, r.count);
      SeenFrom(us, k);
      var j := PictureFrom(us, k);
      assert j < |us| && FrameFrom(us, j + 1) == |us|;
      assert LastUnits(us[k..], j - k);
    }
  }

  lemma SeenFrom(us: seq<Unit>, k: nat)
    requires k <= |us|
    ensures forall i :: 0 <= i < |us| - k ==> (Seen(us[k..], i) <==> Seen(us, k + i))
    ensures forall i :: 0 <= i < |us| - 1 ==> Seen(us, i)
  {
  }

  /** One frame that is not the last. */
  lemma CutUnits(us: seq<Unit>, k: nat, bufSize: nat, r: Reader) returns (j: nat, m: nat)
    requires ValidUnits(us) && k <= |us| && r.used == Offset(us, k) <= |Stream(us)|
    requires Sound(Stream(us), r) && r.isOpen
    requires var c := CutNext(Stream(us), bufSize, r); c.Frame? && !c.last
    ensures j == PictureFrom(us, k) < |us| && m == FrameFrom(us, j + 1) < |us|
    ensures CutNext(Stream(us), bufSize, r).length == |Stream(us[k..m])|
    ensures Offset(us, m) == r.used + |Stream(us[k..m])| <= |Stream(us)|
    ensures Stream(us)[r.used..Offset(us, m)] == Stream(us[k..m])
  {
    hide Stream, CutNext, CutWindow, Sound, StartsFrame, StartsPicture, Offset, ValidUnit, Seen;
    WindowCut(Stream(us), bufSize, r);
    CutAt(us, k, r.count);
    j := PictureFrom(us, k);
    m := FrameFrom(us, j + 1);
    OffsetGrows(us, k, m);
  }

  lemma MoreFrames(frame: seq<byte>, frames: seq<seq<byte>>, group: seq<Unit>, groups: seq<seq<Unit>>, j: nat, bufSize: nat)
    requires FramesOf(frames, groups, bufSize) && ValidUnits(group) && OnePicture(group, j) && frame == Stream(group)
    requires groups[0] != [] && StartsFrame(groups[0][0])
    ensures FramesOf([frame] + frames, [group] + groups, bufSize)
    ensures Flat([group] + groups) == group + Flat(groups)
  {
    hide OnePicture, StartsFrame, Stream, ValidUnit, Seen;
    assert ([frame] + frames)[1..] == frames && ([group] + groups)[1..] == groups;
  }

  lemma LastFrame(us: seq<Unit>, k: nat, bufSize: nat, r: Reader)
    requires ValidUnits(us) && k <= |us| && r.used == Offset(us, k)
    requires Sound(Stream(us), r) && r.isOpen && Pass(Stream(us), bufSize, r).Some?
    requires var c := CutNext(Stream(us), bufSize, r); c.Frame? && c.last
    ensures k < |us| && Flat([us[k..]]) == us[k..]
    ensures FramesOf(Pass(Stream(us), bufSize, r).value, [us[k..]], bufSize)
  {
    hide Stream, CutNext, Next, Window, Sound, Pass, LastStart, StartsFrame, StartsPicture, Offset, OnePicture, LastUnits;
    PassEnds(Stream(us), bufSize, r);
    LastIsWindow(Stream(us), bufSize, r);
    LastGroup(us, k, bufSize, r);
    assert [us[k..]][1..] == [];
    assert us[k..] + [] == us[k..];
  }

  /** From unit `k` on. */
  lemma {:induction false} PassOfUnitsFrom(us: seq<Unit>, k: nat, bufSize: nat, r: Reader)
    returns (groups: seq<seq<Unit>>)
    requires ValidUnits(us) && k <= |us| && r.used == Offset(us, k)
    requires Sound(Stream(us), r) && r.isOpen && Pass(Stream(us), bufSize, r).Some?
    ensures Flat(groups) == us[k..] && FramesOf(Pass(Stream(us), bufSize, r).value, groups, bufSize)
    ensures k < |us| && groups != [] && groups[0] != [] && groups[0][0] == us[k]
    decreases |Stream(us)| - r.used
  {
    hide Stream, CutNext, Next, Window, Sound, Pass, LastStart, StartsFrame, StartsPicture, Offset, Closes, OnePicture;
    hide FramesOf, Flat, ValidUnit, Seen, FrameFrom, PictureFrom;
    var f := Stream(us);
    PassHasFrame(f, bufSize, r);
    if CutNext(f, bufSize, r).last {
      groups := [us[k..]];
      LastFrame(us, k, bufSize, r);
    } else {
      var r' := PassGoesOn(f, bufSize, r);
      FrameEndsAtCode(f, bufSize, r);
      var j, m := CutUnits(us, k, bufSize, r);
      PictureGroup(us, k, j, m);
      var more := PassOfUnitsFrom(us, m, bufSize, r');
      MoreFrames(f[r.used..r'.used], Pass(f, bufSize, r').value, us[k..m], more, j - k, bufSize);
      groups := [us[k..m]] + more;
      assert us[k..] == us[k..m] + us[m..];
    }
  }

  /** A pass over a stream of units gives whole units, one picture to a frame. */
  lemma PassOfUnits(us: seq<Unit>, bufSize: nat) returns (groups: seq<seq<Unit>>)
    requires ValidUnits(us)
    ensures Sound(Stream(us), START)
    ensures Pass(Stream(us), bufSize, START).Some? ==>
              Flat(groups) == us && FramesOf(Pass(Stream(us), bufSize, START).value, groups, bufSize)
  {
    hide Stream, Pass, FramesOf;
    groups := [];
    if Pass(Stream(us), bufSize, START).Some? {
      assert us[..0] == [] && us[0..] == us;
      StreamEmpty();
      groups := PassOfUnitsFrom(us, 0, bufSize, START);
    }
  }

  // ----- which streams make a pass

  /** The unit that a byte is in. */
  lemma {:induction false} UnitAt(us: seq<Unit>, x: nat) returns (k: nat)
    requires x < |Stream(us)|
    ensures k < |us| && Offset(us, k) <= x < Offset(us, k) + |Bytes(us[k])|
  {
    hide Stream, Bytes;
    var m: nat := |us|;
    SuffixAt(us, m);
    while Offset(us, m) > x && m > 0
      invariant m <= |us| && (m < |us| ==> Offset(us, m + 1) > x)
      invariant m == |us| ==> Offset(us, m) > x
      decreases m
    {
      m := m - 1;
    }
    StreamEmpty();
    assert us[..0] == [];
    k := m;
    SuffixAt(us, k);
  }

  /** The last unit that starts a frame starts a picture. */
  ghost predicate EndsWithPicture(us: seq<Unit>, o: nat)
    requires ValidUnits(us)
  {
    && o < |us| && Seen(us, o) && StartsPicture(us[o])
    && forall i :: o < i < |us| && Seen(us, i) ==> !StartsFrame(us[i])
  }

  lemma LastPictureIs(us: seq<Unit>)
    requires ValidUnits(us)
    ensures LastPicture(Stream(us), 0) <==> exists o :: EndsWithPicture(us, o)
  {
    hide Stream, Opens, Closes, StartsFrame, StartsPicture, Bytes, Code, Offset, Seen, ValidUnit;
    var f := Stream(us);
    if LastPicture(f, 0) {
      var x: nat :| Opens(f, x) && forall y :: x + 4 <= y ==> !Closes(f, y);
      LastPictureUnit(us, x);
    }
    if exists o :: EndsWithPicture(us, o) {
      var o :| EndsWithPicture(us, o);
      LastUnitPicture(us, o);
    }
  }

  lemma LastPictureUnit(us: seq<Unit>, x: nat)
    requires ValidUnits(us) && Opens(Stream(us), x) && forall y :: x + 4 <= y ==> !Closes(Stream(us), y)
    ensures exists o :: EndsWithPicture(us, o)
  {
    var f := Stream(us);
    assert x < |f|;
    hide Stream, Opens, Closes, StartsFrame, StartsPicture, Bytes, Code, Offset, Seen, ValidUnit;
    var k := UnitAt(us, x);
    PictureAt(us, k, x);
    forall i | k < i < |us| && Seen(us, i)
      ensures !StartsFrame(us[i])
    {
      OffsetGrows(us, k + 1, i);
      UnitLong(us[i]);
      AtUnit(us, i, 0);
    }
    assert EndsWithPicture(us, k);
  }

  lemma PictureAt(us: seq<Unit>, k: nat, x: nat)
    requires ValidUnits(us) && k < |us| && Offset(us, k) <= x < Offset(us, k) + |Bytes(us[k])|
    requires Opens(Stream(us), x)
    ensures Seen(us, k) && StartsPicture(us[k]) && x + 4 <= Offset(us, k + 1)
  {
    hide Stream, Opens, Closes, StartsFrame, StartsPicture, Bytes, Code, Offset, Seen, ValidUnit;
    AtUnit(us, k, x - Offset(us, k));
    UnitLong(us[k]);
    AtUnit(us, k, 0);
    PictureLonger(us[k]);
    SuffixAt(us, k);
  }

  lemma LastUnitPicture(us: seq<Unit>, o: nat)
    requires ValidUnits(us) && EndsWithPicture(us, o)
    ensures LastPicture(Stream(us), 0)
  {
    hide Stream, Closes, StartsFrame, StartsPicture, Bytes, Code, Offset, Seen, ValidUnit;
    var f := Stream(us);
    UnitLong(us[o]);
    AtUnit(us, o, 0);
    var x := Offset(us, o);
    forall y | x + 4 <= y
      ensures !Closes(f, y)
    {
      if y < |f| {
        var k := UnitAt(us, y);
        AtUnit(us, k, y - Offset(us, k));
        UnitLong(us[k]);
        AtUnit(us, k, 0);
        if k < o {
          SuffixAt(us, k);
          OffsetGrows(us, k + 1, o);
        }
      } else {
        NoClose(f, y);
      }
    }
    assert Opens(f, x);
  }

  lemma NoClose(f: seq<byte>, y: nat)
    requires y >= |f|
    ensures !Closes(f, y)
  {
  }

  lemma UnitLong(u: Unit)
    requires ValidUnit(u)
    ensures 3 <= |Code(u)| <= 4 <= |Bytes(u)| && u.bytes != []
  {
  }

  lemma PictureLonger(u: Unit)
    requires ValidUnit(u)
    ensures StartsPicture(u) ==> |Bytes(u)| >= if u.long then 6 else 5
  {
  }

  /** With the stream in the buffer, it gives frames for ever exactly if the last unit that
      starts a frame starts a picture, and not the first. */
  lemma StreamPasses(us: seq<Unit>, bufSize: nat)
    requires ValidUnits(us) && |Stream(us)| <= bufSize
    ensures Sound(Stream(us), START)
    ensures Pass(Stream(us), bufSize, START).Some? <==>
            exists i, o :: 0 <= i < o < |us| && EndsWithPicture(us, o) && StartsPicture(us[i])
  {
    hide Stream, Opens, Closes, Pass, LastPicture, StartsFrame, StartsPicture, Bytes, Code, Offset, Seen, ValidUnit;
    hide EndsWithPicture;
    var f := Stream(us);
    WholePass(f, bufSize);
    LastPictureIs(us);
    CodesOfStream(us);
    var j := PictureFrom(us, 0);
    if TwoStarts(us) && exists o :: EndsWithPicture(us, o) {
      var o :| EndsWithPicture(us, o);
      TwoPictures(us, o);
    }
    if i, o :| 0 <= i < o < |us| && EndsWithPicture(us, o) && StartsPicture(us[i]) {
      SecondPicture(us, i, o);
    }
  }

  predicate TwoStarts(us: seq<Unit>)
    requires ValidUnits(us)
  {
    var j := PictureFrom(us, 0);
    j < |us| && FrameFrom(us, j + 1) < |us|
  }

  /** The first picture start, and the first frame end behind it. */
  lemma CodesOfStream(us: seq<Unit>)
    requires ValidUnits(us)
    ensures var first := FirstOpen(Stream(us), 0);
      first.Some? && FirstClose(Stream(us), first.value + 4).Some? <==> TwoStarts(us)
  {
    hide Stream, Opens, Closes, StartsFrame, StartsPicture, Bytes, Code, Offset, Seen, ValidUnit;
    OffsetOfFirst(us);
    FirstOpenIs(us, 0);
    var j := PictureFrom(us, 0);
    if j < |us| {
      PictureLong(us[j]);
      FirstCloseIs(us, j + 1);
      CloseSkips(us, j, 4);
    }
  }

  lemma OffsetOfFirst(us: seq<Unit>)
    ensures Offset(us, 0) == 0
  {
    assert us[..0] == [];
  }

  lemma TwoPictures(us: seq<Unit>, o: nat)
    requires ValidUnits(us) && EndsWithPicture(us, o)
    requires TwoStarts(us)
    ensures PictureFrom(us, 0) < o < |us| && StartsPicture(us[PictureFrom(us, 0)])
  {
    hide StartsFrame, StartsPicture, ValidUnit, Seen;
  }

  lemma SecondPicture(us: seq<Unit>, i: nat, o: nat)
    requires ValidUnits(us) && i < o && EndsWithPicture(us, o) && StartsPicture(us[i])
    ensures TwoStarts(us)
  {
    hide ValidUnit;
    var j := PictureFrom(us, 0);
    assert Seen(us, i);
    assert j <= i;
    assert StartsFrame(us[o]);
  }
}
