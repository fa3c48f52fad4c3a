/** Cutting an H.264 byte stream (Annex B of ITU-T H.264) into frames, one per call. */
module H264 {

  type byte = x: int | 0 <= x < 256

  datatype Option<T> = None | Some(value: T)

  // ----- what a call looks for in its window of the file

  /** The length of the start code at `i`, 0 if there is none. */
  function CodeLength(w: seq<byte>, i: nat): (n: nat)
    requires i + 5 < |w|
    ensures n in {0, 3, 4}
  {
    if w[i] == 0 && w[i + 1] == 0 && w[i + 2] == 1 then 3
    else if w[i] == 0 && w[i + 1] == 0 && w[i + 2] == 0 && w[i + 3] == 1 then 4
    else 0
  }

  /** A NAL unit of type 5 or 1 whose first payload bit is set: the first slice of a
      picture. */
  predicate FirstSlice(w: seq<byte>, i: nat)
    requires i + 1 < |w|
  {
    w[i] % 0x20 in {5, 1} && w[i + 1] >= 0x80
  }

  /** A start code at `i` with the first slice of a picture. */
  predicate Opens(w: seq<byte>, i: nat) {
    i + 5 < |w| && var n := CodeLength(w, i); n != 0 && FirstSlice(w, i + n)
  }

  /** A start code at `i` that ends the frame before it. */
  predicate Closes(w: seq<byte>, i: nat) {
    i + 5 < |w| && var n := CodeLength(w, i);
    n != 0 && (w[i + n] % 0x20 in {7, 8, 6} || FirstSlice(w, i + n))
  }

  function FirstOpen(w: seq<byte>, from: nat): (r: Option<nat>)
    ensures r.Some? ==> from <= r.value && Opens(w, r.value) && forall k :: from <= k < r.value ==> !Opens(w, k)
    ensures r.None? ==> forall k :: from <= k ==> !Opens(w, k)
    decreases |w| - from
  {
    if from + 5 >= |w| then None else if Opens(w, from) then Some(from) else FirstOpen(w, from + 1)
  }

  function FirstClose(w: seq<byte>, from: nat): (r: Option<nat>)
    ensures r.Some? ==> from <= r.value && Closes(w, r.value) && forall k :: from <= k < r.value ==> !Closes(w, k)
    ensures r.None? ==> forall k :: from <= k ==> !Closes(w, k)
    decreases |w| - from
  {
    if from + 5 >= |w| then None else if Closes(w, from) then Some(from) else FirstClose(w, from + 1)
  }

  datatype Cut = Frame(length: nat, last: bool) | Bad

  /** What a window gives when `count` frames have gone before it. */
  function CutWindow(w: seq<byte>, count: nat): (c: Cut)
    ensures c.Frame? ==> c.length <= |w|
  {
    match FirstOpen(w, 0)
    case None => Bad
    case Some(s) =>
      match FirstClose(w, s + 4)
      case Some(e) => Frame(e, false)
      case None => if count > 0 then Frame(|w|, true) else Bad
  }

  // ----- the reader

  datatype Reader = Reader(isOpen: bool, used: nat, count: nat)

  const CLOSED: Reader := Reader(false, 0, 0)
  const START: Reader := Reader(true, 0, 0)

  /** What `fread` gives. */
  function Window(f: seq<byte>, bufSize: nat, used: nat): (w: seq<byte>)
    ensures |w| <= bufSize
  {
    if used >= |f| then [] else f[used..if used + bufSize <= |f| then used + bufSize else |f|]
  }

  function After(r: Reader, c: Cut): Reader {
    match c
    case Bad => CLOSED
    case Frame(length, last) => if last then START else Reader(true, r.used + length, r.count + 1)
  }

  /** The reader that a call works with: at the end of the file it has gone back to the
      start. */
  function Rewound(f: seq<byte>, bufSize: nat, r: Reader): Reader {
    if Window(f, bufSize, r.used) == [] then START else r
  }

  function CutNext(f: seq<byte>, bufSize: nat, r: Reader): Cut {
    if !r.isOpen then Bad
    else
      var r' := Rewound(f, bufSize, r);
      CutWindow(Window(f, bufSize, r'.used), r'.count)
  }

  function Next(f: seq<byte>, bufSize: nat, r: Reader): Reader {
    if !r.isOpen then r else After(Rewound(f, bufSize, r), CutNext(f, bufSize, r))
  }

  /** A reader at the end of a frame, with room for more. */
  predicate Sound(f: seq<byte>, r: Reader) {
    && (r.used == 0 <==> r.count == 0)
    && (r.isOpen && r.used > 0 ==> r.used < |f|)
    && (!r.isOpen ==> r == CLOSED)
  }

  /** Every call keeps the reader sound. */
  lemma NextSound(f: seq<byte>, bufSize: nat, r: Reader)
    requires Sound(f, r)
    ensures Sound(f, Next(f, bufSize, r))
  {
    hide CodeLength, FirstSlice, FirstOpen, FirstClose;
  }

  // ----- the class

  class H264File {
    const bufSize: nat
    const buf: array<byte>
    var file: Option<seq<byte>>
    var pos: nat
    var bytesUsed: nat
    var count: nat

    function State(): Reader
      reads this
    {
      Reader(file.Some?, bytesUsed, count)
    }

    ghost predicate Valid()
      reads this
    {
      && buf.Length == bufSize
      && (file.Some? ==> Sound(file.value, State()) && pos == bytesUsed)
      && (file.None? ==> State() == CLOSED)
    }

    constructor (size: nat)
      ensures Valid() && bufSize == size && State() == CLOSED && fresh(buf)
    {
      bufSize := size;
      buf := new byte[size];
      file, pos, bytesUsed, count := None, 0, 0, 0;
    }

    /** Opening a path gives the bytes of the file, or fails. */
    method Open(path: Option<seq<byte>>) returns (ok: bool)
      requires Valid() && file.None?
      modifies this
      ensures Valid() && ok == path.Some? && file == path
      ensures ok ==> State() == START
    {
      file := path;
      if file.None? {
        return false;
      }
      pos := 0;
      return true;
    }

    method Close()
      requires buf.Length == bufSize && (file.None? ==> State() == CLOSED)
      modifies this
      ensures Valid() && State() == CLOSED
    {
      if file.Some? {
        file, count, bytesUsed := None, 0, 0;
      }
    }

    /** `fread` of a whole buffer. */
    method Fread() returns (n: nat)
      requires file.Some? && buf.Length == bufSize
      modifies `pos, buf
      ensures n <= bufSize && buf[..n] == Window(file.value, bufSize, old(pos))
      ensures pos == old(pos) + n
    {
      var w := Window(file.value, bufSize, pos);
      n := |w|;
      forall i | 0 <= i < n { buf[i] := w[i]; }
      pos := pos + n;
    }

    /** The first scan. */
    method FindStart(bytesRead: nat) returns (found: bool, i: nat)
      requires bytesRead <= buf.Length
      ensures var s := FirstOpen(buf[..bytesRead], 0);
              found == s.Some? && (found ==> i == s.value + 4) && (!found ==> i + 5 >= bytesRead)
    {
      ghost var w := buf[..bytesRead];
      found, i := false, 0;
      var startCode := 3;
      while i + 5 < bytesRead
        invariant FirstOpen(w, 0) == FirstOpen(w, i)
      {
        if buf[i] == 0 && buf[i + 1] == 0 && buf[i + 2] == 1 {
          startCode := 3;
        } else if buf[i] == 0 && buf[i + 1] == 0 && buf[i + 2] == 0 && buf[i + 3] == 1 {
          startCode := 4;
        } else {
          i := i + 1;
          continue;
        }
        if (buf[i + startCode] % 0x20 == 5 || buf[i + startCode] % 0x20 == 1) && buf[i + startCode + 1] >= 0x80 {
          found := true;
          i := i + 4;
          break;
        }
        i := i + 1;
      }
    }

    /** The second scan, from where the first one stopped. */
    method FindEnd(bytesRead: nat, from: nat) returns (found: bool, i: nat)
      requires bytesRead <= buf.Length
      ensures var e := FirstClose(buf[..bytesRead], from);
              found == e.Some? && (found ==> i == e.value)
    {
      ghost var w := buf[..bytesRead];
      found, i := false, from;
      var startCode := 3;
      while i + 5 < bytesRead
        invariant FirstClose(w, from) == FirstClose(w, i)
      {
        if buf[i] == 0 && buf[i + 1] == 0 && buf[i + 2] == 1 {
          startCode := 3;
        } else if buf[i] == 0 && buf[i + 1] == 0 && buf[i + 2] == 0 && buf[i + 3] == 1 {
          startCode := 4;
        } else {
          i := i + 1;
          continue;
        }
        var nal := buf[i + startCode] % 0x20;
        if nal == 7 || nal == 8 || nal == 6 || ((nal == 5 || nal == 1) && buf[i + startCode + 1] >= 0x80) {
          found := true;
          break;
        }
        i := i + 1;
      }
    }

    /** The read, and at the end of the file the rewind and the second read. */
    method Refill() returns (bytesRead: nat)
      requires Valid() && file.Some?
      modifies this, buf
      ensures buf.Length == bufSize && bytesRead <= bufSize && file == old(file)
      ensures var f, r := file.value, Rewound(file.value, bufSize, old(State()));
              && State() == r && buf[..bytesRead] == Window(f, bufSize, r.used)
    {
      bytesRead := Fread();
      if bytesRead == 0 {
        pos := 0;
        count := 0;
        bytesUsed := 0;
        bytesRead := Fread();
      }
    }

    /** Both scans: the frame is `i` bytes of the window. */
    method Scan(bytesRead: nat) returns (found: bool, i: nat, final: bool)
      requires bytesRead <= buf.Length
      ensures CutWindow(buf[..bytesRead], count) == if found then Frame(i, final) else Bad
    {
      var findStart, from := FindStart(bytesRead);
      var findEnd, end := FindEnd(bytesRead, from);
      i, final := end, false;
      if findStart && !findEnd && count > 0 {
        final, findEnd := true, true;
        i := bytesRead;
      }
      found := findStart && findEnd;
    }

    /** One frame. The flag is left alone by a call that reads nothing; a frame longer than
        the caller's buffer is cut off. */
    method ReadFrame(inBuf: array<byte>, inBufSize: nat, flag: bool) returns (size: int, endOfFrame: bool)
      requires Valid() && inBufSize <= inBuf.Length && inBuf != buf
      modifies this, buf, inBuf
      ensures Valid()
      ensures old(file.None?) ==> size == -1 && endOfFrame == flag && State() == CLOSED && inBuf[..] == old(inBuf[..])
      ensures old(file.Some?) ==>
                var f, r := old(file.value), old(State());
                && State() == Next(f, bufSize, r)
                && (State().isOpen ==> file == old(file))
                && Delivered(old(inBuf[..]), inBuf[..], inBufSize, size, flag, endOfFrame, f, r)
    {
      hide CutWindow, Window, Delivered;
      endOfFrame := flag;
      if file.None? {
        return -1, endOfFrame;
      }
      ghost var f, r := file.value, State();
      NextSound(f, bufSize, r);
      var bytesRead := Refill();
      if bytesRead == 0 {
        NothingRead(f, r);
        NotDelivered(inBuf[..], inBufSize, flag, endOfFrame, f, r);
        Close();
        return -1, endOfFrame;
      }
      endOfFrame := false;
      var found, i, final := Scan(bytesRead);
      if !found {
        Close();
        NotDelivered(inBuf[..], inBufSize, flag, endOfFrame, f, r);
        return -1, endOfFrame;
      }
      endOfFrame := final;
      size := Give(bytesRead, i, inBuf, inBufSize, flag, endOfFrame, f, r);
      if !final {
        count := count + 1;
        bytesUsed := bytesUsed + i;
      } else {
        count := 0;
        bytesUsed := 0;
      }
      pos := bytesUsed;
    }

    /** What a call leaves in the caller's buffer. */
    ghost predicate Delivered(before: seq<byte>, after: seq<byte>, inBufSize: nat, size: int,
                              flag: bool, endOfFrame: bool, f: seq<byte>, r: Reader)
      requires |before| == |after| && inBufSize <= |after|
    {
      match CutNext(f, bufSize, r)
      case Bad =>
        && size == -1 && after == before
        && endOfFrame == (flag && Window(f, bufSize, Rewound(f, bufSize, r).used) == [])
      case Frame(length, last) =>
        && size == (if length <= inBufSize then length else inBufSize)
        && endOfFrame == last
        && var w := Window(f, bufSize, Rewound(f, bufSize, r).used);
        && length <= |w|
        && after == w[..size] + before[size..]
    }

    lemma NothingRead(f: seq<byte>, r: Reader)
      requires r.isOpen && Window(f, bufSize, Rewound(f, bufSize, r).used) == []
      ensures CutNext(f, bufSize, r) == Bad
    {
    }

    lemma NotDelivered(b: seq<byte>, inBufSize: nat, flag: bool, endOfFrame: bool, f: seq<byte>, r: Reader)
      requires inBufSize <= |b| && CutNext(f, bufSize, r) == Bad
      requires endOfFrame == (flag && Window(f, bufSize, Rewound(f, bufSize, r).used) == [])
      ensures Delivered(b, b, inBufSize, -1, flag, endOfFrame, f, r)
    {
    }

    /** `memcpy` of the frame, as far as it fits. */
    method Give(bytesRead: nat, i: nat, inBuf: array<byte>, inBufSize: nat, ghost flag: bool, final: bool,
                ghost f: seq<byte>, ghost r: Reader)
      returns (size: nat)
      requires inBufSize <= inBuf.Length && inBuf != buf && bytesRead <= buf.Length && i <= bytesRead
      requires CutNext(f, bufSize, r) == Frame(i, final)
      requires buf[..bytesRead] == Window(f, bufSize, Rewound(f, bufSize, r).used)
      modifies inBuf
      ensures Delivered(old(inBuf[..]), inBuf[..], inBufSize, size, flag, final, f, r)
    {
      hide CutNext, Window;
      size := if i <= inBufSize then i else inBufSize;
      forall k | 0 <= k < size { inBuf[k] := buf[k]; }
    }
  }
}
