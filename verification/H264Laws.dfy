/** What the frames of a file add up to. */
module H264Laws {
  import opened H264

  // ----- one frame

  /** A frame that is not the last is at least four bytes long, lies in the file and ends
      at a start code; the reader moves by just its length. */
  lemma FrameEndsAtCode(f: seq<byte>, bufSize: nat, r: Reader)
    requires Sound(f, r) && r.isOpen
    requires var c := CutNext(f, bufSize, r); c.Frame? && !c.last
    ensures var n := CutNext(f, bufSize, r).length;
            && n >= 4 && r.used + n + 5 < |f|
            && Next(f, bufSize, r) == Reader(true, r.used + n, r.count + 1)
            && Closes(f[r.used..], n)
            && Window(f, bufSize, r.used)[..n] == f[r.used..r.used + n]
  {
    var w := Window(f, bufSize, r.used);
    assert w == f[r.used..][..|w|];
    Widen(f[r.used..], |w|, CutNext(f, bufSize, r).length);
  }

  /** A start code seen in a window is one of the file. */
  lemma Widen(w: seq<byte>, n: nat, i: nat)
    requires n <= |w|
    ensures Opens(w[..n], i) <==> i + 5 < n && Opens(w, i)
    ensures Closes(w[..n], i) <==> i + 5 < n && Closes(w, i)
  {
  }

  /** The rewind is never followed by a successful read: a reader that stands at the end of
      the file has nothing to read at its start either. */
  lemma RewindFails(f: seq<byte>, bufSize: nat, r: Reader)
    requires Sound(f, r) && r.isOpen && Window(f, bufSize, r.used) == []
    ensures f == [] || bufSize == 0
    ensures CutNext(f, bufSize, r) == Bad && Next(f, bufSize, r) == CLOSED
  {
    var end := if r.used + bufSize <= |f| then r.used + bufSize else |f|;
    if f != [] {
      assert |f[r.used..end]| == end - r.used;
    }
    assert Window(f, bufSize, 0) == [];
  }

  // ----- a pass: the calls up to the one that raises the flag

  /** The frames of the calls from `r` up to the flag, or none if a call fails first. */
  function Pass(f: seq<byte>, bufSize: nat, r: Reader): (p: Option<seq<seq<byte>>>)
    requires Sound(f, r) && r.isOpen
    decreases |f| - r.used
  {
    match CutNext(f, bufSize, r)
    case Bad => None
    case Frame(n, last) =>
      var frame := Window(f, bufSize, r.used)[..n];
      if last then Some([frame])
      else
        FrameEndsAtCode(f, bufSize, r);
        NextSound(f, bufSize, r);
        match Pass(f, bufSize, Next(f, bufSize, r))
        case None => None
        case Some(rest) => Some([frame] + rest)
  }

  function Joined(frames: seq<seq<byte>>): seq<byte> {
    if frames == [] then [] else frames[0] + Joined(frames[1..])
  }

  /** Where the last frame of a pass starts. */
  function LastStart(f: seq<byte>, bufSize: nat, r: Reader): (n: nat)
    requires Sound(f, r) && r.isOpen && Pass(f, bufSize, r).Some?
    ensures r.used <= n <= |f|
    decreases |f| - r.used
  {
    var c := CutNext(f, bufSize, r);
    if c.last then r.used
    else
      FrameEndsAtCode(f, bufSize, r);
      NextSound(f, bufSize, r);
      LastStart(f, bufSize, Next(f, bufSize, r))
  }

  lemma LastIsWindow(f: seq<byte>, bufSize: nat, r: Reader)
    requires Sound(f, r) && r.isOpen
    requires var c := CutNext(f, bufSize, r); c.Frame? && c.last
    ensures CutNext(f, bufSize, r).length == |Window(f, bufSize, r.used)| && r.used < |f|
  {
  }

  lemma PassHasFrame(f: seq<byte>, bufSize: nat, r: Reader)
    requires Sound(f, r) && r.isOpen && Pass(f, bufSize, r).Some?
    ensures CutNext(f, bufSize, r).Frame?
  {
  }

  /** A pass that goes on: its first frame, and the pass from the next reader. */
  lemma PassGoesOn(f: seq<byte>, bufSize: nat, r: Reader) returns (r': Reader)
    requires Sound(f, r) && r.isOpen && Pass(f, bufSize, r).Some?
    requires CutNext(f, bufSize, r).Frame? && !CutNext(f, bufSize, r).last
    ensures r' == Next(f, bufSize, r) && Sound(f, r') && r'.isOpen && r.used < r'.used < |f|
    ensures Pass(f, bufSize, r').Some?
    ensures Pass(f, bufSize, r).value == [f[r.used..r'.used]] + Pass(f, bufSize, r').value
    ensures LastStart(f, bufSize, r) == LastStart(f, bufSize, r')
  {
    hide CutNext, Next, Window, Sound, Closes;
    FrameEndsAtCode(f, bufSize, r);
    NextSound(f, bufSize, r);
    r' := Next(f, bufSize, r);
  }

  lemma PassEnds(f: seq<byte>, bufSize: nat, r: Reader)
    requires Sound(f, r) && r.isOpen && Pass(f, bufSize, r).Some?
    requires CutNext(f, bufSize, r).Frame? && CutNext(f, bufSize, r).last
    ensures Pass(f, bufSize, r).value == [Window(f, bufSize, r.used)]
    ensures LastStart(f, bufSize, r) == r.used && Next(f, bufSize, r) == START
  {
    LastIsWindow(f, bufSize, r);
    var w := Window(f, bufSize, r.used);
    assert w[..|w|] == w;
  }

  /** The frames of a pass join to the file from where the pass starts, up to the end of
      the last buffer. */
  lemma {:induction false} PassIsSlice(f: seq<byte>, bufSize: nat, r: Reader)
    requires Sound(f, r) && r.isOpen && Pass(f, bufSize, r).Some?
    ensures var n := LastStart(f, bufSize, r);
            Joined(Pass(f, bufSize, r).value) == f[r.used..n] + Window(f, bufSize, n)
    decreases |f| - r.used
  {
    hide CutNext, Next, Pass, LastStart, Window;
    var n := LastStart(f, bufSize, r);
    PassHasFrame(f, bufSize, r);
    if CutNext(f, bufSize, r).last {
      PassEnds(f, bufSize, r);
    } else {
      var r' := PassGoesOn(f, bufSize, r);
      PassIsSlice(f, bufSize, r');
      assert f[r.used..n] == f[r.used..r'.used] + f[r'.used..n];
    }
  }

  /** A pass from the start gives back the file exactly if the last frame fits in the
      buffer. */
  lemma PassConserves(f: seq<byte>, bufSize: nat)
    ensures Sound(f, START)
    ensures Pass(f, bufSize, START).Some? ==>
              (Joined(Pass(f, bufSize, START).value) == f <==> |f| - LastStart(f, bufSize, START) <= bufSize)
  {
    hide Pass, LastStart, Joined;
    if Pass(f, bufSize, START).Some? {
      PassIsSlice(f, bufSize, START);
      var n := LastStart(f, bufSize, START);
      assert f == f[..n] + f[n..];
      if |f| - n > bufSize {
        assert |f[0..n] + Window(f, bufSize, n)| < |f|;
      }
    }
  }

  // ----- pass after pass

  /** The reader after `n` calls. */
  function Calls(f: seq<byte>, bufSize: nat, r: Reader, n: nat): Reader
    decreases n
  {
    if n == 0 then r else Calls(f, bufSize, Next(f, bufSize, r), n - 1)
  }

  /** A pass takes as many calls as it has frames and ends where every pass starts. */
  lemma {:induction false} PassReturns(f: seq<byte>, bufSize: nat, r: Reader)
    requires Sound(f, r) && r.isOpen && Pass(f, bufSize, r).Some?
    ensures Calls(f, bufSize, r, |Pass(f, bufSize, r).value|) == START
    decreases |f| - r.used
  {
    hide CutNext, Next, Pass, LastStart, Window;
    PassHasFrame(f, bufSize, r);
    if CutNext(f, bufSize, r).last {
      PassEnds(f, bufSize, r);
    } else {
      var r' := PassGoesOn(f, bufSize, r);
      PassReturns(f, bufSize, r');
    }
  }

  lemma {:induction false} CallsAdd(f: seq<byte>, bufSize: nat, r: Reader, m: nat, n: nat)
    ensures Calls(f, bufSize, r, m + n) == Calls(f, bufSize, Calls(f, bufSize, r, m), n)
    decreases m
  {
    hide Next;
    if m > 0 {
      CallsAdd(f, bufSize, Next(f, bufSize, r), m - 1, n);
    }
  }

  /** The next pass gives the same frames: the calls are periodic. */
  lemma PassRepeats(f: seq<byte>, bufSize: nat, n: nat)
    ensures Sound(f, START)
    ensures Pass(f, bufSize, START).Some? ==>
              Calls(f, bufSize, START, |Pass(f, bufSize, START).value| + n) == Calls(f, bufSize, START, n)
  {
    hide Pass, Calls;
    if Pass(f, bufSize, START).Some? {
      PassReturns(f, bufSize, START);
      CallsAdd(f, bufSize, START, |Pass(f, bufSize, START).value|, n);
    }
  }

  /** A pass that fails closes the reader, and a closed reader stays closed. */
  lemma {:induction false} PassFails(f: seq<byte>, bufSize: nat, r: Reader) returns (n: nat)
    requires Sound(f, r) && r.isOpen && Pass(f, bufSize, r) == None
    ensures Calls(f, bufSize, r, n) == CLOSED
    decreases |f| - r.used
  {
    if CutNext(f, bufSize, r) == Bad {
      n := 1;
      assert Calls(f, bufSize, r, 1) == Calls(f, bufSize, Next(f, bufSize, r), 0);
    } else {
      FrameEndsAtCode(f, bufSize, r);
      NextSound(f, bufSize, r);
      n := PassFails(f, bufSize, Next(f, bufSize, r));
      n := n + 1;
    }
  }

  lemma {:induction false} ClosedStays(f: seq<byte>, bufSize: nat, n: nat)
    ensures Calls(f, bufSize, CLOSED, n) == CLOSED
  {
    if n > 0 {
      ClosedStays(f, bufSize, n - 1);
    }
  }

  // ----- which files make a pass

  /** Some picture is followed by no frame end. */
  ghost predicate LastPicture(f: seq<byte>, from: nat) {
    exists o: nat :: from <= o && Opens(f, o) && forall k :: o + 4 <= k ==> !Closes(f, k)
  }

  /** A frame end cannot start within four bytes behind a picture start, unless it is the
      short form of the same start code. */
  lemma CodesApart(f: seq<byte>, s: nat, o: nat)
    requires Opens(f, s) && Opens(f, o) && s < o < s + 4
    ensures o == s + 1 && !Closes(f, s + 4)
  {
  }

  lemma WholeWindow(f: seq<byte>, bufSize: nat, used: nat)
    requires |f| <= bufSize && used < |f|
    ensures Window(f, bufSize, used) == f[used..]
  {
  }

  lemma Shift(f: seq<byte>, used: nat, i: nat)
    requires used <= |f|
    ensures Opens(f[used..], i) <==> Opens(f, used + i)
    ensures Closes(f[used..], i) <==> Closes(f, used + i)
  {
  }

  /** What a call gives when the buffer holds the file: in terms of the file. */
  lemma CutOfRest(f: seq<byte>, bufSize: nat, r: Reader)
    requires Sound(f, r) && r.isOpen && |f| <= bufSize && r.used < |f|
    ensures CutNext(f, bufSize, r) == CutWindow(f[r.used..], r.count)
  {
    hide CutWindow;
    WholeWindow(f, bufSize, r.used);
  }

  /** With the file in the buffer, a pass that has given a frame goes through exactly if a
      picture further on is the last thing that ends or starts a frame. */
  lemma {:induction false} RestPasses(f: seq<byte>, bufSize: nat, r: Reader)
    requires Sound(f, r) && r.isOpen && |f| <= bufSize && r.count > 0
    ensures Pass(f, bufSize, r).Some? <==> LastPicture(f, r.used)
    decreases |f| - r.used
  {
    assert r.used < |f|;
    hide CutWindow, Opens, Closes, Window, Sound;
    CutOfRest(f, bufSize, r);
    var c := CutNext(f, bufSize, r);
    RestCut(f, r.used, r.count);
    if c.Frame? && !c.last {
      FrameEndsAtCode(f, bufSize, r);
      NextSound(f, bufSize, r);
      RestPasses(f, bufSize, Next(f, bufSize, r));
    }
  }

  /** One cut of the rest of the file, and the last picture. */
  lemma RestCut(f: seq<byte>, used: nat, count: nat)
    requires used < |f| && count > 0
    ensures CutWindow(f[used..], count) == Bad ==> !LastPicture(f, used)
    ensures CutWindow(f[used..], count).Frame? && CutWindow(f[used..], count).last ==> LastPicture(f, used)
    ensures CutWindow(f[used..], count).Frame? && !CutWindow(f[used..], count).last ==>
              (LastPicture(f, used) <==> LastPicture(f, used + CutWindow(f[used..], count).length))
  {
    hide Opens, Closes;
    var w := f[used..];
    forall i: nat
      ensures Opens(w, i) <==> Opens(f, used + i)
      ensures Closes(w, i) <==> Closes(f, used + i)
    {
      Shift(f, used, i);
    }
    match FirstOpen(w, 0)
    case None => NoPicture(f, used, w);
    case Some(s) =>
      match FirstClose(w, s + 4)
      case None => LastIsHere(f, used, w, s);
      case Some(e) => LastIsBehind(f, used, w, s, e);
  }

  lemma NoPicture(f: seq<byte>, used: nat, w: seq<byte>)
    requires forall i: nat :: Opens(w, i) <==> Opens(f, used + i)
    requires forall k: nat :: !Opens(w, k)
    ensures !LastPicture(f, used)
  {
    hide Opens, Closes;
    forall o | used <= o
      ensures !Opens(f, o)
    {
      assert Opens(w, o - used) <==> Opens(f, used + (o - used));
    }
  }

  lemma LastIsHere(f: seq<byte>, used: nat, w: seq<byte>, s: nat)
    requires forall i: nat :: Opens(w, i) <==> Opens(f, used + i)
    requires forall i: nat :: Closes(w, i) <==> Closes(f, used + i)
    requires Opens(w, s) && forall k :: s + 4 <= k ==> !Closes(w, k)
    ensures LastPicture(f, used)
  {
    hide Opens, Closes;
    assert Opens(f, used + s);
    forall k | used + s + 4 <= k
      ensures !Closes(f, k)
    {
      assert !Closes(w, k - used);
    }
  }

  lemma LastIsBehind(f: seq<byte>, used: nat, w: seq<byte>, s: nat, e: nat)
    requires forall i: nat :: Opens(w, i) <==> Opens(f, used + i)
    requires forall i: nat :: Closes(w, i) <==> Closes(f, used + i)
    requires Opens(w, s) && forall k :: 0 <= k < s ==> !Opens(w, k)
    requires s + 4 <= e && Closes(w, e) && forall k :: s + 4 <= k < e ==> !Closes(w, k)
    ensures LastPicture(f, used) <==> LastPicture(f, used + e)
  {
    hide Opens, Closes;
    if LastPicture(f, used) {
      var o: nat :| used <= o && Opens(f, o) && forall k :: o + 4 <= k ==> !Closes(f, k);
      var i := o - used;
      assert Opens(w, i) && i >= s;
      assert Closes(f, used + e);
      assert used + e < o + 4;
      if i < e {
        OpensCloses(w, i);
        assert s < i < s + 4;
        CodesApart(w, s, i);
        assert false;
      }
    }
  }

  lemma OpensCloses(w: seq<byte>, i: nat)
    requires Opens(w, i)
    ensures Closes(w, i)
  {
  }

  /** With the file in the buffer, the file gives frames for ever exactly if a frame end
      follows its first picture and some picture is the last thing that starts or ends a
      frame: a file of one picture gives nothing. */
  lemma WholePass(f: seq<byte>, bufSize: nat)
    requires |f| <= bufSize
    ensures Sound(f, START)
    ensures Pass(f, bufSize, START).Some? <==>
            && FirstOpen(f, 0).Some?
            && FirstClose(f, FirstOpen(f, 0).value + 4).Some?
            && LastPicture(f, 0)
    ensures Pass(f, bufSize, START).Some? ==> Joined(Pass(f, bufSize, START).value) == f
  {
    hide CutWindow, Opens, Closes;
    if f == [] {
      NoWindow(bufSize);
    } else {
      CutOfRest(f, bufSize, START);
      assert f[0..] == f;
      FirstCut(f);
      var c := CutNext(f, bufSize, START);
      if c.Frame? {
        FrameEndsAtCode(f, bufSize, START);
        NextSound(f, bufSize, START);
        RestPasses(f, bufSize, Next(f, bufSize, START));
      }
      if Pass(f, bufSize, START).Some? {
        PassConserves(f, bufSize);
      }
    }
  }

  lemma NoWindow(bufSize: nat)
    ensures CutNext([], bufSize, START) == Bad && !LastPicture([], 0)
  {
  }

  /** The first cut is never the last frame. */
  lemma FirstCut(f: seq<byte>)
    ensures CutWindow(f, 0).Frame? <==> FirstOpen(f, 0).Some? && FirstClose(f, FirstOpen(f, 0).value + 4).Some?
    ensures CutWindow(f, 0).Frame? ==>
              !CutWindow(f, 0).last && (LastPicture(f, 0) <==> LastPicture(f, CutWindow(f, 0).length))
  {
    hide Opens, Closes;
    var c := CutWindow(f, 0);
    if c.Frame? {
      forall i: nat
        ensures Opens(f, i) <==> Opens(f, 0 + i)
      {
      }
      LastIsBehind(f, 0, f, FirstOpen(f, 0).value, c.length);
    }
  }
}
