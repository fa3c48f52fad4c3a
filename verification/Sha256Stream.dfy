/** The incremental hash context: any way of cutting a message into updates gives the
    hash of the whole. Words are bit vectors; the two halves of the byte counter are
    numbers that wrap where the 32-bit fields do. */
module Sha256Stream {
  import opened Sha256

  const MASK: word := 0xFFFFFFFF
  const WRAP: nat := 0x1_0000_0000

  // ----- the macros of the compression function

  function SHR(x: word, n: bv6): word
    requires n < 32
  {
    (x & MASK) >> n
  }

  function ROTR(x: word, n: bv6): word
    requires 0 < n < 32
  {
    SHR(x, n) | (x << (32 - n))
  }

  function F0(x: word, y: word, z: word): word {
    (x & y) | (z & (x | y))
  }

  function F1(x: word, y: word, z: word): word {
    z ^ (x & (y ^ z))
  }

  function S0(x: word): word {
    Xor3(ROTR(x, 7), ROTR(x, 18), SHR(x, 3))
  }

  function S1(x: word): word {
    Xor3(ROTR(x, 17), ROTR(x, 19), SHR(x, 10))
  }

  function S2(x: word): word {
    Xor3(ROTR(x, 2), ROTR(x, 13), ROTR(x, 22))
  }

  function S3(x: word): word {
    Xor3(ROTR(x, 6), ROTR(x, 11), ROTR(x, 25))
  }

  lemma MajorityBits(x: bv32, y: bv32, z: bv32)
    ensures (x & y) | (z & (x | y)) == (x & y) ^ (x & z) ^ (y & z)
  {
  }

  lemma ChoiceBits(x: bv32, y: bv32, z: bv32)
    ensures z ^ (x & (y ^ z)) == (x & y) ^ (!x & z)
  {
  }

  lemma MacroF0(x: word, y: word, z: word)
    ensures F0(x, y, z) == Maj(x, y, z)
  {
    MajorityBits(x, y, z);
  }

  lemma MacroF1(x: word, y: word, z: word)
    ensures F1(x, y, z) == Ch(x, y, z)
  {
    ChoiceBits(x, y, z);
  }

  lemma Rotate2(x: word)
    ensures ROTR(x, 2) == x.RotateRight(2)
  {
  }

  lemma Rotate6(x: word)
    ensures ROTR(x, 6) == x.RotateRight(6)
  {
  }

  lemma Rotate7(x: word)
    ensures ROTR(x, 7) == x.RotateRight(7)
  {
  }

  lemma Rotate11(x: word)
    ensures ROTR(x, 11) == x.RotateRight(11)
  {
  }

  lemma Rotate13(x: word)
    ensures ROTR(x, 13) == x.RotateRight(13)
  {
  }

  lemma Rotate17(x: word)
    ensures ROTR(x, 17) == x.RotateRight(17)
  {
  }

  lemma Rotate18(x: word)
    ensures ROTR(x, 18) == x.RotateRight(18)
  {
  }

  lemma Rotate19(x: word)
    ensures ROTR(x, 19) == x.RotateRight(19)
  {
  }

  lemma Rotate22(x: word)
    ensures ROTR(x, 22) == x.RotateRight(22)
  {
  }

  lemma Rotate25(x: word)
    ensures ROTR(x, 25) == x.RotateRight(25)
  {
  }

  lemma Shift3(x: word)
    ensures SHR(x, 3) == x >> 3
  {
  }

  lemma Shift10(x: word)
    ensures SHR(x, 10) == x >> 10
  {
  }

  /** The macros are the six functions of the standard. */
  lemma MacroS0(x: word)
    ensures S0(x) == SmallSigma0(x)
  {
    hide ROTR, SHR, Xor3;
    Rotate7(x);
    Rotate18(x);
    Shift3(x);
  }

  lemma MacroS1(x: word)
    ensures S1(x) == SmallSigma1(x)
  {
    hide ROTR, SHR, Xor3;
    Rotate17(x);
    Rotate19(x);
    Shift10(x);
  }

  lemma MacroS2(x: word)
    ensures S2(x) == BigSigma0(x)
  {
    hide ROTR, SHR, Xor3;
    Rotate2(x);
    Rotate13(x);
    Rotate22(x);
  }

  lemma MacroS3(x: word)
    ensures S3(x) == BigSigma1(x)
  {
    hide ROTR, SHR, Xor3;
    Rotate6(x);
    Rotate11(x);
    Rotate25(x);
  }

  // ----- one block

  lemma TempOne(e: word, f: word, g: word, h: word, k: word, x: word)
    ensures Plus(Plus(Plus(Plus(h, S3(e)), F1(e, f, g)), k), x) == T1(e, f, g, h, k, x)
  {
    hide Plus, S3, F1, BigSigma1, Ch;
    MacroS3(e);
    MacroF1(e, f, g);
  }

  lemma TempTwo(a: word, b: word, c: word)
    ensures Plus(S2(a), F0(a, b, c)) == T2(a, b, c)
  {
    hide Plus, S2, F0, BigSigma0, Maj;
    MacroS2(a);
    MacroF0(a, b, c);
  }

  lemma ScheduleR(w2: word, w7: word, w15: word, w16: word)
    ensures Plus(Plus(Plus(S1(w2), w7), S0(w15)), w16) == NextWord(w2, w7, w15, w16)
  {
    hide Plus, S0, S1, SmallSigma0, SmallSigma1;
    MacroS0(w15);
    MacroS1(w2);
  }

  /** The rotation of the working array by one place. */
  method Rotate<T>(A: array<T>)
    requires A.Length == 8
    modifies A
    ensures A[..] == [old(A[7])] + old(A[..7])
  {
    var temp1 := A[7];
    A[7] := A[6];
    A[6] := A[5];
    A[5] := A[4];
    A[4] := A[3];
    A[3] := A[2];
    A[2] := A[1];
    A[1] := A[0];
    A[0] := temp1;
  }

  /** The macro `P` on the working array. */
  method P(A: array<word>, k: word, x: word)
    requires A.Length == 8
    modifies A
    ensures var v := old(A[..]); [A[7]] + A[..7] == Step(v, k, x)
  {
    hide Plus, S2, S3, F0, F1, T1, T2;
    TempOne(A[4], A[5], A[6], A[7], k, x);
    TempTwo(A[0], A[1], A[2]);
    var temp1 := Plus(Plus(Plus(Plus(A[7], S3(A[4])), F1(A[4], A[5], A[6])), k), x);
    var temp2 := Plus(S2(A[0]), F0(A[0], A[1], A[2]));
    A[3] := Plus(A[3], temp1);
    A[7] := Plus(temp1, temp2);
  }

  /** One turn of the loop is one step of section 6.2.2. */
  method Turn(A: array<word>, k: word, x: word)
    requires A.Length == 8
    modifies A
    ensures A[..] == Step(old(A[..]), k, x)
  {
    hide Step;
    P(A, k, x);
    Rotate(A);
  }

  /** The next word of the schedule. */
  method ScheduleWord(W: array<word>, data: seq<byte>, i: nat)
    requires W.Length == 64 && |data| == 64 && i < 64
    requires forall j :: 0 <= j < i ==> W[j] == Schedule(data, j)
    modifies W
    ensures forall j :: 0 <= j <= i ==> W[j] == Schedule(data, j)
  {
    hide Plus, S0, S1, NextWord, WordOf;
    if i < 16 {
      W[i] := WordOf(data[4 * i], data[4 * i + 1], data[4 * i + 2], data[4 * i + 3]);
    } else {
      ScheduleR(W[i - 2], W[i - 7], W[i - 15], W[i - 16]);
      W[i] := Plus(Plus(Plus(S1(W[i - 2]), W[i - 7]), S0(W[i - 15])), W[i - 16]);
    }
  }

  /** The loop of `process`: the working array after all 64 turns. */
  method WorkingArray(h: seq<word>, data: seq<byte>) returns (A: array<word>)
    requires |h| == 8 && |data| == 64
    ensures fresh(A) && A.Length == 8 && A[..] == Steps(h, data, 64)
  {
    hide Step, Schedule, K;
    var W := new word[64];
    A := new word[8](i requires 0 <= i < 8 => h[i]);
    var i := 0;
    assert A[..] == h;
    while i < 64
      invariant 0 <= i <= 64
      invariant forall j :: 0 <= j < i ==> W[j] == Schedule(data, j)
      invariant A[..] == Steps(h, data, i)
    {
      ScheduleWord(W, data, i);
      Turn(A, K()[i], W[i]);
      i := i + 1;
    }
  }

  // ----- carrying a tail from one update to the next

  lemma ResumeTail(full: seq<byte>, m: seq<byte>)
    requires |full| % 64 == 0
    ensures Tail(full + m) == Tail(m)
  {
    var k := |full| / 64;
    assert |full + m| == 64 * k + |m|;
    assert |full + m| % 64 == |m| % 64;
  }

  lemma TakeBlock(h: seq<word>, m: seq<byte>)
    requires |h| == 8 && |m| >= 64
    ensures Blocks(h, m) == Blocks(Compress(h, m[..64]), m[64..])
    ensures Tail(m) == Tail(m[64..])
  {
    hide Compress, Tail;
    ResumeTail(m[..64], m[64..]);
    assert m[..64] + m[64..] == m;
  }

  /** Going on from the state and the tail of `m` is going on from `m`. */
  lemma Resume(h: seq<word>, m: seq<byte>, n: seq<byte>)
    requires |h| == 8
    ensures Blocks(Blocks(h, m), Tail(m) + n) == Blocks(h, m + n)
    ensures Tail(Tail(m) + n) == Tail(m + n)
  {
    hide Compress, Blocks;
    var full := m[..|m| - |m| % 64];
    assert full + Tail(m) == m;
    BlocksOfFull(h, full, Tail(m));
    BlocksConcat(h, full, Tail(m) + n);
    assert full + (Tail(m) + n) == m + n;
    ResumeTail(full, Tail(m) + n);
  }

  /** All the pieces of a message, in order. */
  function Joined(pieces: seq<seq<byte>>): seq<byte> {
    if pieces == [] then [] else pieces[0] + Joined(pieces[1..])
  }

  datatype Carried = Carried(state: seq<word>, tail: seq<byte>)

  /** What a context carries after one piece, and after each of several. */
  function Fed(c: Carried, piece: seq<byte>): (r: Carried)
    requires |c.state| == 8
    ensures |r.state| == 8
  {
    Carried(Blocks(c.state, c.tail + piece), Tail(c.tail + piece))
  }

  function FedAll(c: Carried, pieces: seq<seq<byte>>): (r: Carried)
    requires |c.state| == 8
    ensures |r.state| == 8
    decreases |pieces|
  {
    if pieces == [] then c else FedAll(Fed(c, pieces[0]), pieces[1..])
  }

  /** However a message is cut, the context carries what one piece would have left. */
  lemma {:induction false} AnyCut(h: seq<word>, m: seq<byte>, pieces: seq<seq<byte>>)
    requires |h| == 8
    ensures FedAll(Carried(Blocks(h, m), Tail(m)), pieces)
         == Carried(Blocks(h, m + Joined(pieces)), Tail(m + Joined(pieces)))
    decreases |pieces|
  {
    hide Blocks, Tail;
    if pieces == [] {
      assert m + Joined(pieces) == m;
    } else {
      Resume(h, m, pieces[0]);
      AnyCut(h, m + pieces[0], pieces[1..]);
      assert m + Joined(pieces) == m + pieces[0] + Joined(pieces[1..]);
    }
  }

  // ----- the byte counter

  /** Bitwise or. */
  function BitOr(a: nat, b: nat): nat {
    if a == 0 && b == 0 then 0
    else 2 * BitOr(a / 2, b / 2) + (if a % 2 == 1 || b % 2 == 1 then 1 else 0)
  }

  /** An or of numbers without a common bit is a sum. */
  lemma {:induction false} OrIsSum(a: nat, b: nat, unit: nat)
    requires unit in {1, 2, 4, 8} && a < unit && b % unit == 0
    ensures BitOr(a, b) == a + b
    decreases a, b
  {
    if unit == 1 {
      OrZero(b);
    } else {
      if a != 0 || b != 0 {
        assert b % 2 == 0 && b / 2 % (unit / 2) == 0;
        OrIsSum(a / 2, b / 2, unit / 2);
      }
    }
  }

  lemma {:induction false} OrZero(b: nat)
    ensures BitOr(0, b) == b
  {
    if b != 0 {
      OrZero(b / 2);
    }
  }

  lemma LowBits(total0: nat, total1: nat, n: nat)
    requires total1 * WRAP + total0 == n % (WRAP * WRAP)
    ensures total0 % 64 == n % 64
  {
    var q := n / (WRAP * WRAP);
    assert n == 64 * (q * WRAP * 0x400_0000 + total1 * 0x400_0000) + total0;
  }

  lemma SameRest(n: nat, more: nat)
    ensures (n % 64 + more) % 64 == (n + more) % 64
  {
  }

  lemma CountWraps(n: nat, more: nat)
    ensures (n % (WRAP * WRAP) + more) % (WRAP * WRAP) == (n + more) % (WRAP * WRAP)
  {
  }

  /** Only the low 32 bits of a number are written. */
  lemma WordBytesWrap(q: nat, r: nat)
    ensures WordBytesOf(q * WRAP + r) == WordBytesOf(r)
  {
    var n := q * WRAP + r;
    ByteWraps(n, r, q, 0x100_0000);
    ByteWraps(n, r, q * 0x100, 0x1_0000);
    ByteWraps(n, r, q * 0x1_0000, 0x100);
    ByteWraps(n, r, q * 0x100_0000, 1);
  }

  lemma ByteWraps(n: nat, r: nat, q: nat, d: nat)
    requires d in {1, 0x100, 0x1_0000, 0x100_0000} && n == 0x100 * q * d + r
    ensures n / d % 0x100 == r / d % 0x100
  {
    assert n / d == 0x100 * q + r / d;
  }

  /** The high word, before it wraps: the length in bits over 2^32. */
  lemma HighWord(total0: nat, total1: nat, q: nat)
    requires total0 < WRAP && total1 < WRAP
    ensures BitOr(total0 / 0x2000_0000, total1 * 8 % WRAP) < WRAP
    ensures WordBytesOf(BitOr(total0 / 0x2000_0000, total1 * 8 % WRAP))
         == WordBytesOf(8 * (q * WRAP + total1) + total0 / 0x2000_0000)
  {
    hide WordBytesOf, BitOr;
    var low := total0 / 0x2000_0000;
    OrIsSum(low, total1 * 8 % WRAP, 8);
    var carry := total1 * 8 / WRAP;
    assert 8 * (q * WRAP + total1) + low == (8 * q + carry) * WRAP + (low + total1 * 8 % WRAP);
    WordBytesWrap(8 * q + carry, low + total1 * 8 % WRAP);
  }

  /** The two words of `finish` are the length in bits, whatever the length. */
  lemma LengthWords(total0: nat, total1: nat, n: nat)
    requires total0 < WRAP && total1 < WRAP
    requires total1 * WRAP + total0 == n % (WRAP * WRAP)
    ensures BitOr(total0 / 0x2000_0000, total1 * 8 % WRAP) < WRAP
    ensures WordBytesOf(BitOr(total0 / 0x2000_0000, total1 * 8 % WRAP)) + WordBytesOf(total0 * 8 % WRAP) == LengthBytes(8 * n)
  {
    hide WordBytesOf, BitOr;
    var q := n / (WRAP * WRAP);
    var units := q * WRAP + total1;
    assert n == units * WRAP + total0;
    HighWord(total0, total1, q);
    BitsOf(units, total0);
    WordBytesWrap(8 * n / WRAP, total0 * 8 % WRAP);
  }

  /** The two 32-bit parts of eight times a number. */
  lemma BitsOf(units: nat, total0: nat)
    requires total0 < WRAP
    ensures var n := 8 * (units * WRAP + total0);
            n / WRAP == 8 * units + total0 / 0x2000_0000 && n == n / WRAP * WRAP + total0 * 8 % WRAP
  {
  }

  /** The two last updates make up the padding. */
  lemma PadIs(m: seq<byte>, padn: nat)
    requires var last := |m| % 64; padn == if last < 56 then 56 - last else 120 - last
    ensures 1 <= padn <= 64
    ensures m + ([0x80] + seq(63, _ => 0))[..padn] + LengthBytes(8 * |m|) == Pad(m)
  {
    assert padn == PadZeros(|m|) + 1;
    assert ([0x80] + seq(63, _ => 0 as byte))[..padn] == [0x80] + seq(PadZeros(|m|), _ => 0);
  }

  lemma DigestAt(h: seq<word>, n: nat)
    requires n < |h|
    ensures Digest(h[..n + 1]) == Digest(h[..n]) + WordBytes(h[n])
  {
    hide WordBytes;
    if n == 0 {
      assert h[..1] == [h[0]] && h[..0] == [];
    } else {
      DigestAt(h[1..], n - 1);
      assert h[..n + 1][1..] == h[1..][..n] && h[..n][1..] == h[1..][..n - 1];
      assert h[1..][n - 1] == h[n];
    }
  }

  /** `PUT_UINT32_BE`. */
  method PutWord(w: word, b: array<byte>, i: nat)
    requires i + 4 <= b.Length
    modifies b
    ensures b[..] == old(b[..i]) + WordBytes(w) + old(b[i + 4..])
  {
    hide WordBytes;
    var s := WordBytes(w);
    b[i] := s[0];
    b[i + 1] := s[1];
    b[i + 2] := s[2];
    b[i + 3] := s[3];
    assert s == [s[0], s[1], s[2], s[3]];
  }

  class Context {
    var total0: nat
    var total1: nat
    const state: array<word>
    const buffer: array<byte>
    ghost var msg: seq<byte>

    ghost predicate Shaped()
      reads this
    {
      state.Length == 8 && buffer.Length == 64
    }

    /** The context stands for the message so far. */
    ghost predicate Valid()
      reads this, state, buffer
    {
      && Shaped()
      && total0 < WRAP && total1 < WRAP
      && total1 * WRAP + total0 == |msg| % (WRAP * WRAP)
      && state[..] == Blocks(IV(), msg)
      && buffer[..|msg| % 64] == Tail(msg)
    }

    constructor ()
      ensures Shaped() && fresh(state) && fresh(buffer)
    {
      total0, total1 := 0, 0;
      state := new word[8](_ => 0);
      buffer := new byte[64](_ => 0);
      msg := [];
    }

    method Starts()
      requires Shaped()
      modifies this, state
      ensures Valid() && msg == []
    {
      hide IV;
      total0, total1 := 0, 0;
      forall i | 0 <= i < 8 { state[i] := IV()[i]; }
      msg := [];
      assert state[..] == IV();
    }

    method Process(data: seq<byte>)
      requires Shaped() && |data| == 64
      modifies state
      ensures state[..] == Compress(old(state[..]), data)
    {
      hide Steps, Plus;
      ghost var h := state[..];
      var A := WorkingArray(state[..], data);
      var i := 0;
      while i < 8
        invariant 0 <= i <= 8
        invariant A[..] == Steps(h, data, 64)
        invariant forall j :: 0 <= j < i ==> state[j] == Plus(h[j], A[j])
        invariant forall j :: i <= j < 8 ==> state[j] == h[j]
      {
        state[i] := Plus(state[i], A[i]);
        i := i + 1;
      }
    }

    /** `memcpy` into the buffer. */
    method Keep(left: nat, input: seq<byte>)
      requires Shaped() && left + |input| <= 64
      modifies buffer
      ensures buffer[..left + |input|] == old(buffer[..left]) + input
    {
      forall i | 0 <= i < |input| { buffer[left + i] := input[i]; }
    }

    method Count(ilen: nat)
      requires 0 < ilen < WRAP && total0 < WRAP && total1 < WRAP
      modifies `total0, `total1
      ensures total0 < WRAP && total1 < WRAP
      ensures total1 * WRAP + total0 == (old(total1 * WRAP + total0) + ilen) % (WRAP * WRAP)
    {
      total0 := (total0 + ilen) % WRAP;
      if total0 < ilen {
        total1 := (total1 + 1) % WRAP;
      }
    }

    /** What `update` does with the bytes: fill the buffer, hash full blocks straight from
        the input, keep the rest. */
    method Absorb(left: nat, input: seq<byte>)
      requires Shaped() && left < 64
      modifies state, buffer
      ensures var all := old(buffer[..left]) + input;
              state[..] == Blocks(old(state[..]), all) && buffer[..|all| % 64] == Tail(all)
    {
      hide Blocks, Compress;
      ghost var h, all := state[..], buffer[..left] + input;
      var fill := 64 - left;
      var kept, rest := left, input;
      if left > 0 && |input| >= fill {
        Keep(left, input[..fill]);
        assert buffer[..] == all[..64];
        Process(buffer[..]);
        rest := input[fill..];
        assert rest == all[64..];
        kept := 0;
        TakeBlock(h, all);
        assert buffer[..kept] + rest == rest;
      }
      HashFull(kept, rest, h, all);
    }

    /** The loop over full blocks and the last `memcpy`. */
    method HashFull(left: nat, input: seq<byte>, ghost h: seq<word>, ghost all: seq<byte>)
      requires Shaped() && left < 64 && (left > 0 ==> left + |input| < 64)
      requires |h| == 8 && Blocks(h, all) == Blocks(state[..], buffer[..left] + input)
      requires Tail(all) == Tail(buffer[..left] + input)
      modifies state, buffer
      ensures state[..] == Blocks(h, all) && buffer[..|all| % 64] == Tail(all)
    {
      hide Blocks, Compress;
      var rest := input;
      assert left == 0 ==> buffer[..left] + input == input;
      while |rest| >= 64
        invariant left > 0 ==> rest == input && state[..] == old(state[..])
        invariant left == 0 ==> Blocks(h, all) == Blocks(state[..], rest) && Tail(all) == Tail(rest)
        invariant buffer[..] == old(buffer[..])
      {
        TakeBlock(state[..], rest);
        Process(rest[..64]);
        rest := rest[64..];
      }
      assert left == 0 ==> buffer[..left] + rest == rest;
      assert buffer[..left] == old(buffer[..])[..left];
      Last(left, rest, h, all);
    }

    method Last(left: nat, rest: seq<byte>, ghost h: seq<word>, ghost all: seq<byte>)
      requires Shaped() && left + |rest| < 64
      requires |h| == 8 && Blocks(h, all) == Blocks(state[..], buffer[..left] + rest)
      requires Tail(all) == Tail(buffer[..left] + rest)
      modifies buffer
      ensures state[..] == Blocks(h, all) && buffer[..|all| % 64] == Tail(all)
    {
      hide Blocks;
      NoBlock(state[..], buffer[..left] + rest);
      if |rest| > 0 {
        Keep(left, rest);
      }
    }

    /** Takes in any bytes: the context then stands for the longer message. */
    method Update(input: seq<byte>)
      requires Valid() && |input| < WRAP
      modifies this, state, buffer
      ensures Valid() && msg == old(msg) + input
    {
      hide Blocks, IV;
      if |input| == 0 {
        assert msg + input == msg;
        return;
      }
      var left := total0 % 64;
      LowBits(total0, total1, |msg|);
      Resume(IV(), msg, input);
      Count(|input|);
      Absorb(left, input);
      SameRest(|msg|, |input|);
      CountWraps(|msg|, |input|);
      msg := msg + input;
    }

    /** The length of the message in bits, as eight bytes. */
    method MessageLength() returns (msglen: seq<byte>)
      requires Valid()
      ensures msglen == LengthBytes(8 * |msg|)
    {
      hide Blocks, IV, WordBytesOf, BitOr;
      LengthWords(total0, total1, |msg|);
      var high := BitOr(total0 / 0x2000_0000, total1 * 8 % WRAP);
      var low := total0 * 8 % WRAP;
      msglen := WordBytesOf(high) + WordBytesOf(low);
    }

    method WriteState(output: array<byte>)
      requires Shaped() && output.Length >= 32 && output != buffer
      modifies output
      ensures output[..] == Digest(state[..]) + old(output[32..])
    {
      hide WordBytes, Digest;
      var i := 0;
      while i < 8
        invariant 0 <= i <= 8
        invariant state[..] == old(state[..])
        invariant output[..] == Digest(state[..i]) + old(output[4 * i..])
      {
        DigestAt(state[..], i);
        PutWord(state[i], output, 4 * i);
        i := i + 1;
      }
      assert state[..8] == state[..];
    }

    /** Writes the hash of the message: the counter in bits is correct up to 2^64 bits. */
    method Finish(output: array<byte>)
      requires Valid() && output.Length >= 32 && output != buffer
      modifies this, state, buffer, output
      ensures output[..] == Digest(Blocks(IV(), Pad(old(msg)))) + old(output[32..])
    {
      hide Blocks, IV, Digest;
      var msglen := MessageLength();
      LowBits(total0, total1, |msg|);
      var last := total0 % 64;
      var padn := if last < 56 then 56 - last else 120 - last;
      PadIs(msg, padn);
      Update(([0x80] + seq(63, _ => 0))[..padn]);
      Update(msglen);
      WriteState(output);
    }
  }

  /** The one-shot hash. */
  method HashOnce(input: seq<byte>, output: array<byte>)
    requires |input| < WRAP && output.Length == 32
    modifies output
    ensures output[..] == Hash(input)
  {
    hide Blocks, IV, Digest, Pad, Context.Valid;
    var ctx := new Context();
    ctx.Starts();
    ctx.Update(input);
    assert [] + input == input;
    ctx.Finish(output);
  }
}
