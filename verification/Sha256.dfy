/** SHA-256 as FIPS 180-4 defines it. */
module Sha256 {

  type byte = bv8
  type word = bv32

  /** Section 4.2.2, eight words to a row. */
  function KRow(r: nat): (k: seq<word>)
    requires r < 8
    ensures |k| == 8
  {
    if r == 0 then [0x428A2F98, 0x71374491, 0xB5C0FBCF, 0xE9B5DBA5, 0x3956C25B, 0x59F111F1, 0x923F82A4, 0xAB1C5ED5]
    else if r == 1 then [0xD807AA98, 0x12835B01, 0x243185BE, 0x550C7DC3, 0x72BE5D74, 0x80DEB1FE, 0x9BDC06A7, 0xC19BF174]
    else if r == 2 then [0xE49B69C1, 0xEFBE4786, 0x0FC19DC6, 0x240CA1CC, 0x2DE92C6F, 0x4A7484AA, 0x5CB0A9DC, 0x76F988DA]
    else if r == 3 then [0x983E5152, 0xA831C66D, 0xB00327C8, 0xBF597FC7, 0xC6E00BF3, 0xD5A79147, 0x06CA6351, 0x14292967]
    else if r == 4 then [0x27B70A85, 0x2E1B2138, 0x4D2C6DFC, 0x53380D13, 0x650A7354, 0x766A0ABB, 0x81C2C92E, 0x92722C85]
    else if r == 5 then [0xA2BFE8A1, 0xA81A664B, 0xC24B8B70, 0xC76C51A3, 0xD192E819, 0xD6990624, 0xF40E3585, 0x106AA070]
    else if r == 6 then [0x19A4C116, 0x1E376C08, 0x2748774C, 0x34B0BCB5, 0x391C0CB3, 0x4ED8AA4A, 0x5B9CCA4F, 0x682E6FF3]
    else [0x748F82EE, 0x78A5636F, 0x84C87814, 0x8CC70208, 0x90BEFFFA, 0xA4506CEB, 0xBEF9A3F7, 0xC67178F2]
  }

  function K(): (k: seq<word>)
    ensures |k| == 64
  {
    KRow(0) + KRow(1) + KRow(2) + KRow(3) + KRow(4) + KRow(5) + KRow(6) + KRow(7)
  }

  /** Section 5.3.3. */
  function IV(): (v: seq<word>)
    ensures |v| == 8
  {
    [
      0x6A09E667, 0xBB67AE85, 0x3C6EF372, 0xA54FF53A, 0x510E527F, 0x9B05688C, 0x1F83D9AB, 0x5BE0CD19
    ]
  }

  // ----- section 4.1.2

  /** Addition modulo 2^32. */
  function Plus(x: word, y: word): word {
    x + y
  }

  function Ch(x: word, y: word, z: word): word {
    (x & y) ^ (!x & z)
  }

  function Maj(x: word, y: word, z: word): word {
    (x & y) ^ (x & z) ^ (y & z)
  }

  function Xor3(x: word, y: word, z: word): word {
    x ^ y ^ z
  }

  function BigSigma0(x: word): word {
    Xor3(x.RotateRight(2), x.RotateRight(13), x.RotateRight(22))
  }

  function BigSigma1(x: word): word {
    Xor3(x.RotateRight(6), x.RotateRight(11), x.RotateRight(25))
  }

  function SmallSigma0(x: word): word {
    Xor3(x.RotateRight(7), x.RotateRight(18), x >> 3)
  }

  function SmallSigma1(x: word): word {
    Xor3(x.RotateRight(17), x.RotateRight(19), x >> 10)
  }

  // ----- words and bytes, big end first

  function WordOf(a: byte, b: byte, c: byte, d: byte): word {
    ((a as word) << 24) | ((b as word) << 16) | ((c as word) << 8) | (d as word)
  }

  function WordBytes(w: word): (s: seq<byte>)
    ensures |s| == 4
  {
    [((w >> 24) & 0xFF) as byte, ((w >> 16) & 0xFF) as byte, ((w >> 8) & 0xFF) as byte, (w & 0xFF) as byte]
  }

  lemma WordRoundTrip(w: word)
    ensures var s := WordBytes(w); WordOf(s[0], s[1], s[2], s[3]) == w
  {
  }

  // ----- section 6.2.2

  function NextWord(w2: word, w7: word, w15: word, w16: word): word {
    Plus(Plus(Plus(SmallSigma1(w2), w7), SmallSigma0(w15)), w16)
  }

  /** The message schedule of a block. */
  function Schedule(block: seq<byte>, t: nat): word
    requires |block| == 64
  {
    if t < 16 then WordOf(block[4 * t], block[4 * t + 1], block[4 * t + 2], block[4 * t + 3])
    else
      NextWord(Schedule(block, t - 2), Schedule(block, t - 7), Schedule(block, t - 15), Schedule(block, t - 16))
  }

  function T1(e: word, f: word, g: word, h: word, k: word, w: word): word {
    Plus(Plus(Plus(Plus(h, BigSigma1(e)), Ch(e, f, g)), k), w)
  }

  function T2(a: word, b: word, c: word): word {
    Plus(BigSigma0(a), Maj(a, b, c))
  }

  /** One step on the working variables a to h. */
  function Step(v: seq<word>, k: word, w: word): (r: seq<word>)
    requires |v| == 8
    ensures |r| == 8
  {
    var t1 := T1(v[4], v[5], v[6], v[7], k, w);
    var t2 := T2(v[0], v[1], v[2]);
    [Plus(t1, t2), v[0], v[1], v[2], Plus(v[3], t1), v[4], v[5], v[6]]
  }

  /** The working variables after `t` steps. */
  function Steps(h: seq<word>, block: seq<byte>, t: nat): (r: seq<word>)
    requires |h| == 8 && |block| == 64 && t <= 64
    ensures |r| == 8
  {
    if t == 0 then h else Step(Steps(h, block, t - 1), K()[t - 1], Schedule(block, t - 1))
  }

  function Compress(h: seq<word>, block: seq<byte>): (r: seq<word>)
    requires |h| == 8 && |block| == 64
    ensures |r| == 8
  {
    var v := Steps(h, block, 64);
    seq(8, i requires 0 <= i < 8 => Plus(h[i], v[i]))
  }

  /** All full blocks of `m`. */
  function Blocks(h: seq<word>, m: seq<byte>): (r: seq<word>)
    requires |h| == 8
    ensures |r| == 8
    decreases |m|
  {
    if |m| < 64 then h else Blocks(Compress(h, m[..64]), m[64..])
  }

  /** Section 5.1.1: the length in bits, as 64 bits, big end first. */
  function LengthBytes(bits: nat): (s: seq<byte>)
    ensures |s| == 8
  {
    WordBytesOf(bits / 0x1_0000_0000) + WordBytesOf(bits)
  }

  function WordBytesOf(n: nat): (s: seq<byte>)
    ensures |s| == 4
  {
    [(n / 0x100_0000 % 0x100) as byte, (n / 0x1_0000 % 0x100) as byte, (n / 0x100 % 0x100) as byte, (n % 0x100) as byte]
  }

  /** Zero bytes after the 0x80, so that the whole fills blocks. */
  function PadZeros(length: nat): (k: nat)
    ensures k < 64 && (length + 1 + k + 8) % 64 == 0
  {
    (119 - length % 64) % 64
  }

  function Pad(m: seq<byte>): (p: seq<byte>)
    ensures |p| % 64 == 0
  {
    m + ([0x80] + seq(PadZeros(|m|), _ => 0)) + LengthBytes(8 * |m|)
  }

  function Digest(h: seq<word>): (d: seq<byte>)
    ensures |d| == 4 * |h|
  {
    if h == [] then [] else WordBytes(h[0]) + Digest(h[1..])
  }

  /** The hash of a message shorter than 2^64 bits. */
  function Hash(m: seq<byte>): (d: seq<byte>)
    requires |m| < 0x2000_0000_0000_0000
    ensures |d| == 32
  {
    Digest(Blocks(IV(), Pad(m)))
  }

  // ----- cutting a message

  /** Blocks of a message that is cut after full blocks. */
  lemma {:induction false} BlocksConcat(h: seq<word>, m: seq<byte>, n: seq<byte>)
    requires |h| == 8 && |m| % 64 == 0
    ensures Blocks(h, m + n) == Blocks(Blocks(h, m), n)
    decreases |m|
  {
    hide Compress;
    if |m| < 64 {
      assert m + n == n;
    } else {
      assert (m + n)[..64] == m[..64] && (m + n)[64..] == m[64..] + n;
      BlocksConcat(Compress(h, m[..64]), m[64..], n);
    }
  }

  /** What is left of a message behind its full blocks. */
  function Tail(m: seq<byte>): (t: seq<byte>)
    ensures |t| == |m| % 64
  {
    m[|m| - |m| % 64..]
  }

  lemma NoBlock(h: seq<word>, m: seq<byte>)
    requires |h| == 8 && |m| < 64
    ensures Blocks(h, m) == h
  {
    hide Compress;
  }

  /** A tail does not matter for the blocks. */
  lemma BlocksOfFull(h: seq<word>, full: seq<byte>, tail: seq<byte>)
    requires |h| == 8 && |full| % 64 == 0 && |tail| < 64
    ensures Blocks(h, full + tail) == Blocks(h, full)
  {
    hide Blocks;
    BlocksConcat(h, full, tail);
    NoBlock(Blocks(h, full), tail);
  }
}
