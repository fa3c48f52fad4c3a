/** The keyed hash of section 2 of RFC 2104, and the login that is signed with it. */
module Hmac {
  import opened Sha256
  import opened Sha256Stream

  const BLOCK: nat := 64

  function XorAll(s: seq<byte>, pad: byte): (r: seq<byte>)
    ensures |r| == |s|
  {
    seq(|s|, i requires 0 <= i < |s| => s[i] ^ pad)
  }

  /** A key filled with zeros to one block. */
  function ZeroFilled(key: seq<byte>): (r: seq<byte>)
    requires |key| <= BLOCK
    ensures |r| == BLOCK
  {
    key + seq(BLOCK - |key|, _ => 0)
  }

  /** Section 2 of RFC 2104 for a key of at most one block:
      H(K xor opad, H(K xor ipad, text)). */
  function Mac(key: seq<byte>, text: seq<byte>): (r: seq<byte>)
    requires |key| <= BLOCK && |text| < WRAP
    ensures |r| == 32
  {
    var k := ZeroFilled(key);
    Hash(XorAll(k, 0x5C) + Hash(XorAll(k, 0x36) + text))
  }

  /** The inner and the outer block byte by byte: the key xored with 0x36 and with 0x5C, and
      the bare pads behind it. */
  lemma MacIs(key: seq<byte>, text: seq<byte>, inner: seq<byte>, outer: seq<byte>)
    requires |key| <= 64 && |text| < WRAP && |inner| == 64 && |outer| == 64
    requires forall i :: 0 <= i < |key| ==> inner[i] == key[i] ^ 0x36 && outer[i] == key[i] ^ 0x5C
    requires forall i :: |key| <= i < 64 ==> inner[i] == 0x36 && outer[i] == 0x5C
    ensures Mac(key, text) == Hash(outer + Hash(inner + text))
  {
    hide Hash;
    var k := ZeroFilled(key);
    assert XorAll(k, 0x36) == inner;
    assert XorAll(k, 0x5C) == outer;
  }

  /** The key with every byte of the block xored with `pad`, in place. */
  method KeyPad(key: seq<byte>, pad: byte) returns (k: array<byte>)
    requires |key| <= BLOCK
    ensures fresh(k) && k.Length == BLOCK && k[..] == XorAll(ZeroFilled(key), pad)
  {
    k := new byte[64](_ => 0);
    forall i | 0 <= i < |key| { k[i] := key[i]; }
    ghost var filled := ZeroFilled(key);
    assert k[..] == filled;
    var i := 0;
    while i < 64
      invariant 0 <= i <= 64
      invariant forall j :: 0 <= j < i ==> k[j] == filled[j] ^ pad
      invariant forall j :: i <= j < 64 ==> k[j] == filled[j]
    {
      k[i] := k[i] ^ pad;
      i := i + 1;
    }
  }

  /** One pass: a block and then a text. */
  method Pass(k: seq<byte>, text: seq<byte>, output: array<byte>)
    requires |k| == BLOCK && |text| < WRAP && output.Length == 32
    modifies output
    ensures output[..] == Hash(k + text)
  {
    hide Blocks, IV, Digest, Pad, Context.Valid;
    var context := new Context();
    context.Starts();
    context.Update(k);
    assert [] + k == k;
    context.Update(text);
    context.Finish(output);
  }

  /** The output holds the inner digest between the passes; a key longer than a block is
      refused and leaves the output alone. */
  method HmacSha256(msg: seq<byte>, key: seq<byte>, output: array<byte>)
    requires |msg| < WRAP && output.Length == 32
    modifies output
    ensures |key| <= BLOCK ==> output[..] == Mac(key, msg)
    ensures |key| > BLOCK ==> output[..] == old(output[..])
  {
    hide Hash, XorAll;
    if |key| > BLOCK {
      return;
    }
    var ipad := KeyPad(key, 0x36);
    var opad := KeyPad(key, 0x5C);
    Pass(ipad[..], msg, output);
    Pass(opad[..], output[..], output);
  }
}
