/** gl/hmac-sha1.c and gl/hmac-md5.c: the same text over two hash functions, against section 2 of RFC 2104. */
module Hmac {
  import opened MachineInts
  import opened Bytes
  import opened Digest

  // ----- Reference definition -----

  function XorAll(s: seq<Byte>, b: Byte): (r: seq<Byte>)
    ensures |r| == |s| && forall i :: 0 <= i < |s| ==> r[i] == XorByte(s[i], b)
  {
    seq(|s|, i requires 0 <= i < |s| => XorByte(s[i], b))
  }

  /** A key of 64 bytes: a longer one is hashed first, and a shorter one is filled up with zeros. */
  function PaddedKey(alg: Algorithm, key: seq<Byte>): (k: seq<Byte>) {
    var short := if |key| > 64 then DigestOf(alg, key) else key;
    if |short| <= 64 then short + Zeros(64 - |short|) else short
  }

  /** H (K xor opad, H (K xor ipad, text)): ipad is the byte 0x36 and opad the byte 0x5c, repeated. */
  function HmacOf(alg: Algorithm, key: seq<Byte>, text: seq<Byte>): seq<Byte> {
    var k := PaddedKey(alg, key);
    DigestOf(alg, XorAll(k, 0x5c) + DigestOf(alg, XorAll(k, 0x36) + text))
  }

  lemma DigestLength(alg: Algorithm, message: seq<Byte>)
    requires alg.Sound()
    ensures |DigestOf(alg, message)| == 4 * |alg.initial|
  {
    FoldLength(alg, alg.initial, message + Padding(alg, message));
  }

  // ----- The code -----

  const IPAD: Byte := 0x36
  const OPAD: Byte := 0x5c

  /** memset (block, pad, 64); memxor (block, key, keylen); */
  method XorKey(block: array<Byte>, pad: Byte, key: array<Byte>, keylen: nat)
    requires block.Length == 64 && keylen <= 64 && keylen <= key.Length && block != key
    modifies block
    ensures block[..] == XorAll(key[..keylen] + Zeros(64 - keylen), pad)
  {
    hide XorByte, Zeros;
    forall i | 0 <= i < 64 {
      block[i] := pad;
    }
    for i := 0 to keylen
      invariant forall j :: 0 <= j < i ==> block[j] == XorByte(key[j], pad)
      invariant forall j :: i <= j < 64 ==> block[j] == pad
    {
      XorByteLaws(key[i], pad);
      block[i] := XorByte(block[i], key[i]);
    }
    XorByteLaws(pad, 0);
  }

  /** One of the two nested hashes: a whole block, then the rest, written to resbuf. */
  method HashBlockThen(alg: Algorithm, block: array<Byte>, data: array<Byte>, len: SizeT, address: nat,
                       strictAlignment: bool, resbuf: array<Byte>)
    requires alg.Sound() && block.Length == 64 && len <= data.Length && resbuf.Length >= 4 * |alg.initial|
    modifies resbuf
    ensures resbuf[..4 * |alg.initial|] == old(DigestOf(alg, block[..] + data[..len]))
    ensures resbuf[4 * |alg.initial|..] == old(resbuf[4 * |alg.initial|..])
  {
    hide DigestOf;
    var ctx := new Context(alg);
    ContextIsEmpty(ctx);
    var pos, left := ctx.BlocksInPlace(block, 0, 64);
    ctx.ProcessBytes(data, 0, len, address, strictAlignment);
    assert [] + block[0..64] == block[..] && data[0..0 + len] == data[..len];
    ctx.Finish(resbuf);
  }

  lemma ContextIsEmpty(ctx: Context)
    requires ctx.Valid() && ctx.message == []
    ensures ctx.buflen == 0
  {
  }

  /** hmac_sha1 and hmac_md5. The result may overwrite the key or the text: both have been read by then. */
  method HmacBuffer(alg: Algorithm, key: array<Byte>, keylen: SizeT, text: array<Byte>, textlen: SizeT,
                    address: nat, strictAlignment: bool, resbuf: array<Byte>)
    requires alg.Sound() && 4 * |alg.initial| <= 64
    requires keylen <= key.Length && textlen <= text.Length && resbuf.Length >= 4 * |alg.initial|
    modifies resbuf
    ensures resbuf[..4 * |alg.initial|] == old(HmacOf(alg, key[..keylen], text[..textlen]))
    ensures resbuf[4 * |alg.initial|..] == old(resbuf[4 * |alg.initial|..])
  {
    hide DigestOf, XorAll, Zeros;
    var hashlen := 4 * |alg.initial|;
    var shortKey, shortLen := key, keylen;
    if keylen > 64 {
      shortKey, shortLen := HashKey(alg, key, keylen, address, strictAlignment);
    }
    DigestLength(alg, key[..keylen]);
    ghost var padded := PaddedKey(alg, key[..keylen]);
    assert padded == shortKey[..shortLen] + Zeros(64 - shortLen);

    var block := new Byte[64];
    XorKey(block, IPAD, shortKey, shortLen);
    var innerhash := new Byte[hashlen];
    HashBlockThen(alg, block, text, textlen, address, strictAlignment, innerhash);
    assert innerhash[..] == innerhash[..hashlen];

    XorKey(block, OPAD, shortKey, shortLen);
    HashBlockThen(alg, block, innerhash, hashlen, address, strictAlignment, resbuf);
  }

  /** The key's own hash, for a key of more than 64 bytes. */
  method HashKey(alg: Algorithm, key: array<Byte>, keylen: SizeT, address: nat, strictAlignment: bool)
      returns (optkeybuf: array<Byte>, optkeylen: SizeT)
    requires alg.Sound() && 4 * |alg.initial| <= 64 && keylen <= key.Length
    ensures fresh(optkeybuf) && optkeylen == optkeybuf.Length == 4 * |alg.initial|
    ensures optkeybuf[..] == DigestOf(alg, key[..keylen])
  {
    hide DigestOf;
    optkeylen := 4 * |alg.initial|;
    optkeybuf := new Byte[optkeylen];
    var ctx := new Context(alg);
    ctx.ProcessBytes(key, 0, keylen, address, strictAlignment);
    assert [] + key[0..0 + keylen] == key[..keylen];
    ctx.Finish(optkeybuf);
    assert optkeybuf[..] == optkeybuf[..optkeylen];
  }
}
