/** gl/gc-pbkdf2-sha1.c: key derivation by section 5.2 of RFC 2898, with HMAC-SHA-1 as the underlying function. */
module Pbkdf2 {
  import opened MachineInts
  import opened Bytes
  import opened Digest
  import opened Hmac
  import Sha1

  /** The results. Endless is none: the inner loop would go on for ever. */
  datatype GcRc = Ok | InvalidIterationCount | InvalidDerivedKeyLength | DerivedKeyTooLong | MallocError | Endless

  const HLEN: nat := 20

  // ----- Reference definition -----

  function Prf(password: seq<Byte>, text: seq<Byte>): (r: seq<Byte>)
    ensures |r| == HLEN
  {
    Sha1.AlgorithmSound();
    var k := PaddedKey(Sha1.ALGORITHM, password);
    DigestLength(Sha1.ALGORITHM, XorAll(k, OPAD) + DigestOf(Sha1.ALGORITHM, XorAll(k, IPAD) + text));
    HmacOf(Sha1.ALGORITHM, password, text)
  }

  /** U_u for block i */
  function U(password: seq<Byte>, salt: seq<Byte>, i: UInt32, u: nat): (r: seq<Byte>)
    requires u >= 1
    ensures |r| == HLEN
  {
    if u == 1 then Prf(password, salt + WordBE(i)) else Prf(password, U(password, salt, i, u - 1))
  }

  function XorBytes(a: seq<Byte>, b: seq<Byte>): (r: seq<Byte>)
    requires |a| == |b|
    ensures |r| == |a| && forall k :: 0 <= k < |a| ==> r[k] == XorByte(a[k], b[k])
  {
    seq(|a|, k requires 0 <= k < |a| => XorByte(a[k], b[k]))
  }

  /** U_1 xor U_2 xor ... xor U_c: what RFC 2898 calls F (P, S, c, i) */
  function T(password: seq<Byte>, salt: seq<Byte>, i: UInt32, c: nat): (r: seq<Byte>)
    requires c >= 1
    ensures |r| == HLEN
  {
    if c == 1 then U(password, salt, i, 1) else XorBytes(T(password, salt, i, c - 1), U(password, salt, i, c))
  }

  /** T_1 || T_2 || ... || T_n */
  function Blocks(password: seq<Byte>, salt: seq<Byte>, c: nat, n: nat): (r: seq<Byte>)
    requires c >= 1 && n < TWO_32
    ensures |r| == n * HLEN
  {
    if n == 0 then [] else Blocks(password, salt, c, n - 1) + T(password, salt, n, c)
  }

  /** The number of blocks that dkLen bytes need: its quotient by hLen, rounded up. */
  function BlockCount(dkLen: nat): nat {
    (dkLen + HLEN - 1) / HLEN
  }

  /** The derived key: the first dkLen bytes of the blocks that it takes. */
  function DerivedKey(password: seq<Byte>, salt: seq<Byte>, c: nat, dkLen: nat): (dk: seq<Byte>)
    requires c >= 1 && 1 <= dkLen <= 4294967295
    ensures |dk| == dkLen
  {
    BlockCountRoundsUp(dkLen);
    Blocks(password, salt, c, BlockCount(dkLen))[..dkLen]
  }

  lemma BlockCountRoundsUp(dkLen: nat)
    requires 1 <= dkLen <= 4294967295
    ensures var l := (dkLen - 1) / HLEN + 1;
            BlockCount(dkLen) == l && 1 <= dkLen - (l - 1) * HLEN <= HLEN && l < 0x1000_0000
  {
    DivUnique(dkLen + HLEN - 1, HLEN, (dkLen - 1) / HLEN + 1, (dkLen - 1) % HLEN);
  }

  // ----- The code -----

  /** One call of gc_hmac_sha1 with U as the result buffer; text may be U itself. */
  method PrfInto(P: array<Byte>, text: array<Byte>, address: nat, strictAlignment: bool, uBuf: array<Byte>)
    requires P.Length <= SIZE_MAX && text.Length <= SIZE_MAX && uBuf.Length == HLEN && P != uBuf
    modifies uBuf
    ensures uBuf[..] == Prf(P[..], old(text[..]))
  {
    hide PaddedKey, DigestOf, HmacOf, Sha1.ALGORITHM, Sha1.Compress;
    Sha1.AlgorithmSound();
    assert P[..P.Length] == P[..] && text[..text.Length] == text[..];
    HmacBuffer(Sha1.ALGORITHM, P, P.Length, text, text.Length, address, strictAlignment, uBuf);
    assert uBuf[..HLEN] == uBuf[..];
  }

  /** T[k] ^= U[k] for all k */
  method XorInto(t: array<Byte>, uBuf: array<Byte>)
    requires t.Length == uBuf.Length == HLEN && t != uBuf
    modifies t
    ensures t[..] == XorBytes(old(t[..]), uBuf[..])
  {
    hide XorByte;
    for k := 0 to HLEN
      invariant forall j :: 0 <= j < k ==> t[j] == XorByte(old(t[j]), uBuf[j])
      invariant forall j :: k <= j < HLEN ==> t[j] == old(t[j])
    {
      t[k] := XorByte(t[k], uBuf[k]);
    }
  }

  lemma XorZeros(b: seq<Byte>)
    ensures XorBytes(Zeros(|b|), b) == b
  {
    hide XorByte;
    forall k | 0 <= k < |b|
      ensures XorByte(0, b[k]) == b[k]
    {
      XorByteLaws(b[k], 0);
    }
  }

  /** The iterations for one block i: T accumulates, and U is both the text and the result of the inner calls. */
  method DeriveBlock(P: array<Byte>, ghost salt: seq<Byte>, tmp: array<Byte>, c: UInt32, i: UInt32,
                     t: array<Byte>, uBuf: array<Byte>, address: nat, strictAlignment: bool)
    requires 1 <= c < TWO_32 - 1 && P.Length <= SIZE_MAX
    requires tmp.Length == |salt| + 4 <= SIZE_MAX && tmp[..|salt|] == salt
    requires t.Length == uBuf.Length == HLEN
    requires t != uBuf && tmp != t && tmp != uBuf && P !in {tmp, t, uBuf}
    modifies t, uBuf, tmp
    ensures t[..] == T(P[..], salt, i, c)
    ensures tmp[..|salt|] == salt
  {
    hide Prf, Xor, WordBE;
    ghost var password := P[..];
    forall k | 0 <= k < HLEN {
      t[k] := 0;
    }
    assert t[..] == Zeros(HLEN);
    var u: UInt32 := 1;
    while u <= c
      invariant 1 <= u <= c + 1
      invariant u == 1 ==> t[..] == Zeros(HLEN)
      invariant u > 1 ==> t[..] == T(password, salt, i, u - 1) && uBuf[..] == U(password, salt, i, u - 1)
      invariant P[..] == password && tmp[..|salt|] == salt
    {
      if u == 1 {
        StoreSeq(tmp, tmp.Length - 4, WordBE(i));
        assert tmp[..] == salt + WordBE(i);
        PrfInto(P, tmp, address, strictAlignment, uBuf);
      } else {
        PrfInto(P, uBuf, address, strictAlignment, uBuf);
      }
      XorZeros(uBuf[..]);
      XorInto(t, uBuf);
      u := (u + 1) % TWO_32;
    }
  }

  /** `gc_pbkdf2_sha1`. `outOfMemory` is the outcome of the call of malloc. */
  method Pbkdf2Sha1(P: array<Byte>, S: array<Byte>, c: UInt32, DK: array<Byte>, dkLen: SizeT, outOfMemory: bool,
                    address: nat, strictAlignment: bool) returns (rc: GcRc)
    requires dkLen <= DK.Length && (P == DK ==> dkLen <= HLEN)
    requires P.Length <= SIZE_MAX && S.Length + 4 <= SIZE_MAX
    modifies DK
    ensures rc == if c == 0 then InvalidIterationCount
                  else if dkLen == 0 then InvalidDerivedKeyLength
                  else if dkLen > 4294967295 then DerivedKeyTooLong
                  else if outOfMemory then MallocError
                  else if c == TWO_32 - 1 then Endless
                  else Ok
    ensures rc == Ok ==> DK[..dkLen] == DerivedKey(old(P[..]), old(S[..]), c, dkLen) && DK[dkLen..] == old(DK[dkLen..])
    ensures rc != Ok ==> DK[..] == old(DK[..])
  {
    hide DerivedKey, Blocks, BlockCount;
    if c == 0 {
      return InvalidIterationCount;
    }
    if dkLen == 0 {
      return InvalidDerivedKeyLength;
    }
    if dkLen > 4294967295 {
      return DerivedKeyTooLong;
    }
    var l := (dkLen - 1) / HLEN + 1;
    var r := dkLen - (l - 1) * HLEN;
    BlockCountRoundsUp(dkLen);
    if outOfMemory {
      return MallocError;
    }
    if c == TWO_32 - 1 {
      return Endless;
    }
    var tmp := SaltBuffer(S);
    DeriveKey(P, S[..], tmp, c, DK, dkLen, l, r, address, strictAlignment);
    rc := Ok;
  }

  /** tmp = malloc (tmplen); memcpy (tmp, S, Slen); */
  method SaltBuffer(S: array<Byte>) returns (tmp: array<Byte>)
    ensures fresh(tmp) && tmp.Length == S.Length + 4 && tmp[..S.Length] == S[..]
  {
    tmp := new Byte[S.Length + 4];
    Memcpy(tmp, 0, S, 0, S.Length);
    assert S[0..0 + S.Length] == S[..];
  }

  /** The loop over the l blocks, the last of which gives only r bytes. */
  method DeriveKey(P: array<Byte>, ghost salt: seq<Byte>, tmp: array<Byte>, c: UInt32, DK: array<Byte>, dkLen: SizeT,
                   l: UInt32, r: nat, address: nat, strictAlignment: bool)
    requires 1 <= c < TWO_32 - 1 && P.Length <= SIZE_MAX && tmp !in {P, DK} && (P == DK ==> l == 1)
    requires tmp.Length == |salt| + 4 <= SIZE_MAX && tmp[..|salt|] == salt
    requires 1 <= l < TWO_32 - 1 && 1 <= r <= HLEN && dkLen == (l - 1) * HLEN + r && dkLen <= DK.Length
    requires 1 <= dkLen <= 4294967295 && l == BlockCount(dkLen)
    modifies DK, tmp
    ensures DK[..dkLen] == DerivedKey(old(P[..]), salt, c, dkLen) && DK[dkLen..] == old(DK[dkLen..])
  {
    hide T, Blocks;
    ghost var password := P[..];
    var t, uBuf := new Byte[HLEN], new Byte[HLEN];
    NoBlocks(password, salt, c);
    assert DK[..0] == [];
    var i: UInt32 := 1;
    while i < l
      invariant 1 <= i <= l
      invariant P[..] == password && tmp[..|salt|] == salt && DK[dkLen..] == old(DK[dkLen..])
      invariant DK[..(i - 1) * HLEN] == Blocks(password, salt, c, i - 1)
    {
      ghost var rest := DK[dkLen..];
      DeriveBlock(P, salt, tmp, c, i, t, uBuf, address, strictAlignment);
      assert DK[dkLen..] == rest;
      StoreBlock(DK, Blocks(password, salt, c, i - 1), dkLen, i, HLEN, t);
      BlocksStep(password, salt, c, i);
      WholePrefix(Blocks(password, salt, c, i - 1) + t[..], i * HLEN);
      i := i + 1;
    }
    DeriveBlock(P, salt, tmp, c, l, t, uBuf, address, strictAlignment);
    StoreBlock(DK, Blocks(password, salt, c, l - 1), dkLen, l, r, t);
    BlocksStep(password, salt, c, l);
  }

  /** memcpy (DK + (i - 1) * hLen, T, n) */
  method StoreBlock(DK: array<Byte>, ghost before: seq<Byte>, ghost dkLen: nat, i: UInt32, n: nat, t: array<Byte>)
    requires i >= 1 && t.Length == HLEN && n <= HLEN && DK != t && (i - 1) * HLEN + n <= dkLen <= DK.Length
    requires |before| == (i - 1) * HLEN && DK[..|before|] == before
    modifies DK
    ensures DK[..|before| + n] == (before + t[..])[..|before| + n] && DK[dkLen..] == old(DK[dkLen..])
  {
    ghost var rest := DK[dkLen..];
    Memcpy(DK, (i - 1) * HLEN, t, 0, n);
    assert DK[..|before| + n] == before + t[0..0 + n];
    assert DK[dkLen..] == DK[|before| + n..][dkLen - |before| - n..];
  }

  lemma WholePrefix(s: seq<Byte>, n: nat)
    requires n == |s|
    ensures s[..n] == s
  {
  }

  lemma NoBlocks(password: seq<Byte>, salt: seq<Byte>, c: nat)
    requires c >= 1
    ensures Blocks(password, salt, c, 0) == []
  {
  }

  lemma BlocksStep(password: seq<Byte>, salt: seq<Byte>, c: nat, i: UInt32)
    requires c >= 1 && i >= 1
    ensures Blocks(password, salt, c, i) == Blocks(password, salt, c, i - 1) + T(password, salt, i, c)
  {
  }

  // ----- The iteration count -----

  /** The counter u of the inner loop after n steps: an `unsigned int`, starting from 1. */
  function CounterAfter(n: nat): UInt32 {
    (1 + n) % TWO_32
  }

  /** The loop `for (u = 1; u <= c; u++)` comes to an end for every iteration count except the largest. */
  lemma LoopEnds(c: UInt32)
    ensures (exists n: nat :: CounterAfter(n) > c) <==> c < TWO_32 - 1
  {
    if c < TWO_32 - 1 {
      assert CounterAfter(c) == c + 1;
    }
  }
}
