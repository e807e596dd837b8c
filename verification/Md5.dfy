/** gl/md5.c: the block function of MD5. */
module Md5 {
  import opened MachineInts
  import opened Bytes
  import opened MdRounds
  import Digest

  // ----- Section 3.4 of RFC 1321 -----

  function F(x: bv32, y: bv32, z: bv32): bv32 { (x & y) | (!x & z) }
  function G(x: bv32, y: bv32, z: bv32): bv32 { (x & z) | (y & !z) }
  function H(x: bv32, y: bv32, z: bv32): bv32 { x ^ y ^ z }
  function I(x: bv32, y: bv32, z: bv32): bv32 { y ^ (x | !z) }

  function RoundFunction(i: nat, x: bv32, y: bv32, z: bv32): bv32 {
    if i < 16 then F(x, y, z) else if i < 32 then G(x, y, z) else if i < 48 then H(x, y, z) else I(x, y, z)
  }

  /** The word of step i. */
  function WordIndex(i: nat): nat {
    (if i < 16 then i else if i < 32 then 5 * i + 1 else if i < 48 then 3 * i + 5 else 7 * i) % 16
  }

  function Shift(i: nat): nat {
    (if i < 16 then [7, 12, 17, 22] else if i < 32 then [5, 9, 14, 20]
     else if i < 48 then [4, 11, 16, 23] else [6, 10, 15, 21])[i % 4]
  }

  /** T[i + 1] */
  function Constant(i: nat): bv32
    requires i < 64
  {
    match i / 8
    case 0 => [0xd76aa478, 0xe8c7b756, 0x242070db, 0xc1bdceee, 0xf57c0faf, 0x4787c62a, 0xa8304613, 0xfd469501][i % 8]
    case 1 => [0x698098d8, 0x8b44f7af, 0xffff5bb1, 0x895cd7be, 0x6b901122, 0xfd987193, 0xa679438e, 0x49b40821][i % 8]
    case 2 => [0xf61e2562, 0xc040b340, 0x265e5a51, 0xe9b6c7aa, 0xd62f105d, 0x02441453, 0xd8a1e681, 0xe7d3fbc8][i % 8]
    case 3 => [0x21e1cde6, 0xc33707d6, 0xf4d50d87, 0x455a14ed, 0xa9e3e905, 0xfcefa3f8, 0x676f02d9, 0x8d2a4c8a][i % 8]
    case 4 => [0xfffa3942, 0x8771f681, 0x6d9d6122, 0xfde5380c, 0xa4beea44, 0x4bdecfa9, 0xf6bb4b60, 0xbebfbc70][i % 8]
    case 5 => [0x289b7ec6, 0xeaa127fa, 0xd4ef3085, 0x04881d05, 0xd9d4d039, 0xe6db99e5, 0x1fa27cf8, 0xc4ac5665][i % 8]
    case 6 => [0xf4292244, 0x432aff97, 0xab9423a7, 0xfc93a039, 0x655b59c3, 0x8f0ccc92, 0xffeff47d, 0x85845dd1][i % 8]
    case _ => [0x6fa87e4f, 0xfe2ce6e0, 0xa3014314, 0x4e0811a1, 0xf7537e82, 0xbd3af235, 0x2ad7d2bb, 0xeb86d391][i % 8]
  }

  const DEFINITION: Variant :=
    Variant(64, (i: nat) => Op(WordIndex(i), Shift(i), if i < 64 then Constant(i) else 0),
            (i: nat, x, y, z) => RoundFunction(i, x, y, z), true)

  // ----- The code -----

  function FF(b: bv32, c: bv32, d: bv32): bv32 { d ^ (b & (c ^ d)) }
  function FG(b: bv32, c: bv32, d: bv32): bv32 { FF(d, b, c) }
  function FH(b: bv32, c: bv32, d: bv32): bv32 { b ^ c ^ d }
  function FI(b: bv32, c: bv32, d: bv32): bv32 { c ^ (b | !d) }

  function FastFunction(i: nat, b: bv32, c: bv32, d: bv32): bv32 {
    if i < 16 then FF(b, c, d) else if i < 32 then FG(b, c, d) else if i < 48 then FH(b, c, d) else FI(b, c, d)
  }

  /** The word arguments of the invocations of OP, round by round. */
  function WordArguments(round: nat): (k: seq<nat>)
    ensures |k| == 16
  {
    match round
    case 0 => [0, 1, 2, 3, 4, 5, 6, 7, 8, 9, 10, 11, 12, 13, 14, 15]
    case 1 => [1, 6, 11, 0, 5, 10, 15, 4, 9, 14, 3, 8, 13, 2, 7, 12]
    case 2 => [5, 8, 11, 14, 1, 4, 7, 10, 13, 0, 3, 6, 9, 12, 15, 2]
    case _ => [0, 7, 14, 5, 12, 3, 10, 1, 8, 15, 6, 13, 4, 11, 2, 9]
  }

  /** The shift arguments. */
  function ShiftArguments(round: nat): (k: seq<nat>)
    ensures |k| == 16
  {
    match round
    case 0 => [7, 12, 17, 22, 7, 12, 17, 22, 7, 12, 17, 22, 7, 12, 17, 22]
    case 1 => [5, 9, 14, 20, 5, 9, 14, 20, 5, 9, 14, 20, 5, 9, 14, 20]
    case 2 => [4, 11, 16, 23, 4, 11, 16, 23, 4, 11, 16, 23, 4, 11, 16, 23]
    case _ => [6, 10, 15, 21, 6, 10, 15, 21, 6, 10, 15, 21, 6, 10, 15, 21]
  }

  lemma ArgumentsCorrect(i: nat)
    requires i < 64
    ensures WordArguments(i / 16)[i % 16] == WordIndex(i) && ShiftArguments(i / 16)[i % 16] == Shift(i)
  {
    hide WordArguments, ShiftArguments, WordIndex, Shift;
    assert i == i / 16 * 16 + i % 16;
    if i / 16 == 0 {
      Round1(i % 16);
    } else if i / 16 == 1 {
      Round2(i % 16);
    } else if i / 16 == 2 {
      Round3(i % 16);
    } else {
      Round4(i % 16);
    }
  }

  lemma Round1(j: nat)
    requires j < 16
    ensures WordArguments(0)[j] == WordIndex(0 + j) && ShiftArguments(0)[j] == Shift(0 + j)
  {
    match j
    case 0 =>
    case 1 =>
    case 2 =>
    case 3 =>
    case 4 =>
    case 5 =>
    case 6 =>
    case 7 =>
    case 8 =>
    case 9 =>
    case 10 =>
    case 11 =>
    case 12 =>
    case 13 =>
    case 14 =>
    case _ =>
  }

  lemma Round2(j: nat)
    requires j < 16
    ensures WordArguments(1)[j] == WordIndex(16 + j) && ShiftArguments(1)[j] == Shift(16 + j)
  {
    match j
    case 0 =>
    case 1 =>
    case 2 =>
    case 3 =>
    case 4 =>
    case 5 =>
    case 6 =>
    case 7 =>
    case 8 =>
    case 9 =>
    case 10 =>
    case 11 =>
    case 12 =>
    case 13 =>
    case 14 =>
    case _ =>
  }

  lemma Round3(j: nat)
    requires j < 16
    ensures WordArguments(2)[j] == WordIndex(32 + j) && ShiftArguments(2)[j] == Shift(32 + j)
  {
    match j
    case 0 =>
    case 1 =>
    case 2 =>
    case 3 =>
    case 4 =>
    case 5 =>
    case 6 =>
    case 7 =>
    case 8 =>
    case 9 =>
    case 10 =>
    case 11 =>
    case 12 =>
    case 13 =>
    case 14 =>
    case _ =>
  }

  lemma Round4(j: nat)
    requires j < 16
    ensures WordArguments(3)[j] == WordIndex(48 + j) && ShiftArguments(3)[j] == Shift(48 + j)
  {
    match j
    case 0 =>
    case 1 =>
    case 2 =>
    case 3 =>
    case 4 =>
    case 5 =>
    case 6 =>
    case 7 =>
    case 8 =>
    case 9 =>
    case 10 =>
    case 11 =>
    case 12 =>
    case 13 =>
    case 14 =>
    case _ =>
  }

  const CODE: Variant :=
    Variant(64, (i: nat) => Op(if i < 64 then WordArguments(i / 16)[i % 16] else 0,
                               if i < 64 then ShiftArguments(i / 16)[i % 16] else 0,
                        if i < 64 then Constant(i) else 0),
            (i: nat, b, c, d) => FastFunction(i, b, c, d), true)

  lemma FFIsF(b: bv32, c: bv32, d: bv32)
    ensures FF(b, c, d) == F(b, c, d)
  {
    hide FF, F;
    FFBits(b, c, d);
    FBits(b, c, d);
  }

  lemma FFBits(b: bv32, c: bv32, d: bv32)
    ensures FF(b, c, d) == (b & c) | (!b & d)
  {
  }

  lemma FBits(b: bv32, c: bv32, d: bv32)
    ensures F(b, c, d) == (b & c) | (!b & d)
  {
  }

  lemma FTurned(b: bv32, c: bv32, d: bv32)
    ensures F(d, b, c) == G(b, c, d)
  {
  }

  lemma FHIsH(b: bv32, c: bv32, d: bv32)
    ensures FH(b, c, d) == H(b, c, d)
  {
  }

  lemma FIIsI(b: bv32, c: bv32, d: bv32)
    ensures FI(b, c, d) == I(b, c, d)
  {
  }

  lemma FastFunctionCorrect(i: nat, b: bv32, c: bv32, d: bv32)
    ensures FastFunction(i, b, c, d) == RoundFunction(i, b, c, d)
  {
    hide FF, FH, FI, F, G, H, I;
    FFIsF(b, c, d);
    FFIsF(d, b, c);
    FTurned(b, c, d);
    FHIsH(b, c, d);
    FIIsI(b, c, d);
  }

  /** The arguments and functions in the code are those of the definition. */
  lemma CodeRefinesDefinition()
    ensures DEFINITION.Valid() && Refines(CODE, DEFINITION)
  {
    hide WordIndex, Shift, WordArguments, ShiftArguments, Constant, FastFunction, RoundFunction;
    forall i: nat | i < 64
      ensures CODE.op(i) == DEFINITION.op(i) && DEFINITION.op(i).Valid()
    {
      ArgumentsCorrect(i);
      ArgumentsValid(i);
    }
    forall i: nat, b, c, d
      ensures CODE.mix(i, b, c, d) == DEFINITION.mix(i, b, c, d)
    {
      FastFunctionCorrect(i, b, c, d);
    }
  }

  lemma ArgumentsValid(i: nat)
    ensures WordIndex(i) < 16 && Shift(i) <= 32
  {
  }

  /** The registers after one more block. */
  function Compress(regs: Digest.Registers, block: seq<Byte>): Digest.Registers {
    CodeRefinesDefinition();
    if |regs| == 4 && |block| == 64 then
      ToRegisters(FromRegisters(regs), Steps(DEFINITION, block, FromRegisters(regs), 64))
    else regs
  }

  /** MD5 as gl/md5.c sets it up. */
  const ALGORITHM: Digest.Algorithm :=
    Digest.Algorithm([0x67452301, 0xefcdab89, 0x98badcfe, 0x10325476], (r, b) => Compress(r, b), false)

  lemma AlgorithmSound()
    ensures ALGORITHM.Sound() && |ALGORITHM.initial| == 4 && !ALGORITHM.bigEndian
  {
    hide Steps, DEFINITION, CODE;
  }

  /** One block of `md5_process_block` */
  method CompressBlock(regs: Digest.Registers, block: seq<Byte>) returns (r: Digest.Registers)
    requires |regs| == 4 && |block| == 64
    ensures r == Compress(regs, block)
  {
    hide WordIndex, Shift, WordArguments, ShiftArguments, Constant, FastFunction, RoundFunction, Steps;
    CodeRefinesDefinition();
    r := MdRounds.CompressBlock(DEFINITION, CODE, regs, block);
  }

  /** md5_init_ctx, md5_process_bytes for each piece, and md5_finish_ctx: the MD5 digest of the pieces together. */
  method DigestOfPieces(pieces: seq<array<Byte>>, addresses: seq<nat>, strictAlignment: bool)
      returns (resbuf: array<Byte>)
    requires |addresses| == |pieces|
    requires forall k :: 0 <= k < |pieces| ==> pieces[k].Length <= SIZE_MAX
    ensures resbuf.Length == 16
    ensures resbuf[..] == Digest.DigestOf(ALGORITHM, Flatten(Digest.Contents(pieces)))
  {
    hide ALGORITHM, Compress, Flatten, Digest.DigestOf;
    AlgorithmSound();
    resbuf := Digest.DigestOfPieces(ALGORITHM, pieces, addresses, strictAlignment);
  }
}
