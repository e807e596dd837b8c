/** gl/md4.c: the block function of MD4. */
module Md4 {
  import opened MachineInts
  import opened Bytes
  import opened MdRounds
  import Digest

  // ----- Section 3.4 of RFC 1320 -----

  function F(x: bv32, y: bv32, z: bv32): bv32 { (x & y) | (!x & z) }
  function G(x: bv32, y: bv32, z: bv32): bv32 { (x & y) | (x & z) | (y & z) }
  function H(x: bv32, y: bv32, z: bv32): bv32 { x ^ y ^ z }

  function RoundFunction(i: nat, x: bv32, y: bv32, z: bv32): bv32 {
    if i < 16 then F(x, y, z) else if i < 32 then G(x, y, z) else H(x, y, z)
  }

  /** The word of step i: in order, by columns, and with the two bits of row and column reversed. */
  function WordIndex(i: nat): nat {
    if i < 16 then i
    else if i < 32 then i % 4 * 4 + i / 4 % 4
    else Reversed(i % 4) * 4 + Reversed(i / 4 % 4)
  }

  /** Two bits, exchanged. */
  function Reversed(x: nat): nat {
    if x == 1 then 2 else if x == 2 then 1 else x
  }

  function Shift(i: nat): nat {
    (if i < 16 then [3, 7, 11, 19] else if i < 32 then [3, 5, 9, 13] else [3, 9, 11, 15])[i % 4]
  }

  function Constant(i: nat): bv32 {
    if i < 16 then 0 else if i < 32 then 0x5a827999 else 0x6ed9eba1
  }

  const DEFINITION: Variant :=
    Variant(48, (i: nat) => Op(WordIndex(i) % 16, Shift(i), Constant(i)),
            (i: nat, x, y, z) => RoundFunction(i, x, y, z), false)

  // ----- The code -----

  /** The macro F of the code. */
  function FastF(x: bv32, y: bv32, z: bv32): bv32 { z ^ (x & (y ^ z)) }

  function FastFunction(i: nat, b: bv32, c: bv32, d: bv32): bv32 {
    if i < 16 then FastF(b, c, d) else if i < 32 then G(b, c, d) else H(b, c, d)
  }

  /** The word arguments of the invocations of R1, R2 and R3, round by round. */
  function WordArguments(round: nat): (k: seq<nat>)
    ensures |k| == 16
  {
    match round
    case 0 => [0, 1, 2, 3, 4, 5, 6, 7, 8, 9, 10, 11, 12, 13, 14, 15]
    case 1 => [0, 4, 8, 12, 1, 5, 9, 13, 2, 6, 10, 14, 3, 7, 11, 15]
    case _ => [0, 8, 4, 12, 2, 10, 6, 14, 1, 9, 5, 13, 3, 11, 7, 15]
  }

  /** The shift arguments. */
  function ShiftArguments(round: nat): (k: seq<nat>)
    ensures |k| == 16
  {
    match round
    case 0 => [3, 7, 11, 19, 3, 7, 11, 19, 3, 7, 11, 19, 3, 7, 11, 19]
    case 1 => [3, 5, 9, 13, 3, 5, 9, 13, 3, 5, 9, 13, 3, 5, 9, 13]
    case _ => [3, 9, 11, 15, 3, 9, 11, 15, 3, 9, 11, 15, 3, 9, 11, 15]
  }

  lemma ArgumentsCorrect(i: nat)
    requires i < 48
    ensures WordArguments(i / 16)[i % 16] == WordIndex(i) < 16 && ShiftArguments(i / 16)[i % 16] == Shift(i)
  {
    hide WordArguments, ShiftArguments, WordIndex, Shift;
    assert i == i / 16 * 16 + i % 16;
    if i / 16 == 0 {
      Round1(i % 16);
    } else if i / 16 == 1 {
      Round2(i % 16);
    } else {
      Round3(i % 16);
    }
  }

  lemma Round1(j: nat)
    requires j < 16
    ensures WordArguments(0)[j] == WordIndex(0 + j) < 16 && ShiftArguments(0)[j] == Shift(0 + j)
  {
    match j
    case 0 =>
    case 1 =>
    case 2 =>
    case 3 =>
    case 4 =>
    case 5 =>
    case 6 =>
    case 7 =>
    case 8 =>
    case 9 =>
    case 10 =>
    case 11 =>
    case 12 =>
    case 13 =>
    case 14 =>
    case _ =>
  }

  lemma Round2(j: nat)
    requires j < 16
    ensures WordArguments(1)[j] == WordIndex(16 + j) < 16 && ShiftArguments(1)[j] == Shift(16 + j)
  {
    match j
    case 0 =>
    case 1 =>
    case 2 =>
    case 3 =>
    case 4 =>
    case 5 =>
    case 6 =>
    case 7 =>
    case 8 =>
    case 9 =>
    case 10 =>
    case 11 =>
    case 12 =>
    case 13 =>
    case 14 =>
    case _ =>
  }

  lemma Round3(j: nat)
    requires j < 16
    ensures WordArguments(2)[j] == WordIndex(32 + j) < 16 && ShiftArguments(2)[j] == Shift(32 + j)
  {
    match j
    case 0 =>
    case 1 =>
    case 2 =>
    case 3 =>
    case 4 =>
    case 5 =>
    case 6 =>
    case 7 =>
    case 8 =>
    case 9 =>
    case 10 =>
    case 11 =>
    case 12 =>
    case 13 =>
    case 14 =>
    case _ =>
  }

  const CODE: Variant :=
    Variant(48, (i: nat) => Op(if i < 48 then WordArguments(i / 16)[i % 16] else 0,
                               if i < 48 then ShiftArguments(i / 16)[i % 16] else 0,
                               Constant(i)),
            (i: nat, b, c, d) => FastFunction(i, b, c, d), false)

  lemma FastFIsF(b: bv32, c: bv32, d: bv32)
    ensures FastF(b, c, d) == F(b, c, d)
  {
    hide FastF, F;
    FastFBits(b, c, d);
    FBits(b, c, d);
  }

  lemma FastFBits(b: bv32, c: bv32, d: bv32)
    ensures FastF(b, c, d) == (b & c) | (!b & d)
  {
  }

  lemma FBits(b: bv32, c: bv32, d: bv32)
    ensures F(b, c, d) == (b & c) | (!b & d)
  {
  }

  lemma FastFunctionCorrect(i: nat, b: bv32, c: bv32, d: bv32)
    ensures FastFunction(i, b, c, d) == RoundFunction(i, b, c, d)
  {
    hide FastF, F, G, H;
    FastFIsF(b, c, d);
  }

  /** The arguments and functions in the code are those of the definition. */
  lemma CodeRefinesDefinition()
    ensures DEFINITION.Valid() && Refines(CODE, DEFINITION)
  {
    hide WordIndex, Shift, WordArguments, ShiftArguments, Constant, FastFunction, RoundFunction;
    forall i: nat | i < 48
      ensures CODE.op(i) == DEFINITION.op(i) && DEFINITION.op(i).Valid()
    {
      ArgumentsCorrect(i);
      ShiftValid(i);
    }
    forall i: nat, b, c, d
      ensures CODE.mix(i, b, c, d) == DEFINITION.mix(i, b, c, d)
    {
      FastFunctionCorrect(i, b, c, d);
    }
  }

  lemma ShiftValid(i: nat)
    ensures Shift(i) <= 32
  {
  }

  /** The registers after one more block. */
  function Compress(regs: Digest.Registers, block: seq<Byte>): Digest.Registers {
    CodeRefinesDefinition();
    if |regs| == 4 && |block| == 64 then
      ToRegisters(FromRegisters(regs), Steps(DEFINITION, block, FromRegisters(regs), 48))
    else regs
  }

  /** MD4 as gl/md4.c sets it up. */
  const ALGORITHM: Digest.Algorithm :=
    Digest.Algorithm([0x67452301, 0xefcdab89, 0x98badcfe, 0x10325476], (r, b) => Compress(r, b), false)

  lemma AlgorithmSound()
    ensures ALGORITHM.Sound() && |ALGORITHM.initial| == 4 && !ALGORITHM.bigEndian
  {
    hide Steps, DEFINITION, CODE;
  }

  /** One block of `md4_process_block` */
  method CompressBlock(regs: Digest.Registers, block: seq<Byte>) returns (r: Digest.Registers)
    requires |regs| == 4 && |block| == 64
    ensures r == Compress(regs, block)
  {
    hide WordIndex, Shift, WordArguments, ShiftArguments, Constant, FastFunction, RoundFunction, Steps;
    CodeRefinesDefinition();
    r := MdRounds.CompressBlock(DEFINITION, CODE, regs, block);
  }

  /** md4_init_ctx, md4_process_bytes for each piece, and md4_finish_ctx: the MD4 digest of the pieces together. */
  method DigestOfPieces(pieces: seq<array<Byte>>, addresses: seq<nat>, strictAlignment: bool)
      returns (resbuf: array<Byte>)
    requires |addresses| == |pieces|
    requires forall k :: 0 <= k < |pieces| ==> pieces[k].Length <= SIZE_MAX
    ensures resbuf.Length == 16
    ensures resbuf[..] == Digest.DigestOf(ALGORITHM, Flatten(Digest.Contents(pieces)))
  {
    hide ALGORITHM, Compress, Flatten, Digest.DigestOf;
    AlgorithmSound();
    resbuf := Digest.DigestOfPiecesMd4(ALGORITHM, pieces, addresses, strictAlignment);
  }
}
