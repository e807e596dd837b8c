/** gl/des.c: the permutations and the round function of DES, and what they make of single blocks. */
module Des {
  import opened MachineInts
  import opened Bytes
  import opened Feistel
  import opened DesTables

  // ----- DO_PERMUTATION, for each of its offsets and masks: bits of the two words change places -----

  function Mix4(a: bv32, b: bv32): bv32 { ((a >> 4) ^ b) & 0x0f0f0f0f }
  function Up4(t: bv32): bv32 { t << 4 }

  function Perm4(p: Pair): Pair {
    var t := Mix4(p.a, p.b);
    Pair(Xor(p.a, Up4(t)), Xor(p.b, t))
  }

  lemma Mix4Not(a: bv32, b: bv32)
    ensures Mix4(Not(a), Not(b)) == Mix4(a, b)
  {
  }

  lemma Mix4Again(a: bv32, b: bv32)
    ensures var t := Mix4(a, b); Mix4(Xor(a, Up4(t)), Xor(b, t)) == t
  {
  }

  lemma Perm4Twice(p: Pair)
    ensures Perm4(Perm4(p)) == p
  {
    hide Xor, Mix4, Up4;
    var t := Mix4(p.a, p.b);
    Mix4Again(p.a, p.b);
    XorTwice(p.a, Up4(t));
    XorTwice(p.b, t);
  }

  lemma Perm4Complement(p: Pair)
    ensures Perm4(p.Complement()) == Perm4(p).Complement()
  {
    hide Xor, Not, Mix4, Up4;
    var t := Mix4(p.a, p.b);
    Mix4Not(p.a, p.b);
    NotXor(p.a, Up4(t));
    NotXor(p.b, t);
  }

  function Mix16(a: bv32, b: bv32): bv32 { ((a >> 16) ^ b) & 0x0000ffff }
  function Up16(t: bv32): bv32 { t << 16 }

  function Perm16(p: Pair): Pair {
    var t := Mix16(p.a, p.b);
    Pair(Xor(p.a, Up16(t)), Xor(p.b, t))
  }

  lemma Mix16Not(a: bv32, b: bv32)
    ensures Mix16(Not(a), Not(b)) == Mix16(a, b)
  {
  }

  lemma Mix16Again(a: bv32, b: bv32)
    ensures var t := Mix16(a, b); Mix16(Xor(a, Up16(t)), Xor(b, t)) == t
  {
  }

  lemma Perm16Twice(p: Pair)
    ensures Perm16(Perm16(p)) == p
  {
    hide Xor, Mix16, Up16;
    var t := Mix16(p.a, p.b);
    Mix16Again(p.a, p.b);
    XorTwice(p.a, Up16(t));
    XorTwice(p.b, t);
  }

  lemma Perm16Complement(p: Pair)
    ensures Perm16(p.Complement()) == Perm16(p).Complement()
  {
    hide Xor, Not, Mix16, Up16;
    var t := Mix16(p.a, p.b);
    Mix16Not(p.a, p.b);
    NotXor(p.a, Up16(t));
    NotXor(p.b, t);
  }

  function Mix2(a: bv32, b: bv32): bv32 { ((a >> 2) ^ b) & 0x33333333 }
  function Up2(t: bv32): bv32 { t << 2 }

  function Perm2(p: Pair): Pair {
    var t := Mix2(p.a, p.b);
    Pair(Xor(p.a, Up2(t)), Xor(p.b, t))
  }

  lemma Mix2Not(a: bv32, b: bv32)
    ensures Mix2(Not(a), Not(b)) == Mix2(a, b)
  {
  }

  lemma Mix2Again(a: bv32, b: bv32)
    ensures var t := Mix2(a, b); Mix2(Xor(a, Up2(t)), Xor(b, t)) == t
  {
  }

  lemma Perm2Twice(p: Pair)
    ensures Perm2(Perm2(p)) == p
  {
    hide Xor, Mix2, Up2;
    var t := Mix2(p.a, p.b);
    Mix2Again(p.a, p.b);
    XorTwice(p.a, Up2(t));
    XorTwice(p.b, t);
  }

  lemma Perm2Complement(p: Pair)
    ensures Perm2(p.Complement()) == Perm2(p).Complement()
  {
    hide Xor, Not, Mix2, Up2;
    var t := Mix2(p.a, p.b);
    Mix2Not(p.a, p.b);
    NotXor(p.a, Up2(t));
    NotXor(p.b, t);
  }

  function Mix8(a: bv32, b: bv32): bv32 { ((a >> 8) ^ b) & 0x00ff00ff }
  function Up8(t: bv32): bv32 { t << 8 }

  function Perm8(p: Pair): Pair {
    var t := Mix8(p.a, p.b);
    Pair(Xor(p.a, Up8(t)), Xor(p.b, t))
  }

  lemma Mix8Not(a: bv32, b: bv32)
    ensures Mix8(Not(a), Not(b)) == Mix8(a, b)
  {
  }

  lemma Mix8Again(a: bv32, b: bv32)
    ensures var t := Mix8(a, b); Mix8(Xor(a, Up8(t)), Xor(b, t)) == t
  {
  }

  lemma Perm8Twice(p: Pair)
    ensures Perm8(Perm8(p)) == p
  {
    hide Xor, Mix8, Up8;
    var t := Mix8(p.a, p.b);
    Mix8Again(p.a, p.b);
    XorTwice(p.a, Up8(t));
    XorTwice(p.b, t);
  }

  lemma Perm8Complement(p: Pair)
    ensures Perm8(p.Complement()) == Perm8(p).Complement()
  {
    hide Xor, Not, Mix8, Up8;
    var t := Mix8(p.a, p.b);
    Mix8Not(p.a, p.b);
    NotXor(p.a, Up8(t));
    NotXor(p.b, t);
  }

  function Mix0(a: bv32, b: bv32): bv32 { (a ^ b) & 0xaaaaaaaa }

  /** The odd bits change places. */
  function Interleave(p: Pair): Pair {
    var t := Mix0(p.a, p.b);
    Pair(Xor(p.a, t), Xor(p.b, t))
  }

  lemma Mix0Not(a: bv32, b: bv32)
    ensures Mix0(Not(a), Not(b)) == Mix0(a, b)
  {
  }

  lemma Mix0Again(a: bv32, b: bv32)
    ensures var t := Mix0(a, b); Mix0(Xor(a, t), Xor(b, t)) == t
  {
  }

  lemma InterleaveTwice(p: Pair)
    ensures Interleave(Interleave(p)) == p
  {
    hide Xor, Mix0;
    var t := Mix0(p.a, p.b);
    Mix0Again(p.a, p.b);
    XorTwice(p.a, t);
    XorTwice(p.b, t);
  }

  lemma InterleaveComplement(p: Pair)
    ensures Interleave(p.Complement()) == Interleave(p).Complement()
  {
    hide Xor, Not, Mix0;
    var t := Mix0(p.a, p.b);
    Mix0Not(p.a, p.b);
    NotXor(p.a, t);
    NotXor(p.b, t);
  }

  function Rot1(x: bv32): bv32 { (x << 1) | (x >> 31) }
  function Rot31(x: bv32): bv32 { (x << 31) | (x >> 1) }

  lemma RotInverse(x: bv32)
    ensures Rot31(Rot1(x)) == x && Rot1(Rot31(x)) == x
  {
  }

  lemma RotNot(x: bv32)
    ensures Rot1(!x) == !Rot1(x) && Rot31(!x) == !Rot31(x)
  {
  }

  lemma RotComplement(x: bv32)
    ensures Rot1(Not(x)) == Not(Rot1(x)) && Rot31(Not(x)) == Not(Rot31(x))
  {
    hide Rot1, Rot31;
    RotNot(x);
  }

  // ----- Initial and final permutation -----

  /** INITIAL_PERMUTATION (left, temp, right) */
  function InitialPermutation(p: Pair): Pair {
    var p1 := Perm16(Perm4(p));
    var p2 := Perm8(Perm2(p1.Swap()));
    var p3 := Interleave(Pair(p2.b, Rot1(p2.a)));
    Pair(Rot1(p3.a), p3.b)
  }

  /** FINAL_PERMUTATION (left, temp, right) */
  function FinalPermutation(p: Pair): Pair {
    var p3 := Interleave(Pair(Rot31(p.a), p.b));
    var p1 := Perm2(Perm8(Pair(Rot31(p3.b), p3.a)));
    Perm4(Perm16(p1.Swap()))
  }

  lemma FinalOfInitial(p: Pair)
    ensures FinalPermutation(InitialPermutation(p)) == p
  {
    hide Perm4, Perm16, Perm2, Perm8, Interleave, Rot1, Rot31;
    var p1 := Perm16(Perm4(p));
    var p2 := Perm8(Perm2(p1.Swap()));
    var p3 := Interleave(Pair(p2.b, Rot1(p2.a)));
    RotInverse(p3.a);
    InterleaveTwice(Pair(p2.b, Rot1(p2.a)));
    RotInverse(p2.a);
    Perm8Twice(Perm2(p1.Swap()));
    Perm2Twice(p1.Swap());
    Perm16Twice(Perm4(p));
    Perm4Twice(p);
  }

  lemma InitialOfFinal(p: Pair)
    ensures InitialPermutation(FinalPermutation(p)) == p
  {
    hide Perm4, Perm16, Perm2, Perm8, Interleave, Rot1, Rot31;
    var p3 := Interleave(Pair(Rot31(p.a), p.b));
    var p2 := Pair(Rot31(p3.b), p3.a);
    var p1 := Perm2(Perm8(p2)).Swap();
    Perm4Twice(Perm16(p1));
    Perm16Twice(p1);
    Perm2Twice(Perm8(p2));
    Perm8Twice(p2);
    RotInverse(p3.b);
    InterleaveTwice(Pair(Rot31(p.a), p.b));
    RotInverse(p.a);
  }

  lemma InitialComplement(p: Pair)
    ensures InitialPermutation(p.Complement()) == InitialPermutation(p).Complement()
  {
    hide Perm4, Perm16, Perm2, Perm8, Interleave, Rot1, Not;
    var p1 := Perm16(Perm4(p));
    var p2 := Perm8(Perm2(p1.Swap()));
    Perm4Complement(p);
    Perm16Complement(Perm4(p));
    Perm2Complement(p1.Swap());
    Perm8Complement(Perm2(p1.Swap()));
    RotComplement(p2.a);
    InterleaveComplement(Pair(p2.b, Rot1(p2.a)));
    RotComplement(Interleave(Pair(p2.b, Rot1(p2.a))).a);
  }

  lemma FinalComplement(p: Pair)
    ensures FinalPermutation(p.Complement()) == FinalPermutation(p).Complement()
  {
    hide Perm4, Perm16, Perm2, Perm8, Interleave, Rot31, Not;
    var p3 := Interleave(Pair(Rot31(p.a), p.b));
    var p2 := Pair(Rot31(p3.b), p3.a);
    var p1 := Perm2(Perm8(p2)).Swap();
    RotComplement(p.a);
    InterleaveComplement(Pair(Rot31(p.a), p.b));
    RotComplement(p3.b);
    Perm8Complement(p2);
    Perm2Complement(Perm8(p2));
    Perm16Complement(p1);
    Perm4Complement(Perm16(p1));
  }

  // ----- The round function -----

  // The four six-bit fields of `work` that index the s-boxes.

  function Field0(w: bv32): bv6 { (w & 0x3f) as bv6 }
  function Field8(w: bv32): bv6 { ((w >> 8) & 0x3f) as bv6 }
  function Field16(w: bv32): bv6 { ((w >> 16) & 0x3f) as bv6 }
  function Field24(w: bv32): bv6 { ((w >> 24) & 0x3f) as bv6 }

  function Rot28(x: bv32): bv32 { (x << 28) | (x >> 4) }

  /** The four boxes that the first half of a round looks up. */
  function EvenBoxes(work: bv32): bv32 {
    SBox8(Field0(work)) ^ SBox6(Field8(work)) ^ SBox4(Field16(work)) ^ SBox2(Field24(work))
  }

  /** The four boxes that the second half of a round looks up. */
  function OddBoxes(work: bv32): bv32 {
    SBox7(Field0(work)) ^ SBox5(Field8(work)) ^ SBox3(Field16(work)) ^ SBox1(Field24(work))
  }

  /** What DES_ROUND mixes into `to`. */
  function DesRound(from: bv32, k0: bv32, k1: bv32): bv32 {
    Xor(EvenBoxes(Xor(from, k0)), OddBoxes(Xor(Rot28(from), k1)))
  }

  const DES_ROUND: RoundFunction := (from, k0, k1) => DesRound(from, k0, k1)

  /** The s-box indices do not change when both the word and the subkey are complemented. */
  lemma FieldsUnchanged(x: bv32, k: bv32)
    ensures Field0(Xor(Not(x), Xor(k, 0x3f3f3f3f))) == Field0(Xor(x, k))
    ensures Field8(Xor(Not(x), Xor(k, 0x3f3f3f3f))) == Field8(Xor(x, k))
    ensures Field16(Xor(Not(x), Xor(k, 0x3f3f3f3f))) == Field16(Xor(x, k))
    ensures Field24(Xor(Not(x), Xor(k, 0x3f3f3f3f))) == Field24(Xor(x, k))
  {
  }

  lemma Rot28Not(x: bv32)
    ensures Rot28(!x) == !Rot28(x)
  {
  }

  lemma EvenUnchanged(x: bv32, k: bv32)
    ensures EvenBoxes(Xor(Not(x), Xor(k, SUBKEY_BITS))) == EvenBoxes(Xor(x, k))
  {
    hide Field0, Field8, Field16, Field24, Xor, Not;
    hide SBox1, SBox2, SBox3, SBox4, SBox5, SBox6, SBox7, SBox8;
    FieldsUnchanged(x, k);
  }

  lemma OddUnchanged(x: bv32, k: bv32)
    ensures OddBoxes(Xor(Not(x), Xor(k, SUBKEY_BITS))) == OddBoxes(Xor(x, k))
  {
    hide Field0, Field8, Field16, Field24, Xor, Not;
    hide SBox1, SBox2, SBox3, SBox4, SBox5, SBox6, SBox7, SBox8;
    FieldsUnchanged(x, k);
  }

  lemma BoxesUnchanged(x: bv32, k: bv32)
    ensures EvenBoxes(Xor(Not(x), Xor(k, SUBKEY_BITS))) == EvenBoxes(Xor(x, k))
    ensures OddBoxes(Xor(Not(x), Xor(k, SUBKEY_BITS))) == OddBoxes(Xor(x, k))
  {
    hide EvenBoxes, OddBoxes, Xor, Not;
    EvenUnchanged(x, k);
    OddUnchanged(x, k);
  }

  lemma DesRoundCancels()
    ensures Cancels(DES_ROUND)
  {
    hide EvenBoxes, OddBoxes, Rot28, Xor;
    forall x, k0, k1
      ensures DES_ROUND(Not(x), Xor(k0, SUBKEY_BITS), Xor(k1, SUBKEY_BITS)) == DES_ROUND(x, k0, k1)
    {
      BoxesUnchanged(x, k0);
      Rot28Not(x);
      BoxesUnchanged(Rot28(x), k1);
    }
  }

  // ----- Whole blocks -----

  /** gl_des_ecb_crypt between READ_64BIT_DATA and WRITE_64BIT_DATA, for a list of subkeys. */
  function Crypt(keys: seq<bv32>, p: Pair): Pair {
    FinalPermutation(Rounds(DES_ROUND, keys, InitialPermutation(p)).Swap())
  }

  lemma CryptUndone(keys: seq<bv32>, p: Pair)
    requires |keys| % 4 == 0
    ensures Crypt(Reversed(keys), Crypt(keys, p)) == p
  {
    hide InitialPermutation, FinalPermutation, Rounds, Reversed, DES_ROUND;
    var q := InitialPermutation(p);
    InitialOfFinal(Rounds(DES_ROUND, keys, q).Swap());
    RoundsUndone(DES_ROUND, keys, q);
    FinalOfInitial(p);
    assert q.Swap().Swap() == q;
  }

  function ReadBlock(data: seq<Byte>): Pair
    requires |data| == 8
  {
    Pair(FromBE(data[..4]), FromBE(data[4..]))
  }

  function WriteBlock(p: Pair): (data: seq<Byte>)
    ensures |data| == 8
  {
    BitsBE(p.a) + BitsBE(p.b)
  }

  lemma WordOfBytes(w: bv32)
    ensures FromBE(BitsBE(w)) == w
  {
  }

  lemma BytesOfWord(b: seq<Byte>)
    requires |b| == 4
    ensures BitsBE(FromBE(b)) == b
  {
    hide Join;
    BytesOfJoin(b[0], b[1], b[2], b[3]);
  }

  lemma BytesOfJoin(b0: Byte, b1: Byte, b2: Byte, b3: Byte)
    ensures var w := Join(b0, b1, b2, b3);
            && ((w >> 24) & 0xff) as Byte == b0 && ((w >> 16) & 0xff) as Byte == b1
            && ((w >> 8) & 0xff) as Byte == b2 && (w & 0xff) as Byte == b3
  {
  }

  lemma BlockOfPair(p: Pair)
    ensures ReadBlock(WriteBlock(p)) == p
  {
    hide BitsBE, FromBE;
    WordOfBytes(p.a);
    WordOfBytes(p.b);
    var d := WriteBlock(p);
    assert d[..4] == BitsBE(p.a) && d[4..] == BitsBE(p.b);
  }

  lemma PairOfBlock(data: seq<Byte>)
    requires |data| == 8
    ensures WriteBlock(ReadBlock(data)) == data
  {
    hide BitsBE, FromBE;
    BytesOfWord(data[..4]);
    BytesOfWord(data[4..]);
  }

  /** The effect on eight bytes. */
  function CryptBytes(keys: seq<bv32>, data: seq<Byte>): (r: seq<Byte>)
    requires |data| == 8
    ensures |r| == 8
  {
    WriteBlock(Crypt(keys, ReadBlock(data)))
  }

  lemma CryptBytesUndone(keys: seq<bv32>, data: seq<Byte>)
    requires |keys| % 4 == 0 && |data| == 8
    ensures CryptBytes(Reversed(keys), CryptBytes(keys, data)) == data
  {
    hide Crypt, Reversed, ReadBlock, WriteBlock;
    BlockOfPair(Crypt(keys, ReadBlock(data)));
    CryptUndone(keys, ReadBlock(data));
    PairOfBlock(data);
  }

  /** Flipping the used subkey bits and complementing the block complements the result. */
  lemma CryptComplement(keys: seq<bv32>, p: Pair)
    ensures Crypt(FlipKeys(keys), p.Complement()) == Crypt(keys, p).Complement()
  {
    hide InitialPermutation, FinalPermutation, Rounds, DES_ROUND, Not, Cancels;
    DesRoundCancels();
    InitialComplement(p);
    RoundsComplement(DES_ROUND, keys, InitialPermutation(p));
    FinalComplement(Rounds(DES_ROUND, keys, InitialPermutation(p)).Swap());
  }
}
