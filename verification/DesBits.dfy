/** Single bits of words, and where the permutations of gl/des.c take them. */
module DesBits {
  import opened Bytes
  import opened Feistel
  import opened Des
  import opened DesStandard

  // ----- Bits of words: number 0 is the lowest -----

  predicate Bit(w: bv32, k: bv5) { (w >> k) & 1 == 1 }

  lemma RawXor(x: bv32, y: bv32, k: bv5)
    ensures ((x ^ y) >> k) & 1 == ((x >> k) & 1) ^ ((y >> k) & 1)
  {
  }

  lemma BitOfXor(x: bv32, y: bv32, k: bv5)
    ensures Bit(x ^ y, k) == (Bit(x, k) != Bit(y, k))
  {
    RawXor(x, y, k);
  }

  lemma XorIs(x: bv32, y: bv32)
    ensures Xor(x, y) == x ^ y
  {
  }

  lemma BitXor(x: bv32, y: bv32, k: bv5)
    ensures Bit(Xor(x, y), k) == (Bit(x, k) != Bit(y, k))
  {
    hide Bit, Xor;
    XorIs(x, y);
    BitOfXor(x, y, k);
  }

  lemma Rot1Bit(x: bv32, k: bv5)
    ensures Bit(Rot1(x), k) == Bit(x, k - 1)
  {
  }

  // ----- Bits of pairs: the first word has the numbers from 0, the second those from 32 -----

  predicate PairBit(p: Pair, i: bv6) {
    Bit(if i & 32 == 0 then p.a else p.b, (i & 31) as bv5)
  }

  lemma SwapBit(p: Pair, i: bv6)
    ensures PairBit(p.Swap(), i) == PairBit(p, i ^ 32)
  {
    hide Bit;
  }

  /** Bit 5 of a number, exchanged with the bit m. */
  function Exchanged(i: bv6, m: bv6): bv6 {
    if (i & 32 == 0) == (i & m == 0) then i else i ^ 32 ^ m
  }

  lemma Mix4Bit(a: bv32, b: bv32, k: bv5)
    ensures Bit(Mix4(a, b), k) == (k & 4 == 0 && Bit(a, k ^ 4) != Bit(b, k))
  {
  }

  lemma Up4Bit(t: bv32, k: bv5)
    ensures k & 4 != 0 ==> Bit(Up4(t), k) == Bit(t, k ^ 4)
  {
  }

  lemma Up4Low(a: bv32, b: bv32, k: bv5)
    ensures k & 4 == 0 ==> !Bit(Up4(Mix4(a, b)), k)
  {
    calc {
      Bit(Up4(Mix4(a, b)), k);
      { hide Bit, Mix4; }
      Bit(Mix4(a, b) << 4, k);
    }
  }

  lemma Perm4Bit(p: Pair, i: bv6)
    ensures PairBit(Perm4(p), i) == PairBit(p, Exchanged(i, 4))
  {
    hide Bit, Xor, Mix4, Up4;
    var t, k := Mix4(p.a, p.b), (i & 31) as bv5;
    BitXor(p.a, Up4(t), k);
    BitXor(p.b, t, k);
    Up4Bit(t, k);
    Up4Low(p.a, p.b, k);
    Mix4Bit(p.a, p.b, k);
    Mix4Bit(p.a, p.b, k ^ 4);
  }

  lemma Mix16Bit(a: bv32, b: bv32, k: bv5)
    ensures Bit(Mix16(a, b), k) == (k & 16 == 0 && Bit(a, k ^ 16) != Bit(b, k))
  {
  }

  lemma Up16Bit(t: bv32, k: bv5)
    ensures k & 16 != 0 ==> Bit(Up16(t), k) == Bit(t, k ^ 16)
  {
  }

  lemma Up16Low(a: bv32, b: bv32, k: bv5)
    ensures k & 16 == 0 ==> !Bit(Up16(Mix16(a, b)), k)
  {
    calc {
      Bit(Up16(Mix16(a, b)), k);
      { hide Bit, Mix16; }
      Bit(Mix16(a, b) << 16, k);
    }
  }

  lemma Perm16Bit(p: Pair, i: bv6)
    ensures PairBit(Perm16(p), i) == PairBit(p, Exchanged(i, 16))
  {
    hide Bit, Xor, Mix16, Up16;
    var t, k := Mix16(p.a, p.b), (i & 31) as bv5;
    BitXor(p.a, Up16(t), k);
    BitXor(p.b, t, k);
    Up16Bit(t, k);
    Up16Low(p.a, p.b, k);
    Mix16Bit(p.a, p.b, k);
    Mix16Bit(p.a, p.b, k ^ 16);
  }

  lemma Mix2Bit(a: bv32, b: bv32, k: bv5)
    ensures Bit(Mix2(a, b), k) == (k & 2 == 0 && Bit(a, k ^ 2) != Bit(b, k))
  {
  }

  lemma Up2Bit(t: bv32, k: bv5)
    ensures k & 2 != 0 ==> Bit(Up2(t), k) == Bit(t, k ^ 2)
  {
  }

  lemma Up2Low(a: bv32, b: bv32, k: bv5)
    ensures k & 2 == 0 ==> !Bit(Up2(Mix2(a, b)), k)
  {
    calc {
      Bit(Up2(Mix2(a, b)), k);
      { hide Bit, Mix2; }
      Bit(Mix2(a, b) << 2, k);
    }
  }

  lemma Perm2Bit(p: Pair, i: bv6)
    ensures PairBit(Perm2(p), i) == PairBit(p, Exchanged(i, 2))
  {
    hide Bit, Xor, Mix2, Up2;
    var t, k := Mix2(p.a, p.b), (i & 31) as bv5;
    BitXor(p.a, Up2(t), k);
    BitXor(p.b, t, k);
    Up2Bit(t, k);
    Up2Low(p.a, p.b, k);
    Mix2Bit(p.a, p.b, k);
    Mix2Bit(p.a, p.b, k ^ 2);
  }

  lemma Mix8Bit(a: bv32, b: bv32, k: bv5)
    ensures Bit(Mix8(a, b), k) == (k & 8 == 0 && Bit(a, k ^ 8) != Bit(b, k))
  {
  }

  lemma Up8Bit(t: bv32, k: bv5)
    ensures k & 8 != 0 ==> Bit(Up8(t), k) == Bit(t, k ^ 8)
  {
  }

  lemma Up8Low(a: bv32, b: bv32, k: bv5)
    ensures k & 8 == 0 ==> !Bit(Up8(Mix8(a, b)), k)
  {
    calc {
      Bit(Up8(Mix8(a, b)), k);
      { hide Bit, Mix8; }
      Bit(Mix8(a, b) << 8, k);
    }
  }

  lemma Perm8Bit(p: Pair, i: bv6)
    ensures PairBit(Perm8(p), i) == PairBit(p, Exchanged(i, 8))
  {
    hide Bit, Xor, Mix8, Up8;
    var t, k := Mix8(p.a, p.b), (i & 31) as bv5;
    BitXor(p.a, Up8(t), k);
    BitXor(p.b, t, k);
    Up8Bit(t, k);
    Up8Low(p.a, p.b, k);
    Mix8Bit(p.a, p.b, k);
    Mix8Bit(p.a, p.b, k ^ 8);
  }

  lemma Mix0Bit(a: bv32, b: bv32, k: bv5)
    ensures Bit(Mix0(a, b), k) == (k & 1 == 1 && Bit(a, k) != Bit(b, k))
  {
  }

  lemma InterleaveBit(p: Pair, i: bv6)
    ensures PairBit(Interleave(p), i) == PairBit(p, OddExchanged(i))
  {
    hide Bit, Xor, Mix0;
    var t, k := Mix0(p.a, p.b), (i & 31) as bv5;
    BitXor(p.a, t, k);
    BitXor(p.b, t, k);
    Mix0Bit(p.a, p.b, k);
  }

  lemma Rot31Bit(x: bv32, k: bv5)
    ensures Bit(Rot31(x), k) == Bit(x, k + 1)
  {
  }

  // ----- The initial and the final permutation -----

  /** Between the two permutations of the code all words are rotated to the left by one bit; this is without that. */
  function Unrotated(p: Pair): Pair {
    Pair(Rot31(p.a), Rot31(p.b))
  }

  // Where bit i comes from, stage by stage.

  function SecondBack(i: bv6): bv6 { if i & 32 == 0 then i else 32 | ((i + 1) & 31) }
  function OddExchanged(i: bv6): bv6 { if i & 1 == 1 then i ^ 32 else i }
  function FirstBack(i: bv6): bv6 { if i & 32 == 0 then i ^ 32 else (i - 1) & 31 }

  function InitialSource(i: bv6): bv6 {
    var i3 := FirstBack(OddExchanged(SecondBack(i)));
    Exchanged(Exchanged(Exchanged(Exchanged(i3, 8), 2) ^ 32, 16), 4)
  }

  /** The same in one expression: the bits of the number change places. */
  function Turned(i: bv6): bv6 {
    ((i & 4) << 3) | ((!i & 3) << 3) | ((i & 24) >> 2) | (i >> 5)
  }

  lemma SourceTurned(i: bv6)
    ensures InitialSource(i) == Turned(i)
  {
  }

  lemma InitialBit(p: Pair, i: bv6)
    ensures PairBit(Unrotated(InitialPermutation(p)), i) == PairBit(p, InitialSource(i))
  {
    hide PairBit, Perm4, Perm16, Perm2, Perm8, Interleave, Rot1, Rot31, Exchanged, SecondBack, OddExchanged, FirstBack;
    var p2 := Perm8(Perm2(Perm16(Perm4(p)).Swap()));
    var r := Pair(p2.b, Rot1(p2.a));
    var p3 := Interleave(r);
    RotInverse(p3.a);
    SecondRotated(p3, i);
    InterleaveBit(r, SecondBack(i));
    FirstRotated(p2, OddExchanged(SecondBack(i)));
    FourStagesBit(p, FirstBack(OddExchanged(SecondBack(i))));
  }

  lemma FourStagesBit(p: Pair, i: bv6)
    ensures PairBit(Perm8(Perm2(Perm16(Perm4(p)).Swap())), i)
         == PairBit(p, Exchanged(Exchanged(Exchanged(Exchanged(i, 8), 2) ^ 32, 16), 4))
  {
    hide PairBit, Perm4, Perm16, Perm2, Perm8, Exchanged, Pair.Swap;
    var p1 := Perm16(Perm4(p));
    var i1, i2 := Exchanged(i, 8), Exchanged(Exchanged(i, 8), 2);
    Perm8Bit(Perm2(p1.Swap()), i);
    Perm2Bit(p1.Swap(), i1);
    SwapBit(p1, i2);
    Perm16Bit(Perm4(p), i2 ^ 32);
    Perm4Bit(p, Exchanged(i2 ^ 32, 16));
  }

  lemma SecondRotated(p: Pair, i: bv6)
    ensures PairBit(Pair(p.a, Rot31(p.b)), i) == PairBit(p, SecondBack(i))
  {
    hide Bit, Rot31;
    Rot31Bit(p.b, (i & 31) as bv5);
  }

  lemma FirstRotated(p: Pair, i: bv6)
    ensures PairBit(Pair(p.b, Rot1(p.a)), i) == PairBit(p, FirstBack(i))
  {
    hide Bit, Rot1;
    Rot1Bit(p.a, (i & 31) as bv5);
  }

  // ----- Bits in the order of the standard: the highest bit of the first word is the first -----

  /** The number here of the bit after j others. */
  function Place(j: nat): bv5
    requires j < 32
  {
    if j < 16 then
      match j
      case 0 => 31 case 1 => 30 case 2 => 29 case 3 => 28 case 4 => 27 case 5 => 26 case 6 => 25 case 7 => 24
      case 8 => 23 case 9 => 22 case 10 => 21 case 11 => 20 case 12 => 19 case 13 => 18 case 14 => 17 case _ => 16
    else
      match j
      case 16 => 15 case 17 => 14 case 18 => 13 case 19 => 12 case 20 => 11 case 21 => 10 case 22 => 9 case 23 => 8
      case 24 => 7 case 25 => 6 case 26 => 5 case 27 => 4 case 28 => 3 case 29 => 2 case 30 => 1 case _ => 0
  }

  function WordBits(w: bv32): (b: Bits)
    ensures |b| == 32 && forall j :: 0 <= j < 32 ==> b[j] == Bit(w, Place(j))
  {
    seq(32, j requires 0 <= j < 32 => Bit(w, Place(j)))
  }

  function BlockBits(p: Pair): (b: Bits)
    ensures |b| == 64
  {
    WordBits(p.a) + WordBits(p.b)
  }

  function PairPlace(j: nat): bv6
    requires j < 64
  {
    if j < 32 then Place(j) as bv6 else 32 | (Place(j - 32) as bv6)
  }

  lemma BlockBitAt(p: Pair, j: nat)
    requires j < 64
    ensures BlockBits(p)[j] == PairBit(p, PairPlace(j))
  {
    hide Bit, Place;
  }

  lemma InitialTable1(j: nat)
    requires 0 <= j < 16
    ensures Turned(PairPlace(j)) == PairPlace(IP(j) - 1)
  {
    match j
    case 0 => case 1 => case 2 => case 3 => case 4 => case 5 => case 6 => case 7 =>
    case 8 => case 9 => case 10 => case 11 => case 12 => case 13 => case 14 => case _ =>
  }

  lemma InitialTable2(j: nat)
    requires 16 <= j < 32
    ensures Turned(PairPlace(j)) == PairPlace(IP(j) - 1)
  {
    match j
    case 16 => case 17 => case 18 => case 19 => case 20 => case 21 => case 22 => case 23 =>
    case 24 => case 25 => case 26 => case 27 => case 28 => case 29 => case 30 => case _ =>
  }

  lemma InitialTable3(j: nat)
    requires 32 <= j < 48
    ensures Turned(PairPlace(j)) == PairPlace(IP(j) - 1)
  {
    match j
    case 32 => case 33 => case 34 => case 35 => case 36 => case 37 => case 38 => case 39 =>
    case 40 => case 41 => case 42 => case 43 => case 44 => case 45 => case 46 => case _ =>
  }

  lemma InitialTable4(j: nat)
    requires 48 <= j < 64
    ensures Turned(PairPlace(j)) == PairPlace(IP(j) - 1)
  {
    match j
    case 48 => case 49 => case 50 => case 51 => case 52 => case 53 => case 54 => case 55 =>
    case 56 => case 57 => case 58 => case 59 => case 60 => case 61 => case 62 => case _ =>
  }

  lemma InitialTable(j: nat)
    requires j < 64
    ensures Turned(PairPlace(j)) == PairPlace(IP(j) - 1)
  {
    hide *;
    if j < 16 {
      InitialTable1(j);
    } else if j < 32 {
      InitialTable2(j);
    } else if j < 48 {
      InitialTable3(j);
    } else {
      InitialTable4(j);
    }
  }

  lemma InverseTable1(j: nat)
    requires 0 <= j < 16
    ensures IP(InverseIP(j) - 1) == j + 1
  {
    match j
    case 0 => case 1 => case 2 => case 3 => case 4 => case 5 => case 6 => case 7 =>
    case 8 => case 9 => case 10 => case 11 => case 12 => case 13 => case 14 => case _ =>
  }

  lemma InverseTable2(j: nat)
    requires 16 <= j < 32
    ensures IP(InverseIP(j) - 1) == j + 1
  {
    match j
    case 16 => case 17 => case 18 => case 19 => case 20 => case 21 => case 22 => case 23 =>
    case 24 => case 25 => case 26 => case 27 => case 28 => case 29 => case 30 => case _ =>
  }

  lemma InverseTable3(j: nat)
    requires 32 <= j < 48
    ensures IP(InverseIP(j) - 1) == j + 1
  {
    match j
    case 32 => case 33 => case 34 => case 35 => case 36 => case 37 => case 38 => case 39 =>
    case 40 => case 41 => case 42 => case 43 => case 44 => case 45 => case 46 => case _ =>
  }

  lemma InverseTable4(j: nat)
    requires 48 <= j < 64
    ensures IP(InverseIP(j) - 1) == j + 1
  {
    match j
    case 48 => case 49 => case 50 => case 51 => case 52 => case 53 => case 54 => case 55 =>
    case 56 => case 57 => case 58 => case 59 => case 60 => case 61 => case 62 => case _ =>
  }

  lemma InverseTable(j: nat)
    requires j < 64
    ensures IP(InverseIP(j) - 1) == j + 1
  {
    hide *;
    if j < 16 {
      InverseTable1(j);
    } else if j < 32 {
      InverseTable2(j);
    } else if j < 48 {
      InverseTable3(j);
    } else {
      InverseTable4(j);
    }
  }

  /** INITIAL_PERMUTATION is the initial permutation, with both words rotated. */
  lemma InitialStandard(p: Pair)
    ensures BlockBits(Unrotated(InitialPermutation(p))) == Permuted(IP, 64, BlockBits(p))
  {
    hide PairBit, InitialPermutation, Unrotated, InitialSource, Turned, PairPlace, IP, BlockBits;
    var q := Unrotated(InitialPermutation(p));
    forall j | 0 <= j < 64
      ensures BlockBits(q)[j] == BlockBits(p)[IP(j) - 1]
    {
      InitialBit(p, PairPlace(j));
      SourceTurned(PairPlace(j));
      InitialTable(j);
      BlockBitAt(q, j);
      BlockBitAt(p, IP(j) - 1);
    }
  }

  /** What the inverse permutation selects from the permuted bits are the bits. */
  lemma PermutedBack(b: Bits)
    requires |b| == 64
    ensures b == Permuted(InverseIP, 64, Permuted(IP, 64, b))
  {
    hide IP, InverseIP;
    forall j | 0 <= j < 64
      ensures b[j] == Permuted(IP, 64, b)[InverseIP(j) - 1]
    {
      InverseTable(j);
    }
  }

  /** FINAL_PERMUTATION is the inverse permutation, of words that have been rotated. */
  lemma FinalStandard(p: Pair)
    ensures BlockBits(FinalPermutation(p)) == Permuted(InverseIP, 64, BlockBits(Unrotated(p)))
  {
    hide PairBit, InitialPermutation, FinalPermutation, Unrotated, BlockBits, IP, InverseIP, Permuted;
    var q := FinalPermutation(p);
    InitialOfFinal(p);
    InitialStandard(q);
    PermutedBack(BlockBits(q));
  }

  // ----- Bytes -----

  lemma JoinBit(b0: Byte, b1: Byte, b2: Byte, b3: Byte, k: bv3)
    ensures Bit(Join(b0, b1, b2, b3), 24 | (k as bv5)) == ByteBit(b0, k)
    ensures Bit(Join(b0, b1, b2, b3), 16 | (k as bv5)) == ByteBit(b1, k)
    ensures Bit(Join(b0, b1, b2, b3), 8 | (k as bv5)) == ByteBit(b2, k)
    ensures Bit(Join(b0, b1, b2, b3), k as bv5) == ByteBit(b3, k)
  {
  }
}
