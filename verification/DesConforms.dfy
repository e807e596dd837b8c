/** What gl/des.c does to a block is what FIPS 46-3 says, for every key and every block. */
module DesConforms {
  import opened Bytes
  import opened Feistel
  import opened DesStandard
  import opened DesBits
  import opened DesBoxes
  import opened DesKeys
  import opened DesSchedule
  import opened Des

  // ----- Bytes -----

  lemma {:induction false} BytesBitsAppend(a: seq<Byte>, b: seq<Byte>)
    ensures BytesBits(a + b) == BytesBits(a) + BytesBits(b)
  {
    hide ByteBits;
    if a == [] {
      assert a + b == b;
    } else {
      assert (a + b)[0] == a[0] && (a + b)[1..] == a[1..] + b;
      BytesBitsAppend(a[1..], b);
    }
  }

  lemma OneByte(b: Byte)
    ensures BytesBits([b]) == ByteBits(b)
  {
    hide ByteBits;
    assert [b][1..] == [];
  }

  lemma ByteInWord(b0: Byte, b1: Byte, b2: Byte, b3: Byte, m: nat)
    requires m < 8
    ensures var w := Join(b0, b1, b2, b3);
            && Bit(w, Place(m)) == ByteBits(b0)[m] && Bit(w, Place(m + 8)) == ByteBits(b1)[m]
            && Bit(w, Place(m + 16)) == ByteBits(b2)[m] && Bit(w, Place(m + 24)) == ByteBits(b3)[m]
  {
    hide Bit, ByteBit, Join;
    match m
    case 0 => JoinBit(b0, b1, b2, b3, 7);
    case 1 => JoinBit(b0, b1, b2, b3, 6);
    case 2 => JoinBit(b0, b1, b2, b3, 5);
    case 3 => JoinBit(b0, b1, b2, b3, 4);
    case 4 => JoinBit(b0, b1, b2, b3, 3);
    case 5 => JoinBit(b0, b1, b2, b3, 2);
    case 6 => JoinBit(b0, b1, b2, b3, 1);
    case _ => JoinBit(b0, b1, b2, b3, 0);
  }

  lemma WordOfFour(b0: Byte, b1: Byte, b2: Byte, b3: Byte)
    ensures WordBits(Join(b0, b1, b2, b3)) == ByteBits(b0) + ByteBits(b1) + ByteBits(b2) + ByteBits(b3)
  {
    hide Bit, ByteBits, Join, Place;
    var w, b := Join(b0, b1, b2, b3), ByteBits(b0) + ByteBits(b1) + ByteBits(b2) + ByteBits(b3);
    forall j | 0 <= j < 32
      ensures WordBits(w)[j] == b[j]
    {
      if j < 8 {
        ByteInWord(b0, b1, b2, b3, j);
      } else if j < 16 {
        ByteInWord(b0, b1, b2, b3, j - 8);
      } else if j < 24 {
        ByteInWord(b0, b1, b2, b3, j - 16);
      } else {
        ByteInWord(b0, b1, b2, b3, j - 24);
      }
    }
  }

  lemma FourBytes(b: seq<Byte>)
    requires |b| == 4
    ensures WordBits(FromBE(b)) == BytesBits(b)
  {
    hide ByteBits, WordBits, Join, BytesBits;
    WordOfFour(b[0], b[1], b[2], b[3]);
    OneByte(b[0]);
    OneByte(b[1]);
    OneByte(b[2]);
    OneByte(b[3]);
    BytesBitsAppend([b[0]], [b[1]]);
    BytesBitsAppend([b[0]] + [b[1]], [b[2]]);
    BytesBitsAppend([b[0]] + [b[1]] + [b[2]], [b[3]]);
    assert b == [b[0]] + [b[1]] + [b[2]] + [b[3]];
  }

  lemma BlockRead(data: seq<Byte>)
    requires |data| == 8
    ensures BlockBits(ReadBlock(data)) == BytesBits(data)
  {
    hide WordBits, FromBE, BytesBits;
    FourBytes(data[..4]);
    FourBytes(data[4..]);
    BytesBitsAppend(data[..4], data[4..]);
    assert data == data[..4] + data[4..];
  }

  // ----- Rounds -----

  lemma XorWords(x: bv32, y: bv32)
    ensures WordBits(Rot31(Xor(x, y))) == Xored(WordBits(Rot31(x)), WordBits(Rot31(y)))
  {
    hide Bit, Rot31, Xor, Place;
    forall j | 0 <= j < 32
      ensures WordBits(Rot31(Xor(x, y)))[j] == (WordBits(Rot31(x))[j] != WordBits(Rot31(y))[j])
    {
      Rot31Bit(Xor(x, y), Place(j));
      Rot31Bit(x, Place(j));
      Rot31Bit(y, Place(j));
      BitXor(x, y, Place(j) + 1);
    }
  }

  /** One round, on words that are rotated. */
  lemma OneRound(from: bv32, into: bv32, k0: bv32, k1: bv32)
    ensures WordBits(Rot31(Round(DES_ROUND, from, into, k0, k1)))
         == Xored(WordBits(Rot31(into)), F(WordBits(Rot31(from)), KeyBits(k0, k1)))
  {
    hide WordBits, Rot31, Rot1, Xor, F, KeyBits, DesRound, Xored;
    RotInverse(from);
    RoundStandard(Rot31(from), k0, k1);
    XorWords(into, DesRound(from, k0, k1));
  }

  /** The words of the code are the halves of the standard, each rotated. */
  ghost predicate Matches(p: Pair, h: Halves) {
    WordBits(Rot31(p.a)) == h.l && WordBits(Rot31(p.b)) == h.r
  }

  /** They do after n iterations. */
  ghost predicate MatchesAfter(p: Pair, rawkey: seq<Byte>, block: Bits, n: nat)
    requires |rawkey| == 8 && |block| == 64 && n <= 16
  {
    Matches(p, Iterated(BytesBits(rawkey), block, n))
  }

  lemma OneRoundMatches(rawkey: seq<Byte>, block: Bits, n: nat, a: bv32, b: bv32, k0: bv32, k1: bv32)
    requires |rawkey| == 8 && |block| == 64 && n < 16 && MatchesAfter(Pair(a, b), rawkey, block, n)
    requires k0 == Schedule(rawkey)[2 * n] && k1 == Schedule(rawkey)[2 * n + 1]
    ensures MatchesAfter(Pair(b, Round(DES_ROUND, b, a, k0, k1)), rawkey, block, n + 1)
  {
    hide WordBits, Rot31, Schedule, KeyBits, F, Xored, BytesBits, KeyBlock, Round, IP, Iterated;
    BlockRead(rawkey);
    ScheduleStandard(rawkey, n + 1);
    OneRound(b, a, k0, k1);
    IteratedOnce(BytesBits(rawkey), block, n);
  }

  /** Two rounds of the code, after which the words have their roles again. */
  lemma TwoRoundsMatch(rawkey: seq<Byte>, block: Bits, n: nat, p: Pair, keys: seq<bv32>)
    requires |rawkey| == 8 && |block| == 64 && n + 2 <= 16 && MatchesAfter(p, rawkey, block, n)
    requires |keys| == 4 && keys == Schedule(rawkey)[2 * n..2 * n + 4]
    ensures MatchesAfter(TwoRounds(DES_ROUND, keys, p), rawkey, block, n + 2)
  {
    hide MatchesAfter, Schedule, Round, DES_ROUND;
    var left := Round(DES_ROUND, p.b, p.a, keys[0], keys[1]);
    OneRoundMatches(rawkey, block, n, p.a, p.b, keys[0], keys[1]);
    OneRoundMatches(rawkey, block, n + 1, p.b, left, keys[2], keys[3]);
  }

  lemma IteratedOnce(key: Bits, block: Bits, n: nat)
    requires |key| == |block| == 64 && n < 16
    ensures var h := Iterated(key, block, n);
            Iterated(key, block, n + 1) == Halves(h.r, Xored(h.l, F(h.r, KeyBlock(key, n + 1))))
  {
    hide F, Xored, KeyBlock, IP;
  }

  lemma {:induction false} RoundsMatch(rawkey: seq<Byte>, block: Bits, n: nat, p: Pair)
    requires |rawkey| == 8 && |block| == 64 && n <= 16 && n % 2 == 0 && MatchesAfter(p, rawkey, block, n)
    ensures MatchesAfter(Rounds(DES_ROUND, Schedule(rawkey)[2 * n..], p), rawkey, block, 16)
    decreases 16 - n
  {
    hide MatchesAfter, Schedule, TwoRounds, DES_ROUND;
    if n < 16 {
      var keys := Schedule(rawkey)[2 * n..];
      assert keys[..4] == Schedule(rawkey)[2 * n..2 * n + 4] && keys[4..] == Schedule(rawkey)[2 * (n + 2)..];
      TwoRoundsMatch(rawkey, block, n, p, keys[..4]);
      RoundsMatch(rawkey, block, n + 2, TwoRounds(DES_ROUND, keys[..4], p));
    }
  }

  lemma StartMatches(key: Bits, block: Bits, p: Pair)
    requires |key| == |block| == 64 && BlockBits(Unrotated(p)) == Permuted(IP, 64, block)
    ensures Matches(p, Iterated(key, block, 0))
  {
    hide WordBits, Rot31, IP;
    var b := BlockBits(Unrotated(p));
    assert b[..32] == WordBits(Rot31(p.a)) && b[32..] == WordBits(Rot31(p.b));
  }

  lemma EndMatches(key: Bits, block: Bits, p: Pair)
    requires |key| == |block| == 64 && Matches(p, Iterated(key, block, 16))
    ensures Permuted(InverseIP, 64, BlockBits(Unrotated(p.Swap()))) == Enciphered(key, block)
  {
    hide WordBits, Rot31, InverseIP, Iterated;
  }

  /** Encryption with the subkeys of a key is DES. */
  lemma {:induction false} Conforms(rawkey: seq<Byte>, data: seq<Byte>)
    requires |rawkey| == |data| == 8
    ensures BytesBits(CryptBytes(Schedule(rawkey), data)) == Enciphered(BytesBits(rawkey), BytesBits(data))
  {
    hide BytesBits, BlockBits, InitialPermutation, FinalPermutation, Schedule, Iterated, Enciphered, Rounds, DES_ROUND;
    hide ReadBlock, WriteBlock, Matches, Unrotated, IP, InverseIP, Permuted;
    var key, block := BytesBits(rawkey), BytesBits(data);
    var p := InitialPermutation(ReadBlock(data));
    BlockRead(data);
    InitialStandard(ReadBlock(data));
    StartMatches(key, block, p);
    RoundsMatch(rawkey, block, 0, p);
    assert Schedule(rawkey)[2 * 0..] == Schedule(rawkey);
    var q := Rounds(DES_ROUND, Schedule(rawkey), p);
    EndMatches(key, block, q);
    FinalStandard(q.Swap());
    BlockOfPair(FinalPermutation(q.Swap()));
    BlockRead(CryptBytes(Schedule(rawkey), data));
  }

  /** And with the subkeys reversed it is its inverse. */
  lemma {:induction false} DecryptionConforms(rawkey: seq<Byte>, data: seq<Byte>)
    requires |rawkey| == |data| == 8
    ensures Enciphered(BytesBits(rawkey), BytesBits(CryptBytes(Reversed(Schedule(rawkey)), data))) == BytesBits(data)
  {
    hide Schedule, Reversed, CryptBytes, Enciphered, BytesBits;
    var keys := Schedule(rawkey);
    var clear := CryptBytes(Reversed(keys), data);
    EncryptedAgain(keys, data);
    Conforms(rawkey, clear);
  }

  lemma {:induction false} EncryptedAgain(keys: seq<bv32>, data: seq<Byte>)
    requires |keys| % 4 == 0 && |data| == 8
    ensures CryptBytes(keys, CryptBytes(Reversed(keys), data)) == data
  {
    hide Reversed, CryptBytes;
    var reversed := Reversed(keys);
    assert |reversed| == |keys|;
    assert |keys| % 2 == 0;
    ReversedTwice(keys);
    CryptBytesUndone(reversed, data);
  }
}
