/** gl/des.c: the key schedule, and its behaviour when the key is complemented. */
module DesSchedule {
  import opened MachineInts
  import opened Bytes
  import opened Feistel
  import opened DesTables
  import Des

  // ----- Permuted choice 1 -----

  /** DO_PERMUTATION (right, work, left, 0, 0x10101010) on p == (right, left) */
  function PermParity(p: Pair): Pair {
    var t := MixParity(p.a, p.b);
    Pair(Xor(p.a, t), Xor(p.b, t))
  }

  function MixParity(a: bv32, b: bv32): bv32 { (a ^ b) & 0x10101010 }

  /** Eight words with one bit in each byte, side by side. */
  function Gather(t0: bv32, t1: bv32, t2: bv32, t3: bv32, t4: bv32, t5: bv32, t6: bv32, t7: bv32): bv32 {
    ((t0 << 3) | (t1 << 2) | (t2 << 1) | t3 | (t4 << 7) | (t5 << 6) | (t6 << 5) | (t7 << 4)) & 0x0fffffff
  }

  /** Eight indices into a table of the permuted choice. */
  datatype Eight = Eight(n0: bv4, n1: bv4, n2: bv4, n3: bv4, n4: bv4, n5: bv4, n6: bv4, n7: bv4)

  function LeftIndices(x: bv32): Eight {
    Eight((x & 0xf) as bv4, ((x >> 8) & 0xf) as bv4, ((x >> 16) & 0xf) as bv4, ((x >> 24) & 0xf) as bv4,
          ((x >> 5) & 0xf) as bv4, ((x >> 13) & 0xf) as bv4, ((x >> 21) & 0xf) as bv4, ((x >> 29) & 0xf) as bv4)
  }

  function GatherLeft(x: bv32): bv32 {
    var e := LeftIndices(x);
    Gather(LeftkeySwap(e.n0), LeftkeySwap(e.n1), LeftkeySwap(e.n2), LeftkeySwap(e.n3),
           LeftkeySwap(e.n4), LeftkeySwap(e.n5), LeftkeySwap(e.n6), LeftkeySwap(e.n7))
  }

  function RightIndices(x: bv32): Eight {
    Eight(((x >> 1) & 0xf) as bv4, ((x >> 9) & 0xf) as bv4, ((x >> 17) & 0xf) as bv4, ((x >> 25) & 0xf) as bv4,
          ((x >> 4) & 0xf) as bv4, ((x >> 12) & 0xf) as bv4, ((x >> 20) & 0xf) as bv4, ((x >> 28) & 0xf) as bv4)
  }

  function GatherRight(x: bv32): bv32 {
    var e := RightIndices(x);
    Gather(RightkeySwap(e.n0), RightkeySwap(e.n1), RightkeySwap(e.n2), RightkeySwap(e.n3),
           RightkeySwap(e.n4), RightkeySwap(e.n5), RightkeySwap(e.n6), RightkeySwap(e.n7))
  }

  /** The two halves of the key, as (left, right). */
  function KeyHalves(rawkey: seq<Byte>): Pair
    requires |rawkey| == 8
  {
    var p := PermParity(Des.Perm4(Des.ReadBlock(rawkey).Swap())).Swap();
    Pair(GatherLeft(p.a), GatherRight(p.b))
  }

  // ----- Rotation and permuted choice 2 -----

  /** Rotation of 28 bits to the left by one or two places. */
  function Rotate(x: bv32, n: nat): bv32
    requires n == 1 || n == 2
  {
    if n == 1 then ((x << 1) | (x >> 27)) & 0x0fffffff else ((x << 2) | (x >> 26)) & 0x0fffffff
  }

  function RotateBoth(p: Pair, round: nat): Pair
    requires round < 16
  {
    Pair(Rotate(p.a, EncryptRotate(round)), Rotate(p.b, EncryptRotate(round)))
  }

  function SubkeyEven(p: Pair): bv32 {
    var left, right := p.a, p.b;
    ((left << 4) & 0x24000000)
    | ((left << 28) & 0x10000000)
    | ((left << 14) & 0x08000000)
    | ((left << 18) & 0x02080000)
    | ((left << 6) & 0x01000000)
    | ((left << 9) & 0x00200000)
    | ((left >> 1) & 0x00100000)
    | ((left << 10) & 0x00040000)
    | ((left << 2) & 0x00020000)
    | ((left >> 10) & 0x00010000)
    | ((right >> 13) & 0x00002000)
    | ((right >> 4) & 0x00001000)
    | ((right << 6) & 0x00000800)
    | ((right >> 1) & 0x00000400)
    | ((right >> 14) & 0x00000200)
    | (right & 0x00000100)
    | ((right >> 5) & 0x00000020)
    | ((right >> 10) & 0x00000010)
    | ((right >> 3) & 0x00000008)
    | ((right >> 18) & 0x00000004)
    | ((right >> 26) & 0x00000002)
    | ((right >> 24) & 0x00000001)
  }

  function SubkeyOdd(p: Pair): bv32 {
    var left, right := p.a, p.b;
    ((left << 15) & 0x20000000)
    | ((left << 17) & 0x10000000)
    | ((left << 10) & 0x08000000)
    | ((left << 22) & 0x04000000)
    | ((left >> 2) & 0x02000000)
    | ((left << 1) & 0x01000000)
    | ((left << 16) & 0x00200000)
    | ((left << 11) & 0x00100000)
    | ((left << 3) & 0x00080000)
    | ((left >> 6) & 0x00040000)
    | ((left << 15) & 0x00020000)
    | ((left >> 4) & 0x00010000)
    | ((right >> 2) & 0x00002000)
    | ((right << 8) & 0x00001000)
    | ((right >> 14) & 0x00000808)
    | ((right >> 9) & 0x00000400)
    | (right & 0x00000200)
    | ((right << 7) & 0x00000100)
    | ((right >> 7) & 0x00000020)
    | ((right >> 3) & 0x00000011)
    | ((right << 2) & 0x00000004)
    | ((right >> 21) & 0x00000002)
  }

  /** The subkeys of the first n rounds. */
  function Subkeys(halves: Pair, n: nat): (keys: seq<bv32>)
    requires n <= 16
    ensures |keys| == 2 * n
  {
    if n == 0 then []
    else
      var p := HalvesAfter(halves, n);
      Subkeys(halves, n - 1) + [SubkeyEven(p), SubkeyOdd(p)]
  }

  /** The half keys after n rotations. */
  function HalvesAfter(halves: Pair, n: nat): Pair
    requires n <= 16
  {
    if n == 0 then halves else RotateBoth(HalvesAfter(halves, n - 1), n - 1)
  }

  /** The 32 words that des_key_schedule produces. */
  function Schedule(rawkey: seq<Byte>): (keys: seq<bv32>)
    requires |rawkey| == 8
    ensures |keys| == 32
  {
    Subkeys(KeyHalves(rawkey), 16)
  }

  /** `des_key_schedule`, filling 32 words of an array from index `at`. */
  method KeySchedule(rawkey: seq<Byte>, subkey: array<bv32>, at: nat)
    requires |rawkey| == 8 && at + 32 <= subkey.Length
    modifies subkey
    ensures subkey[at..at + 32] == Schedule(rawkey)
    ensures subkey[..at] == old(subkey[..at]) && subkey[at + 32..] == old(subkey[at + 32..])
  {
    hide KeyHalves, RotateBoth, SubkeyEven, SubkeyOdd;
    ghost var halves := KeyHalves(rawkey);
    var p := KeyHalves(rawkey);
    for round := 0 to 16
      invariant p == HalvesAfter(halves, round)
      invariant subkey[at..at + 2 * round] == Subkeys(halves, round)
      invariant subkey[..at] == old(subkey[..at]) && subkey[at + 32..] == old(subkey[at + 32..])
    {
      p := RotateBoth(p, round);
      ghost var sofar := subkey[at..at + 2 * round];
      subkey[at + 2 * round] := SubkeyEven(p);
      subkey[at + 2 * round + 1] := SubkeyOdd(p);
      assert subkey[at..at + 2 * (round + 1)] == sofar + [SubkeyEven(p), SubkeyOdd(p)];
    }
  }

  // ----- Complementing the key -----

  function NotByte(b: Byte): Byte { !b }

  function NotBytes(data: seq<Byte>): (r: seq<Byte>)
    ensures |r| == |data| && forall i :: 0 <= i < |data| ==> r[i] == NotByte(data[i])
  {
    seq(|data|, i requires 0 <= i < |data| => NotByte(data[i]))
  }

  lemma JoinNot(b0: Byte, b1: Byte, b2: Byte, b3: Byte)
    ensures Join(!b0, !b1, !b2, !b3) == !Join(b0, b1, b2, b3)
  {
  }

  lemma WordNot(b0: Byte, b1: Byte, b2: Byte, b3: Byte)
    ensures Join(NotByte(b0), NotByte(b1), NotByte(b2), NotByte(b3)) == Not(Join(b0, b1, b2, b3))
  {
    hide Join;
    JoinNot(b0, b1, b2, b3);
  }

  lemma FromBENot(b: seq<Byte>)
    requires |b| == 4
    ensures FromBE(NotBytes(b)) == Not(FromBE(b))
  {
    hide NotByte, Not, Join;
    WordNot(b[0], b[1], b[2], b[3]);
  }

  lemma ReadBlockNot(data: seq<Byte>)
    requires |data| == 8
    ensures Des.ReadBlock(NotBytes(data)) == Des.ReadBlock(data).Complement()
  {
    hide FromBE, Not;
    FromBENot(data[..4]);
    FromBENot(data[4..]);
    assert NotBytes(data)[..4] == NotBytes(data[..4]) && NotBytes(data)[4..] == NotBytes(data[4..]);
  }

  lemma MixParityNot(a: bv32, b: bv32)
    ensures MixParity(Not(a), Not(b)) == MixParity(a, b)
  {
  }

  lemma PermParityComplement(p: Pair)
    ensures PermParity(p.Complement()) == PermParity(p).Complement()
  {
    hide Xor, Not, MixParity;
    MixParityNot(p.a, p.b);
    NotXor(p.a, MixParity(p.a, p.b));
    NotXor(p.b, MixParity(p.a, p.b));
  }

  /** At most one bit in each byte, the lowest. */
  predicate Thin(t: bv32) { t & 0xfefefefe == 0 }

  function FlipThin(t: bv32): bv32 { t ^ 0x01010101 }
  function FlipHalf(x: bv32): bv32 { x ^ 0x0fffffff }

  lemma LeftkeySwapNot(n: bv4)
    ensures LeftkeySwap(!n) == FlipThin(LeftkeySwap(n)) && Thin(LeftkeySwap(n))
  {
  }

  lemma RightkeySwapNot(n: bv4)
    ensures RightkeySwap(!n) == FlipThin(RightkeySwap(n)) && Thin(RightkeySwap(n))
  {
  }

  /** Equal except for the highest byte. */
  predicate AlmostEqual(x: bv32, y: bv32) { x & 0x00ffffff == y & 0x00ffffff }

  lemma LeftkeySwapTop(n: bv4)
    ensures n < 8 ==> AlmostEqual(LeftkeySwap(n ^ 7), FlipThin(LeftkeySwap(n)))
  {
  }

  // The indices into the tables: the last one on the left has only three bits.

  lemma LeftIndicesNot(x: bv32)
    ensures LeftIndices(Not(x))
         == (var e := LeftIndices(x); Eight(!e.n0, !e.n1, !e.n2, !e.n3, !e.n4, !e.n5, !e.n6, e.n7 ^ 7))
    ensures LeftIndices(x).n7 < 8
  {
  }

  lemma RightIndicesNot(x: bv32)
    ensures RightIndices(Not(x))
         == (var e := RightIndices(x); Eight(!e.n0, !e.n1, !e.n2, !e.n3, !e.n4, !e.n5, !e.n6, !e.n7))
  {
  }

  lemma GatherFlip(t0: bv32, t1: bv32, t2: bv32, t3: bv32, t4: bv32, t5: bv32, t6: bv32, t7: bv32, top: bv32)
    requires Thin(t0) && Thin(t1) && Thin(t2) && Thin(t3) && Thin(t4) && Thin(t5) && Thin(t6) && Thin(t7)
    requires AlmostEqual(top, FlipThin(t7))
    ensures Gather(FlipThin(t0), FlipThin(t1), FlipThin(t2), FlipThin(t3), FlipThin(t4), FlipThin(t5),
                   FlipThin(t6), top)
         == FlipHalf(Gather(t0, t1, t2, t3, t4, t5, t6, t7))
  {
  }

  lemma GatherLeftNot(x: bv32)
    ensures GatherLeft(Not(x)) == FlipHalf(GatherLeft(x))
  {
    hide Not, LeftkeySwap, LeftIndices, Gather, FlipThin, FlipHalf, Thin, AlmostEqual;
    var e := LeftIndices(x);
    LeftIndicesNot(x);
    LeftkeySwapNot(e.n0);
    LeftkeySwapNot(e.n1);
    LeftkeySwapNot(e.n2);
    LeftkeySwapNot(e.n3);
    LeftkeySwapNot(e.n4);
    LeftkeySwapNot(e.n5);
    LeftkeySwapNot(e.n6);
    LeftkeySwapNot(e.n7);
    LeftkeySwapTop(e.n7);
    GatherFlip(LeftkeySwap(e.n0), LeftkeySwap(e.n1), LeftkeySwap(e.n2), LeftkeySwap(e.n3),
               LeftkeySwap(e.n4), LeftkeySwap(e.n5), LeftkeySwap(e.n6), LeftkeySwap(e.n7), LeftkeySwap(e.n7 ^ 7));
  }

  lemma GatherRightNot(x: bv32)
    ensures GatherRight(Not(x)) == FlipHalf(GatherRight(x))
  {
    hide Not, RightkeySwap, RightIndices, Gather, FlipThin, FlipHalf, Thin, AlmostEqual;
    var e := RightIndices(x);
    RightIndicesNot(x);
    RightkeySwapNot(e.n0);
    RightkeySwapNot(e.n1);
    RightkeySwapNot(e.n2);
    RightkeySwapNot(e.n3);
    RightkeySwapNot(e.n4);
    RightkeySwapNot(e.n5);
    RightkeySwapNot(e.n6);
    RightkeySwapNot(e.n7);
    AlmostEqualSelf(FlipThin(RightkeySwap(e.n7)));
    GatherFlip(RightkeySwap(e.n0), RightkeySwap(e.n1), RightkeySwap(e.n2), RightkeySwap(e.n3),
               RightkeySwap(e.n4), RightkeySwap(e.n5), RightkeySwap(e.n6), RightkeySwap(e.n7),
               FlipThin(RightkeySwap(e.n7)));
  }

  lemma AlmostEqualSelf(x: bv32)
    ensures AlmostEqual(x, x)
  {
  }

  /** Complementing a key complements both its halves. */
  lemma KeyHalvesNot(rawkey: seq<Byte>)
    requires |rawkey| == 8
    ensures KeyHalves(NotBytes(rawkey)) == FlipBoth(KeyHalves(rawkey))
  {
    hide Not, GatherLeft, GatherRight, PermParity, Des.Perm4, Des.ReadBlock, FlipHalf;
    var p := Des.ReadBlock(rawkey).Swap();
    ReadBlockNot(rawkey);
    Des.Perm4Complement(p);
    PermParityComplement(Des.Perm4(p));
    var q := PermParity(Des.Perm4(p)).Swap();
    GatherLeftNot(q.a);
    GatherRightNot(q.b);
  }

  function FlipBoth(p: Pair): Pair {
    Pair(FlipHalf(p.a), FlipHalf(p.b))
  }

  predicate IsHalf(x: bv32) { x & 0xf0000000 == 0 }

  lemma GatherIsHalf(t0: bv32, t1: bv32, t2: bv32, t3: bv32, t4: bv32, t5: bv32, t6: bv32, t7: bv32)
    ensures IsHalf(Gather(t0, t1, t2, t3, t4, t5, t6, t7))
  {
  }

  lemma KeyHalvesAreHalves(rawkey: seq<Byte>)
    requires |rawkey| == 8
    ensures IsHalf(KeyHalves(rawkey).a) && IsHalf(KeyHalves(rawkey).b)
  {
    hide PermParity, Des.Perm4, Des.ReadBlock, Gather, IsHalf;
    forall t0, t1, t2, t3, t4, t5, t6, t7
      ensures IsHalf(Gather(t0, t1, t2, t3, t4, t5, t6, t7))
    {
      GatherIsHalf(t0, t1, t2, t3, t4, t5, t6, t7);
    }
  }

  lemma RotateFlip(x: bv32, n: nat)
    requires (n == 1 || n == 2) && IsHalf(x)
    ensures Rotate(FlipHalf(x), n) == FlipHalf(Rotate(x, n)) && IsHalf(Rotate(x, n))
  {
    hide FlipHalf, IsHalf;
    RotateOneFlip(x);
    RotateTwoFlip(x);
  }

  lemma RotateOneFlip(x: bv32)
    requires IsHalf(x)
    ensures ((FlipHalf(x) << 1) | (FlipHalf(x) >> 27)) & 0x0fffffff == FlipHalf(((x << 1) | (x >> 27)) & 0x0fffffff)
    ensures IsHalf(((x << 1) | (x >> 27)) & 0x0fffffff)
  {
  }

  lemma RotateTwoFlip(x: bv32)
    requires IsHalf(x)
    ensures ((FlipHalf(x) << 2) | (FlipHalf(x) >> 26)) & 0x0fffffff == FlipHalf(((x << 2) | (x >> 26)) & 0x0fffffff)
    ensures IsHalf(((x << 2) | (x >> 26)) & 0x0fffffff)
  {
  }

  lemma SubkeyEvenFlip(p: Pair)
    ensures SubkeyEven(FlipBoth(p)) == Xor(SubkeyEven(p), SUBKEY_BITS)
  {
  }

  lemma SubkeyOddFlip(p: Pair)
    ensures SubkeyOdd(FlipBoth(p)) == Xor(SubkeyOdd(p), SUBKEY_BITS)
  {
  }

  lemma {:induction false} HalvesAfterFlip(halves: Pair, n: nat)
    requires n <= 16 && IsHalf(halves.a) && IsHalf(halves.b)
    ensures HalvesAfter(FlipBoth(halves), n) == FlipBoth(HalvesAfter(halves, n))
    ensures IsHalf(HalvesAfter(halves, n).a) && IsHalf(HalvesAfter(halves, n).b)
  {
    hide Rotate, FlipHalf, IsHalf;
    if n > 0 {
      HalvesAfterFlip(halves, n - 1);
      var p := HalvesAfter(halves, n - 1);
      RotateFlip(p.a, EncryptRotate(n - 1));
      RotateFlip(p.b, EncryptRotate(n - 1));
    }
  }

  lemma {:induction false} SubkeysFlip(halves: Pair, n: nat)
    requires n <= 16 && IsHalf(halves.a) && IsHalf(halves.b)
    ensures Subkeys(FlipBoth(halves), n) == FlipKeys(Subkeys(halves, n))
  {
    hide IsHalf, FlipBoth, SubkeyEven, SubkeyOdd, Xor, FlipKeys;
    assert FlipKeys([]) == [];
    if n > 0 {
      var p := HalvesAfter(halves, n);
      SubkeysFlip(halves, n - 1);
      HalvesAfterFlip(halves, n);
      SubkeyEvenFlip(p);
      SubkeyOddFlip(p);
      FlipKeysTwo(Subkeys(halves, n - 1), SubkeyEven(p), SubkeyOdd(p));
    }
  }

  lemma FlipKeysTwo(keys: seq<bv32>, k0: bv32, k1: bv32)
    ensures FlipKeys(keys + [k0, k1]) == FlipKeys(keys) + [Xor(k0, SUBKEY_BITS), Xor(k1, SUBKEY_BITS)]
  {
    hide Xor;
  }

  /** Complementing the key flips every word of the subkeys by exactly 0x3f3f3f3f. */
  lemma ScheduleComplement(rawkey: seq<Byte>)
    requires |rawkey| == 8
    ensures Schedule(NotBytes(rawkey)) == FlipKeys(Schedule(rawkey))
  {
    hide KeyHalves, FlipBoth, IsHalf, Subkeys;
    KeyHalvesNot(rawkey);
    KeyHalvesAreHalves(rawkey);
    SubkeysFlip(KeyHalves(rawkey), 16);
  }

  lemma BitsBENot(w: bv32)
    ensures BitsBE(Not(w)) == NotBytes(BitsBE(w))
  {
    hide Not, NotByte;
    ByteNot(w);
  }

  lemma ByteNot(w: bv32)
    ensures ((Not(w) >> 24) & 0xff) as Byte == NotByte(((w >> 24) & 0xff) as Byte)
    ensures ((Not(w) >> 16) & 0xff) as Byte == NotByte(((w >> 16) & 0xff) as Byte)
    ensures ((Not(w) >> 8) & 0xff) as Byte == NotByte(((w >> 8) & 0xff) as Byte)
    ensures (Not(w) & 0xff) as Byte == NotByte((w & 0xff) as Byte)
  {
  }

  lemma WriteBlockNot(p: Pair)
    ensures Des.WriteBlock(p.Complement()) == NotBytes(Des.WriteBlock(p))
  {
    hide BitsBE, Not;
    BitsBENot(p.a);
    BitsBENot(p.b);
  }

  /** DES complementation: the complemented block under the complemented key gives the complemented result. */
  lemma Complementation(rawkey: seq<Byte>, data: seq<Byte>)
    requires |rawkey| == 8 && |data| == 8
    ensures Des.CryptBytes(Schedule(NotBytes(rawkey)), NotBytes(data))
         == NotBytes(Des.CryptBytes(Schedule(rawkey), data))
  {
    hide Schedule, Des.Crypt, Des.ReadBlock, Des.WriteBlock, FlipKeys, Not;
    ScheduleComplement(rawkey);
    ReadBlockNot(data);
    Des.CryptComplement(Schedule(rawkey), Des.ReadBlock(data));
    WriteBlockNot(Des.Crypt(Schedule(rawkey), Des.ReadBlock(data)));
  }

  // ----- Parity bits -----

  function ClearParity(b: Byte): Byte { b & 0xfe }

  /** The bits of each byte other than the lowest. */
  function WithoutParity(data: seq<Byte>): (r: seq<Byte>)
    ensures |r| == |data| && forall i :: 0 <= i < |data| ==> r[i] == ClearParity(data[i])
  {
    seq(|data|, i requires 0 <= i < |data| => ClearParity(data[i]))
  }

  /** Words that agree except for the lowest bit of each byte. */
  predicate SameHighBits(x: bv32, y: bv32) { x & 0xfefefefe == y & 0xfefefefe }

  /** Words that agree except for bit 4 of each byte. */
  predicate SameWithoutBit4(x: bv32, y: bv32) { x & 0xefefefef == y & 0xefefefef }

  /** Words that agree except for bits 0 and 4 of each byte. */
  predicate SameWithoutBits04(x: bv32, y: bv32) { x & 0xeeeeeeee == y & 0xeeeeeeee }

  /** Which bits end up where in each word. */
  function Perm4First(a: bv32, b: bv32): bv32 { (a & 0x0f0f0f0f) | ((b & 0x0f0f0f0f) << 4) }
  function Perm4Second(a: bv32, b: bv32): bv32 { (b & 0xf0f0f0f0) | ((a >> 4) & 0x0f0f0f0f) }

  lemma MovesSecond(a: bv32, b: bv32)
    ensures Xor(b, Des.Mix4(a, b)) == Perm4Second(a, b)
  {
  }

  lemma MovesFirst(a: bv32, b: bv32)
    ensures Xor(a, Des.Up4(Des.Mix4(a, b))) == Perm4First(a, b)
  {
    calc {
      Xor(a, Des.Up4(Des.Mix4(a, b)));
      { hide Xor; }
      Xor(a, (((a >> 4) ^ b) & 0x0f0f0f0f) << 4);
      { hide Des.Mix4; }
      a ^ ((((a >> 4) ^ b) & 0x0f0f0f0f) << 4);
      (a & 0x0f0f0f0f) | ((b & 0x0f0f0f0f) << 4);
      Perm4First(a, b);
    }
  }

  lemma Perm4Moves(p: Pair)
    ensures Des.Perm4(p) == Pair(Perm4First(p.a, p.b), Perm4Second(p.a, p.b))
  {
    hide Xor, Des.Mix4, Des.Up4, Perm4First, Perm4Second;
    MovesFirst(p.a, p.b);
    MovesSecond(p.a, p.b);
  }

  lemma Perm4Parity(a: bv32, b: bv32, c: bv32, d: bv32)
    requires SameHighBits(a, c) && SameHighBits(b, d)
    ensures SameWithoutBits04(Perm4First(a, b), Perm4First(c, d))
    ensures Perm4Second(a, b) == Perm4Second(c, d)
  {
  }

  function PermParityFirst(a: bv32, b: bv32): bv32 { (a & 0xefefefef) | (b & 0x10101010) }
  function PermParitySecond(a: bv32, b: bv32): bv32 { (b & 0xefefefef) | (a & 0x10101010) }

  lemma ParityMovesFirst(a: bv32, b: bv32)
    ensures Xor(a, MixParity(a, b)) == PermParityFirst(a, b)
  {
  }

  lemma ParityMovesSecond(a: bv32, b: bv32)
    ensures Xor(b, MixParity(a, b)) == PermParitySecond(a, b)
  {
  }

  lemma PermParityMoves(p: Pair)
    ensures PermParity(p) == Pair(PermParityFirst(p.a, p.b), PermParitySecond(p.a, p.b))
  {
    hide Xor, MixParity, PermParityFirst, PermParitySecond;
    ParityMovesFirst(p.a, p.b);
    ParityMovesSecond(p.a, p.b);
  }

  lemma PermParityParity(a: bv32, b: bv32, c: bv32)
    requires SameWithoutBits04(a, c)
    ensures SameHighBits(PermParityFirst(a, b), PermParityFirst(c, b))
    ensures SameWithoutBit4(PermParitySecond(a, b), PermParitySecond(c, b))
  {
  }

  /** The first two permutations move the parity bits to where the tables do not look. */
  lemma ParityMoved(p: Pair, q: Pair)
    requires SameHighBits(p.a, q.a) && SameHighBits(p.b, q.b)
    ensures SameWithoutBit4(PermParity(Des.Perm4(p.Swap())).Swap().a, PermParity(Des.Perm4(q.Swap())).Swap().a)
    ensures SameHighBits(PermParity(Des.Perm4(p.Swap())).Swap().b, PermParity(Des.Perm4(q.Swap())).Swap().b)
  {
    hide SameHighBits, SameWithoutBits04, SameWithoutBit4, Des.Perm4, PermParity;
    hide Perm4First, Perm4Second, PermParityFirst, PermParitySecond;
    var r, s := Des.Perm4(p.Swap()), Des.Perm4(q.Swap());
    Perm4Moves(p.Swap());
    Perm4Moves(q.Swap());
    Perm4Parity(p.b, p.a, q.b, q.a);
    PermParityMoves(r);
    PermParityMoves(s);
    PermParityParity(r.a, r.b, s.a);
  }

  lemma IndicesEqual(x: bv32, y: bv32)
    ensures SameWithoutBit4(x, y) ==> LeftIndices(x) == LeftIndices(y)
    ensures SameHighBits(x, y) ==> RightIndices(x) == RightIndices(y)
  {
  }

  lemma WordParity(b0: Byte, b1: Byte, b2: Byte, b3: Byte, c0: Byte, c1: Byte, c2: Byte, c3: Byte)
    requires ClearParity(b0) == ClearParity(c0) && ClearParity(b1) == ClearParity(c1)
    requires ClearParity(b2) == ClearParity(c2) && ClearParity(b3) == ClearParity(c3)
    ensures SameHighBits(Join(b0, b1, b2, b3), Join(c0, c1, c2, c3))
  {
  }

  lemma FromBEParity(b: seq<Byte>, c: seq<Byte>)
    requires |b| == |c| == 4 && forall i :: 0 <= i < 4 ==> ClearParity(b[i]) == ClearParity(c[i])
    ensures SameHighBits(FromBE(b), FromBE(c))
  {
    hide SameHighBits, ClearParity, Join;
    WordParity(b[0], b[1], b[2], b[3], c[0], c[1], c[2], c[3]);
  }

  /** The parity bits of a key are ignored. */
  lemma ParityIgnored(k: seq<Byte>, l: seq<Byte>)
    requires |k| == |l| == 8 && WithoutParity(k) == WithoutParity(l)
    ensures Schedule(k) == Schedule(l)
  {
    hide Subkeys, FromBE, PermParity, Des.Perm4, ClearParity, SameHighBits, SameWithoutBit4, LeftIndices, RightIndices;
    hide Gather, LeftkeySwap, RightkeySwap;
    forall i | 0 <= i < 8
      ensures ClearParity(k[i]) == ClearParity(l[i])
    {
      assert WithoutParity(k)[i] == WithoutParity(l)[i];
    }
    var p, q := Des.ReadBlock(k), Des.ReadBlock(l);
    FromBEParity(k[..4], l[..4]);
    FromBEParity(k[4..], l[4..]);
    ParityMoved(p, q);
    IndicesEqual(PermParity(Des.Perm4(p.Swap())).Swap().a, PermParity(Des.Perm4(q.Swap())).Swap().a);
    IndicesEqual(PermParity(Des.Perm4(p.Swap())).Swap().b, PermParity(Des.Perm4(q.Swap())).Swap().b);
  }
}
