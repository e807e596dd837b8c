/** The key schedule of gl/des.c is that of FIPS 46-3. */
module DesKeys {
  import opened Bytes
  import opened Feistel
  import opened DesTables
  import opened DesStandard
  import opened DesBits
  import opened DesBoxes
  import opened DesSchedule
  import Des

  // ----- Halves of 28 bits -----

  function HalfBits(x: bv32): (b: Bits)
    ensures |b| == 28 && forall j :: 0 <= j < 28 ==> b[j] == Bit(x, Place(j + 4))
  {
    seq(28, j requires 0 <= j < 28 => Bit(x, Place(j + 4)))
  }

  // ----- Permuted choice 2 -----

  lemma Box1Bits(l: bv32, r: bv32)
    ensures var w := SubkeyOdd(Pair(l, r));
            && Bit(w, 29) == Bit(l, 14) && Bit(w, 28) == Bit(l, 11) && Bit(w, 27) == Bit(l, 17)
            && Bit(w, 26) == Bit(l, 4) && Bit(w, 25) == Bit(l, 27) && Bit(w, 24) == Bit(l, 23)
  {
  }

  lemma Box2Bits(l: bv32, r: bv32)
    ensures var w := SubkeyEven(Pair(l, r));
            && Bit(w, 29) == Bit(l, 25) && Bit(w, 28) == Bit(l, 0) && Bit(w, 27) == Bit(l, 13)
            && Bit(w, 26) == Bit(l, 22) && Bit(w, 25) == Bit(l, 7) && Bit(w, 24) == Bit(l, 18)
  {
  }

  lemma Box3Bits(l: bv32, r: bv32)
    ensures var w := SubkeyOdd(Pair(l, r));
            && Bit(w, 21) == Bit(l, 5) && Bit(w, 20) == Bit(l, 9) && Bit(w, 19) == Bit(l, 16)
            && Bit(w, 18) == Bit(l, 24) && Bit(w, 17) == Bit(l, 2) && Bit(w, 16) == Bit(l, 20)
  {
  }

  lemma Box4Bits(l: bv32, r: bv32)
    ensures var w := SubkeyEven(Pair(l, r));
            && Bit(w, 21) == Bit(l, 12) && Bit(w, 20) == Bit(l, 21) && Bit(w, 19) == Bit(l, 1)
            && Bit(w, 18) == Bit(l, 8) && Bit(w, 17) == Bit(l, 15) && Bit(w, 16) == Bit(l, 26)
  {
  }

  lemma Box5Bits(l: bv32, r: bv32)
    ensures var w := SubkeyOdd(Pair(l, r));
            && Bit(w, 13) == Bit(r, 15) && Bit(w, 12) == Bit(r, 4) && Bit(w, 11) == Bit(r, 25)
            && Bit(w, 10) == Bit(r, 19) && Bit(w, 9) == Bit(r, 9) && Bit(w, 8) == Bit(r, 1)
  {
  }

  lemma Box6Bits(l: bv32, r: bv32)
    ensures var w := SubkeyEven(Pair(l, r));
            && Bit(w, 13) == Bit(r, 26) && Bit(w, 12) == Bit(r, 16) && Bit(w, 11) == Bit(r, 5)
            && Bit(w, 10) == Bit(r, 11) && Bit(w, 9) == Bit(r, 23) && Bit(w, 8) == Bit(r, 8)
  {
  }

  lemma Box7Bits(l: bv32, r: bv32)
    ensures var w := SubkeyOdd(Pair(l, r));
            && Bit(w, 5) == Bit(r, 12) && Bit(w, 4) == Bit(r, 7) && Bit(w, 3) == Bit(r, 17)
            && Bit(w, 2) == Bit(r, 0) && Bit(w, 1) == Bit(r, 22) && Bit(w, 0) == Bit(r, 3)
  {
  }

  lemma Box8Bits(l: bv32, r: bv32)
    ensures var w := SubkeyEven(Pair(l, r));
            && Bit(w, 5) == Bit(r, 10) && Bit(w, 4) == Bit(r, 14) && Bit(w, 3) == Bit(r, 6)
            && Bit(w, 2) == Bit(r, 20) && Bit(w, 1) == Bit(r, 27) && Bit(w, 0) == Bit(r, 24)
  {
  }

  lemma Choice1(l: bv32, r: bv32, m: nat)
    requires m < 6
    ensures Bit(SubkeyOdd(Pair(l, r)), Down(29, m)) == Chosen(l, r, 0 + m)
  {
    hide Bit, SubkeyOdd;
    Box1Bits(l, r);
    match m case 0 => case 1 => case 2 => case 3 => case 4 => case _ =>
  }

  lemma Choice2(l: bv32, r: bv32, m: nat)
    requires m < 6
    ensures Bit(SubkeyEven(Pair(l, r)), Down(29, m)) == Chosen(l, r, 6 + m)
  {
    hide Bit, SubkeyEven;
    Box2Bits(l, r);
    match m case 0 => case 1 => case 2 => case 3 => case 4 => case _ =>
  }

  lemma Choice3(l: bv32, r: bv32, m: nat)
    requires m < 6
    ensures Bit(SubkeyOdd(Pair(l, r)), Down(21, m)) == Chosen(l, r, 12 + m)
  {
    hide Bit, SubkeyOdd;
    Box3Bits(l, r);
    match m case 0 => case 1 => case 2 => case 3 => case 4 => case _ =>
  }

  lemma Choice4(l: bv32, r: bv32, m: nat)
    requires m < 6
    ensures Bit(SubkeyEven(Pair(l, r)), Down(21, m)) == Chosen(l, r, 18 + m)
  {
    hide Bit, SubkeyEven;
    Box4Bits(l, r);
    match m case 0 => case 1 => case 2 => case 3 => case 4 => case _ =>
  }

  lemma Choice5(l: bv32, r: bv32, m: nat)
    requires m < 6
    ensures Bit(SubkeyOdd(Pair(l, r)), Down(13, m)) == Chosen(l, r, 24 + m)
  {
    hide Bit, SubkeyOdd;
    Box5Bits(l, r);
    match m case 0 => case 1 => case 2 => case 3 => case 4 => case _ =>
  }

  lemma Choice6(l: bv32, r: bv32, m: nat)
    requires m < 6
    ensures Bit(SubkeyEven(Pair(l, r)), Down(13, m)) == Chosen(l, r, 30 + m)
  {
    hide Bit, SubkeyEven;
    Box6Bits(l, r);
    match m case 0 => case 1 => case 2 => case 3 => case 4 => case _ =>
  }

  lemma Choice7(l: bv32, r: bv32, m: nat)
    requires m < 6
    ensures Bit(SubkeyOdd(Pair(l, r)), Down(5, m)) == Chosen(l, r, 36 + m)
  {
    hide Bit, SubkeyOdd;
    Box7Bits(l, r);
    match m case 0 => case 1 => case 2 => case 3 => case 4 => case _ =>
  }

  lemma Choice8(l: bv32, r: bv32, m: nat)
    requires m < 6
    ensures Bit(SubkeyEven(Pair(l, r)), Down(5, m)) == Chosen(l, r, 42 + m)
  {
    hide Bit, SubkeyEven;
    Box8Bits(l, r);
    match m case 0 => case 1 => case 2 => case 3 => case 4 => case _ =>
  }

  /** What permuted choice 2 selects from the two halves. */
  predicate Chosen(l: bv32, r: bv32, j: nat)
    requires j < 48
  {
    var c := PC2(j);
    if c <= 28 then Bit(l, Place(c + 3)) else Bit(r, Place(c - 25))
  }

  lemma ChosenFromHalves(l: bv32, r: bv32, j: nat)
    requires j < 48
    ensures Chosen(l, r, j) == Permuted(PC2, 48, HalfBits(l) + HalfBits(r))[j]
  {
    hide Bit, PC2, Place;
  }

  lemma ChoiceOf(l: bv32, r: bv32, n: nat, m: nat)
    requires 1 <= n <= 8 && m < 6
    ensures KeyBit(SubkeyEven(Pair(l, r)), SubkeyOdd(Pair(l, r)), n, m) == Chosen(l, r, 6 * n - 6 + m)
  {
    hide Bit, SubkeyEven, SubkeyOdd, Down, Chosen;
    match n
    case 1 => Choice1(l, r, m);
    case 2 => Choice2(l, r, m);
    case 3 => Choice3(l, r, m);
    case 4 => Choice4(l, r, m);
    case 5 => Choice5(l, r, m);
    case 6 => Choice6(l, r, m);
    case 7 => Choice7(l, r, m);
    case _ => Choice8(l, r, m);
  }

  /** The two words of a subkey are permuted choice 2. */
  lemma SubkeyStandard(p: Pair)
    ensures KeyBits(SubkeyEven(p), SubkeyOdd(p)) == Permuted(PC2, 48, HalfBits(p.a) + HalfBits(p.b))
  {
    hide Bit, SubkeyEven, SubkeyOdd, HalfBits, PC2, KeyBit, Chosen;
    var k := KeyBits(SubkeyEven(p), SubkeyOdd(p));
    forall j | 0 <= j < 48
      ensures k[j] == Permuted(PC2, 48, HalfBits(p.a) + HalfBits(p.b))[j]
    {
      ChoiceOf(p.a, p.b, j / 6 + 1, j % 6);
      ChosenFromHalves(p.a, p.b, j);
    }
  }

  // ----- Rotation -----

  lemma PlaceNext(j: nat)
    requires j < 31
    ensures Place(j + 1) == Place(j) - 1
  {
    match j
    case 0 => case 1 => case 2 => case 3 => case 4 => case 5 => case 6 => case 7 =>
    case 8 => case 9 => case 10 => case 11 => case 12 => case 13 => case 14 => case 15 =>
    case 16 => case 17 => case 18 => case 19 => case 20 => case 21 => case 22 => case 23 =>
    case 24 => case 25 => case 26 => case 27 => case 28 => case 29 => case _ =>
  }

  lemma OneBit(x: bv32, k: bv5)
    requires IsHalf(x) && k < 28
    ensures Bit(Rotate(x, 1), k) == Bit(x, if k == 0 then 27 else k - 1)
  {
  }

  lemma TwoBits(x: bv32)
    requires IsHalf(x)
    ensures Rotate(x, 2) == Rotate(Rotate(x, 1), 1) && IsHalf(Rotate(x, 1))
  {
  }

  lemma RotatedOne(x: bv32)
    requires IsHalf(x)
    ensures HalfBits(Rotate(x, 1)) == Rotated(HalfBits(x), 1)
  {
    hide Bit, Rotate, IsHalf, Place;
    forall j | 0 <= j < 28
      ensures HalfBits(Rotate(x, 1))[j] == Rotated(HalfBits(x), 1)[j]
    {
      OnePlace(x, j);
    }
  }

  lemma OnePlace(x: bv32, j: nat)
    requires IsHalf(x) && j < 28
    ensures Bit(Rotate(x, 1), Place(j + 4)) == Bit(x, Place(if j < 27 then j + 5 else 4))
  {
    hide Bit, Rotate, IsHalf, Place;
    PlaceInHalf(j);
    OneBit(x, Place(j + 4));
    if j < 27 {
      PlaceNext(j + 4);
    }
  }

  lemma PlaceInHalf(j: nat)
    requires j < 28
    ensures Place(j + 4) < 28 && (Place(j + 4) == 0 <==> j == 27) && Place(4) == 27
  {
    match j
    case 0 => case 1 => case 2 => case 3 => case 4 => case 5 => case 6 => case 7 =>
    case 8 => case 9 => case 10 => case 11 => case 12 => case 13 => case 14 => case 15 =>
    case 16 => case 17 => case 18 => case 19 => case 20 => case 21 => case 22 => case 23 =>
    case 24 => case 25 => case 26 => case _ =>
  }

  lemma RotatedTwice(b: Bits, m: nat, n: nat)
    requires m + n <= |b|
    ensures Rotated(Rotated(b, m), n) == Rotated(b, m + n)
  {
  }

  lemma RotatedBy(x: bv32, n: nat)
    requires (n == 1 || n == 2) && IsHalf(x)
    ensures HalfBits(Rotate(x, n)) == Rotated(HalfBits(x), n) && IsHalf(Rotate(x, n))
  {
    hide HalfBits, Rotate, IsHalf, Rotated;
    RotatedOne(x);
    TwoBits(x);
    RotatedOne(Rotate(x, 1));
    RotatedTwice(HalfBits(x), 1, 1);
    TwoBits(Rotate(x, 1));
  }

  /** The numbers of places in the table of the code add up to those of the standard. */
  lemma ShiftsAddUp(n: nat)
    requires 1 <= n <= 16
    ensures Shifts(n) == Shifts(n - 1) + EncryptRotate(n - 1)
  {
    match n
    case 1 => case 2 => case 3 => case 4 => case 5 => case 6 => case 7 => case 8 =>
    case 9 => case 10 => case 11 => case 12 => case 13 => case 14 => case 15 => case _ =>
  }

  lemma {:induction false} HalvesRotated(halves: Pair, n: nat)
    requires n <= 16 && IsHalf(halves.a) && IsHalf(halves.b)
    ensures var p := HalvesAfter(halves, n);
            && IsHalf(p.a) && IsHalf(p.b)
            && HalfBits(p.a) == Rotated(HalfBits(halves.a), Shifts(n))
            && HalfBits(p.b) == Rotated(HalfBits(halves.b), Shifts(n))
  {
    hide HalfBits, Rotate, IsHalf, Rotated, Shifts, EncryptRotate;
    if n == 0 {
      NotRotated(HalfBits(halves.a));
      NotRotated(HalfBits(halves.b));
      assert Shifts(0) == 0 by { NoShifts(); }
    } else {
      var p := HalvesAfter(halves, n - 1);
      HalvesRotated(halves, n - 1);
      ShiftsAddUp(n);
      RotatedBy(p.a, EncryptRotate(n - 1));
      RotatedBy(p.b, EncryptRotate(n - 1));
      RotatedTwice(HalfBits(halves.a), Shifts(n - 1), EncryptRotate(n - 1));
      RotatedTwice(HalfBits(halves.b), Shifts(n - 1), EncryptRotate(n - 1));
    }
  }

  lemma NotRotated(b: Bits)
    ensures Rotated(b, 0) == b
  {
  }

  lemma NoShifts()
    ensures Shifts(0) == 0
  {
  }

  // ----- Permuted choice 1 -----

  lemma MixParityBit(a: bv32, b: bv32, k: bv5)
    ensures Bit(MixParity(a, b), k) == (k & 7 == 4 && Bit(a, k) != Bit(b, k))
  {
  }

  function ParityExchanged(i: bv6): bv6 { if i & 7 == 4 then i ^ 32 else i }

  lemma PermParityBit(p: Pair, i: bv6)
    ensures PairBit(PermParity(p), i) == PairBit(p, ParityExchanged(i))
  {
    hide Bit, Xor, MixParity;
    var t, k := MixParity(p.a, p.b), (i & 31) as bv5;
    BitXor(p.a, t, k);
    BitXor(p.b, t, k);
    MixParityBit(p.a, p.b, k);
  }

  /** Where bit i comes from in the first two steps. */
  function KeySource(i: bv6): bv6 {
    Exchanged(ParityExchanged(i ^ 32), 4) ^ 32
  }

  lemma KeySourceBit(p: Pair, i: bv6)
    ensures PairBit(PermParity(Des.Perm4(p.Swap())).Swap(), i) == PairBit(p, KeySource(i))
  {
    hide PairBit, PermParity, Des.Perm4, ParityExchanged, Exchanged, Pair.Swap;
    var q := PermParity(Des.Perm4(p.Swap()));
    SwapBit(q, i);
    PermParityBit(Des.Perm4(p.Swap()), i ^ 32);
    Perm4Bit(p.Swap(), ParityExchanged(i ^ 32));
    SwapBit(p, Exchanged(ParityExchanged(i ^ 32), 4));
  }

  /** The four bits of an index, one in each byte. */
  lemma LeftkeySwapBit(n: bv4, k: bv5)
    ensures Thin(LeftkeySwap(n))
    ensures k & 7 == 0 ==> Bit(LeftkeySwap(n), k) == ((n >> (k >> 3)) & 1 == 1)
  {
  }

  /** In the other order. */
  lemma RightkeySwapBit(n: bv4, k: bv5)
    ensures Thin(RightkeySwap(n))
    ensures k & 7 == 0 ==> Bit(RightkeySwap(n), k) == ((n >> (3 - (k >> 3))) & 1 == 1)
  {
  }

  lemma GatherBit(t0: bv32, t1: bv32, t2: bv32, t3: bv32, t4: bv32, t5: bv32, t6: bv32, t7: bv32, k: bv5)
    requires Thin(t0) && Thin(t1) && Thin(t2) && Thin(t3) && Thin(t4) && Thin(t5) && Thin(t6) && Thin(t7) && k < 28
    ensures Bit(Gather(t0, t1, t2, t3, t4, t5, t6, t7), k)
         == match k & 7
            case 0 => Bit(t3, k & 24)
            case 1 => Bit(t2, k & 24)
            case 2 => Bit(t1, k & 24)
            case 3 => Bit(t0, k & 24)
            case 4 => Bit(t7, k & 24)
            case 5 => Bit(t6, k & 24)
            case 6 => Bit(t5, k & 24)
            case _ => Bit(t4, k & 24)
  {
  }

  function LeftSource(k: bv5): bv5 {
    match k & 7
    case 0 => 24 + (k >> 3)
    case 1 => 16 + (k >> 3)
    case 2 => 8 + (k >> 3)
    case 3 => 0 + (k >> 3)
    case 4 => 29 + (k >> 3)
    case 5 => 21 + (k >> 3)
    case 6 => 13 + (k >> 3)
    case _ => 5 + (k >> 3)
  }

  lemma NibbleBit(x: bv32, s: bv5, q: bv5)
    requires q < 4 && s <= 31 - q
    ensures (((((x >> s) & 0xf) as bv4) >> q) & 1 == 1) == Bit(x, s + q)
  {
  }

  lemma LeftIndexBits(x: bv32, q: bv5)
    requires q < 4
    ensures var e := LeftIndices(x);
            && (((e.n0 >> q) & 1 == 1) == Bit(x, 0 + q))
            && (((e.n1 >> q) & 1 == 1) == Bit(x, 8 + q))
            && (((e.n2 >> q) & 1 == 1) == Bit(x, 16 + q))
            && (((e.n3 >> q) & 1 == 1) == Bit(x, 24 + q))
            && (((e.n4 >> q) & 1 == 1) == Bit(x, 5 + q))
            && (((e.n5 >> q) & 1 == 1) == Bit(x, 13 + q))
            && (((e.n6 >> q) & 1 == 1) == Bit(x, 21 + q))
            && (q < 3 ==> ((e.n7 >> q) & 1 == 1) == Bit(x, 29 + q))
  {
    hide Bit;
    NibbleBit(x, 0, q);
    NibbleBit(x, 8, q);
    NibbleBit(x, 16, q);
    NibbleBit(x, 24, q);
    NibbleBit(x, 5, q);
    NibbleBit(x, 13, q);
    NibbleBit(x, 21, q);
    if q < 3 {
      NibbleBit(x, 29, q);
    }
  }

  lemma LeftBit(x: bv32, k: bv5)
    requires k < 28
    ensures Bit(GatherLeft(x), k) == Bit(x, LeftSource(k))
  {
    hide Bit, LeftkeySwap, LeftIndices, Gather, Thin;
    var e := LeftIndices(x);
    LeftkeySwapBit(e.n0, k & 24);
    LeftkeySwapBit(e.n1, k & 24);
    LeftkeySwapBit(e.n2, k & 24);
    LeftkeySwapBit(e.n3, k & 24);
    LeftkeySwapBit(e.n4, k & 24);
    LeftkeySwapBit(e.n5, k & 24);
    LeftkeySwapBit(e.n6, k & 24);
    LeftkeySwapBit(e.n7, k & 24);
    GatherBit(LeftkeySwap(e.n0), LeftkeySwap(e.n1), LeftkeySwap(e.n2), LeftkeySwap(e.n3),
              LeftkeySwap(e.n4), LeftkeySwap(e.n5), LeftkeySwap(e.n6), LeftkeySwap(e.n7), k);
    LeftIndexBits(x, k >> 3);
  }

  function RightSource(k: bv5): bv5 {
    match k & 7
    case 0 => 25 + (3 - (k >> 3))
    case 1 => 17 + (3 - (k >> 3))
    case 2 => 9 + (3 - (k >> 3))
    case 3 => 1 + (3 - (k >> 3))
    case 4 => 28 + (3 - (k >> 3))
    case 5 => 20 + (3 - (k >> 3))
    case 6 => 12 + (3 - (k >> 3))
    case _ => 4 + (3 - (k >> 3))
  }

  lemma RightIndexBits(x: bv32, q: bv5)
    requires q < 4
    ensures var e := RightIndices(x);
            && (((e.n0 >> q) & 1 == 1) == Bit(x, 1 + q))
            && (((e.n1 >> q) & 1 == 1) == Bit(x, 9 + q))
            && (((e.n2 >> q) & 1 == 1) == Bit(x, 17 + q))
            && (((e.n3 >> q) & 1 == 1) == Bit(x, 25 + q))
            && (((e.n4 >> q) & 1 == 1) == Bit(x, 4 + q))
            && (((e.n5 >> q) & 1 == 1) == Bit(x, 12 + q))
            && (((e.n6 >> q) & 1 == 1) == Bit(x, 20 + q))
            && (((e.n7 >> q) & 1 == 1) == Bit(x, 28 + q))
  {
    hide Bit;
    NibbleBit(x, 1, q);
    NibbleBit(x, 9, q);
    NibbleBit(x, 17, q);
    NibbleBit(x, 25, q);
    NibbleBit(x, 4, q);
    NibbleBit(x, 12, q);
    NibbleBit(x, 20, q);
    NibbleBit(x, 28, q);
  }

  lemma RightBit(x: bv32, k: bv5)
    requires k < 28
    ensures Bit(GatherRight(x), k) == Bit(x, RightSource(k))
  {
    hide Bit, RightkeySwap, RightIndices, Gather, Thin;
    var e := RightIndices(x);
    RightkeySwapBit(e.n0, k & 24);
    RightkeySwapBit(e.n1, k & 24);
    RightkeySwapBit(e.n2, k & 24);
    RightkeySwapBit(e.n3, k & 24);
    RightkeySwapBit(e.n4, k & 24);
    RightkeySwapBit(e.n5, k & 24);
    RightkeySwapBit(e.n6, k & 24);
    RightkeySwapBit(e.n7, k & 24);
    GatherBit(RightkeySwap(e.n0), RightkeySwap(e.n1), RightkeySwap(e.n2), RightkeySwap(e.n3),
              RightkeySwap(e.n4), RightkeySwap(e.n5), RightkeySwap(e.n6), RightkeySwap(e.n7), k);
    RightIndexBits(x, 3 - (k >> 3));
  }

  lemma ChoiceLeft1(j: nat)
    requires 0 <= j < 14
    ensures KeySource(LeftSource(Place(j + 4)) as bv6) == PairPlace(PC1(j) - 1)
  {
    match j
    case 0 => case 1 => case 2 => case 3 => case 4 => case 5 => case 6 => case 7 =>
    case 8 => case 9 => case 10 => case 11 => case 12 => case _ =>
  }

  lemma ChoiceLeft2(j: nat)
    requires 14 <= j < 28
    ensures KeySource(LeftSource(Place(j + 4)) as bv6) == PairPlace(PC1(j) - 1)
  {
    match j
    case 14 => case 15 => case 16 => case 17 => case 18 => case 19 => case 20 => case 21 =>
    case 22 => case 23 => case 24 => case 25 => case 26 => case _ =>
  }

  lemma ChoiceRight1(j: nat)
    requires 0 <= j < 14
    ensures KeySource(32 | (RightSource(Place(j + 4)) as bv6)) == PairPlace(PC1(j + 28) - 1)
  {
    match j
    case 0 => case 1 => case 2 => case 3 => case 4 => case 5 => case 6 => case 7 =>
    case 8 => case 9 => case 10 => case 11 => case 12 => case _ =>
  }

  lemma ChoiceRight2(j: nat)
    requires 14 <= j < 28
    ensures KeySource(32 | (RightSource(Place(j + 4)) as bv6)) == PairPlace(PC1(j + 28) - 1)
  {
    match j
    case 14 => case 15 => case 16 => case 17 => case 18 => case 19 => case 20 => case 21 =>
    case 22 => case 23 => case 24 => case 25 => case 26 => case _ =>
  }

  lemma LeftHalf(p: Pair, j: nat)
    requires j < 28
    ensures var q := PermParity(Des.Perm4(p.Swap())).Swap();
            Bit(GatherLeft(q.a), Place(j + 4)) == BlockBits(p)[PC1(j) - 1]
  {
    hide PermParity, Des.Perm4, GatherLeft, LeftSource, KeySource, Bit, Place, PC1, BlockBits, PairPlace;
    var q := PermParity(Des.Perm4(p.Swap())).Swap();
    PlaceInHalf(j);
    LeftBit(q.a, Place(j + 4));
    var i := LeftSource(Place(j + 4));
    FirstWordBit(q, i);
    KeySourceBit(p, i as bv6);
    if j < 14 {
      ChoiceLeft1(j);
    } else {
      ChoiceLeft2(j);
    }
    BlockBitAt(p, PC1(j) - 1);
  }

  lemma RightHalf(p: Pair, j: nat)
    requires j < 28
    ensures var q := PermParity(Des.Perm4(p.Swap())).Swap();
            Bit(GatherRight(q.b), Place(j + 4)) == BlockBits(p)[PC1(j + 28) - 1]
  {
    hide PermParity, Des.Perm4, GatherRight, RightSource, KeySource, Bit, Place, PC1, BlockBits, PairPlace;
    var q := PermParity(Des.Perm4(p.Swap())).Swap();
    PlaceInHalf(j);
    RightBit(q.b, Place(j + 4));
    var i := RightSource(Place(j + 4));
    SecondWordBit(q, i);
    KeySourceBit(p, 32 | (i as bv6));
    if j < 14 {
      ChoiceRight1(j);
    } else {
      ChoiceRight2(j);
    }
    BlockBitAt(p, PC1(j + 28) - 1);
  }

  lemma FirstWordBit(p: Pair, k: bv5)
    ensures PairBit(p, k as bv6) == Bit(p.a, k)
  {
    hide Bit;
  }

  lemma SecondWordBit(p: Pair, k: bv5)
    ensures PairBit(p, 32 | (k as bv6)) == Bit(p.b, k)
  {
    hide Bit;
  }

  /** The two halves of the key are permuted choice 1. */
  lemma HalvesStandard(rawkey: seq<Byte>)
    requires |rawkey| == 8
    ensures var p := KeyHalves(rawkey);
            HalfBits(p.a) + HalfBits(p.b) == Permuted(PC1, 56, BlockBits(Des.ReadBlock(rawkey)))
  {
    hide PermParity, Des.Perm4, GatherLeft, GatherRight, Bit, Place, PC1, BlockBits, Des.ReadBlock;
    var b := Des.ReadBlock(rawkey);
    var p := KeyHalves(rawkey);
    forall j | 0 <= j < 56
      ensures (HalfBits(p.a) + HalfBits(p.b))[j] == BlockBits(b)[PC1(j) - 1]
    {
      if j < 28 {
        LeftHalf(b, j);
      } else {
        RightHalf(b, j - 28);
      }
    }
  }

  /** The words of round n hold the block of the key schedule. */
  lemma ScheduleStandard(rawkey: seq<Byte>, n: nat)
    requires |rawkey| == 8 && 1 <= n <= 16
    ensures KeyBits(Schedule(rawkey)[2 * n - 2], Schedule(rawkey)[2 * n - 1])
         == KeyBlock(BlockBits(Des.ReadBlock(rawkey)), n)
  {
    hide KeyBits, BlockBits, Des.ReadBlock, HalfBits, SubkeyEven, SubkeyOdd, PC1, PC2, HalvesAfter, Rotated, Shifts;
    hide IsHalf, KeyHalves, Subkeys;
    var halves := KeyHalves(rawkey);
    KeyHalvesAreHalves(rawkey);
    HalvesStandard(rawkey);
    var cd := Permuted(PC1, 56, BlockBits(Des.ReadBlock(rawkey)));
    assert cd[..28] == HalfBits(halves.a) && cd[28..] == HalfBits(halves.b);
    SubkeysAt(halves, 16, n);
    HalvesRotated(halves, n);
    SubkeyStandard(HalvesAfter(halves, n));
  }

  lemma {:induction false} SubkeysAt(halves: Pair, last: nat, n: nat)
    requires 1 <= n <= last <= 16
    ensures Subkeys(halves, last)[2 * n - 2] == SubkeyEven(HalvesAfter(halves, n))
    ensures Subkeys(halves, last)[2 * n - 1] == SubkeyOdd(HalvesAfter(halves, n))
  {
    hide SubkeyEven, SubkeyOdd, HalvesAfter;
    if n < last {
      SubkeysAt(halves, last - 1, n);
    }
  }
}
