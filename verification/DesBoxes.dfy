/** The round function of gl/des.c is the cipher function of FIPS 46-3. */
module DesBoxes {
  import opened Bytes
  import opened Feistel
  import opened DesTables
  import opened Des
  import opened DesStandard
  import opened DesBits

  // ----- Single boxes: the entries are the selected values, where P and the rotation by one bit put them -----

  /** Row and column that six bits choose. */
  function RowOf(i: bv6): bv2 { (((i >> 4) & 2) | (i & 1)) as bv2 }
  function ColumnOf(i: bv6): bv4 { ((i >> 1) & 15) as bv4 }

  /** Four bits, each in its place. */
  function Spread(v: bv4, a: bv32, b: bv32, c: bv32, d: bv32): bv32 {
    (if v & 8 != 0 then a else 0) | (if v & 4 != 0 then b else 0)
    | (if v & 2 != 0 then c else 0) | (if v & 1 != 0 then d else 0)
  }

  lemma Box1(i: bv6)
    ensures SBox1(i) == Spread(S1(RowOf(i), ColumnOf(i)), 0x01000000, 0x00010000, 0x00000400, 0x00000004)
  {
    match ColumnOf(i)
    case 0 => case 1 => case 2 => case 3 => case 4 => case 5 => case 6 => case 7 =>
    case 8 => case 9 => case 10 => case 11 => case 12 => case 13 => case 14 => case _ =>
  }

  lemma Box2(i: bv6)
    ensures SBox2(i) == Spread(S2(RowOf(i), ColumnOf(i)), 0x00100000, 0x00000020, 0x80000000, 0x00008000)
  {
    match ColumnOf(i)
    case 0 => case 1 => case 2 => case 3 => case 4 => case 5 => case 6 => case 7 =>
    case 8 => case 9 => case 10 => case 11 => case 12 => case 13 => case 14 => case _ =>
  }

  lemma Box3(i: bv6)
    ensures SBox3(i) == Spread(S3(RowOf(i), ColumnOf(i)), 0x00000200, 0x00020000, 0x00000008, 0x08000000)
  {
    match ColumnOf(i)
    case 0 => case 1 => case 2 => case 3 => case 4 => case 5 => case 6 => case 7 =>
    case 8 => case 9 => case 10 => case 11 => case 12 => case 13 => case 14 => case _ =>
  }

  lemma Box4(i: bv6)
    ensures SBox4(i) == Spread(S4(RowOf(i), ColumnOf(i)), 0x00000080, 0x00002000, 0x00800000, 0x00000001)
  {
    match ColumnOf(i)
    case 0 => case 1 => case 2 => case 3 => case 4 => case 5 => case 6 => case 7 =>
    case 8 => case 9 => case 10 => case 11 => case 12 => case 13 => case 14 => case _ =>
  }

  lemma Box5(i: bv6)
    ensures SBox5(i) == Spread(S5(RowOf(i), ColumnOf(i)), 0x02000000, 0x00080000, 0x00000100, 0x40000000)
  {
    match ColumnOf(i)
    case 0 => case 1 => case 2 => case 3 => case 4 => case 5 => case 6 => case 7 =>
    case 8 => case 9 => case 10 => case 11 => case 12 => case 13 => case 14 => case _ =>
  }

  lemma Box6(i: bv6)
    ensures SBox6(i) == Spread(S6(RowOf(i), ColumnOf(i)), 0x20000000, 0x00000010, 0x00400000, 0x00004000)
  {
    match ColumnOf(i)
    case 0 => case 1 => case 2 => case 3 => case 4 => case 5 => case 6 => case 7 =>
    case 8 => case 9 => case 10 => case 11 => case 12 => case 13 => case 14 => case _ =>
  }

  lemma Box7(i: bv6)
    ensures SBox7(i) == Spread(S7(RowOf(i), ColumnOf(i)), 0x00000002, 0x00200000, 0x00000800, 0x04000000)
  {
    match ColumnOf(i)
    case 0 => case 1 => case 2 => case 3 => case 4 => case 5 => case 6 => case 7 =>
    case 8 => case 9 => case 10 => case 11 => case 12 => case 13 => case 14 => case _ =>
  }

  lemma Box8(i: bv6)
    ensures SBox8(i) == Spread(S8(RowOf(i), ColumnOf(i)), 0x10000000, 0x00000040, 0x00040000, 0x00001000)
  {
    match ColumnOf(i)
    case 0 => case 1 => case 2 => case 3 => case 4 => case 5 => case 6 => case 7 =>
    case 8 => case 9 => case 10 => case 11 => case 12 => case 13 => case 14 => case _ =>
  }

  /** The bits that belong to one box. */
  function BoxMask(n: nat): bv32
    requires 1 <= n <= 8
  {
    match n
    case 1 => 0x01010404
    case 2 => 0x80108020
    case 3 => 0x08020208
    case 4 => 0x00802081
    case 5 => 0x42080100
    case 6 => 0x20404010
    case 7 => 0x04200802
    case _ => 0x10041040
  }

  /** Its entry for a selected value. */
  function SpreadOf(n: nat, v: bv4): bv32
    requires 1 <= n <= 8
  {
    match n
    case 1 => Spread(v, 0x01000000, 0x00010000, 0x00000400, 0x00000004)
    case 2 => Spread(v, 0x00100000, 0x00000020, 0x80000000, 0x00008000)
    case 3 => Spread(v, 0x00000200, 0x00020000, 0x00000008, 0x08000000)
    case 4 => Spread(v, 0x00000080, 0x00002000, 0x00800000, 0x00000001)
    case 5 => Spread(v, 0x02000000, 0x00080000, 0x00000100, 0x40000000)
    case 6 => Spread(v, 0x20000000, 0x00000010, 0x00400000, 0x00004000)
    case 7 => Spread(v, 0x00000002, 0x00200000, 0x00000800, 0x04000000)
    case _ => Spread(v, 0x10000000, 0x00000040, 0x00040000, 0x00001000)
  }

  lemma Inside1(v: bv4)
    ensures SpreadOf(1, v) & !0x01010404 == 0
  {
  }

  lemma Inside2(v: bv4)
    ensures SpreadOf(2, v) & !0x80108020 == 0
  {
  }

  lemma Inside3(v: bv4)
    ensures SpreadOf(3, v) & !0x08020208 == 0
  {
  }

  lemma Inside4(v: bv4)
    ensures SpreadOf(4, v) & !0x00802081 == 0
  {
  }

  lemma Inside5(v: bv4)
    ensures SpreadOf(5, v) & !0x42080100 == 0
  {
  }

  lemma Inside6(v: bv4)
    ensures SpreadOf(6, v) & !0x20404010 == 0
  {
  }

  lemma Inside7(v: bv4)
    ensures SpreadOf(7, v) & !0x04200802 == 0
  {
  }

  lemma Inside8(v: bv4)
    ensures SpreadOf(8, v) & !0x10041040 == 0
  {
  }

  /** What the eight lines of a round mix together. */
  function Mixed(x1: bv32, x2: bv32, x3: bv32, x4: bv32, x5: bv32, x6: bv32, x7: bv32, x8: bv32): bv32 {
    Xor(Four(x8, x6, x4, x2), Four(x7, x5, x3, x1))
  }

  function Four(a: bv32, b: bv32, c: bv32, d: bv32): bv32 { a ^ b ^ c ^ d }

  lemma BoxesApart(x1: bv32, x2: bv32, x3: bv32, x4: bv32, x5: bv32, x6: bv32, x7: bv32, x8: bv32)
    requires x1 & !0x01010404 == 0
    requires x2 & !0x80108020 == 0
    requires x3 & !0x08020208 == 0
    requires x4 & !0x00802081 == 0
    requires x5 & !0x42080100 == 0
    requires x6 & !0x20404010 == 0
    requires x7 & !0x04200802 == 0
    requires x8 & !0x10041040 == 0
    ensures var t := Mixed(x1, x2, x3, x4, x5, x6, x7, x8);
            && t & 0x01010404 == x1
            && t & 0x80108020 == x2
            && t & 0x08020208 == x3
            && t & 0x00802081 == x4
            && t & 0x42080100 == x5
            && t & 0x20404010 == x6
            && t & 0x04200802 == x7
            && t & 0x10041040 == x8
  {
  }

  /** The mixture of the entries for eight values. */
  function MixedValues(v: seq<bv4>): bv32
    requires |v| == 8
  {
    Mixed(SpreadOf(1, v[0]), SpreadOf(2, v[1]), SpreadOf(3, v[2]), SpreadOf(4, v[3]),
          SpreadOf(5, v[4]), SpreadOf(6, v[5]), SpreadOf(7, v[6]), SpreadOf(8, v[7]))
  }

  /** The bits of one box. */
  function Part(t: bv32, n: nat): bv32
    requires 1 <= n <= 8
  {
    match n
    case 1 => t & 0x01010404
    case 2 => t & 0x80108020
    case 3 => t & 0x08020208
    case 4 => t & 0x00802081
    case 5 => t & 0x42080100
    case 6 => t & 0x20404010
    case 7 => t & 0x04200802
    case _ => t & 0x10041040
  }

  lemma PartsApart(x1: bv32, x2: bv32, x3: bv32, x4: bv32, x5: bv32, x6: bv32, x7: bv32, x8: bv32)
    requires x1 & !0x01010404 == 0
    requires x2 & !0x80108020 == 0
    requires x3 & !0x08020208 == 0
    requires x4 & !0x00802081 == 0
    requires x5 & !0x42080100 == 0
    requires x6 & !0x20404010 == 0
    requires x7 & !0x04200802 == 0
    requires x8 & !0x10041040 == 0
    ensures var t := Mixed(x1, x2, x3, x4, x5, x6, x7, x8);
            && Part(t, 1) == x1 && Part(t, 2) == x2 && Part(t, 3) == x3 && Part(t, 4) == x4
            && Part(t, 5) == x5 && Part(t, 6) == x6 && Part(t, 7) == x7 && Part(t, 8) == x8
  {
    hide Mixed, Part;
    BoxesApart(x1, x2, x3, x4, x5, x6, x7, x8);
    PartMasks(Mixed(x1, x2, x3, x4, x5, x6, x7, x8));
  }

  lemma PartMasks(t: bv32)
    ensures Part(t, 1) == t & 0x01010404
    ensures Part(t, 2) == t & 0x80108020
    ensures Part(t, 3) == t & 0x08020208
    ensures Part(t, 4) == t & 0x00802081
    ensures Part(t, 5) == t & 0x42080100
    ensures Part(t, 6) == t & 0x20404010
    ensures Part(t, 7) == t & 0x04200802
    ensures Part(t, 8) == t & 0x10041040
  {
  }

  lemma PartOfMixed(v: seq<bv4>, n: nat)
    requires |v| == 8 && 1 <= n <= 8
    ensures Part(MixedValues(v), n) == SpreadOf(n, v[n - 1])
  {
    hide SpreadOf, Mixed, Part;
    Inside1(v[0]);
    Inside2(v[1]);
    Inside3(v[2]);
    Inside4(v[3]);
    Inside5(v[4]);
    Inside6(v[5]);
    Inside7(v[6]);
    Inside8(v[7]);
    PartsApart(SpreadOf(1, v[0]), SpreadOf(2, v[1]), SpreadOf(3, v[2]), SpreadOf(4, v[3]),
               SpreadOf(5, v[4]), SpreadOf(6, v[5]), SpreadOf(7, v[6]), SpreadOf(8, v[7]));
  }

  lemma BitOfMasked(t: bv32, m: bv32, k: bv5)
    requires Bit(m, k)
    ensures Bit(t & m, k) == Bit(t, k)
  {
  }

  lemma BitOfPart(t: bv32, n: nat, k: bv5)
    requires 1 <= n <= 8 && Bit(BoxMask(n), k)
    ensures Bit(Part(t, n), k) == Bit(t, k)
  {
    hide Bit;
    match n
    case 1 => BitOfMasked(t, 0x01010404, k);
    case 2 => BitOfMasked(t, 0x80108020, k);
    case 3 => BitOfMasked(t, 0x08020208, k);
    case 4 => BitOfMasked(t, 0x00802081, k);
    case 5 => BitOfMasked(t, 0x42080100, k);
    case 6 => BitOfMasked(t, 0x20404010, k);
    case 7 => BitOfMasked(t, 0x04200802, k);
    case _ => BitOfMasked(t, 0x10041040, k);
  }

  /** Where bit m of the value of box n goes. */
  function BoxPlace(n: nat, m: nat): bv5
    requires 1 <= n <= 8 && m < 4
  {
    match n
    case 1 => (match m case 0 => 24 case 1 => 16 case 2 => 10 case _ => 2)
    case 2 => (match m case 0 => 20 case 1 => 5 case 2 => 31 case _ => 15)
    case 3 => (match m case 0 => 9 case 1 => 17 case 2 => 3 case _ => 27)
    case 4 => (match m case 0 => 7 case 1 => 13 case 2 => 23 case _ => 0)
    case 5 => (match m case 0 => 25 case 1 => 19 case 2 => 8 case _ => 30)
    case 6 => (match m case 0 => 29 case 1 => 4 case 2 => 22 case _ => 14)
    case 7 => (match m case 0 => 1 case 1 => 21 case 2 => 11 case _ => 26)
    case _ => (match m case 0 => 28 case 1 => 6 case 2 => 18 case _ => 12)
  }

  lemma SpreadPlace(n: nat, m: nat, v: bv4)
    requires 1 <= n <= 8 && m < 4
    ensures Bit(BoxMask(n), BoxPlace(n, m)) && Bit(SpreadOf(n, v), BoxPlace(n, m)) == FourBits(v)[m]
  {
    match n
    case 1 => case 2 => case 3 => case 4 => case 5 => case 6 => case 7 => case _ =>
  }

  lemma PlaceOfPFirst(q: nat)
    requires 0 <= q < 16
    ensures BoxPlace((P(q) - 1) / 4 + 1, (P(q) - 1) % 4) == Place(q) + 1
  {
    match q
    case 0 => case 1 => case 2 => case 3 => case 4 => case 5 => case 6 => case 7 =>
    case 8 => case 9 => case 10 => case 11 => case 12 => case 13 => case 14 => case _ =>
  }

  lemma PlaceOfPLast(q: nat)
    requires 16 <= q < 32
    ensures BoxPlace((P(q) - 1) / 4 + 1, (P(q) - 1) % 4) == Place(q) + 1
  {
    match q
    case 16 => case 17 => case 18 => case 19 => case 20 => case 21 => case 22 => case 23 =>
    case 24 => case 25 => case 26 => case 27 => case 28 => case 29 => case 30 => case _ =>
  }

  /** It is where the permutation P takes it, one place further to the left. */
  lemma PlaceOfP(q: nat)
    requires q < 32
    ensures BoxPlace((P(q) - 1) / 4 + 1, (P(q) - 1) % 4) == Place(q) + 1
  {
    hide BoxPlace, P, Place;
    if q < 16 {
      PlaceOfPFirst(q);
    } else {
      PlaceOfPLast(q);
    }
  }

  lemma MixedBit(v: seq<bv4>, q: nat)
    requires |v| == 8 && q < 32
    ensures Bit(MixedValues(v), Place(q) + 1) == FourBits(v[(P(q) - 1) / 4])[(P(q) - 1) % 4]
  {
    hide Bit, MixedValues, SpreadOf, BoxMask, Part, FourBits, P, Place, BoxPlace;
    var n, m := (P(q) - 1) / 4 + 1, (P(q) - 1) % 4;
    PartOfMixed(v, n);
    PlaceOfP(q);
    SpreadPlace(n, m, v[n - 1]);
    BitOfPart(MixedValues(v), n, Place(q) + 1);
  }

  // ----- Six bits at a time -----

  function SixBits(i: bv6): (b: Bits)
    ensures |b| == 6
  {
    [(i >> 5) & 1 == 1, (i >> 4) & 1 == 1, (i >> 3) & 1 == 1, (i >> 2) & 1 == 1, (i >> 1) & 1 == 1, i & 1 == 1]
  }

  function Offset(m: nat): bv5
    requires m < 6
  {
    match m case 0 => 0 case 1 => 1 case 2 => 2 case 3 => 3 case 4 => 4 case _ => 5
  }

  /** m places below t. */
  function Down(t: bv5, m: nat): bv5
    requires m < 6
  {
    t - Offset(m)
  }

  lemma DownMoves(t: bv5, d: bv5, m: nat)
    requires m < 6
    ensures Down(t + d, m) == Down(t, m) + d
  {
    hide Offset;
  }

  /** Where the field of `work` that box n looks up begins. */
  function FieldTop(n: nat): bv5
    requires 1 <= n <= 8
  {
    if n <= 2 then 29 else if n <= 4 then 21 else if n <= 6 then 13 else 5
  }

  /** The field itself. */
  function FieldOf(work: bv32, n: nat): bv6
    requires 1 <= n <= 8
  {
    if n <= 2 then Field24(work) else if n <= 4 then Field16(work) else if n <= 6 then Field8(work) else Field0(work)
  }

  lemma Field24Bit(w: bv32, m: nat)
    requires m < 6
    ensures SixBits(Field24(w))[m] == Bit(w, Down(29, m))
  {
    match m case 0 => case 1 => case 2 => case 3 => case 4 => case _ =>
  }

  lemma Field16Bit(w: bv32, m: nat)
    requires m < 6
    ensures SixBits(Field16(w))[m] == Bit(w, Down(21, m))
  {
    match m case 0 => case 1 => case 2 => case 3 => case 4 => case _ =>
  }

  lemma Field8Bit(w: bv32, m: nat)
    requires m < 6
    ensures SixBits(Field8(w))[m] == Bit(w, Down(13, m))
  {
    match m case 0 => case 1 => case 2 => case 3 => case 4 => case _ =>
  }

  lemma Field0Bit(w: bv32, m: nat)
    requires m < 6
    ensures SixBits(Field0(w))[m] == Bit(w, Down(5, m))
  {
    match m case 0 => case 1 => case 2 => case 3 => case 4 => case _ =>
  }

  lemma FieldBit(w: bv32, n: nat, m: nat)
    requires 1 <= n <= 8 && m < 6
    ensures SixBits(FieldOf(w, n))[m] == Bit(w, Down(FieldTop(n), m))
  {
    hide Field24, Field16, Field8, Field0, SixBits, Bit, Down;
    Field24Bit(w, m);
    Field16Bit(w, m);
    Field8Bit(w, m);
    Field0Bit(w, m);
  }

  lemma SelectedSix(n: nat, i: bv6)
    requires 1 <= n <= 8
    ensures Selected(n, SixBits(i)) == FourBits(SelectionTable(n, RowOf(i), ColumnOf(i)))
  {
    hide SelectionTable, FourBits;
    RowAndColumn(i);
  }

  lemma RowAndColumn(i: bv6)
    ensures RowNumber(SixBits(i)[0], SixBits(i)[5]) == RowOf(i)
    ensures ColumnNumber(SixBits(i)[1], SixBits(i)[2], SixBits(i)[3], SixBits(i)[4]) == ColumnOf(i)
  {
  }

  /** Where the bits that E selects for box n begin. */
  function GroupTop(n: nat): bv5
    requires 1 <= n <= 8
  {
    match n case 1 => 0 case 2 => 28 case 3 => 24 case 4 => 20 case 5 => 16 case 6 => 12 case 7 => 8 case _ => 4
  }

  lemma EPlaceFirst(n: nat, m: nat)
    requires 1 <= n <= 4 && m < 6
    ensures Place(E(6 * n - 6 + m) - 1) == Down(GroupTop(n), m)
  {
    match n
    case 1 => match m { case 0 => case 1 => case 2 => case 3 => case 4 => case _ => }
    case 2 => match m { case 0 => case 1 => case 2 => case 3 => case 4 => case _ => }
    case 3 => match m { case 0 => case 1 => case 2 => case 3 => case 4 => case _ => }
    case _ => match m { case 0 => case 1 => case 2 => case 3 => case 4 => case _ => }
  }

  lemma EPlaceLast(n: nat, m: nat)
    requires 5 <= n <= 8 && m < 6
    ensures Place(E(6 * n - 6 + m) - 1) == Down(GroupTop(n), m)
  {
    match n
    case 5 => match m { case 0 => case 1 => case 2 => case 3 => case 4 => case _ => }
    case 6 => match m { case 0 => case 1 => case 2 => case 3 => case 4 => case _ => }
    case 7 => match m { case 0 => case 1 => case 2 => case 3 => case 4 => case _ => }
    case _ => match m { case 0 => case 1 => case 2 => case 3 => case 4 => case _ => }
  }

  lemma EPlace(n: nat, m: nat)
    requires 1 <= n <= 8 && m < 6
    ensures Place(E(6 * n - 6 + m) - 1) == Down(GroupTop(n), m)
  {
    hide Place, E, Down, GroupTop;
    if n <= 4 {
      EPlaceFirst(n, m);
    } else {
      EPlaceLast(n, m);
    }
  }

  /** The bits of a block of the key schedule, in its two words: six for each box. */
  function KeyBits(k0: bv32, k1: bv32): (b: Bits)
    ensures |b| == 48
    ensures forall j :: 0 <= j < 48 ==> b[j] == KeyBit(k0, k1, j / 6 + 1, j % 6)
  {
    seq(48, j requires 0 <= j < 48 => KeyBit(k0, k1, j / 6 + 1, j % 6))
  }

  predicate KeyBit(k0: bv32, k1: bv32, n: nat, m: nat)
    requires 1 <= n <= 8 && m < 6
  {
    Bit(if n % 2 == 0 then k0 else k1, Down(FieldTop(n), m))
  }

  lemma KeyBitAt(k0: bv32, k1: bv32, n: nat, m: nat)
    requires 1 <= n <= 8 && m < 6
    ensures KeyBits(k0, k1)[6 * n - 6 + m] == KeyBit(k0, k1, n, m)
  {
    hide KeyBit;
    assert (6 * n - 6 + m) / 6 == n - 1 && (6 * n - 6 + m) % 6 == m;
  }

  // ----- The round -----

  /** What box n looks at: the word rotated, for odd boxes turned back by four, and mixed with the subkey. */
  function WorkOf(w: bv32, k0: bv32, k1: bv32, n: nat): bv32 {
    if n % 2 == 0 then Xor(Rot1(w), k0) else Xor(Rot28(Rot1(w)), k1)
  }

  lemma Rot28Bit(x: bv32, k: bv5)
    ensures Bit(Rot28(x), k) == Bit(x, k + 4)
  {
  }

  lemma SourceBit(w: bv32, n: nat, m: nat)
    requires 1 <= n <= 8 && m < 6
    ensures Bit(if n % 2 == 0 then Rot1(w) else Rot28(Rot1(w)), Down(FieldTop(n), m)) == Bit(w, Down(GroupTop(n), m))
  {
    hide Bit, Rot1, Rot28, Down, FieldTop, GroupTop;
    var place := Down(FieldTop(n), m);
    TopsApart(n, m);
    if n % 2 == 0 {
      Rot1Bit(w, place);
    } else {
      Rot28Bit(Rot1(w), place);
      Rot1Bit(w, place + 4);
    }
  }

  lemma WorkBit(w: bv32, k0: bv32, k1: bv32, n: nat, m: nat)
    requires 1 <= n <= 8 && m < 6
    ensures Bit(WorkOf(w, k0, k1, n), Down(FieldTop(n), m)) == (Bit(w, Down(GroupTop(n), m)) != KeyBit(k0, k1, n, m))
  {
    hide Bit, Xor, Rot1, Rot28, Down, FieldTop, GroupTop;
    SourceBit(w, n, m);
    if n % 2 == 0 {
      BitXor(Rot1(w), k0, Down(FieldTop(n), m));
    } else {
      BitXor(Rot28(Rot1(w)), k1, Down(FieldTop(n), m));
    }
  }

  /** The bits that the standard mixes together for the boxes. */
  function Looked(w: bv32, k0: bv32, k1: bv32): (b: Bits)
    ensures |b| == 48
  {
    Xored(Permuted(E, 48, WordBits(w)), KeyBits(k0, k1))
  }

  lemma LookedAt(w: bv32, k0: bv32, k1: bv32, n: nat, m: nat)
    requires 1 <= n <= 8 && m < 6
    ensures Looked(w, k0, k1)[6 * n - 6 + m] == (Bit(w, Down(GroupTop(n), m)) != KeyBit(k0, k1, n, m))
  {
    hide Bit, Down, Place, E, KeyBit, KeyBits, GroupTop;
    EPlace(n, m);
    KeyBitAt(k0, k1, n, m);
  }

  /** They are the six bits that each box is given. */
  lemma SixMixed(w: bv32, k0: bv32, k1: bv32, n: nat)
    requires 1 <= n <= 8
    ensures Looked(w, k0, k1)[6 * n - 6..6 * n] == SixBits(FieldOf(WorkOf(w, k0, k1, n), n))
  {
    hide Bit, Down, KeyBit, SixBits, FieldOf, WorkOf, Looked, GroupTop, FieldTop;
    var six := SixBits(FieldOf(WorkOf(w, k0, k1, n), n));
    forall m | 0 <= m < 6
      ensures Looked(w, k0, k1)[6 * n - 6..6 * n][m] == six[m]
    {
      FieldBit(WorkOf(w, k0, k1, n), n, m);
      WorkBit(w, k0, k1, n, m);
      LookedAt(w, k0, k1, n, m);
    }
  }

  lemma TopsApart(n: nat, m: nat)
    requires 1 <= n <= 8 && m < 6
    ensures Down(GroupTop(n), m) == Down(FieldTop(n), m) + if n % 2 == 0 then 31 else 3
  {
    hide Down;
    DownMoves(FieldTop(n), if n % 2 == 0 then 31 else 3, m);
    TopDistance(n);
  }

  lemma TopDistance(n: nat)
    requires 1 <= n <= 8
    ensures GroupTop(n) == FieldTop(n) + if n % 2 == 0 then 31 else 3
  {
    match n case 1 => case 2 => case 3 => case 4 => case 5 => case 6 => case 7 => case _ =>
  }

  lemma {:induction false} AllSelectedAt(b: Bits, last: nat, n: nat)
    requires |b| == 48 && 1 <= n <= last <= 8
    ensures AllSelected(b, last)[4 * n - 4..4 * n] == Selected(n, b[6 * n - 6..6 * n])
  {
    hide Selected;
    if n < last {
      AllSelectedAt(b, last - 1, n);
    }
  }

  /** The value that box n selects. */
  function ValueOf(w: bv32, k0: bv32, k1: bv32, n: nat): bv4
    requires 1 <= n <= 8
  {
    var i := FieldOf(WorkOf(w, k0, k1, n), n);
    SelectionTable(n, RowOf(i), ColumnOf(i))
  }

  function Values(w: bv32, k0: bv32, k1: bv32): (v: seq<bv4>)
    ensures |v| == 8
  {
    seq(8, j requires 0 <= j < 8 => ValueOf(w, k0, k1, j + 1))
  }

  function SelectedBy(n: nat, i: bv6): bv4
    requires 1 <= n <= 8
  {
    SelectionTable(n, RowOf(i), ColumnOf(i))
  }

  lemma EvenAreFour(work: bv32)
    ensures EvenBoxes(work)
         == Four(SBox8(Field0(work)), SBox6(Field8(work)), SBox4(Field16(work)), SBox2(Field24(work)))
  {
    hide Field0, Field8, Field16, Field24, SBox8, SBox6, SBox4, SBox2;
  }

  lemma EvenLookUp(work: bv32)
    ensures EvenBoxes(work)
         == Four(SpreadOf(8, SelectedBy(8, Field0(work))), SpreadOf(6, SelectedBy(6, Field8(work))),
                 SpreadOf(4, SelectedBy(4, Field16(work))), SpreadOf(2, SelectedBy(2, Field24(work))))
  {
    hide EvenBoxes, Four;
    EvenAreFour(work);
    hide Field0, Field8, Field16, Field24, Spread, RowOf, ColumnOf;
    hide SBox2, SBox4, SBox6, SBox8, S2, S4, S6, S8;
    Box2(Field24(work));
    Box4(Field16(work));
    Box6(Field8(work));
    Box8(Field0(work));
  }

  lemma OddAreFour(work: bv32)
    ensures OddBoxes(work)
         == Four(SBox7(Field0(work)), SBox5(Field8(work)), SBox3(Field16(work)), SBox1(Field24(work)))
  {
    hide Field0, Field8, Field16, Field24, SBox7, SBox5, SBox3, SBox1;
  }

  lemma OddLookUp(work: bv32)
    ensures OddBoxes(work)
         == Four(SpreadOf(7, SelectedBy(7, Field0(work))), SpreadOf(5, SelectedBy(5, Field8(work))),
                 SpreadOf(3, SelectedBy(3, Field16(work))), SpreadOf(1, SelectedBy(1, Field24(work))))
  {
    hide OddBoxes, Four;
    OddAreFour(work);
    hide Field0, Field8, Field16, Field24, Spread, RowOf, ColumnOf;
    hide SBox1, SBox3, SBox5, SBox7, S1, S3, S5, S7;
    Box1(Field24(work));
    Box3(Field16(work));
    Box5(Field8(work));
    Box7(Field0(work));
  }

  lemma ValuesAre(w: bv32, k0: bv32, k1: bv32)
    ensures var even, odd, v := Xor(Rot1(w), k0), Xor(Rot28(Rot1(w)), k1), Values(w, k0, k1);
            && v[0] == SelectedBy(1, Field24(odd)) && v[1] == SelectedBy(2, Field24(even))
            && v[2] == SelectedBy(3, Field16(odd)) && v[3] == SelectedBy(4, Field16(even))
            && v[4] == SelectedBy(5, Field8(odd)) && v[5] == SelectedBy(6, Field8(even))
            && v[6] == SelectedBy(7, Field0(odd)) && v[7] == SelectedBy(8, Field0(even))
  {
    hide Field0, Field8, Field16, Field24, SelectionTable, RowOf, ColumnOf, Xor, Rot1, Rot28;
  }

  /** A round of the code looks up exactly the entries for these values. */
  lemma RoundLooksUp(w: bv32, k0: bv32, k1: bv32)
    ensures DesRound(Rot1(w), k0, k1) == MixedValues(Values(w, k0, k1))
  {
    hide Rot1, Rot28, Xor, EvenBoxes, OddBoxes, SpreadOf, SelectedBy, Values, Field0, Field8, Field16, Field24, Four;
    EvenLookUp(Xor(Rot1(w), k0));
    OddLookUp(Xor(Rot28(Rot1(w)), k1));
    ValuesAre(w, k0, k1);
  }

  /** The round function, on words rotated to the left by one bit, is the cipher function. */
  lemma RoundStandard(w: bv32, k0: bv32, k1: bv32)
    ensures WordBits(Rot31(DesRound(Rot1(w), k0, k1))) == F(WordBits(w), KeyBits(k0, k1))
  {
    hide Bit, DesRound, MixedValues, Values, Rot1, Rot31, KeyBits, P, E, Place, Xored, AllSelected;
    var t, v := DesRound(Rot1(w), k0, k1), Values(w, k0, k1);
    RoundLooksUp(w, k0, k1);
    forall q | 0 <= q < 32
      ensures WordBits(Rot31(t))[q] == F(WordBits(w), KeyBits(k0, k1))[q]
    {
      Rot31Bit(t, Place(q));
      MixedBit(v, q);
      SelectedBit(w, k0, k1, P(q));
    }
  }

  lemma SelectedBit(w: bv32, k0: bv32, k1: bv32, p: nat)
    requires 1 <= p <= 32
    ensures AllSelected(Looked(w, k0, k1), 8)[p - 1] == FourBits(Values(w, k0, k1)[(p - 1) / 4])[(p - 1) % 4]
  {
    hide Looked, SixBits, FieldOf, WorkOf, AllSelected, Selected, FourBits, SelectionTable, RowOf, ColumnOf;
    var n := (p - 1) / 4 + 1;
    AllSelectedAt(Looked(w, k0, k1), 8, n);
    SixMixed(w, k0, k1, n);
    SelectedSix(n, FieldOf(WorkOf(w, k0, k1, n), n));
    assert AllSelected(Looked(w, k0, k1), 8)[4 * n - 4..4 * n][(p - 1) % 4] == AllSelected(Looked(w, k0, k1), 8)[p - 1];
  }
}
