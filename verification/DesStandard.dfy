/** DES as FIPS 46-3 defines it: bits numbered from 1, tables of bit numbers, and a round at a time. */
module DesStandard {
  import opened Bytes

  type Bits = seq<bool>

  // ----- Bits of bytes and words, the highest one first -----

  predicate ByteBit(b: Byte, k: bv3) { (b >> k) & 1 == 1 }

  function ByteBits(b: Byte): (r: Bits)
    ensures |r| == 8
  {
    [ByteBit(b, 7), ByteBit(b, 6), ByteBit(b, 5), ByteBit(b, 4),
     ByteBit(b, 3), ByteBit(b, 2), ByteBit(b, 1), ByteBit(b, 0)]
  }

  function BytesBits(data: seq<Byte>): (r: Bits)
    ensures |r| == 8 * |data|
  {
    if data == [] then [] else ByteBits(data[0]) + BytesBits(data[1..])
  }

  // ----- Operations on bits -----

  /** Bit number table(i) in place i, for n places. */
  function Permuted(table: nat --> nat, n: nat, b: Bits): (r: Bits)
    requires forall i :: 0 <= i < n ==> table.requires(i) && 1 <= table(i) <= |b|
    ensures |r| == n && forall i :: 0 <= i < n ==> r[i] == b[table(i) - 1]
  {
    seq(n, i requires 0 <= i < n && table.requires(i) && 1 <= table(i) <= |b| => b[table(i) - 1])
  }

  function Xored(a: Bits, b: Bits): (r: Bits)
    requires |a| == |b|
    ensures |r| == |a| && forall i :: 0 <= i < |r| ==> r[i] == (a[i] != b[i])
  {
    seq(|a|, i requires 0 <= i < |a| => a[i] != b[i])
  }

  /** Rotated to the left. */
  function Rotated(b: Bits, n: nat): (r: Bits)
    requires n <= |b|
    ensures |r| == |b|
  {
    b[n..] + b[..n]
  }

  // ----- Enciphering -----

  /** The initial permutation. */
  function IP(i: nat): (b: nat)
    requires i < 64
    ensures 1 <= b <= 64
  {
    match i / 8
    case 0 => [58, 50, 42, 34, 26, 18, 10, 2][i % 8]
    case 1 => [60, 52, 44, 36, 28, 20, 12, 4][i % 8]
    case 2 => [62, 54, 46, 38, 30, 22, 14, 6][i % 8]
    case 3 => [64, 56, 48, 40, 32, 24, 16, 8][i % 8]
    case 4 => [57, 49, 41, 33, 25, 17, 9, 1][i % 8]
    case 5 => [59, 51, 43, 35, 27, 19, 11, 3][i % 8]
    case 6 => [61, 53, 45, 37, 29, 21, 13, 5][i % 8]
    case _ => [63, 55, 47, 39, 31, 23, 15, 7][i % 8]
  }

  /** Its inverse. */
  function InverseIP(i: nat): (b: nat)
    requires i < 64
    ensures 1 <= b <= 64
  {
    match i / 8
    case 0 => [40, 8, 48, 16, 56, 24, 64, 32][i % 8]
    case 1 => [39, 7, 47, 15, 55, 23, 63, 31][i % 8]
    case 2 => [38, 6, 46, 14, 54, 22, 62, 30][i % 8]
    case 3 => [37, 5, 45, 13, 53, 21, 61, 29][i % 8]
    case 4 => [36, 4, 44, 12, 52, 20, 60, 28][i % 8]
    case 5 => [35, 3, 43, 11, 51, 19, 59, 27][i % 8]
    case 6 => [34, 2, 42, 10, 50, 18, 58, 26][i % 8]
    case _ => [33, 1, 41, 9, 49, 17, 57, 25][i % 8]
  }

  /** The bit-selection table E. */
  function E(i: nat): (b: nat)
    requires i < 48
    ensures 1 <= b <= 32
  {
    match i / 6
    case 0 => [32, 1, 2, 3, 4, 5][i % 6]
    case 1 => [4, 5, 6, 7, 8, 9][i % 6]
    case 2 => [8, 9, 10, 11, 12, 13][i % 6]
    case 3 => [12, 13, 14, 15, 16, 17][i % 6]
    case 4 => [16, 17, 18, 19, 20, 21][i % 6]
    case 5 => [20, 21, 22, 23, 24, 25][i % 6]
    case 6 => [24, 25, 26, 27, 28, 29][i % 6]
    case _ => [28, 29, 30, 31, 32, 1][i % 6]
  }

  /** The permutation P. */
  function P(i: nat): (b: nat)
    requires i < 32
    ensures 1 <= b <= 32
  {
    match i / 4
    case 0 => [16, 7, 20, 21][i % 4]
    case 1 => [29, 12, 28, 17][i % 4]
    case 2 => [1, 15, 23, 26][i % 4]
    case 3 => [5, 18, 31, 10][i % 4]
    case 4 => [2, 8, 24, 14][i % 4]
    case 5 => [32, 27, 3, 9][i % 4]
    case 6 => [19, 13, 30, 6][i % 4]
    case _ => [22, 11, 4, 25][i % 4]
  }

  function S1(row: bv2, column: bv4): bv4 {
    match row
    case 0 =>
      (match column
       case 0 => 14 case 1 => 4 case 2 => 13 case 3 => 1 case 4 => 2 case 5 => 15 case 6 => 11 case 7 => 8
       case 8 => 3 case 9 => 10 case 10 => 6 case 11 => 12 case 12 => 5 case 13 => 9 case 14 => 0 case _ => 7)
    case 1 =>
      (match column
       case 0 => 0 case 1 => 15 case 2 => 7 case 3 => 4 case 4 => 14 case 5 => 2 case 6 => 13 case 7 => 1
       case 8 => 10 case 9 => 6 case 10 => 12 case 11 => 11 case 12 => 9 case 13 => 5 case 14 => 3 case _ => 8)
    case 2 =>
      (match column
       case 0 => 4 case 1 => 1 case 2 => 14 case 3 => 8 case 4 => 13 case 5 => 6 case 6 => 2 case 7 => 11
       case 8 => 15 case 9 => 12 case 10 => 9 case 11 => 7 case 12 => 3 case 13 => 10 case 14 => 5 case _ => 0)
    case _ =>
      (match column
       case 0 => 15 case 1 => 12 case 2 => 8 case 3 => 2 case 4 => 4 case 5 => 9 case 6 => 1 case 7 => 7
       case 8 => 5 case 9 => 11 case 10 => 3 case 11 => 14 case 12 => 10 case 13 => 0 case 14 => 6 case _ => 13)
  }

  function S2(row: bv2, column: bv4): bv4 {
    match row
    case 0 =>
      (match column
       case 0 => 15 case 1 => 1 case 2 => 8 case 3 => 14 case 4 => 6 case 5 => 11 case 6 => 3 case 7 => 4
       case 8 => 9 case 9 => 7 case 10 => 2 case 11 => 13 case 12 => 12 case 13 => 0 case 14 => 5 case _ => 10)
    case 1 =>
      (match column
       case 0 => 3 case 1 => 13 case 2 => 4 case 3 => 7 case 4 => 15 case 5 => 2 case 6 => 8 case 7 => 14
       case 8 => 12 case 9 => 0 case 10 => 1 case 11 => 10 case 12 => 6 case 13 => 9 case 14 => 11 case _ => 5)
    case 2 =>
      (match column
       case 0 => 0 case 1 => 14 case 2 => 7 case 3 => 11 case 4 => 10 case 5 => 4 case 6 => 13 case 7 => 1
       case 8 => 5 case 9 => 8 case 10 => 12 case 11 => 6 case 12 => 9 case 13 => 3 case 14 => 2 case _ => 15)
    case _ =>
      (match column
       case 0 => 13 case 1 => 8 case 2 => 10 case 3 => 1 case 4 => 3 case 5 => 15 case 6 => 4 case 7 => 2
       case 8 => 11 case 9 => 6 case 10 => 7 case 11 => 12 case 12 => 0 case 13 => 5 case 14 => 14 case _ => 9)
  }

  function S3(row: bv2, column: bv4): bv4 {
    match row
    case 0 =>
      (match column
       case 0 => 10 case 1 => 0 case 2 => 9 case 3 => 14 case 4 => 6 case 5 => 3 case 6 => 15 case 7 => 5
       case 8 => 1 case 9 => 13 case 10 => 12 case 11 => 7 case 12 => 11 case 13 => 4 case 14 => 2 case _ => 8)
    case 1 =>
      (match column
       case 0 => 13 case 1 => 7 case 2 => 0 case 3 => 9 case 4 => 3 case 5 => 4 case 6 => 6 case 7 => 10
       case 8 => 2 case 9 => 8 case 10 => 5 case 11 => 14 case 12 => 12 case 13 => 11 case 14 => 15 case _ => 1)
    case 2 =>
      (match column
       case 0 => 13 case 1 => 6 case 2 => 4 case 3 => 9 case 4 => 8 case 5 => 15 case 6 => 3 case 7 => 0
       case 8 => 11 case 9 => 1 case 10 => 2 case 11 => 12 case 12 => 5 case 13 => 10 case 14 => 14 case _ => 7)
    case _ =>
      (match column
       case 0 => 1 case 1 => 10 case 2 => 13 case 3 => 0 case 4 => 6 case 5 => 9 case 6 => 8 case 7 => 7
       case 8 => 4 case 9 => 15 case 10 => 14 case 11 => 3 case 12 => 11 case 13 => 5 case 14 => 2 case _ => 12)
  }

  function S4(row: bv2, column: bv4): bv4 {
    match row
    case 0 =>
      (match column
       case 0 => 7 case 1 => 13 case 2 => 14 case 3 => 3 case 4 => 0 case 5 => 6 case 6 => 9 case 7 => 10
       case 8 => 1 case 9 => 2 case 10 => 8 case 11 => 5 case 12 => 11 case 13 => 12 case 14 => 4 case _ => 15)
    case 1 =>
      (match column
       case 0 => 13 case 1 => 8 case 2 => 11 case 3 => 5 case 4 => 6 case 5 => 15 case 6 => 0 case 7 => 3
       case 8 => 4 case 9 => 7 case 10 => 2 case 11 => 12 case 12 => 1 case 13 => 10 case 14 => 14 case _ => 9)
    case 2 =>
      (match column
       case 0 => 10 case 1 => 6 case 2 => 9 case 3 => 0 case 4 => 12 case 5 => 11 case 6 => 7 case 7 => 13
       case 8 => 15 case 9 => 1 case 10 => 3 case 11 => 14 case 12 => 5 case 13 => 2 case 14 => 8 case _ => 4)
    case _ =>
      (match column
       case 0 => 3 case 1 => 15 case 2 => 0 case 3 => 6 case 4 => 10 case 5 => 1 case 6 => 13 case 7 => 8
       case 8 => 9 case 9 => 4 case 10 => 5 case 11 => 11 case 12 => 12 case 13 => 7 case 14 => 2 case _ => 14)
  }

  function S5(row: bv2, column: bv4): bv4 {
    match row
    case 0 =>
      (match column
       case 0 => 2 case 1 => 12 case 2 => 4 case 3 => 1 case 4 => 7 case 5 => 10 case 6 => 11 case 7 => 6
       case 8 => 8 case 9 => 5 case 10 => 3 case 11 => 15 case 12 => 13 case 13 => 0 case 14 => 14 case _ => 9)
    case 1 =>
      (match column
       case 0 => 14 case 1 => 11 case 2 => 2 case 3 => 12 case 4 => 4 case 5 => 7 case 6 => 13 case 7 => 1
       case 8 => 5 case 9 => 0 case 10 => 15 case 11 => 10 case 12 => 3 case 13 => 9 case 14 => 8 case _ => 6)
    case 2 =>
      (match column
       case 0 => 4 case 1 => 2 case 2 => 1 case 3 => 11 case 4 => 10 case 5 => 13 case 6 => 7 case 7 => 8
       case 8 => 15 case 9 => 9 case 10 => 12 case 11 => 5 case 12 => 6 case 13 => 3 case 14 => 0 case _ => 14)
    case _ =>
      (match column
       case 0 => 11 case 1 => 8 case 2 => 12 case 3 => 7 case 4 => 1 case 5 => 14 case 6 => 2 case 7 => 13
       case 8 => 6 case 9 => 15 case 10 => 0 case 11 => 9 case 12 => 10 case 13 => 4 case 14 => 5 case _ => 3)
  }

  function S6(row: bv2, column: bv4): bv4 {
    match row
    case 0 =>
      (match column
       case 0 => 12 case 1 => 1 case 2 => 10 case 3 => 15 case 4 => 9 case 5 => 2 case 6 => 6 case 7 => 8
       case 8 => 0 case 9 => 13 case 10 => 3 case 11 => 4 case 12 => 14 case 13 => 7 case 14 => 5 case _ => 11)
    case 1 =>
      (match column
       case 0 => 10 case 1 => 15 case 2 => 4 case 3 => 2 case 4 => 7 case 5 => 12 case 6 => 9 case 7 => 5
       case 8 => 6 case 9 => 1 case 10 => 13 case 11 => 14 case 12 => 0 case 13 => 11 case 14 => 3 case _ => 8)
    case 2 =>
      (match column
       case 0 => 9 case 1 => 14 case 2 => 15 case 3 => 5 case 4 => 2 case 5 => 8 case 6 => 12 case 7 => 3
       case 8 => 7 case 9 => 0 case 10 => 4 case 11 => 10 case 12 => 1 case 13 => 13 case 14 => 11 case _ => 6)
    case _ =>
      (match column
       case 0 => 4 case 1 => 3 case 2 => 2 case 3 => 12 case 4 => 9 case 5 => 5 case 6 => 15 case 7 => 10
       case 8 => 11 case 9 => 14 case 10 => 1 case 11 => 7 case 12 => 6 case 13 => 0 case 14 => 8 case _ => 13)
  }

  function S7(row: bv2, column: bv4): bv4 {
    match row
    case 0 =>
      (match column
       case 0 => 4 case 1 => 11 case 2 => 2 case 3 => 14 case 4 => 15 case 5 => 0 case 6 => 8 case 7 => 13
       case 8 => 3 case 9 => 12 case 10 => 9 case 11 => 7 case 12 => 5 case 13 => 10 case 14 => 6 case _ => 1)
    case 1 =>
      (match column
       case 0 => 13 case 1 => 0 case 2 => 11 case 3 => 7 case 4 => 4 case 5 => 9 case 6 => 1 case 7 => 10
       case 8 => 14 case 9 => 3 case 10 => 5 case 11 => 12 case 12 => 2 case 13 => 15 case 14 => 8 case _ => 6)
    case 2 =>
      (match column
       case 0 => 1 case 1 => 4 case 2 => 11 case 3 => 13 case 4 => 12 case 5 => 3 case 6 => 7 case 7 => 14
       case 8 => 10 case 9 => 15 case 10 => 6 case 11 => 8 case 12 => 0 case 13 => 5 case 14 => 9 case _ => 2)
    case _ =>
      (match column
       case 0 => 6 case 1 => 11 case 2 => 13 case 3 => 8 case 4 => 1 case 5 => 4 case 6 => 10 case 7 => 7
       case 8 => 9 case 9 => 5 case 10 => 0 case 11 => 15 case 12 => 14 case 13 => 2 case 14 => 3 case _ => 12)
  }

  function S8(row: bv2, column: bv4): bv4 {
    match row
    case 0 =>
      (match column
       case 0 => 13 case 1 => 2 case 2 => 8 case 3 => 4 case 4 => 6 case 5 => 15 case 6 => 11 case 7 => 1
       case 8 => 10 case 9 => 9 case 10 => 3 case 11 => 14 case 12 => 5 case 13 => 0 case 14 => 12 case _ => 7)
    case 1 =>
      (match column
       case 0 => 1 case 1 => 15 case 2 => 13 case 3 => 8 case 4 => 10 case 5 => 3 case 6 => 7 case 7 => 4
       case 8 => 12 case 9 => 5 case 10 => 6 case 11 => 11 case 12 => 0 case 13 => 14 case 14 => 9 case _ => 2)
    case 2 =>
      (match column
       case 0 => 7 case 1 => 11 case 2 => 4 case 3 => 1 case 4 => 9 case 5 => 12 case 6 => 14 case 7 => 2
       case 8 => 0 case 9 => 6 case 10 => 10 case 11 => 13 case 12 => 15 case 13 => 3 case 14 => 5 case _ => 8)
    case _ =>
      (match column
       case 0 => 2 case 1 => 1 case 2 => 14 case 3 => 7 case 4 => 4 case 5 => 10 case 6 => 8 case 7 => 13
       case 8 => 15 case 9 => 12 case 10 => 9 case 11 => 0 case 12 => 3 case 13 => 5 case 14 => 6 case _ => 11)
  }

  /** The selection functions S1 to S8: the value in this row and column. */
  function SelectionTable(n: nat, row: bv2, column: bv4): bv4
    requires 1 <= n <= 8
  {
    match n
    case 1 => S1(row, column)
    case 2 => S2(row, column)
    case 3 => S3(row, column)
    case 4 => S4(row, column)
    case 5 => S5(row, column)
    case 6 => S6(row, column)
    case 7 => S7(row, column)
    case _ => S8(row, column)
  }

  /** Four bits for six: the first and the last choose the row, those between them the column. */
  function Selected(n: nat, b: Bits): (r: Bits)
    requires 1 <= n <= 8 && |b| == 6
    ensures |r| == 4
  {
    FourBits(SelectionTable(n, RowNumber(b[0], b[5]), ColumnNumber(b[1], b[2], b[3], b[4])))
  }

  function RowNumber(a: bool, b: bool): bv2 {
    (if a then 2 else 0) | (if b then 1 else 0)
  }

  function ColumnNumber(a: bool, b: bool, c: bool, d: bool): bv4 {
    (if a then 8 else 0) | (if b then 4 else 0) | (if c then 2 else 0) | (if d then 1 else 0)
  }

  function FourBits(v: bv4): (r: Bits)
    ensures |r| == 4
  {
    [(v >> 3) & 1 == 1, (v >> 2) & 1 == 1, (v >> 1) & 1 == 1, v & 1 == 1]
  }

  /** S1 to Sn, side by side. */
  function AllSelected(b: Bits, n: nat): (r: Bits)
    requires |b| == 48 && n <= 8
    ensures |r| == 4 * n
  {
    if n == 0 then [] else AllSelected(b, n - 1) + Selected(n, b[6 * n - 6..6 * n])
  }

  /** The cipher function f. */
  function F(r: Bits, k: Bits): (f: Bits)
    requires |r| == 32 && |k| == 48
    ensures |f| == 32
  {
    Permuted(P, 32, AllSelected(Xored(Permuted(E, 48, r), k), 8))
  }

  // ----- Key schedule -----

  /** Permuted choice 1: C is selected by the first four lines, and D by the others. */
  function PC1(i: nat): (b: nat)
    requires i < 56
    ensures 1 <= b <= 63
  {
    match i / 7
    case 0 => [57, 49, 41, 33, 25, 17, 9][i % 7]
    case 1 => [1, 58, 50, 42, 34, 26, 18][i % 7]
    case 2 => [10, 2, 59, 51, 43, 35, 27][i % 7]
    case 3 => [19, 11, 3, 60, 52, 44, 36][i % 7]
    case 4 => [63, 55, 47, 39, 31, 23, 15][i % 7]
    case 5 => [7, 62, 54, 46, 38, 30, 22][i % 7]
    case 6 => [14, 6, 61, 53, 45, 37, 29][i % 7]
    case _ => [21, 13, 5, 28, 20, 12, 4][i % 7]
  }

  /** Permuted choice 2. */
  function PC2(i: nat): (b: nat)
    requires i < 48
    ensures 1 <= b <= 56
  {
    match i / 6
    case 0 => [14, 17, 11, 24, 1, 5][i % 6]
    case 1 => [3, 28, 15, 6, 21, 10][i % 6]
    case 2 => [23, 19, 12, 4, 26, 8][i % 6]
    case 3 => [16, 7, 27, 20, 13, 2][i % 6]
    case 4 => [41, 52, 31, 37, 47, 55][i % 6]
    case 5 => [30, 40, 51, 45, 33, 48][i % 6]
    case 6 => [44, 49, 39, 56, 34, 53][i % 6]
    case _ => [46, 42, 50, 36, 29, 32][i % 6]
  }

  /** How far C and D have been rotated after n iterations: by one place in the first, second, ninth and sixteenth, and
      by two in the others. */
  function Shifts(n: nat): (s: nat)
    requires n <= 16
    ensures s <= 28
  {
    if n <= 1 then n else if n <= 8 then 2 * n - 2 else if n <= 15 then 2 * n - 3 else 28
  }

  /** The block K of iteration n. */
  function KeyBlock(key: Bits, n: nat): (k: Bits)
    requires |key| == 64 && 1 <= n <= 16
    ensures |k| == 48
  {
    var cd := Permuted(PC1, 56, key);
    Permuted(PC2, 48, Rotated(cd[..28], Shifts(n)) + Rotated(cd[28..], Shifts(n)))
  }

  // ----- The whole computation -----

  datatype Halves = Halves(l: Bits, r: Bits)

  /** After n iterations. */
  function Iterated(key: Bits, block: Bits, n: nat): (h: Halves)
    requires |key| == |block| == 64 && n <= 16
    ensures |h.l| == |h.r| == 32
  {
    if n == 0 then
      var b := Permuted(IP, 64, block);
      Halves(b[..32], b[32..])
    else
      var h := Iterated(key, block, n - 1);
      Halves(h.r, Xored(h.l, F(h.r, KeyBlock(key, n))))
  }

  function Enciphered(key: Bits, block: Bits): (r: Bits)
    requires |key| == |block| == 64
    ensures |r| == 64
  {
    var h := Iterated(key, block, 16);
    Permuted(InverseIP, 64, h.r + h.l)
  }
}
