/** gl/crc.c: CRC-32 with a table of 256 words. */
module Crc {
  import opened MachineInts
  import opened Bytes

  // ----- Division by the polynomial, one bit at a time (section 8 of RFC 1952) -----

  /** One step of the division: the bits stand in reverse order, so the remainder moves to the right. */
  function Step(c: bv32): bv32 {
    if Odd(c) then Xor(Half(c), POLYNOMIAL) else Half(c)
  }

  const POLYNOMIAL: bv32 := 0xedb88320

  function Half(x: bv32): bv32 { x >> 1 }
  function Twice(x: bv32): bv32 { x << 1 }
  predicate Odd(x: bv32) { x & 1 == 1 }

  function Steps(c: bv32, n: nat): bv32
    decreases n
  {
    if n == 0 then c else Steps(Step(c), n - 1)
  }

  function BitWord(bit: bool): bv32 { if bit then 1 else 0 }

  /** The remainder after dividing these bits, starting from remainder c. */
  function Divide(c: bv32, bits: seq<bool>): bv32
    decreases |bits|
  {
    if bits == [] then c else Divide(Step(Xor(c, BitWord(bits[0]))), bits[1..])
  }

  /** The low n bits of a word, lowest first. */
  function LowBits(w: bv32, n: nat): (bits: seq<bool>)
    ensures |bits| == n
    decreases n
  {
    if n == 0 then [] else [Odd(w)] + LowBits(Half(w), n - 1)
  }

  /** The bits of a message in the order in which they are divided: lowest bit of each byte first. */
  function MessageBits(data: seq<Byte>): (bits: seq<bool>) {
    if data == [] then [] else LowBits(data[0] as bv32, 8) + MessageBits(data[1..])
  }

  /** What remains of a message, starting from c. */
  function Remainder(c: bv32, data: seq<Byte>): bv32 {
    Divide(c, MessageBits(data))
  }

  lemma {:induction false} DivideAppend(c: bv32, a: seq<bool>, b: seq<bool>)
    ensures Divide(c, a + b) == Divide(Divide(c, a), b)
    decreases |a|
  {
    hide Step, Xor;
    if a == [] {
      assert a + b == b;
    } else {
      assert (a + b)[0] == a[0] && (a + b)[1..] == a[1..] + b;
      DivideAppend(Step(Xor(c, BitWord(a[0]))), a[1..], b);
    }
  }

  lemma {:induction false} MessageBitsAppend(a: seq<Byte>, b: seq<Byte>)
    ensures MessageBits(a + b) == MessageBits(a) + MessageBits(b)
  {
    hide LowBits;
    if a == [] {
      assert a + b == b;
    } else {
      assert (a + b)[0] == a[0] && (a + b)[1..] == a[1..] + b;
      MessageBitsAppend(a[1..], b);
      assert LowBits(a[0] as bv32, 8) + MessageBits(a[1..]) + MessageBits(b)
          == LowBits(a[0] as bv32, 8) + (MessageBits(a[1..]) + MessageBits(b));
    }
  }

  /** Dividing two pieces in turn divides the whole. */
  lemma RemainderAppend(c: bv32, a: seq<Byte>, b: seq<Byte>)
    ensures Remainder(c, a + b) == Remainder(Remainder(c, a), b)
  {
    hide Divide, MessageBits;
    MessageBitsAppend(a, b);
    DivideAppend(c, MessageBits(a), MessageBits(b));
  }

  // ----- Steps are linear and can be undone -----

  lemma HalfLinear(x: bv32, y: bv32)
    ensures Half(Xor(x, y)) == Xor(Half(x), Half(y))
  {
  }

  lemma OddXor(x: bv32, y: bv32)
    ensures Odd(Xor(x, y)) == (Odd(x) != Odd(y))
  {
  }

  lemma XorOutward(x: bv32, y: bv32, p: bv32)
    ensures Xor(Xor(x, p), y) == Xor(Xor(x, y), p)
    ensures Xor(x, Xor(y, p)) == Xor(Xor(x, y), p)
    ensures Xor(Xor(x, p), Xor(y, p)) == Xor(x, y)
  {
    hide Xor;
    XorAssociates(x, p, y);
    XorCommutes(p, y);
    XorAssociates(x, y, p);
    XorAssociates(x, p, Xor(y, p));
    XorCommutes(p, Xor(y, p));
    XorTwice(y, p);
  }

  lemma StepLinear(x: bv32, y: bv32)
    ensures Step(Xor(x, y)) == Xor(Step(x), Step(y))
  {
    hide Xor, Half, Odd, POLYNOMIAL;
    HalfLinear(x, y);
    OddXor(x, y);
    XorOutward(Half(x), Half(y), POLYNOMIAL);
  }

  /** The highest bit of a remainder tells whether the polynomial was added. */
  function StepBack(c: bv32): bv32 {
    if c & 0x80000000 != 0 then ((c ^ POLYNOMIAL) << 1) | 1 else c << 1
  }

  lemma StepUndone(c: bv32)
    ensures StepBack(Step(c)) == c
  {
  }

  lemma StepInjective(x: bv32, y: bv32)
    requires Step(x) == Step(y)
    ensures x == y
  {
    hide Step, StepBack;
    StepUndone(x);
    StepUndone(y);
  }

  lemma {:induction false} StepsLinear(x: bv32, y: bv32, n: nat)
    ensures Steps(Xor(x, y), n) == Xor(Steps(x, n), Steps(y, n))
    decreases n
  {
    hide Step, Xor;
    if n > 0 {
      StepLinear(x, y);
      StepsLinear(Step(x), Step(y), n - 1);
    }
  }

  lemma {:induction false} StepsInjective(x: bv32, y: bv32, n: nat)
    requires Steps(x, n) == Steps(y, n)
    ensures x == y
    decreases n
  {
    hide Step;
    if n > 0 {
      StepsInjective(Step(x), Step(y), n - 1);
      StepInjective(x, y);
    }
  }

  /** A step more at the end or at the beginning. */
  lemma {:induction false} StepsCommute(c: bv32, n: nat)
    ensures Step(Steps(c, n)) == Steps(Step(c), n)
    decreases n
  {
    hide Step;
    if n > 0 {
      StepsCommute(Step(c), n - 1);
    }
  }

  lemma {:induction false} StepsAdd(c: bv32, m: nat, n: nat)
    ensures Steps(Steps(c, m), n) == Steps(c, m + n)
    decreases m
  {
    hide Step;
    if m > 0 {
      StepsAdd(Step(c), m - 1, n);
    }
  }

  // ----- Eight bits at once -----

  /** No bits from position n on. */
  predicate Within(w: bv32, n: nat)
    decreases n
  {
    if n == 0 then w == 0 else Within(Half(w), n - 1)
  }

  lemma ByteWithin(b: Byte)
    ensures Within(b as bv32, 8)
  {
    hide Half;
    var w := b as bv32;
    ByteHalves(b);
    var h4 := Half(Half(Half(Half(w))));
    assert Within(Half(Half(h4)), 2);
    assert Within(h4, 4);
    assert Within(Half(Half(w)), 6);
  }

  lemma ByteHalves(b: Byte)
    ensures Half(Half(Half(Half(Half(Half(Half(Half(b as bv32)))))))) == 0
  {
  }

  lemma HalfOfTwice(w: bv32)
    ensures Half(Twice(Half(w))) == Half(w) && !Odd(Twice(Half(w)))
  {
  }

  lemma SplitLow(w: bv32)
    ensures w == Xor(BitWord(Odd(w)), Twice(Half(w)))
  {
  }

  /** What is mixed in after a step could have been mixed in before it, one place higher. */
  lemma MixEarlier(c: bv32, w: bv32)
    ensures Xor(Step(Xor(c, BitWord(Odd(w)))), Half(w)) == Step(Xor(c, w))
  {
    hide Xor, Half, Odd, BitWord, Twice, POLYNOMIAL;
    HalfOfTwice(w);
    SplitLow(w);
    XorAssociates(c, BitWord(Odd(w)), Twice(Half(w)));
    StepLinear(Xor(c, BitWord(Odd(w))), Twice(Half(w)));
  }

  lemma {:induction false} DivideLowBits(c: bv32, w: bv32, n: nat)
    requires Within(w, n)
    ensures Divide(c, LowBits(w, n)) == Steps(Xor(c, w), n)
    decreases n
  {
    hide Step, Xor, BitWord, Half, Odd;
    if n == 0 {
      XorZero(c);
    } else {
      var bits := LowBits(w, n);
      assert bits[1..] == LowBits(Half(w), n - 1);
      DivideLowBits(Step(Xor(c, BitWord(Odd(w)))), Half(w), n - 1);
      MixEarlier(c, w);
    }
  }

  lemma XorZero(c: bv32)
    ensures Xor(c, 0) == c
  {
  }

  /** One byte: mix it in, then eight steps. */
  lemma RemainderOfByte(c: bv32, b: Byte)
    ensures Remainder(c, [b]) == Steps(Xor(c, b as bv32), 8)
  {
    hide Divide, LowBits, Steps, Within;
    assert [b][1..] == [] && MessageBits([]) == [];
    assert MessageBits([b]) == LowBits(b as bv32, 8);
    ByteWithin(b);
    DivideLowBits(c, b as bv32, 8);
  }

  // ----- crc32_table -----

  /** Sixteen entries of crc32_table. */
  function Row(h: bv4): (r: seq<bv32>)
    ensures |r| == 16
  {
    match h
    case 0 => [
      0x00000000, 0x77073096, 0xee0e612c, 0x990951ba, 0x076dc419, 0x706af48f, 0xe963a535, 0x9e6495a3,
      0x0edb8832, 0x79dcb8a4, 0xe0d5e91e, 0x97d2d988, 0x09b64c2b, 0x7eb17cbd, 0xe7b82d07, 0x90bf1d91]
    case 1 => [
      0x1db71064, 0x6ab020f2, 0xf3b97148, 0x84be41de, 0x1adad47d, 0x6ddde4eb, 0xf4d4b551, 0x83d385c7,
      0x136c9856, 0x646ba8c0, 0xfd62f97a, 0x8a65c9ec, 0x14015c4f, 0x63066cd9, 0xfa0f3d63, 0x8d080df5]
    case 2 => [
      0x3b6e20c8, 0x4c69105e, 0xd56041e4, 0xa2677172, 0x3c03e4d1, 0x4b04d447, 0xd20d85fd, 0xa50ab56b,
      0x35b5a8fa, 0x42b2986c, 0xdbbbc9d6, 0xacbcf940, 0x32d86ce3, 0x45df5c75, 0xdcd60dcf, 0xabd13d59]
    case 3 => [
      0x26d930ac, 0x51de003a, 0xc8d75180, 0xbfd06116, 0x21b4f4b5, 0x56b3c423, 0xcfba9599, 0xb8bda50f,
      0x2802b89e, 0x5f058808, 0xc60cd9b2, 0xb10be924, 0x2f6f7c87, 0x58684c11, 0xc1611dab, 0xb6662d3d]
    case 4 => [
      0x76dc4190, 0x01db7106, 0x98d220bc, 0xefd5102a, 0x71b18589, 0x06b6b51f, 0x9fbfe4a5, 0xe8b8d433,
      0x7807c9a2, 0x0f00f934, 0x9609a88e, 0xe10e9818, 0x7f6a0dbb, 0x086d3d2d, 0x91646c97, 0xe6635c01]
    case 5 => [
      0x6b6b51f4, 0x1c6c6162, 0x856530d8, 0xf262004e, 0x6c0695ed, 0x1b01a57b, 0x8208f4c1, 0xf50fc457,
      0x65b0d9c6, 0x12b7e950, 0x8bbeb8ea, 0xfcb9887c, 0x62dd1ddf, 0x15da2d49, 0x8cd37cf3, 0xfbd44c65]
    case 6 => [
      0x4db26158, 0x3ab551ce, 0xa3bc0074, 0xd4bb30e2, 0x4adfa541, 0x3dd895d7, 0xa4d1c46d, 0xd3d6f4fb,
      0x4369e96a, 0x346ed9fc, 0xad678846, 0xda60b8d0, 0x44042d73, 0x33031de5, 0xaa0a4c5f, 0xdd0d7cc9]
    case 7 => [
      0x5005713c, 0x270241aa, 0xbe0b1010, 0xc90c2086, 0x5768b525, 0x206f85b3, 0xb966d409, 0xce61e49f,
      0x5edef90e, 0x29d9c998, 0xb0d09822, 0xc7d7a8b4, 0x59b33d17, 0x2eb40d81, 0xb7bd5c3b, 0xc0ba6cad]
    case 8 => [
      0xedb88320, 0x9abfb3b6, 0x03b6e20c, 0x74b1d29a, 0xead54739, 0x9dd277af, 0x04db2615, 0x73dc1683,
      0xe3630b12, 0x94643b84, 0x0d6d6a3e, 0x7a6a5aa8, 0xe40ecf0b, 0x9309ff9d, 0x0a00ae27, 0x7d079eb1]
    case 9 => [
      0xf00f9344, 0x8708a3d2, 0x1e01f268, 0x6906c2fe, 0xf762575d, 0x806567cb, 0x196c3671, 0x6e6b06e7,
      0xfed41b76, 0x89d32be0, 0x10da7a5a, 0x67dd4acc, 0xf9b9df6f, 0x8ebeeff9, 0x17b7be43, 0x60b08ed5]
    case 10 => [
      0xd6d6a3e8, 0xa1d1937e, 0x38d8c2c4, 0x4fdff252, 0xd1bb67f1, 0xa6bc5767, 0x3fb506dd, 0x48b2364b,
      0xd80d2bda, 0xaf0a1b4c, 0x36034af6, 0x41047a60, 0xdf60efc3, 0xa867df55, 0x316e8eef, 0x4669be79]
    case 11 => [
      0xcb61b38c, 0xbc66831a, 0x256fd2a0, 0x5268e236, 0xcc0c7795, 0xbb0b4703, 0x220216b9, 0x5505262f,
      0xc5ba3bbe, 0xb2bd0b28, 0x2bb45a92, 0x5cb36a04, 0xc2d7ffa7, 0xb5d0cf31, 0x2cd99e8b, 0x5bdeae1d]
    case 12 => [
      0x9b64c2b0, 0xec63f226, 0x756aa39c, 0x026d930a, 0x9c0906a9, 0xeb0e363f, 0x72076785, 0x05005713,
      0x95bf4a82, 0xe2b87a14, 0x7bb12bae, 0x0cb61b38, 0x92d28e9b, 0xe5d5be0d, 0x7cdcefb7, 0x0bdbdf21]
    case 13 => [
      0x86d3d2d4, 0xf1d4e242, 0x68ddb3f8, 0x1fda836e, 0x81be16cd, 0xf6b9265b, 0x6fb077e1, 0x18b74777,
      0x88085ae6, 0xff0f6a70, 0x66063bca, 0x11010b5c, 0x8f659eff, 0xf862ae69, 0x616bffd3, 0x166ccf45]
    case 14 => [
      0xa00ae278, 0xd70dd2ee, 0x4e048354, 0x3903b3c2, 0xa7672661, 0xd06016f7, 0x4969474d, 0x3e6e77db,
      0xaed16a4a, 0xd9d65adc, 0x40df0b66, 0x37d83bf0, 0xa9bcae53, 0xdebb9ec5, 0x47b2cf7f, 0x30b5ffe9]
    case _ => [
      0xbdbdf21c, 0xcabac28a, 0x53b39330, 0x24b4a3a6, 0xbad03605, 0xcdd70693, 0x54de5729, 0x23d967bf,
      0xb3667a2e, 0xc4614ab8, 0x5d681b02, 0x2a6f2b94, 0xb40bbe37, 0xc30c8ea1, 0x5a05df1b, 0x2d02ef8d]
  }

  /** crc32_table */
  function Table(i: Byte): bv32 {
    Row(High(i))[Low(i) as nat]
  }

  function High(i: Byte): bv4 { (i >> 4) as bv4 }
  function Low(i: Byte): bv4 { (i & 0xf) as bv4 }

  /** The entries for 2k and 2k + 1 against the entry for k. */
  predicate Fits(half: bv32, even: bv32, odd: bv32) {
    odd == Xor(even, 0x77073096) && Step(even) == half
  }

  predicate RowFits(half: seq<bv32>, r: seq<bv32>)
    requires |half| == 8 && |r| == 16
  {
    FourFit(half, r, 0) && FourFit(half, r, 4)
  }

  predicate FourFit(half: seq<bv32>, r: seq<bv32>, k: nat)
    requires |half| == 8 && |r| == 16 && k <= 4
  {
    && Fits(half[k], r[2 * k], r[2 * k + 1]) && Fits(half[k + 1], r[2 * k + 2], r[2 * k + 3])
    && Fits(half[k + 2], r[2 * k + 4], r[2 * k + 5]) && Fits(half[k + 3], r[2 * k + 6], r[2 * k + 7])
  }

  lemma Row0A() ensures FourFit(Row(0)[..8], Row(0), 0) { }
  lemma Row0B() ensures FourFit(Row(0)[..8], Row(0), 4) { }
  lemma Row1A() ensures FourFit(Row(0)[8..], Row(1), 0) { }
  lemma Row1B() ensures FourFit(Row(0)[8..], Row(1), 4) { }
  lemma Row2A() ensures FourFit(Row(1)[..8], Row(2), 0) { }
  lemma Row2B() ensures FourFit(Row(1)[..8], Row(2), 4) { }
  lemma Row3A() ensures FourFit(Row(1)[8..], Row(3), 0) { }
  lemma Row3B() ensures FourFit(Row(1)[8..], Row(3), 4) { }
  lemma Row4A() ensures FourFit(Row(2)[..8], Row(4), 0) { }
  lemma Row4B() ensures FourFit(Row(2)[..8], Row(4), 4) { }
  lemma Row5A() ensures FourFit(Row(2)[8..], Row(5), 0) { }
  lemma Row5B() ensures FourFit(Row(2)[8..], Row(5), 4) { }
  lemma Row6A() ensures FourFit(Row(3)[..8], Row(6), 0) { }
  lemma Row6B() ensures FourFit(Row(3)[..8], Row(6), 4) { }
  lemma Row7A() ensures FourFit(Row(3)[8..], Row(7), 0) { }
  lemma Row7B() ensures FourFit(Row(3)[8..], Row(7), 4) { }
  lemma Row8A() ensures FourFit(Row(4)[..8], Row(8), 0) { }
  lemma Row8B() ensures FourFit(Row(4)[..8], Row(8), 4) { }
  lemma Row9A() ensures FourFit(Row(4)[8..], Row(9), 0) { }
  lemma Row9B() ensures FourFit(Row(4)[8..], Row(9), 4) { }
  lemma Row10A() ensures FourFit(Row(5)[..8], Row(10), 0) { }
  lemma Row10B() ensures FourFit(Row(5)[..8], Row(10), 4) { }
  lemma Row11A() ensures FourFit(Row(5)[8..], Row(11), 0) { }
  lemma Row11B() ensures FourFit(Row(5)[8..], Row(11), 4) { }
  lemma Row12A() ensures FourFit(Row(6)[..8], Row(12), 0) { }
  lemma Row12B() ensures FourFit(Row(6)[..8], Row(12), 4) { }
  lemma Row13A() ensures FourFit(Row(6)[8..], Row(13), 0) { }
  lemma Row13B() ensures FourFit(Row(6)[8..], Row(13), 4) { }
  lemma Row14A() ensures FourFit(Row(7)[..8], Row(14), 0) { }
  lemma Row14B() ensures FourFit(Row(7)[..8], Row(14), 4) { }
  lemma Row15A() ensures FourFit(Row(7)[8..], Row(15), 0) { }
  lemma Row15B() ensures FourFit(Row(7)[8..], Row(15), 4) { }

  lemma RowsFit(h: bv4)
    ensures RowFits(if h & 1 == 0 then Row(h >> 1)[..8] else Row(h >> 1)[8..], Row(h))
  {
    hide Row, FourFit;
    match h
    case 0 => Row0A(); Row0B();
    case 1 => Row1A(); Row1B();
    case 2 => Row2A(); Row2B();
    case 3 => Row3A(); Row3B();
    case 4 => Row4A(); Row4B();
    case 5 => Row5A(); Row5B();
    case 6 => Row6A(); Row6B();
    case 7 => Row7A(); Row7B();
    case 8 => Row8A(); Row8B();
    case 9 => Row9A(); Row9B();
    case 10 => Row10A(); Row10B();
    case 11 => Row11A(); Row11B();
    case 12 => Row12A(); Row12B();
    case 13 => Row13A(); Row13B();
    case 14 => Row14A(); Row14B();
    case _ => Row15A(); Row15B();
  }

  lemma FitsAt(half: seq<bv32>, r: seq<bv32>, l: bv4)
    requires |half| == 8 && |r| == 16 && RowFits(half, r)
    ensures l & 1 == 0 ==> Step(r[l as nat]) == half[(l >> 1) as nat]
    ensures l & 1 == 1 ==> r[l as nat] == Xor(r[(l ^ 1) as nat], 0x77073096)
  {
    hide Step, Xor;
    match l
    case 0 =>
    case 1 =>
    case 2 =>
    case 3 =>
    case 4 =>
    case 5 =>
    case 6 =>
    case 7 =>
    case 8 =>
    case 9 =>
    case 10 =>
    case 11 =>
    case 12 =>
    case 13 =>
    case 14 =>
    case _ =>
  }

  lemma OddIndex(i: Byte)
    requires i & 1 == 1
    ensures i ^ 1 < i && High(i ^ 1) == High(i) && Low(i ^ 1) == Low(i) ^ 1 && Low(i) & 1 == 1
    ensures i as bv32 == Xor((i ^ 1) as bv32, 1)
  {
  }

  lemma EvenIndex(i: Byte)
    requires i & 1 == 0
    ensures i != 0 ==> i >> 1 < i
    ensures High(i >> 1) == High(i) >> 1 && Low(i >> 1) == ((High(i) & 1) << 3) | (Low(i) >> 1) && Low(i) & 1 == 0
    ensures Step(i as bv32) == (i >> 1) as bv32
  {
  }

  lemma {:induction false} StepsOfZero(n: nat)
    ensures Steps(0, n) == 0
  {
    if n > 0 {
      StepsOfZero(n - 1);
    }
  }

  lemma StepsOfOne()
    ensures Steps(1, 8) == 0x77073096
  {
  }

  /** Every entry of the table is the remainder of its index. */
  lemma {:induction false} TableCorrect(i: Byte)
    ensures Table(i) == Steps(i as bv32, 8)
    decreases i
  {
    hide Step, Steps, Xor, High, Low, Row, RowFits;
    RowsFit(High(i));
    var half := if High(i) & 1 == 0 then Row(High(i) >> 1)[..8] else Row(High(i) >> 1)[8..];
    FitsAt(half, Row(High(i)), Low(i));
    if i & 1 == 1 {
      OddIndex(i);
      TableCorrect(i ^ 1);
      StepsOfOne();
      StepsLinear((i ^ 1) as bv32, 1, 8);
    } else if i == 0 {
      TableAtZero();
      StepsOfZero(8);
    } else {
      EvenIndex(i);
      TableCorrect(i >> 1);
      StepsCommute(i as bv32, 8);
      HalfRow(i);
      StepInjective(Table(i), Steps(i as bv32, 8));
    }
  }

  lemma TableAtZero()
    ensures Table(0) == 0
  {
  }

  /** The entry for i / 2 is in the half row that the entry for i belongs to. */
  lemma HalfRow(i: Byte)
    requires i & 1 == 0
    ensures Table(i >> 1)
         == (if High(i) & 1 == 0 then Row(High(i) >> 1)[..8] else Row(High(i) >> 1)[8..])[(Low(i) >> 1) as nat]
  {
    hide Row;
    EvenIndex(i);
    UpperHalf(High(i) & 1, Low(i) >> 1);
  }

  lemma UpperHalf(odd: bv4, l: bv4)
    requires odd <= 1 && l < 8
    ensures ((odd << 3) | l) as nat == if odd == 0 then l as nat else 8 + l as nat
  {
    match l
    case 0 =>
    case 1 =>
    case 2 =>
    case 3 =>
    case 4 =>
    case 5 =>
    case 6 =>
    case _ =>
  }

  // ----- The functions of gl/crc.c -----

  /** crc32_table[(crc ^ buf[n]) & 0xff] ^ (crc >> 8) */
  function TableStep(crc: bv32, b: Byte): bv32 {
    Xor(Table(LowByte(Xor(crc, b as bv32))), Shift8(crc))
  }

  function LowByte(x: bv32): Byte { (x & 0xff) as Byte }
  function Shift8(x: bv32): bv32 { x >> 8 }

  lemma LowByteAndRest(x: bv32)
    ensures x == Xor(LowByte(x) as bv32, Raise(Shift8(x), 8))
  {
    hide LowByte, Shift8;
    RaiseEight(Shift8(x));
    SplitByte(x);
  }

  lemma SplitByte(x: bv32)
    ensures x == Xor(LowByte(x) as bv32, Shift8(x) << 8)
  {
  }

  lemma ShiftOfMix(crc: bv32, b: Byte)
    ensures Shift8(Xor(crc, b as bv32)) == Shift8(crc)
  {
  }

  // While the lowest bit is zero, a step only shifts.

  /** n places to the left. */
  function Raise(y: bv32, n: nat): bv32
    decreases n
  {
    if n == 0 then y else Raise(Twice(y), n - 1)
  }

  predicate TopClear(y: bv32) { y & 0x80000000 == 0 }

  /** The n highest bits are clear. */
  predicate Room(y: bv32, n: nat)
    decreases n
  {
    n > 0 ==> TopClear(y) && Room(Twice(y), n - 1)
  }

  lemma StepOfTwice(y: bv32)
    requires TopClear(y)
    ensures Step(Twice(y)) == y
  {
  }

  lemma {:induction false} StepsOfRaised(y: bv32, n: nat)
    requires Room(y, n)
    ensures Steps(Raise(y, n), n) == y
    decreases n
  {
    hide Step, Twice, TopClear;
    if n > 0 {
      StepsOfRaised(Twice(y), n - 1);
      StepsAdd(Raise(y, n), n - 1, 1);
      StepOfTwice(y);
      assert Steps(Twice(y), 1) == Step(Twice(y));
    }
  }

  lemma RaiseEight(y: bv32)
    ensures Raise(y, 8) == y << 8
  {
    hide Twice;
    TwiceEight(y);
    var y4 := Twice(Twice(Twice(Twice(y))));
    assert Raise(y, 8) == Raise(Twice(Twice(y)), 6);
    assert Raise(Twice(Twice(y)), 6) == Raise(y4, 4);
    assert Raise(y4, 4) == Raise(Twice(Twice(y4)), 2);
  }

  lemma TwiceEight(y: bv32)
    ensures Twice(Twice(Twice(Twice(Twice(Twice(Twice(Twice(y)))))))) == y << 8
  {
  }

  lemma RoomForByte(x: bv32)
    ensures Room(Shift8(x), 8)
  {
    hide Twice, Shift8, TopClear;
    TopsClear(x);
    var y := Shift8(x);
    var y4 := Twice(Twice(Twice(Twice(y))));
    assert Room(Twice(Twice(y4)), 2);
    assert Room(y4, 4);
    assert Room(Twice(Twice(y)), 6);
  }

  lemma TopsClear(x: bv32)
    ensures var y0 := Shift8(x); var y1 := Twice(y0); var y2 := Twice(y1); var y3 := Twice(y2);
            var y4 := Twice(y3); var y5 := Twice(y4); var y6 := Twice(y5); var y7 := Twice(y6);
            && TopClear(y0) && TopClear(y1) && TopClear(y2) && TopClear(y3)
            && TopClear(y4) && TopClear(y5) && TopClear(y6) && TopClear(y7)
  {
  }

  /** One turn of the loop is eight steps of division. */
  lemma TableStepDivides(crc: bv32, b: Byte)
    ensures TableStep(crc, b) == Remainder(crc, [b])
  {
    hide Xor, Steps, Remainder, Table, LowByte, Shift8, Raise, Room;
    var x := Xor(crc, b as bv32);
    RemainderOfByte(crc, b);
    LowByteAndRest(x);
    ShiftOfMix(crc, b);
    StepsLinear(LowByte(x) as bv32, Raise(Shift8(x), 8), 8);
    TableCorrect(LowByte(x));
    RoomForByte(x);
    StepsOfRaised(Shift8(x), 8);
  }

  /** `crc32_update_no_xor` */
  method UpdateNoXor(crc0: bv32, buf: seq<Byte>) returns (crc: bv32)
    ensures crc == Remainder(crc0, buf)
  {
    hide Remainder, TableStep;
    crc := crc0;
    assert buf[..0] == [];
    NothingRemains(crc);
    for n := 0 to |buf|
      invariant crc == Remainder(crc0, buf[..n])
    {
      assert buf[..n + 1] == buf[..n] + [buf[n]];
      RemainderAppend(crc0, buf[..n], [buf[n]]);
      TableStepDivides(crc, buf[n]);
      crc := TableStep(crc, buf[n]);
    }
    assert buf[..|buf|] == buf;
  }

  lemma NothingRemains(c: bv32)
    ensures Remainder(c, []) == c
  {
  }

  /** `crc32_no_xor` */
  method NoXor(buf: seq<Byte>) returns (crc: bv32)
    ensures crc == Remainder(0, buf)
  {
    crc := UpdateNoXor(0, buf);
  }

  const ONES: bv32 := 0xffffffff

  /** The CRC of RFC 1952, continued from an earlier CRC: the remainder is kept complemented. */
  function Updated(crc: bv32, data: seq<Byte>): bv32 {
    Xor(Remainder(Xor(crc, ONES), data), ONES)
  }

  /** `crc32_update` */
  method Update(crc0: bv32, buf: seq<Byte>) returns (crc: bv32)
    ensures crc == Updated(crc0, buf)
  {
    crc := UpdateNoXor(Xor(crc0, ONES), buf);
    crc := Xor(crc, ONES);
  }

  /** `crc32` */
  method Crc32(buf: seq<Byte>) returns (crc: bv32)
    ensures crc == Updated(0, buf)
  {
    crc := Update(0, buf);
  }

  lemma OneByteMore(c: bv32, data: seq<Byte>, b: Byte, d: bv32)
    requires TableStep(Remainder(c, data), b) == d
    ensures Remainder(c, data + [b]) == d
  {
    hide Remainder, TableStep;
    RemainderAppend(c, data, [b]);
    TableStepDivides(Remainder(c, data), b);
  }

  // The check value: the CRC of the nine characters "123456789".

  lemma CheckStep1()
    ensures TableStep(0xffffffff, 0x31) == 0x7c231048
  {
  }

  lemma CheckStep2()
    ensures TableStep(0x7c231048, 0x32) == 0xb0acbb32
  {
  }

  lemma CheckStep3()
    ensures TableStep(0xb0acbb32, 0x33) == 0x77b79c2d
  {
  }

  lemma CheckStep4()
    ensures TableStep(0x77b79c2d, 0x34) == 0x641c1f5c
  {
  }

  lemma CheckStep5()
    ensures TableStep(0x641c1f5c, 0x35) == 0x340ac5e3
  {
  }

  lemma CheckStep6()
    ensures TableStep(0x340ac5e3, 0x36) == 0xf68d2c9e
  {
  }

  lemma CheckStep7()
    ensures TableStep(0xf68d2c9e, 0x37) == 0xaffc9660
  {
  }

  lemma CheckStep8()
    ensures TableStep(0xaffc9660, 0x38) == 0x651f2550
  {
  }

  lemma CheckStep9()
    ensures TableStep(0x651f2550, 0x39) == 0x340bc6d9
  {
  }

  lemma CheckThree1(d: seq<Byte>)
    requires Remainder(ONES, d) == 0xffffffff
    ensures Remainder(ONES, d + [0x31, 0x32, 0x33]) == 0x77b79c2d
  {
    hide Remainder, TableStep;
    CheckStep1();
    OneByteMore(ONES, d, 0x31, 0x7c231048);
    CheckStep2();
    OneByteMore(ONES, d + [0x31], 0x32, 0xb0acbb32);
    CheckStep3();
    OneByteMore(ONES, d + [0x31] + [0x32], 0x33, 0x77b79c2d);
    assert d + [0x31] + [0x32] + [0x33] == d + [0x31, 0x32, 0x33];
  }

  lemma CheckThree2(d: seq<Byte>)
    requires Remainder(ONES, d) == 0x77b79c2d
    ensures Remainder(ONES, d + [0x34, 0x35, 0x36]) == 0xf68d2c9e
  {
    hide Remainder, TableStep;
    CheckStep4();
    OneByteMore(ONES, d, 0x34, 0x641c1f5c);
    CheckStep5();
    OneByteMore(ONES, d + [0x34], 0x35, 0x340ac5e3);
    CheckStep6();
    OneByteMore(ONES, d + [0x34] + [0x35], 0x36, 0xf68d2c9e);
    assert d + [0x34] + [0x35] + [0x36] == d + [0x34, 0x35, 0x36];
  }

  lemma CheckThree3(d: seq<Byte>)
    requires Remainder(ONES, d) == 0xf68d2c9e
    ensures Remainder(ONES, d + [0x37, 0x38, 0x39]) == 0x340bc6d9
  {
    hide Remainder, TableStep;
    CheckStep7();
    OneByteMore(ONES, d, 0x37, 0xaffc9660);
    CheckStep8();
    OneByteMore(ONES, d + [0x37], 0x38, 0x651f2550);
    CheckStep9();
    OneByteMore(ONES, d + [0x37] + [0x38], 0x39, 0x340bc6d9);
    assert d + [0x37] + [0x38] + [0x39] == d + [0x37, 0x38, 0x39];
  }

  lemma CheckValue()
    ensures Updated(0, [0x31, 0x32, 0x33, 0x34, 0x35, 0x36, 0x37, 0x38, 0x39]) == 0xcbf43926
  {
    assert Xor(0, ONES) == ONES && Xor(0x340bc6d9, ONES) == 0xcbf43926;
    hide Remainder, Xor;
    NothingRemains(ONES);
    CheckThree1([]);
    CheckThree2([] + [0x31, 0x32, 0x33]);
    CheckThree3([] + [0x31, 0x32, 0x33] + [0x34, 0x35, 0x36]);
    assert [] + [0x31, 0x32, 0x33] + [0x34, 0x35, 0x36] + [0x37, 0x38, 0x39]
        == [0x31, 0x32, 0x33, 0x34, 0x35, 0x36, 0x37, 0x38, 0x39 as Byte];
  }

  /** Updating over two pieces in turn updates over their concatenation. */
  lemma UpdateInPieces(crc: bv32, a: seq<Byte>, b: seq<Byte>)
    ensures Updated(Updated(crc, a), b) == Updated(crc, a + b)
  {
    hide Remainder, Xor;
    XorTwice(Remainder(Xor(crc, ONES), a), ONES);
    RemainderAppend(Xor(crc, ONES), a, b);
  }

  // ----- Errors that are always detected -----

  lemma {:induction false} RemainderInjective(x: bv32, y: bv32, data: seq<Byte>)
    requires Remainder(x, data) == Remainder(y, data)
    ensures x == y
    decreases |data|
  {
    hide Remainder, Steps, Xor;
    if data == [] {
      NothingRemains(x);
      NothingRemains(y);
    } else {
      var b := data[0];
      assert data == [b] + data[1..];
      RemainderAppend(x, [b], data[1..]);
      RemainderAppend(y, [b], data[1..]);
      RemainderInjective(Remainder(x, [b]), Remainder(y, [b]), data[1..]);
      RemainderOfByte(x, b);
      RemainderOfByte(y, b);
      StepsInjective(Xor(x, b as bv32), Xor(y, b as bv32), 8);
      XorTwice(x, b as bv32);
      XorTwice(y, b as bv32);
    }
  }

  // Up to four bytes act as one word.

  function PushByte(b: Byte, w: bv32): bv32 { b as bv32 | (w << 8) }

  /** The bytes as one word, first byte lowest. */
  function WordOf(d: seq<Byte>): bv32 {
    if d == [] then 0 else PushByte(d[0], WordOf(d[1..]))
  }

  /** At most k bytes. */
  predicate Bounded(w: bv32, k: nat) {
    && (k == 0 ==> w == 0)
    && (k == 1 ==> w & 0xffffff00 == 0)
    && (k == 2 ==> w & 0xffff0000 == 0)
    && (k == 3 ==> w & 0xff000000 == 0)
  }

  lemma PushBytePops(b: Byte, w: bv32)
    requires w & 0xff000000 == 0
    ensures LowByte(PushByte(b, w)) == b && Shift8(PushByte(b, w)) == w
  {
  }

  lemma PushByteBounded(b: Byte, w: bv32, k: nat)
    requires Bounded(w, k) && k <= 3
    ensures w & 0xff000000 == 0 && Bounded(PushByte(b, w), k + 1)
  {
    match k
    case 0 =>
    case 1 =>
    case 2 =>
    case _ =>
  }

  lemma {:induction false} WordOfBounded(d: seq<Byte>)
    requires |d| <= 4
    ensures Bounded(WordOf(d), |d|)
  {
    hide Bounded, PushByte;
    if d == [] {
      assert Bounded(0, 0) by { ZeroBounded(); }
    } else {
      WordOfBounded(d[1..]);
      PushByteBounded(d[0], WordOf(d[1..]), |d| - 1);
    }
  }

  lemma ZeroBounded()
    ensures Bounded(0, 0)
  {
  }

  lemma WordOfPops(d: seq<Byte>)
    requires 0 < |d| <= 4
    ensures LowByte(WordOf(d)) == d[0] && Shift8(WordOf(d)) == WordOf(d[1..])
  {
    hide Bounded, PushByte, LowByte, Shift8;
    WordOfBounded(d[1..]);
    PushByteBounded(d[0], WordOf(d[1..]), |d| - 1);
    PushBytePops(d[0], WordOf(d[1..]));
  }

  lemma {:induction false} WordOfInjective(u: seq<Byte>, v: seq<Byte>)
    requires |u| == |v| <= 4 && WordOf(u) == WordOf(v)
    ensures u == v
  {
    hide LowByte, Shift8, WordOf;
    if u != [] {
      WordOfPops(u);
      WordOfPops(v);
      WordOfInjective(u[1..], v[1..]);
      assert u == [u[0]] + u[1..] && v == [v[0]] + v[1..];
    }
  }

  /** n places to the right. */
  function Lower(y: bv32, n: nat): bv32
    decreases n
  {
    if n == 0 then y else Lower(Half(y), n - 1)
  }

  lemma LowerEight(w: bv32)
    ensures Lower(w, 8) == Shift8(w)
  {
    hide Half, Shift8;
    HalfEight(w);
    var w4 := Half(Half(Half(Half(w))));
    assert Lower(w, 8) == Lower(Half(Half(w)), 6);
    assert Lower(Half(Half(w)), 6) == Lower(w4, 4);
    assert Lower(w4, 4) == Lower(Half(Half(w4)), 2);
  }

  lemma HalfEight(w: bv32)
    ensures Half(Half(Half(Half(Half(Half(Half(Half(w)))))))) == Shift8(w)
  {
  }

  lemma {:induction false} LowBitsSplit(w: bv32, m: nat, n: nat)
    ensures LowBits(w, m + n) == LowBits(w, m) + LowBits(Lower(w, m), n)
    decreases m
  {
    hide Half, Odd;
    if m > 0 {
      LowBitsSplit(Half(w), m - 1, n);
    }
  }

  lemma {:induction false} WithinSplit(w: bv32, m: nat, n: nat)
    requires Within(Lower(w, m), n)
    ensures Within(w, m + n)
    decreases m
  {
    hide Half;
    if m > 0 {
      WithinSplit(Half(w), m - 1, n);
    }
  }

  /** Words that agree in their n lowest bits. */
  predicate Agree(x: bv32, y: bv32, n: nat)
    decreases n
  {
    n > 0 ==> Odd(x) == Odd(y) && Agree(Half(x), Half(y), n - 1)
  }

  lemma {:induction false} LowBitsAgree(x: bv32, y: bv32, n: nat)
    requires Agree(x, y, n)
    ensures LowBits(x, n) == LowBits(y, n)
    decreases n
  {
    hide Half, Odd;
    if n > 0 {
      LowBitsAgree(Half(x), Half(y), n - 1);
    }
  }

  function And(x: bv32, m: bv32): bv32 { x & m }

  /** A mask for the n lowest bits. */
  predicate Ones(m: bv32, n: nat)
    decreases n
  {
    n > 0 ==> Odd(m) && Ones(Half(m), n - 1)
  }

  lemma HalfOfAnd(x: bv32, m: bv32)
    ensures Half(And(x, m)) == And(Half(x), Half(m))
  {
  }

  lemma OddOfAnd(x: bv32, m: bv32)
    requires Odd(m)
    ensures Odd(And(x, m)) == Odd(x)
  {
  }

  lemma {:induction false} MaskedAgrees(x: bv32, m: bv32, n: nat)
    requires Ones(m, n)
    ensures Agree(x, And(x, m), n)
    decreases n
  {
    hide Half, Odd, And;
    if n > 0 {
      HalfOfAnd(x, m);
      OddOfAnd(x, m);
      MaskedAgrees(Half(x), Half(m), n - 1);
    }
  }

  lemma {:induction false} OnesMore(m: bv32, n: nat)
    requires Odd(m) && Ones(Half(m), n)
    ensures Ones(m, n + 1)
  {
    hide Odd, Half;
  }

  lemma {:induction false} EightOnes()
    ensures Ones(0xff, 8)
  {
    assert Ones(0, 0);
    hide Ones;
    OnesMore(1, 0);
    OnesMore(3, 1);
    OnesMore(7, 2);
    OnesMore(0xf, 3);
    OnesMore(0x1f, 4);
    OnesMore(0x3f, 5);
    OnesMore(0x7f, 6);
    OnesMore(0xff, 7);
  }

  lemma LowByteMasks(x: bv32)
    ensures LowByte(x) as bv32 == And(x, 0xff)
  {
  }

  lemma LowByteAgrees(w: bv32)
    ensures Agree(w, LowByte(w) as bv32, 8)
  {
    hide Agree, Ones, And, LowByte;
    LowByteMasks(w);
    EightOnes();
    MaskedAgrees(w, 0xff, 8);
  }

  lemma {:induction false} WordBits(d: seq<Byte>)
    requires |d| <= 4
    ensures MessageBits(d) == LowBits(WordOf(d), 8 * |d|) && Within(WordOf(d), 8 * |d|)
  {
    hide LowBits, LowByte, Shift8, Lower, Within, Agree;
    if d == [] {
      assert MessageBits(d) == [] == LowBits(0, 0);
      assert Within(0, 0) by { NothingWithin(); }
    } else {
      var w := WordOf(d);
      WordBits(d[1..]);
      WordOfPops(d);
      LowerEight(w);
      LowBitsSplit(w, 8, 8 * (|d| - 1));
      WithinSplit(w, 8, 8 * (|d| - 1));
      LowByteAgrees(w);
      LowBitsAgree(w, d[0] as bv32, 8);
    }
  }

  lemma NothingWithin()
    ensures Within(0, 0)
  {
  }

  /** Mix the bytes in as one word, then eight steps for each. */
  lemma RemainderOfWord(c: bv32, d: seq<Byte>)
    requires |d| <= 4
    ensures Remainder(c, d) == Steps(Xor(c, WordOf(d)), 8 * |d|)
  {
    hide Divide, Steps, Xor, WordOf, Within, MessageBits, LowBits;
    WordBits(d);
    DivideLowBits(c, WordOf(d), 8 * |d|);
  }

  /** Messages of equal length that differ only inside four consecutive bytes leave different remainders. */
  lemma BurstChangesRemainder(c: bv32, before: seq<Byte>, u: seq<Byte>, v: seq<Byte>, after: seq<Byte>)
    requires |u| == |v| <= 4 && u != v
    ensures Remainder(c, before + u + after) != Remainder(c, before + v + after)
  {
    hide Remainder, Steps, Xor, WordOf;
    if Remainder(c, before + u + after) == Remainder(c, before + v + after) {
      var x := Remainder(c, before);
      RemainderAppend(c, before + u, after);
      RemainderAppend(c, before, u);
      RemainderAppend(c, before + v, after);
      RemainderAppend(c, before, v);
      RemainderInjective(Remainder(x, u), Remainder(x, v), after);
      RemainderOfWord(x, u);
      RemainderOfWord(x, v);
      StepsInjective(Xor(x, WordOf(u)), Xor(x, WordOf(v)), 8 * |u|);
      XorCommutes(x, WordOf(u));
      XorCommutes(x, WordOf(v));
      XorTwice(WordOf(u), x);
      XorTwice(WordOf(v), x);
      WordOfInjective(u, v);
    }
  }

  /** So such messages never share a CRC. */
  lemma BurstDetected(before: seq<Byte>, u: seq<Byte>, v: seq<Byte>, after: seq<Byte>)
    requires |u| == |v| <= 4 && u != v
    ensures Updated(0, before + u + after) != Updated(0, before + v + after)
    ensures Remainder(0, before + u + after) != Remainder(0, before + v + after)
  {
    hide Remainder, Xor;
    BurstChangesRemainder(Xor(0, ONES), before, u, v, after);
    BurstChangesRemainder(0, before, u, v, after);
    XorTwice(Remainder(Xor(0, ONES), before + u + after), ONES);
    XorTwice(Remainder(Xor(0, ONES), before + v + after), ONES);
  }
}
