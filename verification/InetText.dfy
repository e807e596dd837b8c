/** gl/inet_ntop.c: the text of an internet address. */
module InetText {
  import opened MachineInts
  import opened Numerals
  import opened Strings

  // ----- Words and runs of zeros -----

  /** The sixteen-bit words of an address. */
  function Words(src: seq<Octet>): (w: seq<nat>)
    requires |src| == 16
    ensures |w| == 8 && forall i :: 0 <= i < 8 ==> w[i] == Word(src[2 * i], src[2 * i + 1])
  {
    [Word(src[0], src[1]), Word(src[2], src[3]), Word(src[4], src[5]), Word(src[6], src[7]),
     Word(src[8], src[9]), Word(src[10], src[11]), Word(src[12], src[13]), Word(src[14], src[15])]
  }

  /** (src[i] << 8) | src[i + 1] */
  function Word(high: Octet, low: Octet): (w: nat)
    ensures w < 0x10000
  {
    high as int * 256 + low as int
  }

  /** How many zeros there are in a row from position b on. */
  function ZerosFrom(w: seq<nat>, b: nat): nat
    decreases |w| - b
  {
    if b < |w| && w[b] == 0 then 1 + ZerosFrom(w, b + 1) else 0
  }

  /** The first of the positions below n from which there are the most zeros. */
  function FirstLongest(w: seq<nat>, n: nat): (p: nat)
    requires 1 <= n <= |w|
    ensures p < n
  {
    if n == 1 then 0
    else
      var p := FirstLongest(w, n - 1);
      if ZerosFrom(w, n - 1) > ZerosFrom(w, p) then n - 1 else p
  }

  /** A run of zero words; no run when base is -1. */
  datatype Run = Run(base: int, len: nat) {
    predicate Holds(i: nat) { base != -1 && base <= i < base + len }
  }

  /** The run that is abbreviated. */
  function BestRun(w: seq<nat>): (r: Run)
    requires |w| == 8
  {
    var p := FirstLongest(w, 8);
    if ZerosFrom(w, p) >= 2 then Run(p, ZerosFrom(w, p)) else Run(-1, 0)
  }

  predicate ZeroRun(w: seq<nat>, b: nat, l: nat) {
    b + l <= |w| && forall i :: b <= i < b + l ==> w[i] == 0
  }

  lemma {:induction false} ZerosFromIsRun(w: seq<nat>, b: nat)
    requires b <= |w|
    ensures ZeroRun(w, b, ZerosFrom(w, b))
    ensures b + ZerosFrom(w, b) < |w| ==> w[b + ZerosFrom(w, b)] != 0
    decreases |w| - b
  {
    if b < |w| {
      ZerosFromIsRun(w, b + 1);
    }
  }

  lemma {:induction false} RunIsWithinZeros(w: seq<nat>, b: nat, l: nat)
    requires ZeroRun(w, b, l)
    ensures l <= ZerosFrom(w, b)
    decreases l
  {
    if l > 0 {
      RunIsWithinZeros(w, b + 1, l - 1);
    }
  }

  lemma {:induction false} FirstLongestIsFirst(w: seq<nat>, n: nat, p: nat)
    requires 1 <= n <= |w| && p < n
    ensures ZerosFrom(w, p) <= ZerosFrom(w, FirstLongest(w, n))
    ensures p < FirstLongest(w, n) ==> ZerosFrom(w, p) < ZerosFrom(w, FirstLongest(w, n))
    decreases n
  {
    hide ZerosFrom;
    if p < n - 1 {
      FirstLongestIsFirst(w, n - 1, p);
    } else if n > 1 {
      FirstLongestIsFirst(w, n - 1, 0);
    }
  }

  /** The abbreviated run is the leftmost of the longest runs of at least two zero words. */
  lemma LeftmostLongest(w: seq<nat>, b: nat, l: nat)
    requires |w| == 8 && ZeroRun(w, b, l) && l >= 2
    ensures var r := BestRun(w);
            0 <= r.base && r.len >= 2 && ZeroRun(w, r.base, r.len) && l <= r.len && (l == r.len ==> r.base <= b)
  {
    hide ZerosFrom, FirstLongest;
    var p := FirstLongest(w, 8);
    RunIsWithinZeros(w, b, l);
    FirstLongestIsFirst(w, 8, b);
    ZerosFromIsRun(w, p);
  }

  lemma BestRunFacts(w: seq<nat>)
    requires |w| == 8
    ensures var r := BestRun(w);
            r == Run(-1, 0) || (0 <= r.base && r.len >= 2 && r.base + r.len <= 8 && ZeroRun(w, r.base, r.len))
  {
    hide ZerosFrom, FirstLongest;
    ZerosFromIsRun(w, FirstLongest(w, 8));
  }

  // ----- The text -----

  /** %x */
  function Hex(n: nat): string { Numeral(n, 16) }

  /** %u.%u.%u.%u */
  function Dotted(a: seq<Octet>): string
    requires |a| == 4
  {
    Numeral(a[0], 10) + "." + Numeral(a[1], 10) + "." + Numeral(a[2], 10) + "." + Numeral(a[3], 10)
  }

  /** Whether the last four bytes are written as an IPv4 address. */
  predicate Embeds(w: seq<nat>, r: Run)
    requires |w| == 8
  {
    r.base == 0 && (r.len == 6 || (r.len == 5 && w[5] == 0xffff))
  }

  /** What is written from word i on. */
  function TextFrom(src: seq<Octet>, r: Run, i: nat): string
    requires |src| == 16 && i <= 8
    decreases |src| - i
  {
    var w := Words(src);
    if i == 8 then (if r.base != -1 && r.base + r.len == 8 then ":" else "")
    else if r.Holds(i) then (if i == r.base then ":" else "") + TextFrom(src, r, i + 1)
    else
      (if i != 0 then ":" else "")
      + if i == 6 && Embeds(w, r) then Dotted(src[12..]) else Hex(w[i]) + TextFrom(src, r, i + 1)
  }

  /** The text of an IPv6 address. */
  function Text6(src: seq<Octet>): string
    requires |src| == 16
  {
    TextFrom(src, BestRun(Words(src)), 0)
  }

  // ----- Its length -----

  lemma HexLength(n: nat)
    requires n < 0x10000
    ensures |Hex(n)| <= 4
  {
    assert Pow(16, 4) == 16 * Pow(16, 3) == 256 * Pow(16, 2) == 4096 * Pow(16, 1) == 0x10000 * Pow(16, 0);
    NumeralLength(n, 16, 4);
  }

  lemma OctetLength(n: Octet)
    ensures |Numeral(n, 10)| <= 3
  {
    assert Pow(10, 3) == 10 * Pow(10, 2) == 100 * Pow(10, 1) == 1000 * Pow(10, 0);
    NumeralLength(n, 10, 3);
  }

  lemma DottedLength(a: seq<Octet>)
    requires |a| == 4
    ensures 7 <= |Dotted(a)| <= 15
  {
    hide Numeral;
    OctetLength(a[0]);
    OctetLength(a[1]);
    OctetLength(a[2]);
    OctetLength(a[3]);
  }

  /** Five characters for each word that is written, one for the run, and what an IPv4 address or a final run adds. */
  function LengthBound(w: seq<nat>, r: Run, i: nat): int
    requires |w| == 8
  {
    (if Embeds(w, r) && i <= 6 then 6 else 0)
    + (if r.base != -1 && r.base + r.len == 8 then 1 else 0)
    + if r.base == -1 || i >= r.base + r.len then 5 * (8 - i)
      else if i > r.base then 5 * (8 - r.base - r.len)
      else 5 * (8 - i - r.len) + 1
  }

  lemma {:induction false} TextFromLength(src: seq<Octet>, r: Run, i: nat)
    requires |src| == 16 && i <= 8
    requires r == Run(-1, 0) || (0 <= r.base && r.len >= 2 && r.base + r.len <= 8)
    ensures |TextFrom(src, r, i)| <= LengthBound(Words(src), r, i)
    decreases 8 - i
  {
    hide Hex, Dotted, Words;
    if i < 8 {
      TextFromLength(src, r, i + 1);
      DottedLength(src[12..]);
      WordBound(src, i);
      HexLength(Words(src)[i]);
    }
  }

  lemma WordBound(src: seq<Octet>, i: nat)
    requires |src| == 16 && i < 8
    ensures Words(src)[i] < 0x10000
  {
  }

  /** With its terminator the text fits the buffer, sizeof "ffff:ffff:ffff:ffff:ffff:ffff:255.255.255.255". */
  lemma Text6Length(src: seq<Octet>)
    requires |src| == 16
    ensures |Text6(src)| + 1 <= 46
  {
    hide TextFrom, BestRun, Words;
    BestRunFacts(Words(src));
    TextFromLength(src, BestRun(Words(src)), 0);
  }

  // ----- Embedded addresses -----

  predicate AllZero(src: seq<Octet>, n: nat)
    requires n <= |src|
  {
    forall i :: 0 <= i < n ==> src[i] == 0
  }

  /** ::ffff:a.b.c.d, or ::a.b.c.d where a and b are not both zero. */
  predicate IsEmbedded(src: seq<Octet>)
    requires |src| == 16
  {
    (AllZero(src, 10) && src[10] == src[11] == 255) || (AllZero(src, 12) && (src[12] != 0 || src[13] != 0))
  }

  lemma WordZero(high: Octet, low: Octet)
    ensures Word(high, low) == 0 <==> high == 0 && low == 0
    ensures Word(high, low) == 0xffff <==> high == 255 && low == 255
  {
  }

  lemma WordAt(src: seq<Octet>, k: nat)
    requires |src| == 16 && k < 8
    ensures Words(src)[k] == 0 <==> src[2 * k] == 0 && src[2 * k + 1] == 0
    ensures Words(src)[k] == 0xffff <==> src[2 * k] == 255 && src[2 * k + 1] == 255
  {
    WordZero(src[2 * k], src[2 * k + 1]);
  }

  lemma ZeroWords(src: seq<Octet>, n: nat)
    requires |src| == 16 && n <= 8
    ensures AllZero(src, 2 * n) <==> ZeroRun(Words(src), 0, n)
  {
    hide Words;
    var w := Words(src);
    if ZeroRun(w, 0, n) {
      forall i | 0 <= i < 2 * n
        ensures src[i] == 0
      {
        WordAt(src, i / 2);
        assert i == 2 * (i / 2) || i == 2 * (i / 2) + 1;
      }
    }
    if AllZero(src, 2 * n) {
      forall k | 0 <= k < n
        ensures w[k] == 0
      {
        WordAt(src, k);
      }
    }
  }

  /** The run of the first l words is the one abbreviated, if no longer run is possible. */
  lemma FirstRunIsBest(w: seq<nat>, l: nat)
    requires |w| == 8 && 5 <= l <= 6 && ZeroRun(w, 0, l) && w[l] != 0
    ensures BestRun(w) == Run(0, l)
  {
    hide BestRun;
    LeftmostLongest(w, 0, l);
  }

  /** So the last four bytes are written as an IPv4 address exactly for those addresses. */
  lemma EmbedsExactly(src: seq<Octet>)
    requires |src| == 16
    ensures Embeds(Words(src), BestRun(Words(src))) <==> IsEmbedded(src)
  {
    hide BestRun, ZeroRun, AllZero, Words, Word;
    var w := Words(src);
    ZeroWords(src, 5);
    ZeroWords(src, 6);
    BestRunFacts(w);
    RunEnds(w);
    WordAt(src, 5);
    WordAt(src, 6);
    if AllZero(src, 10) && w[5] != 0 {
      FirstRunIsBest(w, 5);
    }
    if AllZero(src, 12) && w[6] != 0 {
      FirstRunIsBest(w, 6);
    }
  }

  /** Behind the run that is abbreviated there is no zero. */
  lemma RunEnds(w: seq<nat>)
    requires |w| == 8
    ensures var r := BestRun(w); r.base == 0 && r.len < 8 ==> w[r.len] != 0
  {
    hide ZerosFrom, FirstLongest;
    ZerosFromIsRun(w, FirstLongest(w, 8));
  }

  lemma HexHasNoDot(n: nat)
    ensures '.' !in Hex(n)
  {
    hide Numeral;
    ValueOfNumeral(n, 16);
    DigitsHaveNoDot(Numeral(n, 16));
  }

  lemma DigitsHaveNoDot(s: string)
    requires AllDigits(s, 16)
    ensures '.' !in s
  {
  }

  predicate EndsWith(s: string, t: string) {
    |t| <= |s| && s[|s| - |t|..] == t
  }

  lemma LongerEndsWith(p: string, s: string, t: string)
    requires EndsWith(s, t)
    ensures EndsWith(p + s, t)
  {
  }

  /** Words and runs have no dot, and an address in dotted form has. */
  lemma {:induction false} TextFromHasDot(src: seq<Octet>, r: Run, i: nat)
    requires |src| == 16 && i <= 8
    ensures '.' in TextFrom(src, r, i) <==> Embeds(Words(src), r) && i <= 6
    decreases 8 - i
  {
    hide Hex, Dotted, Words, TextFrom, Embeds, Colon;
    ColonOne(i);
    if i == 8 {
      TextAtEnd(src, r);
    } else if i == 6 && Embeds(Words(src), r) {
      TextOfTail(src, r);
      DottedHasDot(src[12..]);
    } else {
      TextFromHasDot(src, r, i + 1);
      EmbeddedRun(src, r, i);
      if r.Holds(i) {
        TextOfRun(src, r, i);
      } else {
        TextOfWord(src, r, i);
        HexHasNoDot(Words(src)[i]);
      }
    }
  }

  lemma {:induction false} TextFromEnds(src: seq<Octet>, r: Run, i: nat)
    requires |src| == 16 && i <= 6 && Embeds(Words(src), r)
    ensures EndsWith(TextFrom(src, r, i), Dotted(src[12..]))
    decreases 8 - i
  {
    hide Hex, Dotted, Words, EndsWith, TextFrom, Embeds, Colon;
    var dotted := Dotted(src[12..]);
    if i == 6 {
      EmbeddedRun(src, r, 6);
      TextOfTail(src, r);
      LongerEndsWith(Colon(6), dotted, dotted) by { EndsWithItself(dotted); }
    } else {
      TextFromEnds(src, r, i + 1);
      if r.Holds(i) {
        TextOfRun(src, r, i);
        LongerEndsWith(if i == r.base then ":" else "", TextFrom(src, r, i + 1), dotted);
      } else {
        TextOfWord(src, r, i);
        LongerEndsWith(Hex(Words(src)[i]), TextFrom(src, r, i + 1), dotted);
        LongerEndsWith(Colon(i), Hex(Words(src)[i]) + TextFrom(src, r, i + 1), dotted);
      }
    }
  }

  lemma EmbeddedRun(src: seq<Octet>, r: Run, i: nat)
    requires |src| == 16 && i < 8
    ensures Embeds(Words(src), r) && i >= 6 ==> !r.Holds(i)
  {
  }

  lemma DottedHasDot(a: seq<Octet>)
    requires |a| == 4
    ensures '.' in Dotted(a)
  {
    hide Numeral;
    assert Dotted(a)[|Numeral(a[0], 10)|] == '.';
  }

  lemma EndsWithItself(s: string)
    ensures EndsWith(s, s)
  {
  }

  /** The text has a dotted address, and then ends in it, exactly for IPv4 addresses that are embedded. */
  lemma DottedExactly(src: seq<Octet>)
    requires |src| == 16
    ensures '.' in Text6(src) <==> IsEmbedded(src)
    ensures IsEmbedded(src) ==> EndsWith(Text6(src), Dotted(src[12..]))
  {
    hide TextFrom, BestRun, Words, Embeds, Dotted, EndsWith, IsEmbedded;
    EmbedsExactly(src);
    TextFromHasDot(src, BestRun(Words(src)), 0);
    if IsEmbedded(src) {
      TextFromEnds(src, BestRun(Words(src)), 0);
    }
  }

  // ----- Two parts around the double colon -----

  /** The words from a up to b, in hexadecimal. */
  function HexWords(w: seq<nat>, a: nat, b: nat): (items: seq<string>)
    requires a <= b <= |w|
    ensures |items| == b - a
    decreases b - a
  {
    if a == b then [] else [Hex(w[a])] + HexWords(w, a + 1, b)
  }

  /** What follows the run, or everything if there is no run. */
  function RightItems(src: seq<Octet>, r: Run, i: nat): seq<string>
    requires |src| == 16 && i <= 8
  {
    var w := Words(src);
    if Embeds(w, r) && i <= 6 then HexWords(w, i, 6) + [Dotted(src[12..])] else HexWords(w, i, 8)
  }

  lemma JoinHead(item: string, rest: seq<string>)
    ensures Join([item] + rest, ':') == if rest == [] then item else item + ":" + Join(rest, ':')
  {
    assert ([item] + rest)[1..] == rest;
  }

  function Colon(i: nat): string { if i != 0 then ":" else "" }

  /** One word outside the run. */
  lemma TextOfWord(src: seq<Octet>, r: Run, i: nat)
    requires |src| == 16 && i < 8 && !r.Holds(i) && !(i == 6 && Embeds(Words(src), r))
    ensures TextFrom(src, r, i) == Colon(i) + (Hex(Words(src)[i]) + TextFrom(src, r, i + 1))
  {
    hide Words, Hex, Embeds, Dotted;
  }

  lemma TextOfTail(src: seq<Octet>, r: Run)
    requires |src| == 16 && Embeds(Words(src), r)
    ensures TextFrom(src, r, 6) == Colon(6) + Dotted(src[12..])
  {
    hide Words, Hex, Dotted;
  }

  lemma TextAtEnd(src: seq<Octet>, r: Run)
    requires |src| == 16
    ensures TextFrom(src, r, 8) == if r.base != -1 && r.base + r.len == 8 then ":" else ""
  {
  }

  lemma TextOfRun(src: seq<Octet>, r: Run, i: nat)
    requires |src| == 16 && i < 8 && r.Holds(i)
    ensures TextFrom(src, r, i) == (if i == r.base then ":" else "") + TextFrom(src, r, i + 1)
  {
    hide Words, Hex, Dotted;
  }

  lemma Cat(a: string, b: string, c: string, d: string)
    ensures a + (b + (c + d)) == a + (b + c + d) == a + (b + c) + d && a + "" == a && "" + a == a
  {
  }

  lemma {:induction false} RightText(src: seq<Octet>, r: Run, i: nat)
    requires |src| == 16 && i < 8 && (r == Run(-1, 0) || (0 <= r.base && r.base + r.len <= i))
    requires Embeds(Words(src), r) ==> i <= 6
    ensures TextFrom(src, r, i) == Colon(i) + Join(RightItems(src, r, i), ':')
    decreases 8 - i
  {
    hide Hex, Dotted, Words, Join, TextFrom, Colon, Embeds;
    var w := Words(src);
    if i == 6 && Embeds(w, r) {
      TextOfTail(src, r);
      JoinHead(Dotted(src[12..]), []);
      assert RightItems(src, r, i) == [Dotted(src[12..])] + [];
    } else {
      TextOfWord(src, r, i);
      if i == 7 {
        TextAtEnd(src, r);
        JoinHead(Hex(w[7]), []);
        assert RightItems(src, r, i) == [Hex(w[7])] + [];
        Cat(Hex(w[7]), "", "", "");
      } else {
        RightText(src, r, i + 1);
        RightItemsHead(src, r, i);
        JoinHead(Hex(w[i]), RightItems(src, r, i + 1));
        ColonOne(i + 1);
        Cat(Colon(i), Hex(w[i]), ":", Join(RightItems(src, r, i + 1), ':'));
      }
    }
  }

  lemma ColonOne(i: nat)
    ensures i > 0 ==> Colon(i) == ":"
    ensures Colon(0) == ""
  {
  }

  lemma RightItemsHead(src: seq<Octet>, r: Run, i: nat)
    requires |src| == 16 && i < 7 && (Embeds(Words(src), r) ==> i < 6)
    ensures RightItems(src, r, i) == [Hex(Words(src)[i])] + RightItems(src, r, i + 1)
    ensures RightItems(src, r, i + 1) != []
  {
    hide Hex, Dotted, Words, Embeds;
  }

  /** The run itself, from one of its words on. */
  lemma {:induction false} RunText(src: seq<Octet>, r: Run, i: nat)
    requires |src| == 16 && 0 <= r.base < i <= r.base + r.len <= 8
    ensures TextFrom(src, r, i) == TextFrom(src, r, r.base + r.len)
    decreases 8 - i
  {
    hide TextFrom;
    if i < r.base + r.len {
      TextOfRun(src, r, i);
      RunText(src, r, i + 1);
      Cat(TextFrom(src, r, i + 1), "", "", "");
    }
  }

  lemma {:induction false} LeftText(src: seq<Octet>, r: Run, i: nat)
    requires |src| == 16 && 0 <= i < r.base && r.len >= 2 && r.base + r.len <= 8
    ensures TextFrom(src, r, i) == Colon(i) + Join(HexWords(Words(src), i, r.base), ':') + TextFrom(src, r, r.base)
    decreases r.base - i
  {
    hide Hex, Words, Join, TextFrom, Colon;
    var w := Words(src);
    var rest := HexWords(w, i + 1, r.base);
    TextOfWord(src, r, i);
    JoinHead(Hex(w[i]), rest);
    if i + 1 < r.base {
      LeftText(src, r, i + 1);
      ColonOne(i + 1);
      Cat(Hex(w[i]), ":", Join(rest, ':'), TextFrom(src, r, r.base));
      Cat(Colon(i), Hex(w[i]) + ":", Join(rest, ':'), TextFrom(src, r, r.base));
    } else {
      assert HexWords(w, i, r.base) == [Hex(w[i])] + rest;
      Cat("", Colon(i), Hex(w[i]), TextFrom(src, r, r.base));
    }
  }

  function LeftPart(src: seq<Octet>, r: Run): string
    requires |src| == 16 && 0 <= r.base <= 8
  {
    if r.base == 0 then "" else Join(HexWords(Words(src), 0, r.base), ':')
  }

  function RightPart(src: seq<Octet>, r: Run): string
    requires |src| == 16 && 0 <= r.base && r.base + r.len <= 8
  {
    if r.base + r.len == 8 then "" else Join(RightItems(src, r, r.base + r.len), ':')
  }

  lemma RunAndRight(src: seq<Octet>, r: Run)
    requires |src| == 16 && 0 <= r.base && r.len >= 2 && r.base + r.len <= 8
    ensures TextFrom(src, r, r.base) == "::" + RightPart(src, r)
  {
    hide Words, Join, RightItems, TextFrom, Colon;
    TextOfRun(src, r, r.base);
    RunText(src, r, r.base + 1);
    if r.base + r.len < 8 {
      RightText(src, r, r.base + r.len);
      ColonOne(r.base + r.len);
    } else {
      TextAtEnd(src, r);
    }
  }

  lemma TwoParts(src: seq<Octet>, r: Run)
    requires |src| == 16 && 0 <= r.base && r.len >= 2 && r.base + r.len <= 8
    ensures TextFrom(src, r, 0) == LeftPart(src, r) + "::" + RightPart(src, r)
  {
    hide Words, Join, HexWords, RightItems, TextFrom, RightPart;
    RunAndRight(src, r);
    if r.base > 0 {
      LeftText(src, r, 0);
    }
  }
}
