/** Reading the text of an IPv6 address as section 2.2 of RFC 4291 defines it, and what it makes of gl/inet_ntop.c. */
module InetParse {
  import opened MachineInts
  import opened Numerals
  import opened Strings
  import opened InetText

  // ----- The reader -----

  /** One to four hexadecimal digits. */
  function ParseHex(s: string): (v: Option<nat>)
  {
    if 1 <= |s| <= 4 && AllDigits(s, 16) then Some(Value(s, 16)) else None
  }

  /** One to three decimal digits for a number below 256. */
  function ParseOctet(s: string): (v: Option<Octet>)
  {
    if 1 <= |s| <= 3 && AllDigits(s, 10) && Value(s, 10) < 256 then Some(Value(s, 10)) else None
  }

  /** d.d.d.d */
  function ParseDotted(s: string): (v: Option<seq<Octet>>) {
    var p := Split(s, '.');
    if |p| != 4 then None
    else match (ParseOctet(p[0]), ParseOctet(p[1]), ParseOctet(p[2]), ParseOctet(p[3]))
      case (Some(a), Some(b), Some(c), Some(d)) => Some([a, b, c, d])
      case _ => None
  }

  /** Groups of sixteen bits; the last item may be an IPv4 address if `dotted`. */
  function ParseItems(items: seq<string>, dotted: bool): (v: Option<seq<Octet>>) {
    if items == [] then Some([])
    else if |items| == 1 && dotted && ParseDotted(items[0]).Some? then ParseDotted(items[0])
    else match (ParseHex(items[0]), ParseItems(items[1..], dotted))
      case (Some(w), Some(rest)) => Some([w / 256 % 256, w % 256] + rest)
      case _ => None
  }

  /** The items between single colons; none at all for the empty string. */
  function ParsePart(s: string, dotted: bool): (v: Option<seq<Octet>>) {
    if s == "" then Some([]) else ParseItems(Split(s, ':'), dotted)
  }

  /** The position of the first double colon, or the length if there is none. */
  function FindDouble(s: string): (k: nat)
    ensures k <= |s| && (k < |s| ==> k + 2 <= |s|)
  {
    if |s| < 2 then |s|
    else if s[0] == ':' && s[1] == ':' then 0
    else 1 + FindDouble(s[1..])
  }

  function Zeros(n: nat): (z: seq<Octet>)
    ensures |z| == n
  {
    seq(n, _ => 0)
  }

  /** The address that a text stands for: a double colon, allowed once, stands for one or more groups of zeros. */
  function Parse6(s: string): (v: Option<seq<Octet>>) {
    var k := FindDouble(s);
    if k == |s| then
      match ParsePart(s, true)
      case Some(b) => if |b| == 16 then Some(b) else None
      case None => None
    else
      match (ParsePart(s[..k], false), ParsePart(s[k + 2..], true))
      case (Some(a), Some(b)) => if |a| + |b| <= 14 then Some(a + Zeros(16 - |a| - |b|) + b) else None
      case _ => None
  }

  // ----- Items -----

  lemma HexParsed(n: nat)
    requires n < 0x10000
    ensures ParseHex(Hex(n)) == Some(n) && Lacks(Hex(n), ':') && Lacks(Hex(n), '.') && Hex(n) != ""
  {
    hide Numeral, Value;
    HexLength(n);
    ValueOfNumeral(n, 16);
    DigitsLack(Hex(n), 16);
  }

  lemma OctetParsed(n: Octet)
    ensures ParseOctet(Numeral(n, 10)) == Some(n) && Lacks(Numeral(n, 10), ':') && Lacks(Numeral(n, 10), '.')
  {
    hide Numeral, Value;
    OctetLength(n);
    ValueOfNumeral(n, 10);
    DigitsLack(Numeral(n, 10), 10);
  }

  lemma DigitsLack(s: string, base: nat)
    requires AllDigits(s, base) && base <= 16
    ensures Lacks(s, ':') && Lacks(s, '.')
  {
  }

  lemma DottedParsed(a: seq<Octet>)
    requires |a| == 4
    ensures ParseDotted(Dotted(a)) == Some(a) && Lacks(Dotted(a), ':') && Dotted(a) != ""
  {
    hide Numeral, ParseOctet, Split, Join;
    var p := [Numeral(a[0], 10), Numeral(a[1], 10), Numeral(a[2], 10), Numeral(a[3], 10)];
    OctetParsed(a[0]);
    OctetParsed(a[1]);
    OctetParsed(a[2]);
    OctetParsed(a[3]);
    JoinFour(p);
    SplitOfJoin(p, '.');
    assert a == [a[0], a[1], a[2], a[3]];
  }

  lemma JoinFour(p: seq<string>)
    requires |p| == 4
    ensures Join(p, '.') == p[0] + "." + p[1] + "." + p[2] + "." + p[3]
  {
    assert p[1..][1..] == p[2..] && p[2..][1..] == p[3..];
    assert Join(p[3..], '.') == p[3];
    assert Join(p[2..], '.') == p[2] + "." + p[3];
    assert Join(p[1..], '.') == p[1] + "." + Join(p[2..], '.');
  }

  /** A hexadecimal group is no IPv4 address. */
  lemma HexIsNotDotted(n: nat)
    requires n < 0x10000
    ensures ParseDotted(Hex(n)) == None
  {
    hide Hex, ParseHex;
    HexParsed(n);
    SplitWhole(Hex(n), '.');
  }

  /** Good items to join with colons. */
  predicate Items(items: seq<string>) {
    AllLack(items, ':') && forall i :: 0 <= i < |items| ==> items[i] != ""
  }

  /** The hexadecimal words from a up to b, and after them perhaps a last item. */
  lemma {:induction false} HexWordsParsed(src: seq<Octet>, a: nat, b: nat, tail: seq<string>, dotted: bool)
    requires |src| == 16 && a <= b <= 8 && Items(tail) && ParseItems(tail, dotted).Some?
    ensures Items(HexWords(Words(src), a, b) + tail)
    ensures ParseItems(HexWords(Words(src), a, b) + tail, dotted)
         == Some(src[2 * a..2 * b] + ParseItems(tail, dotted).value)
    decreases b - a
  {
    hide Hex, ParseHex, ParseDotted, Words, Word, ParseItems, Items;
    var w := Words(src);
    if a == b {
      assert HexWords(w, a, b) + tail == tail;
      assert src[2 * a..2 * b] + ParseItems(tail, dotted).value == ParseItems(tail, dotted).value;
    } else {
      var rest := HexWords(w, a + 1, b) + tail;
      HexWordsParsed(src, a + 1, b, tail, dotted);
      assert w[a] == Word(src[2 * a], src[2 * a + 1]);
      WordBytes(src[2 * a], src[2 * a + 1]);
      HexParsed(w[a]);
      HexIsNotDotted(w[a]);
      assert HexWords(w, a, b) + tail == [Hex(w[a])] + rest;
      ItemsHead(Hex(w[a]), rest);
      ParseHead(Hex(w[a]), rest, dotted);
      Regroup(src, a, b, ParseItems(tail, dotted).value);
    }
  }

  lemma Regroup(src: seq<Octet>, a: nat, b: nat, tail: seq<Octet>)
    requires |src| == 16 && a < b <= 8
    ensures [src[2 * a], src[2 * a + 1]] + (src[2 * (a + 1)..2 * b] + tail) == src[2 * a..2 * b] + tail
  {
  }

  lemma WordBytes(high: Octet, low: Octet)
    ensures var w := Word(high, low); w / 256 % 256 == high && w % 256 == low
  {
    DivUnique(Word(high, low), 256, high, low);
    DivUnique(high, 256, 0, high);
  }

  lemma ItemsHead(item: string, rest: seq<string>)
    requires Items(rest) && Lacks(item, ':') && item != ""
    ensures Items([item] + rest)
  {
  }

  lemma ParseHead(item: string, rest: seq<string>, dotted: bool)
    requires ParseDotted(item) == None && ParseHex(item).Some? && ParseItems(rest, dotted).Some?
    ensures var w := ParseHex(item).value;
            ParseItems([item] + rest, dotted) == Some([w / 256 % 256, w % 256] + ParseItems(rest, dotted).value)
  {
    hide ParseDotted, ParseHex;
    assert ([item] + rest)[1..] == rest;
  }

  lemma RightItemsParsed(src: seq<Octet>, r: Run, i: nat)
    requires |src| == 16 && i <= 8
    ensures Items(RightItems(src, r, i)) && ParseItems(RightItems(src, r, i), true) == Some(src[2 * i..])
  {
    hide Words, Dotted, ParseDotted, ParseHex, Embeds;
    if Embeds(Words(src), r) && i <= 6 {
      var tail := [Dotted(src[12..])];
      DottedParsed(src[12..]);
      assert ParseItems(tail, true) == Some(src[12..]);
      HexWordsParsed(src, i, 6, tail, true);
      assert src[2 * i..12] + src[12..] == src[2 * i..];
    } else {
      HexWordsParsed(src, i, 8, [], true);
      assert HexWords(Words(src), i, 8) + [] == HexWords(Words(src), i, 8);
      assert src[2 * i..16] + [] == src[2 * i..];
    }
  }

  // ----- Colons -----

  /** No two colons side by side, and none at the end. */
  predicate SingleColons(s: string) {
    && (forall i :: 0 <= i < |s| - 1 ==> s[i] != ':' || s[i + 1] != ':')
    && (s != "" ==> s[|s| - 1] != ':')
  }

  lemma {:induction false} JoinSingleColons(items: seq<string>)
    requires Items(items)
    ensures SingleColons(Join(items, ':')) && (items != [] ==> Join(items, ':') != "" && Join(items, ':')[0] != ':')
    decreases |items|
  {
    if |items| > 1 {
      JoinSingleColons(items[1..]);
      SingleColonsAppend(items[0], Join(items[1..], ':'));
    }
  }

  lemma SingleColonsAppend(item: string, rest: string)
    requires Lacks(item, ':') && item != "" && SingleColons(rest) && rest != "" && rest[0] != ':'
    ensures SingleColons(item + ":" + rest)
  {
    var s := item + ":" + rest;
    forall i | 0 <= i < |s| - 1
      ensures s[i] != ':' || s[i + 1] != ':'
    {
      if i > |item| {
        assert s[i] == rest[i - |item| - 1] && s[i + 1] == rest[i - |item|];
      }
    }
  }

  lemma {:induction false} NoDouble(s: string)
    requires SingleColons(s)
    ensures FindDouble(s) == |s|
    decreases |s|
  {
    if |s| >= 2 {
      NoDouble(s[1..]);
    }
  }

  lemma {:induction false} DoubleFound(a: string, b: string)
    requires SingleColons(a)
    ensures FindDouble(a + "::" + b) == |a|
    decreases |a|
  {
    var s := a + "::" + b;
    if a != "" {
      assert s[1..] == a[1..] + "::" + b;
      DoubleFound(a[1..], b);
    }
  }

  lemma PartParsed(items: seq<string>, dotted: bool)
    requires Items(items) && items != []
    ensures ParsePart(Join(items, ':'), dotted) == ParseItems(items, dotted)
  {
    hide Join, Split, ParseItems;
    JoinSingleColons(items);
    SplitOfJoin(items, ':');
  }

  // ----- The round trip -----

  lemma LeftParsed(src: seq<Octet>, r: Run)
    requires |src| == 16 && 0 <= r.base <= 8
    ensures SingleColons(LeftPart(src, r)) && ParsePart(LeftPart(src, r), false) == Some(src[..2 * r.base])
  {
    hide Words, Join, Split, ParseItems, HexWords;
    if r.base > 0 {
      var items := HexWords(Words(src), 0, r.base);
      NoItems();
      HexWordsParsed(src, 0, r.base, [], false);
      assert items + [] == items && src[2 * 0..2 * r.base] + [] == src[..2 * r.base];
      JoinSingleColons(items);
      PartParsed(items, false);
    }
  }

  lemma NoItems()
    ensures ParseItems([], false) == Some([])
  {
  }

  lemma RightParsed(src: seq<Octet>, r: Run)
    requires |src| == 16 && 0 <= r.base && r.base + r.len <= 8
    ensures ParsePart(RightPart(src, r), true) == Some(src[2 * (r.base + r.len)..])
  {
    hide Words, Join, Split, ParseItems, RightItems;
    var i := r.base + r.len;
    if i < 8 {
      RightItemsParsed(src, r, i);
      RightItemsSome(src, r, i);
      PartParsed(RightItems(src, r, i), true);
    } else {
      assert src[2 * i..] == [];
    }
  }

  lemma RightItemsSome(src: seq<Octet>, r: Run, i: nat)
    requires |src| == 16 && i < 8
    ensures RightItems(src, r, i) != []
  {
    hide Words, Dotted, Hex;
  }

  lemma ZeroWord(src: seq<Octet>, i: nat)
    requires |src| == 16 && i < 8 && Words(src)[i] == 0
    ensures src[2 * i] == 0 && src[2 * i + 1] == 0
  {
  }

  lemma Refilled(src: seq<Octet>, a: nat, n: nat)
    requires a + n <= |src| && forall k :: a <= k < a + n ==> src[k] == 0
    ensures src == src[..a] + Zeros(n) + src[a + n..]
  {
  }

  lemma ZerosInRun(src: seq<Octet>, b: nat, l: nat)
    requires |src| == 16 && b + l <= 8 && ZeroRun(Words(src), b, l)
    ensures src == src[..2 * b] + Zeros(2 * l) + src[2 * (b + l)..]
  {
    hide Words, Zeros;
    forall k | 2 * b <= k < 2 * b + 2 * l
      ensures src[k] == 0
    {
      var i := k / 2;
      ZeroWord(src, i);
      assert k == 2 * i || k == 2 * i + 1;
    }
    Refilled(src, 2 * b, 2 * l);
  }

  /** Reading the text of an address gives the address back. */
  lemma RoundTrip6(src: seq<Octet>)
    requires |src| == 16
    ensures Parse6(Text6(src)) == Some(src)
  {
    hide Words, Join, TextFrom, BestRun, ParsePart, LeftPart, RightPart, RightItems, SingleColons, FindDouble, Zeros;
    var w := Words(src);
    var r := BestRun(w);
    BestRunFacts(w);
    if r.base == -1 {
      RightText(src, r, 0);
      RightItemsParsed(src, r, 0);
      RightItemsSome(src, r, 0);
      JoinSingleColons(RightItems(src, r, 0));
      PartParsed(RightItems(src, r, 0), true);
      ColonOne(0);
      var joined := Join(RightItems(src, r, 0), ':');
      assert "" + joined == joined;
      assert src[2 * 0..] == src;
      NoDouble(Text6(src));
    } else {
      var a, b := LeftPart(src, r), RightPart(src, r);
      TwoParts(src, r);
      LeftParsed(src, r);
      RightParsed(src, r);
      DoubleFound(a, b);
      assert Text6(src)[..|a|] == a && Text6(src)[|a| + 2..] == b;
      ZerosInRun(src, r.base, r.len);
    }
  }

  /** So different addresses have different texts. */
  lemma Text6Injective(src: seq<Octet>, other: seq<Octet>)
    requires |src| == |other| == 16 && Text6(src) == Text6(other)
    ensures src == other
  {
    hide Text6, Parse6;
    RoundTrip6(src);
    RoundTrip6(other);
  }
}
