/** The form of a directive and the types of arguments, said without the parser. */
module PrintfGrammar {
  import opened MachineInts
  import opened Numerals
  import opened PrintfSpec

  // ----- Types -----

  /** How many characters of the text are among these. */
  function CountOf(t: string, cs: string): nat {
    if t == "" then 0 else CountOf(t[..|t| - 1], cs) + if t[|t| - 1] in cs then 1 else 0
  }

  /** Integers by their width: char, short, int, long, long long. */
  const SIGNED: seq<ArgType> := [TypeSchar, TypeShort, TypeInt, TypeLongint, TypeLonglongint]
  const UNSIGNED: seq<ArgType> := [TypeUchar, TypeUshort, TypeUint, TypeUlongint, TypeUlonglongint]
  const COUNTS: seq<ArgType> :=
    [TypeCountScharPointer, TypeCountShortPointer, TypeCountIntPointer, TypeCountLongintPointer,
     TypeCountLonglongintPointer]

  /** Which of these widths the size characters ask for: intmax_t, size_t and ptrdiff_t are as wide as long. */
  function Width(sizes: string): (w: nat)
    ensures w < 5
  {
    var longs, shorts := CountOf(sizes, "ljzZt"), CountOf(sizes, "h");
    if longs >= 2 || CountOf(sizes, "L") >= 1 then 4
    else if longs == 1 then 3
    else if shorts >= 2 then 0
    else if shorts == 1 then 1
    else 2
  }

  /** What a conversion with these sizes means: the type of its argument, and the character recorded for it. */
  predicate Means(sizes: string, c: char, t: ArgType, conversion: char) {
    if c == 'C' then t == TypeWideChar && conversion == 'c'
    else if c == 'S' then t == TypeWideString && conversion == 's'
    else conversion == c && TypeMeant(CountOf(sizes, "ljzZt") >= 1, Width(sizes), c, t)
  }

  predicate TypeMeant(wide: bool, width: nat, c: char, t: ArgType)
    requires width < 5
  {
    || ((c == 'd' || c == 'i') && t == SIGNED[width])
    || ((c == 'o' || c == 'u' || c == 'x' || c == 'X') && t == UNSIGNED[width])
    || ((c == 'f' || c == 'F' || c == 'e' || c == 'E' || c == 'g' || c == 'G' || c == 'a' || c == 'A')
        && t == if width == 4 then TypeLongdouble else TypeDouble)
    || (c == 'c' && t == if wide then TypeWideChar else TypeChar)
    || (c == 's' && t == if wide then TypeWideString else TypeString)
    || (c == 'p' && t == TypePointer)
    || (c == 'n' && t == COUNTS[width])
    || (c == '%' && t == TypeNone)
  }

  predicate AllSizes(t: string) {
    forall i :: 0 <= i < |t| ==> IsSize(t[i])
  }

  /** The flags of the code are made of three counts. */
  function FlagsOf(longs: nat, large: nat, shorts: nat): nat {
    8 * longs + (if large >= 1 then 4 else 0) + (if shorts >= 2 then 3 else shorts)
  }

  lemma FlagsBits(longs: nat, large: nat, shorts: nat)
    ensures var f := FlagsOf(longs, large, shorts);
            && (Bit(f, 1) <==> shorts >= 1) && (Bit(f, 2) <==> shorts >= 2) && (Bit(f, 4) <==> large >= 1)
            && (f >= 16 <==> longs >= 2) && (f >= 8 <==> longs >= 1)
  {
    var f := FlagsOf(longs, large, shorts);
    var l, h := if large >= 1 then 1 else 0, if shorts >= 2 then 3 else shorts;
    DivUnique(f, 2, 4 * longs + 2 * l + h / 2, h % 2);
    DivUnique(4 * longs + 2 * l + h / 2, 2, 2 * longs + l, h / 2);
    DivUnique(f, 4, 2 * longs + l, h);
    DivUnique(2 * longs + l, 2, longs, l);
  }

  lemma FlagsStep(longs: nat, large: nat, shorts: nat, c: char)
    requires IsSize(c)
    ensures WithSize(FlagsOf(longs, large, shorts), c)
         == if c == 'h' then FlagsOf(longs, large, shorts + 1)
            else if c == 'L' then FlagsOf(longs, large + 1, shorts) else FlagsOf(longs + 1, large, shorts)
  {
    FlagsBits(longs, large, shorts);
    hide Bit;
  }

  lemma {:induction false} SizeFlagsCounted(t: string)
    requires AllSizes(t)
    ensures SizeFlags(t) == FlagsOf(CountOf(t, "ljzZt"), CountOf(t, "L"), CountOf(t, "h"))
    decreases |t|
  {
    hide WithSize, FlagsOf;
    if t == "" {
      assert FlagsOf(0, 0, 0) == 0 by { NoSizes(); }
    } else {
      var n := |t| - 1;
      SizeFlagsCounted(t[..n]);
      FlagsStep(CountOf(t[..n], "ljzZt"), CountOf(t[..n], "L"), CountOf(t[..n], "h"), t[n]);
    }
  }

  lemma NoSizes()
    ensures FlagsOf(0, 0, 0) == 0
  {
  }

  /** The same tests on flags and on the width that they stand for. */
  lemma TypeFromFlags(flags: nat, width: nat, wide: bool, c: char)
    requires width < 5 && c != 'C' && c != 'S' && (wide <==> flags >= 8)
    requires width == if flags >= 16 || Bit(flags, 4) then 4 else if flags >= 8 then 3 else if Bit(flags, 2) then 0
                      else if Bit(flags, 1) then 1 else 2
    ensures Conversion(c, flags).Some? ==> Conversion(c, flags).value.1 == c
    ensures forall t: ArgType :: Conversion(c, flags) == Some((t, c)) <==> TypeMeant(wide, width, c, t)
  {
    hide Bit;
  }

  /** The type that the code finds from its flags is the one that is meant, and it rejects what means nothing. */
  lemma ConversionMeaning(sizes: string, c: char, t: ArgType, conversion: char)
    requires AllSizes(sizes)
    ensures Conversion(c, SizeFlags(sizes)) == Some((t, conversion)) <==> Means(sizes, c, t, conversion)
  {
    hide SizeFlags, CountOf, Bit, FlagsOf, TypeMeant;
    SizeFlagsCounted(sizes);
    FlagsBits(CountOf(sizes, "ljzZt"), CountOf(sizes, "L"), CountOf(sizes, "h"));
    if c != 'C' && c != 'S' {
      hide Conversion;
      TypeFromFlags(SizeFlags(sizes), Width(sizes), CountOf(sizes, "ljzZt") >= 1, c);
    }
  }

  // ----- Every parse: the text of a directive -----

  predicate AllDecimal(s: string, i: nat, j: nat)
    requires i <= j <= |s|
  {
    forall k :: i <= k < j ==> IsDecimal(s[k])
  }

  /** The text from i to j is digits and a dollar sign. */
  predicate DigitsDollar(s: string, i: nat, j: nat) {
    i + 1 < j <= |s| && s[j - 1] == '$' && AllDecimal(s, i, j - 1)
  }

  /** The number is not zero. */
  predicate IsNumbered(s: string, i: nat, j: nat, index: nat) {
    DigitsDollar(s, i, j) && Number(s[i..j - 1]) == index + 1
  }

  /** The argument that the text from i to j names; if there is no text, it is the next one in order. */
  predicate Names(s: string, i: nat, j: nat, posn: nat, index: Option<nat>, posn': nat) {
    && index.Some?
    && if i == j then index.value == posn && posn' == posn + 1 else IsNumbered(s, i, j, index.value) && posn' == posn
  }

  /** An asterisk and the number of its argument, or digits, or nothing. */
  predicate IsWidth(s: string, i: nat, j: nat, posn: nat, span: Option<Span>, index: Option<nat>, posn': nat)
    requires i <= j < |s|
  {
    if s[i] == '*' then i < j && span == Some(Span(i, i + 1)) && Names(s, i + 1, j, posn, index, posn')
    else AllDecimal(s, i, j) && span == (if i < j then Some(Span(i, j)) else None) && index == None && posn' == posn
  }

  /** A dot and then the same, or nothing. */
  predicate IsPrecision(s: string, i: nat, j: nat, posn: nat, span: Option<Span>, index: Option<nat>, posn': nat)
    requires i <= j < |s|
  {
    if s[i] != '.' then j == i && span == None && index == None && posn' == posn
    else if ".*" <= s[i..] then i + 1 < j && span == Some(Span(i, i + 2)) && Names(s, i + 2, j, posn, index, posn')
    else i < j && AllDecimal(s, i + 1, j) && span == Some(Span(i, j)) && index == None && posn' == posn
  }

  /** What may stand before the flags names the value, if there is one. */
  ghost predicate IsValue(s: string, i: nat, j: nat, posn: nat, t: ArgType, index: Option<nat>, posn': nat) {
    if t != TypeNone then Names(s, i, j, posn, index, posn')
    else (i == j || exists n: nat :: IsNumbered(s, i, j, n)) && index == None && posn' == posn
  }

  predicate AreFlags(s: string, i: nat, j: nat, flags: set<char>)
    requires i <= j < |s|
  {
    (forall k :: i <= k < j ==> IsFlag(s[k])) && !IsFlag(s[j]) && flags == Chars(s, i, j)
  }

  predicate IsConversion(s: string, i: nat, j: nat, t: ArgType, c: char)
    requires i < j <= |s|
  {
    AllSizes(s[i..j - 1]) && Means(s[i..j - 1], s[j - 1], t, c)
  }

  predicate PartsInOrder(s: string, start: nat, p: Parts, end: nat) {
    start < p.flags <= p.width <= p.precision <= p.sizes < end < |s|
  }

  /** The parts make up the whole directive; `posn` arguments have been taken in order before it. */
  ghost predicate Shaped(s: string, posn: nat, item: Item) {
    var d, p := item.d, item.parts;
    && PartsInOrder(s, d.start, p, d.end)
    && s[d.start] == '%'
    && IsValue(s, d.start + 1, p.flags, p.valuePosn, item.typ, d.index, item.posn)
    && AreFlags(s, p.flags, p.width, d.flags)
    && IsWidth(s, p.width, p.precision, posn, d.width, d.widthIndex, p.precisionPosn)
    && IsPrecision(s, p.precision, p.sizes, p.precisionPosn, d.precision, d.precisionIndex, p.valuePosn)
    && IsConversion(s, p.sizes, d.end, item.typ, d.conversion)
  }

  lemma PositionNumbered(s: string, i: nat)
    requires Terminated(s) && i < |s| && PositionAt(s, i).Given?
    ensures var p := PositionAt(s, i); IsNumbered(s, i, p.next, p.index)
  {
    hide Number;
  }

  lemma IndexNames(s: string, i: nat, posn: nat)
    requires Terminated(s) && i < |s| && IndexAt(s, i, posn).Some?
    ensures var (n, next, posn') := IndexAt(s, i, posn).value; Names(s, i, next, posn, Some(n), posn')
  {
    hide PositionAt, IsNumbered;
    if PositionAt(s, i).Given? {
      PositionNumbered(s, i);
    }
  }

  lemma StarShape(s: string, start: nat, i: nat, posn: nat, args: seq<ArgType>)
    requires Terminated(s) && start <= i < |s| - 1 && StarAt(s, start, i, posn, args).Some?
    ensures var f := StarAt(s, start, i, posn, args).value;
            f.span == Some(Span(start, i + 1)) && Names(s, i + 1, f.next, posn, f.index, f.posn)
  {
    hide IndexAt, Register, Names;
    IndexNames(s, i + 1, posn);
  }

  lemma WidthShape(s: string, i: nat, posn: nat, args: seq<ArgType>)
    requires Terminated(s) && i < |s| && WidthAt(s, i, posn, args).Some?
    ensures var f := WidthAt(s, i, posn, args).value; IsWidth(s, i, f.next, posn, f.span, f.index, f.posn)
  {
    hide StarAt, Names;
    if s[i] == '*' {
      StarShape(s, i, i, posn, args);
    }
  }

  lemma PrecisionShape(s: string, i: nat, posn: nat, args: seq<ArgType>)
    requires Terminated(s) && i < |s| && PrecisionAt(s, i, posn, args).Some?
    ensures var f := PrecisionAt(s, i, posn, args).value; IsPrecision(s, i, f.next, posn, f.span, f.index, f.posn)
  {
    hide StarAt, Names;
    if s[i] == '.' && s[i + 1] == '*' {
      StarShape(s, i, i + 1, posn, args);
    }
  }

  lemma ValueShape(s: string, i: nat, t: ArgType, posn: nat, args: seq<ArgType>)
    requires Terminated(s) && i + 1 < |s| && !PositionAt(s, i + 1).Invalid?
    requires ValueOf(PositionAt(s, i + 1), t, posn, args).Some?
    ensures var position := PositionAt(s, i + 1);
            var (index, posn', _) := ValueOf(position, t, posn, args).value;
            IsValue(s, i + 1, AfterPosition(i, position), posn, t, index, posn')
  {
    hide PositionAt, Register, IsNumbered;
    if PositionAt(s, i + 1).Given? {
      PositionNumbered(s, i + 1);
    }
  }

  lemma FlagsShape(s: string, i: nat)
    requires Terminated(s) && i < |s|
    ensures AreFlags(s, i, FlagsEnd(s, i), Chars(s, i, FlagsEnd(s, i)))
  {
    hide IsFlag;
  }

  lemma ConversionShape(s: string, i: nat)
    requires Terminated(s) && i < |s| && ConversionAt(s, i).Some?
    ensures var (e, t, c) := ConversionAt(s, i).value; IsConversion(s, i, e + 1, t, c)
  {
    hide SizeFlags, Conversion, IsSize, Means;
    var (e, t, c) := ConversionAt(s, i).value;
    ConversionMeaning(s[i..e], s[e], t, c);
  }

  lemma ItemShaped(s: string, i: nat, posn: nat, args: seq<ArgType>)
    requires Terminated(s) && i < |s| && s[i] == '%' && ItemAt(s, i, posn, args).Some?
    ensures Shaped(s, posn, ItemAt(s, i, posn, args).value)
  {
    hide PositionAt, FlagsEnd, WidthAt, PrecisionAt, ConversionAt, ValueOf, Chars;
    hide IsValue, AreFlags, IsWidth, IsPrecision, IsConversion;
    var position := PositionAt(s, i + 1);
    var f := AfterPosition(i, position);
    var g := FlagsEnd(s, f);
    var (width, precision) := FieldsAt(s, g, posn, args).value;
    FlagsShape(s, f);
    WidthShape(s, g, posn, args);
    PrecisionShape(s, width.next, width.posn, width.args);
    ConversionShape(s, precision.next);
    ValueShape(s, i, ConversionAt(s, precision.next).value.1, precision.posn, precision.args);
  }

  /** How many arguments have been taken in order before an item. */
  function PosnBefore(posn: nat, items: seq<Item>, k: nat): nat
    requires k <= |items|
  {
    if k == 0 then posn else items[k - 1].posn
  }

  ghost predicate AllShaped(s: string, posn: nat, items: seq<Item>) {
    forall k :: 0 <= k < |items| ==> Shaped(s, PosnBefore(posn, items, k), items[k])
  }

  lemma ShapedOneMore(s: string, posn: nat, item: Item, rest: seq<Item>)
    requires Shaped(s, posn, item) && AllShaped(s, item.posn, rest)
    ensures AllShaped(s, posn, [item] + rest)
  {
    hide Shaped;
    var items := [item] + rest;
    forall k | 0 <= k < |items|
      ensures Shaped(s, PosnBefore(posn, items, k), items[k])
    {
      if k > 0 {
        assert PosnBefore(posn, items, k) == PosnBefore(item.posn, rest, k - 1) && items[k] == rest[k - 1];
      }
    }
  }

  lemma {:induction false} ParsedShaped(s: string, i: nat, posn: nat, args: seq<ArgType>)
    requires Terminated(s) && i < |s| && ItemsFrom(s, i, posn, args).Some?
    ensures AllShaped(s, posn, ItemsFrom(s, i, posn, args).value)
    decreases |s| - i
  {
    hide ItemAt, Shaped;
    if s[i] == '%' {
      var item := ItemAt(s, i, posn, args).value;
      ItemShaped(s, i, posn, args);
      ParsedShaped(s, item.d.end, item.posn, item.args);
      ShapedOneMore(s, posn, item, ItemsFrom(s, item.d.end, item.posn, item.args).value);
    } else if s[i] != NUL {
      ParsedShaped(s, i + 1, posn, args);
    }
  }

  // ----- Only one reading -----

  /** A digit or a dollar sign. */
  predicate OfNumber(c: char) {
    IsDecimal(c) || c == '$'
  }

  /** Sizes and conversion cannot begin with one; nor can they be read in two ways. */
  lemma ConversionStarts(s: string, i: nat, j: nat, t: ArgType, c: char)
    requires i < j < |s| && IsConversion(s, i, j, t, c)
    ensures !OfNumber(s[i])
  {
    hide Width, CountOf;
    assert i < j - 1 ==> s[i..j - 1][0] == s[i];
  }

  lemma ConversionEnds(s: string, i: nat, j: nat, t: ArgType, c: char)
    requires i < j < |s| && IsConversion(s, i, j, t, c)
    ensures !IsSize(s[j - 1]) && forall k :: i <= k < j - 1 ==> IsSize(s[k])
  {
    hide Width, CountOf;
    forall k | i <= k < j - 1
      ensures IsSize(s[k])
    {
      assert s[i..j - 1][k - i] == s[k];
    }
  }

  lemma ConversionUnique(s: string, i: nat, j: nat, t: ArgType, c: char, j': nat, t': ArgType, c': char)
    requires i < j < |s| && i < j' < |s| && IsConversion(s, i, j, t, c) && IsConversion(s, i, j', t', c')
    ensures j == j' && t == t' && c == c'
  {
    hide IsSize, Means;
    ConversionEnds(s, i, j, t, c);
    ConversionEnds(s, i, j', t', c');
    MeaningUnique(s[i..j - 1], s[j - 1], t, c, t', c');
  }

  lemma MeaningUnique(sizes: string, c: char, t: ArgType, conversion: char, t': ArgType, conversion': char)
    requires AllSizes(sizes) && Means(sizes, c, t, conversion) && Means(sizes, c, t', conversion')
    ensures t == t' && conversion == conversion'
  {
    hide Means, Conversion, SizeFlags;
    ConversionMeaning(sizes, c, t, conversion);
    ConversionMeaning(sizes, c, t', conversion');
  }

  lemma NumberedCharacters(s: string, i: nat, j: nat)
    requires DigitsDollar(s, i, j)
    ensures !IsDecimal(s[j - 1]) && forall k :: i <= k < j - 1 ==> IsDecimal(s[k])
    ensures forall k :: i <= k < j ==> OfNumber(s[k])
  {
    hide Number;
  }

  lemma NumberedUnique(s: string, i: nat, j: nat, n: nat, j': nat, n': nat)
    requires IsNumbered(s, i, j, n) && IsNumbered(s, i, j', n')
    ensures j == j' && n == n'
  {
    hide Number, IsDecimal;
    NumberedCharacters(s, i, j);
    NumberedCharacters(s, i, j');
  }

  lemma NumberedStarts(s: string, i: nat, j: nat, n: nat)
    requires IsNumbered(s, i, j, n)
    ensures IsDecimal(s[i])
  {
    hide Number;
  }

  lemma NamesUnique(s: string, i: nat, posn: nat, j: nat, n: Option<nat>, k: nat, j': nat, n': Option<nat>, k': nat)
    requires i <= j < |s| && i <= j' < |s| && !OfNumber(s[j]) && !OfNumber(s[j'])
    requires Names(s, i, j, posn, n, k) && Names(s, i, j', posn, n', k')
    ensures j == j' && n == n' && k == k'
  {
    hide IsNumbered;
    if i < j {
      NumberedStarts(s, i, j, n.value);
    }
    if i < j' {
      NumberedStarts(s, i, j', n'.value);
    }
    if i < j && i < j' {
      NumberedUnique(s, i, j, n.value, j', n'.value);
    }
  }

  lemma WidthUnique(s: string, i: nat, posn: nat, j: nat, span: Option<Span>, n: Option<nat>, k: nat,
                    j': nat, span': Option<Span>, n': Option<nat>, k': nat)
    requires i <= j < |s| && i <= j' < |s| && !OfNumber(s[j]) && !OfNumber(s[j'])
    requires IsWidth(s, i, j, posn, span, n, k) && IsWidth(s, i, j', posn, span', n', k')
    ensures j == j' && span == span' && n == n' && k == k'
  {
    hide Names;
    if s[i] == '*' {
      NamesUnique(s, i + 1, posn, j, n, k, j', n', k');
    }
  }

  lemma PrecisionUnique(s: string, i: nat, posn: nat, j: nat, span: Option<Span>, n: Option<nat>, k: nat,
                        j': nat, span': Option<Span>, n': Option<nat>, k': nat)
    requires i <= j < |s| && i <= j' < |s| && !OfNumber(s[j]) && !OfNumber(s[j'])
    requires IsPrecision(s, i, j, posn, span, n, k) && IsPrecision(s, i, j', posn, span', n', k')
    ensures j == j' && span == span' && n == n' && k == k'
  {
    hide Names;
    if ".*" <= s[i..] {
      NamesUnique(s, i + 2, posn, j, n, k, j', n', k');
    }
  }

  lemma PrecisionStarts(s: string, i: nat, j: nat, posn: nat, span: Option<Span>, n: Option<nat>, k: nat)
    requires i <= j < |s| && IsPrecision(s, i, j, posn, span, n, k) && !OfNumber(s[j])
    ensures !OfNumber(s[i])
  {
    hide Names;
  }

  lemma FlagsUnique(s: string, i: nat, j: nat, flags: set<char>, j': nat, flags': set<char>)
    requires i <= j < |s| && i <= j' < |s| && AreFlags(s, i, j, flags) && AreFlags(s, i, j', flags')
    ensures j == j' && flags == flags'
  {
    hide IsFlag;
  }

  /** Without a number and a dollar sign in front, no flags and width can begin like that. */
  lemma FlagsNotNumbered(s: string, i: nat, j: nat, g: nat, flags: set<char>, w: nat, posn: nat,
                         span: Option<Span>, n: Option<nat>, k: nat)
    requires i <= g <= w < |s| && !OfNumber(s[w])
    requires AreFlags(s, i, g, flags) && IsWidth(s, g, w, posn, span, n, k)
    ensures !DigitsDollar(s, i, j)
  {
    hide Number, Names, Chars;
    assert i < j <= g ==> IsFlag(s[j - 1]);
    assert g < j <= w && s[g] != '*' ==> IsDecimal(s[j - 1]);
    if DigitsDollar(s, i, j) {
      NumberedCharacters(s, i, j);
    }
  }

  /** Behind its width, and behind its precision, a directive does not go on like a number. */
  lemma ShapedStops(s: string, posn: nat, item: Item)
    requires Shaped(s, posn, item)
    ensures !OfNumber(s[item.parts.sizes]) && !OfNumber(s[item.parts.precision])
  {
    hide OfNumber, IsValue, AreFlags, IsWidth, IsPrecision, IsConversion;
    var d, p := item.d, item.parts;
    ConversionStarts(s, p.sizes, d.end, item.typ, d.conversion);
    PrecisionStarts(s, p.precision, p.sizes, p.precisionPosn, d.precision, d.precisionIndex, p.valuePosn);
  }

  lemma NumberedFlags(s: string, posn: nat, posn': nat, a: Item, b: Item)
    requires Shaped(s, posn, a) && Shaped(s, posn', b) && a.d.start == b.d.start
    ensures a.parts.flags == b.parts.flags || b.parts.flags != b.d.start + 1
  {
    hide OfNumber, AreFlags, IsWidth, IsPrecision, IsConversion, DigitsDollar, Number;
    var d, p, i := b.d, b.parts, b.d.start + 1;
    if p.flags == i {
      ShapedStops(s, posn', b);
      forall n: nat
        ensures !IsNumbered(s, i, a.parts.flags, n)
      {
        FlagsNotNumbered(s, i, a.parts.flags, p.width, d.flags, p.precision, posn',
                         d.width, d.widthIndex, p.precisionPosn);
      }
    }
  }

  lemma FlagsBeginAlike(s: string, posn: nat, posn': nat, a: Item, b: Item)
    requires Shaped(s, posn, a) && Shaped(s, posn', b) && a.d.start == b.d.start
    ensures a.parts.flags == b.parts.flags
  {
    hide OfNumber, AreFlags, IsWidth, IsPrecision, IsConversion, IsNumbered;
    NumberedFlags(s, posn, posn', a, b);
    NumberedFlags(s, posn', posn, b, a);
    var i := a.d.start + 1;
    if a.parts.flags != i && b.parts.flags != i {
      var n: nat :| IsNumbered(s, i, a.parts.flags, n);
      var n': nat :| IsNumbered(s, i, b.parts.flags, n');
      NumberedUnique(s, i, a.parts.flags, n, b.parts.flags, n');
    }
  }

  lemma ValueUnique(s: string, i: nat, j: nat, posn: nat, t: ArgType, n: Option<nat>, k: nat, n': Option<nat>, k': nat)
    requires IsValue(s, i, j, posn, t, n, k) && IsValue(s, i, j, posn, t, n', k')
    ensures n == n' && k == k'
  {
    hide Number;
  }

  /** A directive can be read in only one way: its text has only these parts, and they mean only these arguments. */
  lemma ReadingUnique(s: string, posn: nat, a: Item, b: Item)
    requires Shaped(s, posn, a) && Shaped(s, posn, b) && a.d.start == b.d.start
    ensures a.d == b.d && a.parts == b.parts && a.typ == b.typ && a.posn == b.posn
  {
    hide OfNumber, IsValue, AreFlags, IsWidth, IsPrecision, IsConversion;
    FlagsBeginAlike(s, posn, posn, a, b);
    ShapedStops(s, posn, a);
    ShapedStops(s, posn, b);
    var p, q := a.parts, b.parts;
    FlagsUnique(s, p.flags, p.width, a.d.flags, q.width, b.d.flags);
    WidthUnique(s, p.width, posn, p.precision, a.d.width, a.d.widthIndex, p.precisionPosn,
                q.precision, b.d.width, b.d.widthIndex, q.precisionPosn);
    PrecisionUnique(s, p.precision, p.precisionPosn, p.sizes, a.d.precision, a.d.precisionIndex, p.valuePosn,
                    q.sizes, b.d.precision, b.d.precisionIndex, q.valuePosn);
    ConversionUnique(s, p.sizes, a.d.end, a.typ, a.d.conversion, b.d.end, b.typ, b.d.conversion);
    ValueUnique(s, a.d.start + 1, p.flags, p.valuePosn, a.typ, a.d.index, a.posn, b.d.index, b.posn);
  }

  /** So whatever has the form of a directive, the parser reads it like that. */
  lemma ReadingFound(s: string, i: nat, posn: nat, args: seq<ArgType>, item: Item)
    requires Terminated(s) && i < |s| && Shaped(s, posn, item) && item.d.start == i
    requires s[i] == '%' && ItemAt(s, i, posn, args).Some?
    ensures ItemAt(s, i, posn, args).value.d == item.d && ItemAt(s, i, posn, args).value.typ == item.typ
  {
    hide ItemAt, Shaped;
    ItemShaped(s, i, posn, args);
    ItemStarts(s, i, posn, args);
    ReadingUnique(s, posn, ItemAt(s, i, posn, args).value, item);
  }

  lemma ItemStarts(s: string, i: nat, posn: nat, args: seq<ArgType>)
    requires Terminated(s) && i < |s| && s[i] == '%' && ItemAt(s, i, posn, args).Some?
    ensures ItemAt(s, i, posn, args).value.d.start == i
  {
  }

  // ----- What is accepted -----

  /** As far as the arguments are known, this one can have this type. */
  predicate CanHave(args: seq<ArgType>, n: nat, t: ArgType) {
    n < |args| ==> args[n] == TypeNone || args[n] == t
  }

  /** A registration is refused exactly for an argument of another type; it changes no other one. */
  lemma RegisterExactly(args: seq<ArgType>, n: nat, t: ArgType)
    ensures Register(args, n, t).Some? <==> CanHave(args, n, t)
    ensures Register(args, n, t).Some? ==>
              var more := Register(args, n, t).value;
              && |more| == (if n < |args| then |args| else n + 1)
              && forall k :: 0 <= k < |more| ==>
                   more[k] == if k == n then t else if k < |args| then args[k] else TypeNone
  {
  }

  predicate FitNumber(s: string, i: nat, j: nat, n: nat) {
    n < SIZE_MAX - 1 && IsNumbered(s, i, j, n)
  }

  ghost predicate SomeFitNumber(s: string, i: nat, j: nat) {
    exists n: nat :: FitNumber(s, i, j, n)
  }

  /** No number is too large for a size, and no counted argument. */
  ghost predicate NumbersFit(s: string, item: Item) {
    var d, p := item.d, item.parts;
    && (d.start + 1 < p.flags ==> SomeFitNumber(s, d.start + 1, p.flags))
    && (d.widthIndex.Some? ==> d.widthIndex.value < if p.width + 1 < p.precision then SIZE_MAX - 1 else SIZE_MAX)
    && (d.precisionIndex.Some? ==>
          d.precisionIndex.value < if p.precision + 2 < p.sizes then SIZE_MAX - 1 else SIZE_MAX)
    && (d.index.Some? && d.start + 1 == p.flags ==> d.index.value < SIZE_MAX)
  }

  /** Its arguments contradict neither those known before nor each other. */
  predicate ArgumentsFit(item: Item, args: seq<ArgType>) {
    var d := item.d;
    && (d.widthIndex.Some? ==> CanHave(args, d.widthIndex.value, TypeInt))
    && (d.precisionIndex.Some? ==> CanHave(args, d.precisionIndex.value, TypeInt))
    && (d.index.Some? ==>
          && CanHave(args, d.index.value, item.typ)
          && (d.index == d.widthIndex || d.index == d.precisionIndex ==> item.typ == TypeInt))
  }

  lemma DigitsEndIs(s: string, i: nat, j: nat)
    requires Terminated(s) && i <= j < |s| && AllDecimal(s, i, j) && !IsDecimal(s[j])
    ensures DigitsEnd(s, i) == j
  {
    hide IsDecimal;
  }

  lemma PositionGiven(s: string, i: nat, j: nat, n: nat)
    requires Terminated(s) && j < |s| && IsNumbered(s, i, j, n) && n + 1 < SIZE_MAX
    ensures i < |s| && PositionAt(s, i) == Given(n, j)
  {
    hide Number, DigitsEnd;
    DigitsEndIs(s, i, j - 1);
  }

  lemma PositionAbsent(s: string, i: nat)
    requires Terminated(s) && i < |s| && forall j: nat :: !DigitsDollar(s, i, j)
    ensures PositionAt(s, i) == Absent
  {
    hide Number, IsDecimal;
    var j := DigitsEnd(s, i);
    assert j > i && s[j] == '$' ==> DigitsDollar(s, i, j + 1);
  }

  lemma NotNumbered(s: string, i: nat)
    requires i < |s| && !IsDecimal(s[i])
    ensures forall j: nat :: !DigitsDollar(s, i, j)
  {
  }

  lemma IndexFound(s: string, i: nat, j: nat, posn: nat, n: Option<nat>, posn': nat)
    requires Terminated(s) && i <= j < |s| && Names(s, i, j, posn, n, posn') && !OfNumber(s[j])
    requires n.Some? && n.value < if i < j then SIZE_MAX - 1 else SIZE_MAX
    ensures IndexAt(s, i, posn) == Some((n.value, j, posn'))
  {
    hide IsNumbered, PositionAt, IsDecimal;
    if i < j {
      PositionGiven(s, i, j, n.value);
    } else {
      NotNumbered(s, i);
      PositionAbsent(s, i);
    }
  }

  lemma StarFound(s: string, start: nat, i: nat, j: nat, posn: nat, args: seq<ArgType>, n: Option<nat>, posn': nat)
    requires Terminated(s) && start <= i < j < |s| && Names(s, i + 1, j, posn, n, posn') && !OfNumber(s[j])
    requires n.Some? && n.value < if i + 1 < j then SIZE_MAX - 1 else SIZE_MAX
    requires CanHave(args, n.value, TypeInt)
    ensures StarAt(s, start, i, posn, args)
         == Some(Field(Some(Span(start, i + 1)), n, j, posn', Register(args, n.value, TypeInt).value))
  {
    hide IndexAt, Register, Names, CanHave;
    RegisterExactly(args, n.value, TypeInt);
    IndexFound(s, i + 1, j, posn, n, posn');
  }

  /** The arguments after a width or precision with this index. */
  function Registered(args: seq<ArgType>, n: Option<nat>): seq<ArgType> {
    if n.Some? && Register(args, n.value, TypeInt).Some? then Register(args, n.value, TypeInt).value else args
  }

  lemma WidthFound(s: string, i: nat, j: nat, posn: nat, args: seq<ArgType>, span: Option<Span>, n: Option<nat>,
                   posn': nat)
    requires Terminated(s) && i <= j < |s| && IsWidth(s, i, j, posn, span, n, posn') && !OfNumber(s[j])
    requires n.Some? ==> n.value < if i + 1 < j then SIZE_MAX - 1 else SIZE_MAX
    requires n.Some? ==> CanHave(args, n.value, TypeInt)
    ensures WidthAt(s, i, posn, args) == Some(Field(span, n, j, posn', Registered(args, n)))
  {
    hide StarAt, Register, DigitsEnd, CanHave;
    if s[i] == '*' {
      StarFound(s, i, i, j, posn, args, n, posn');
      RegisterExactly(args, n.value, TypeInt);
    } else {
      DigitsEndIs(s, i, j);
    }
  }

  lemma PrecisionFound(s: string, i: nat, j: nat, posn: nat, args: seq<ArgType>,
                       span: Option<Span>, n: Option<nat>, posn': nat)
    requires Terminated(s) && i <= j < |s| && IsPrecision(s, i, j, posn, span, n, posn') && !OfNumber(s[j])
    requires n.Some? ==> n.value < if i + 2 < j then SIZE_MAX - 1 else SIZE_MAX
    requires n.Some? ==> CanHave(args, n.value, TypeInt)
    ensures PrecisionAt(s, i, posn, args) == Some(Field(span, n, j, posn', Registered(args, n)))
  {
    hide StarAt, Register, DigitsEnd, CanHave;
    if s[i] == '.' {
      assert ".*" <= s[i..] <==> s[i + 1] == '*' by {
        assert s[i..][0] == s[i] && s[i..][1] == s[i + 1];
      }
      if s[i + 1] == '*' {
        StarFound(s, i, i + 1, j, posn, args, n, posn');
        RegisterExactly(args, n.value, TypeInt);
      } else {
        DigitsEndIs(s, i + 1, j);
      }
    }
  }

  lemma FlagsFound(s: string, i: nat, j: nat, flags: set<char>)
    requires Terminated(s) && i <= j < |s| && AreFlags(s, i, j, flags)
    ensures FlagsEnd(s, i) == j && flags == Chars(s, i, j)
  {
    hide IsFlag, Chars;
  }

  lemma ConversionFound(s: string, i: nat, j: nat, t: ArgType, c: char)
    requires Terminated(s) && i < j < |s| && IsConversion(s, i, j, t, c)
    ensures ConversionAt(s, i) == Some((j - 1, t, c))
  {
    hide IsSize, Means, Conversion, SizeFlags;
    ConversionEnds(s, i, j, t, c);
    assert SizesEnd(s, i) == j - 1;
    ConversionMeaning(s[i..j - 1], s[j - 1], t, c);
  }

  /** What stands before the flags is found: a number with a dollar sign, or nothing. */
  lemma PositionFound(s: string, posn: nat, item: Item)
    requires Terminated(s) && Shaped(s, posn, item) && NumbersFit(s, item)
    ensures var i := item.d.start; var position := PositionAt(s, i + 1);
            && !position.Invalid? && AfterPosition(i, position) == item.parts.flags
            && (item.typ != TypeNone ==> item.d.index.Some?)
            && (item.typ != TypeNone && position.Given? ==>
                  item.d.index == Some(position.index) && item.posn == item.parts.valuePosn)
            && (item.typ != TypeNone && position.Absent? ==>
                  item.d.index == Some(item.parts.valuePosn) && item.posn == item.parts.valuePosn + 1)
  {
    hide AreFlags, IsWidth, IsPrecision, IsConversion, IsNumbered, PositionAt, DigitsDollar;
    var d, p, i := item.d, item.parts, item.d.start + 1;
    if i < p.flags {
      var n: nat :| FitNumber(s, i, p.flags, n);
      PositionGiven(s, i, p.flags, n);
      if item.typ != TypeNone {
        NumberedUnique(s, i, p.flags, n, p.flags, d.index.value);
      }
    } else {
      ShapedStops(s, posn, item);
      forall j: nat
        ensures !DigitsDollar(s, i, j)
      {
        FlagsNotNumbered(s, i, j, p.width, d.flags, p.precision, posn, d.width, d.widthIndex, p.precisionPosn);
      }
      PositionAbsent(s, i);
    }
  }

  lemma StillFits(args: seq<ArgType>, n: nat, m: nat, t: ArgType)
    requires CanHave(args, n, TypeInt) && CanHave(args, m, t) && (m == n ==> t == TypeInt)
    ensures Register(args, n, TypeInt).Some? && CanHave(Register(args, n, TypeInt).value, m, t)
  {
  }

  /** A directive whose arguments and numbers fit is accepted. */
  lemma ItemFound(s: string, posn: nat, args: seq<ArgType>, item: Item)
    requires Terminated(s) && Shaped(s, posn, item) && NumbersFit(s, item) && ArgumentsFit(item, args)
    ensures ItemAt(s, item.d.start, posn, args).Some?
  {
    hide OfNumber, IsValue, AreFlags, IsWidth, IsPrecision, IsConversion, SomeFitNumber, CanHave, Register;
    hide PositionAt, WidthAt, PrecisionAt, ConversionAt, Registered;
    var d, p := item.d, item.parts;
    ShapedStops(s, posn, item);
    PositionFound(s, posn, item);
    FlagsFound(s, p.flags, p.width, d.flags);
    WidthFound(s, p.width, p.precision, posn, args, d.width, d.widthIndex, p.precisionPosn);
    var args1 := Registered(args, d.widthIndex);
    AfterWidth(item, args);
    PrecisionFound(s, p.precision, p.sizes, p.precisionPosn, args1, d.precision, d.precisionIndex, p.valuePosn);
    var args2 := Registered(args1, d.precisionIndex);
    AfterPrecision(item, args);
    ConversionFound(s, p.sizes, d.end, item.typ, d.conversion);
    if item.typ != TypeNone {
      RegisterExactly(args2, d.index.value, item.typ);
    }
    assert FieldsAt(s, p.width, posn, args) == Some((
             Field(d.width, d.widthIndex, p.precision, p.precisionPosn, args1),
             Field(d.precision, d.precisionIndex, p.sizes, p.valuePosn, args2)));
  }

  lemma AfterWidth(item: Item, args: seq<ArgType>)
    requires ArgumentsFit(item, args)
    ensures var d, args1 := item.d, Registered(args, item.d.widthIndex);
            && (d.precisionIndex.Some? ==> CanHave(args1, d.precisionIndex.value, TypeInt))
            && (d.index.Some? ==> CanHave(args1, d.index.value, item.typ))
  {
    hide Register, CanHave;
    var d := item.d;
    if d.widthIndex.Some? {
      var n := d.widthIndex.value;
      RegisterExactly(args, n, TypeInt);
      if d.precisionIndex.Some? {
        StillFits(args, n, d.precisionIndex.value, TypeInt);
      }
      if d.index.Some? {
        StillFits(args, n, d.index.value, item.typ);
      }
    }
  }

  lemma AfterPrecision(item: Item, args: seq<ArgType>)
    requires ArgumentsFit(item, args)
    ensures var d, args2 := item.d, Registered(Registered(args, item.d.widthIndex), item.d.precisionIndex);
            d.index.Some? ==> CanHave(args2, d.index.value, item.typ)
  {
    hide Register, CanHave;
    var d, args1 := item.d, Registered(args, item.d.widthIndex);
    AfterWidth(item, args);
    if d.precisionIndex.Some? && d.index.Some? {
      RegisterExactly(args1, d.precisionIndex.value, TypeInt);
      StillFits(args1, d.precisionIndex.value, d.index.value, item.typ);
    }
  }

  /** And one that is accepted has arguments and numbers that fit. */
  lemma ItemFits(s: string, i: nat, posn: nat, args: seq<ArgType>)
    requires Terminated(s) && i < |s| && s[i] == '%' && ItemAt(s, i, posn, args).Some?
    ensures NumbersFit(s, ItemAt(s, i, posn, args).value) && ArgumentsFit(ItemAt(s, i, posn, args).value, args)
  {
    hide Typed, Grows, NumbersFit, ArgumentsFit, ItemAt;
    var item := ItemAt(s, i, posn, args).value;
    ItemTyped(s, i, posn, args);
    TypedFits(item, args, item.args);
    ItemNumbersFit(s, i, posn, args);
  }

  lemma TypedFits(item: Item, args: seq<ArgType>, args': seq<ArgType>)
    requires Grows(args, args') && Typed(item, args')
    ensures ArgumentsFit(item, args)
  {
  }

  lemma ItemNumbersFit(s: string, i: nat, posn: nat, args: seq<ArgType>)
    requires Terminated(s) && i < |s| && s[i] == '%' && ItemAt(s, i, posn, args).Some?
    ensures NumbersFit(s, ItemAt(s, i, posn, args).value)
  {
    hide PositionAt, FlagsEnd, WidthAt, PrecisionAt, ConversionAt, Chars, Register, SomeFitNumber;
    var position := PositionAt(s, i + 1);
    var f := AfterPosition(i, position);
    var g := FlagsEnd(s, f);
    var (width, precision) := FieldsAt(s, g, posn, args).value;
    if position.Given? {
      PositionFits(s, i + 1);
    }
    WidthNumberFits(s, g, posn, args);
    PrecisionNumberFits(s, width.next, width.posn, width.args);
  }

  lemma PositionFits(s: string, i: nat)
    requires Terminated(s) && i < |s| && PositionAt(s, i).Given?
    ensures SomeFitNumber(s, i, PositionAt(s, i).next)
  {
    hide PositionAt, IsNumbered;
    PositionNumbered(s, i);
    assert FitNumber(s, i, PositionAt(s, i).next, PositionAt(s, i).index);
  }

  lemma IndexFits(s: string, i: nat, posn: nat)
    requires Terminated(s) && i < |s| && IndexAt(s, i, posn).Some?
    ensures var (n, next, _) := IndexAt(s, i, posn).value; n < if i < next then SIZE_MAX - 1 else SIZE_MAX
  {
    hide PositionAt;
  }

  lemma WidthNumberFits(s: string, i: nat, posn: nat, args: seq<ArgType>)
    requires Terminated(s) && i < |s| && WidthAt(s, i, posn, args).Some?
    ensures var w := WidthAt(s, i, posn, args).value;
            w.index.Some? ==> w.index.value < if i + 1 < w.next then SIZE_MAX - 1 else SIZE_MAX
  {
    hide IndexAt, Register;
    if s[i] == '*' {
      IndexFits(s, i + 1, posn);
    }
  }

  lemma PrecisionNumberFits(s: string, i: nat, posn: nat, args: seq<ArgType>)
    requires Terminated(s) && i < |s| && PrecisionAt(s, i, posn, args).Some?
    ensures var w := PrecisionAt(s, i, posn, args).value;
            w.index.Some? ==> w.index.value < if i + 2 < w.next then SIZE_MAX - 1 else SIZE_MAX
  {
    hide IndexAt, Register;
    if s[i] == '.' && s[i + 1] == '*' {
      IndexFits(s, i + 2, posn);
    }
  }

  /** There is a directive here that can be accepted. */
  ghost predicate Acceptable(s: string, i: nat, posn: nat, args: seq<ArgType>) {
    exists item: Item :: Shaped(s, posn, item) && item.d.start == i && NumbersFit(s, item) && ArgumentsFit(item, args)
  }

  /** Exactly those directives are accepted that have the right form and whose numbers and arguments fit. */
  lemma ItemAccepted(s: string, i: nat, posn: nat, args: seq<ArgType>)
    requires Terminated(s) && i < |s| && s[i] == '%'
    ensures ItemAt(s, i, posn, args).Some? <==> Acceptable(s, i, posn, args)
  {
    hide ItemAt, Shaped, NumbersFit, ArgumentsFit;
    if ItemAt(s, i, posn, args).Some? {
      ItemShaped(s, i, posn, args);
      ItemStarts(s, i, posn, args);
      ItemFits(s, i, posn, args);
    }
    if Acceptable(s, i, posn, args) {
      var item: Item :| Shaped(s, posn, item) && item.d.start == i && NumbersFit(s, item) && ArgumentsFit(item, args);
      ItemFound(s, posn, args, item);
    }
  }

  /** Whatever is parsed is in order, well formed, and every index leads to an argument of its type. */
  lemma ParsedWell(s: string)
    requires Terminated(s) && ItemsFrom(s, 0, 0, []).Some?
    ensures var items := ItemsFrom(s, 0, 0, []).value;
            && InOrder(s, 0, items)
            && AllShaped(s, 0, items)
            && forall k :: 0 <= k < |items| ==> Typed(items[k], FinalArgs([], items))
  {
    hide ItemsFrom, InOrder, AllShaped, Typed, FinalArgs;
    ParsedInOrder(s, 0, 0, []);
    ParsedShaped(s, 0, 0, []);
    ParsedTyped(s, 0, 0, []);
  }
}
